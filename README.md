# eXist journal, reentrant broker pool and client helpers in Dafny

This project models three parts of the eXist XML database and proves properties of the models:

- **The journal manager** (`LogManager`). It keeps an append buffer in front of the current journal file. Each record is framed as `[type:1][transactionId:8][length:2][data][backLink:2]` and gets a log sequence number (LSN): the file number and the position of the record, plus one. Flushing moves the buffer into the file, asks the sync thread for a sync and asks the broker pool for a checkpoint once the file reaches its size limit. A checkpoint writes a checkpoint record, forces a sync and may rotate to a new journal file. `findLastFile` and `getFileName` translate between file numbers and the names `<10 hex digits>.log`.
- **The reentrant object pool** (`ReentrantGenericObjectPool`). It lends every borrow in a thread the same object and counts those borrows. The object goes back to the underlying commons-pool `GenericObjectPool` only when the thread has returned it as often as it borrowed it.
- **Helpers of the interactive command-line client** (`InteractiveClient`):
  - the two `formatString` column formatters;
  - the path rule of `cd`;
  - the window of results that `show` displays and the `nextInSet` field it moves.

Each part has a pure specification made of datatypes and functions, plus an imperative implementation. The implementations are the class `Journal.LogManager` over an `array<byte>` buffer, the classes `ObjectPool.BackingPool` and `ObjectPool.ReentrantGenericObjectPool`, and the client's loops and class `Client.InteractiveClient`. Each method is proved to move its abstract state, and to return its result, exactly as the specification function says. The properties are lemmas about those functions.

Module layout:

| file | module | contents |
|---|---|---|
| `wrappers.dfy` | `Wrappers` | `Option`, `Result`, `Outcome` |
| `log_format.dfy` | `LogFormat` | the constants, Java `int` wrap-around, LSN order, big-endian encoding, record framing, a backward record decoder, hex numbers, journal file names |
| `journal.dfy` | `Journal` | the journal state and its step functions (`Flushed`, `Appended`, `Switched`, `Checkpointed`), `findLastFile`, the class `LogManager` |
| `object_pool.dfy` | `ObjectPool` | the underlying pool, the reentrant layer, the test scenario, both classes |
| `client.dfy` | `Client` | `formatString` (both forms), `cd`, `show` |

Several behaviours outside the program are parameters of the model:

- the directory of journal files is a `map<string, seq<byte>>`;
- whether opening a new journal file fails is the flag `openFails`;
- the calling thread is a `ThreadId`;
- the collections the database has are a `set<string>`;
- the size of a query result is an `Option<nat>` (`None` when there is no result);
- `show`'s parsed arguments are an `Arg`.

A Java runtime exception becomes an error value: `None`, `Failure` or `Fail`.

The Javadoc of `checkpoint` (LogManager.java:240-243) says that a checkpoint which switches files removes the old log. The code deletes the file of the old number at lines 260-261 whether or not `switchFiles` succeeded: a `LogException` from it is caught and logged at lines 255-259, and the deletion follows regardless. So when the new file cannot be opened, the old journal is deleted while no new one exists. `Journal.Checkpointed` follows the code, and `Journal.CheckpointEffect` states it.

## Model

| member | source | states |
|---|---|---|
| LogFormat.LsnAfterIsStrictOrder | src/org/exist/storage/log/LogManager.java:183-228 | The order of LSNs (file number first, then offset; the invalid LSN below all) is irreflexive, asymmetric, transitive and total. |
| LogFormat.LsnAfter | src/org/exist/storage/log/LogManager.java:228 | The comparison `currentLsn > lastSyncLsn`: the file number dominates the offset, and the invalid LSN is below every valid one and after none. The packing of an LSN into a `long` is not part of this model. |
| LogFormat.Int32 | src/org/exist/storage/log/LogManager.java:284 | The value a Java `int` holds after an arithmetic result wraps around: always within the `int` range, the exact value whenever that fits, and congruent to it modulo 2^32. It models `++currentFile` here, and the same wrap in the size-limit product at 167 and the offset cast at 183. |
| LogFormat.Short | src/org/exist/storage/log/LogManager.java:186-188 | `putShort((short) v)` writes exactly two bytes. |
| LogFormat.Long | src/org/exist/storage/log/LogManager.java:185 | `putLong` writes exactly eight bytes. |
| LogFormat.Frame | src/org/exist/storage/log/LogManager.java:184-188 | A framed record takes its data length plus `LOG_ENTRY_BASE_LEN` (13) bytes. |
| LogFormat.Frames | src/org/exist/storage/log/LogManager.java:176-193 | A run of records takes at least 13 bytes per record, and no bytes exactly when there are no records. |
| LogFormat.LastRecord | src/org/exist/storage/log/LogManager.java:188 | Following the back-link written at the end of each frame leads to a record start at least 13 bytes before the end of the journal. |
| LogFormat.Records | src/org/exist/storage/log/LogManager.java:184-188 | The backward scan of an empty journal finds no records, and any successful scan finds at most one record per 13 bytes. |
| LogFormat.BigEndianRoundTrip | src/org/exist/storage/log/LogManager.java:185-188 | Reading back `k` big-endian bytes gives the value modulo 256^k. |
| LogFormat.ShortRoundTrip | src/org/exist/storage/log/LogManager.java:186-188 | A `putShort` of a `(short)` cast reads back as the value modulo 2^16, and as the value itself below 2^16. |
| LogFormat.LongBytes | src/org/exist/storage/log/LogManager.java:185 | The eight bytes of `putLong` spell the value modulo 2^64. |
| LogFormat.LongRoundTrip | src/org/exist/storage/log/LogManager.java:185 | Every 64-bit transaction id reads back, signed, as itself. |
| LogFormat.FrameFields | src/org/exist/storage/log/LogManager.java:184-188 | With the header length 11 and base length 13 (lines 75-78), a frame holds the type at 0, the transaction id at 1..9, the data length at 9..11, the data, and then the back-link `length + 11`. |
| LogFormat.BackLinkOfFrame | src/org/exist/storage/log/LogManager.java:188 | The last two bytes after a frame read back as the record's header plus data length. |
| LogFormat.HeaderOfFrame | src/org/exist/storage/log/LogManager.java:184-188 | The header read at the frame's start gives back the length and the whole record. |
| LogFormat.LastRecordOfFrame | src/org/exist/storage/log/LogManager.java:184-188 | From the end of any journal that ends in a frame, the back-link leads to the record's start, and the record decodes to the one written. |
| LogFormat.RecordsOfFrame | src/org/exist/storage/log/LogManager.java:184-189 | Appending a frame to a decodable journal appends its record to the backward scan's result. |
| LogFormat.RecordsOfFrames | src/org/exist/storage/log/LogManager.java:176-193 | A stream of frames scans back to exactly its records, in order. |
| LogFormat.HexDigit | src/org/exist/storage/log/LogManager.java:387 | Each digit `Integer.toHexString` writes is lower-case and parses back to its value. |
| LogFormat.ToHex | src/org/exist/storage/log/LogManager.java:387 | `toHexString` writes at least one lower-case hex digit. |
| LogFormat.DigitsOfToHex | src/org/exist/storage/log/LogManager.java:386-390 | Parsing the hex digits of `n` gives `n`. |
| LogFormat.DigitsOfZerosThen | src/org/exist/storage/log/LogManager.java:386-390 | Leading zeros do not change the parsed value. |
| LogFormat.ToHexLength | src/org/exist/storage/log/LogManager.java:387-388 | A number below 16^k has at most `k` hex digits, so an `int`'s 8 digits fit the 10-character pad. |
| LogFormat.ParseHexInt | src/org/exist/storage/log/LogManager.java:332 | `Integer.parseInt(s, 16)`: the empty string, a lone sign, a non-hex character and a value outside the `int` range are errors. Otherwise the result is the value of the digits, negated after a leading '-'. |
| LogFormat.ParseHexIntOfToHex | src/org/exist/storage/log/LogManager.java:387 | `Integer.parseInt(..., 16)` reads back the digits `toHexString` writes, with or without a minus sign, exactly for the values an `int` holds. |
| LogFormat.IndexOf | src/org/exist/storage/log/LogManager.java:330 | `indexOf('.')` is -1 exactly when there is no '.', and otherwise the first '.'. |
| LogFormat.FileNumberOf | src/org/exist/storage/log/LogManager.java:330-332 | The number `findLastFile` reads from a name, from the characters before the first '.', always fits an `int`. |
| LogFormat.FileName | src/org/exist/storage/log/LogManager.java:386-390 | `getFileName` returns 14 characters: ten lower-case hex digits, then ".log". |
| LogFormat.FileNameShape | src/org/exist/storage/log/LogManager.java:386-390 | A journal name is 14 characters: ten lower-case hex digits spelling the unsigned file number, then ".log". |
| LogFormat.FileNameInjective | src/org/exist/storage/log/LogManager.java:386-390 | Different file numbers get different names. |
| LogFormat.FileNumberOfFileName | src/org/exist/storage/log/LogManager.java:326-340 | `findLastFile`'s parse of a name gives back the non-negative number `getFileName` wrote into it. |
| LogFormat.IsLogFileName | src/org/exist/storage/log/LogManager.java:349 | The `getFiles` filter `name.endsWith("log")` accepts exactly the names that are some prefix followed by "log". |
| LogFormat.FileNameFilter | src/org/exist/storage/log/LogManager.java:346-353 | The `getFiles` filter accepts every journal name and rejects its ".bak" copy. |
| LogFormat.FileNameOneDigit | src/org/exist/storage/log/LogManager.java:386-390 | A file number below 16 is named by nine zeros, its one lower-case hex digit, then ".log". |
| LogFormat.FileNameTwoDigits | src/org/exist/storage/log/LogManager.java:386-390 | A file number from 16 to 255 is named by eight zeros, its two lower-case hex digits, then ".log". |
| LogFormat.FileNameExamples | src/org/exist/storage/log/LogManager.java:386-390 | Concrete names: 0, 1, 10 and 255 give "0000000000.log", "0000000001.log", "000000000a.log" and "00000000ff.log". |
| Journal.SizeLimit | src/org/exist/storage/log/LogManager.java:165-167 | The journal size limit defaults to 10 MiB; a configured `n` MB with `0 <= n < 2048` gives `n * 2^20` bytes. |
| Journal.FlushInRecovery | src/org/exist/storage/log/LogManager.java:215-216 | During recovery a flush changes nothing. |
| Journal.SyncWanted | src/org/exist/storage/log/LogManager.java:228 | A flush requests a sync whenever it is forced. Unforced, it never does without both `fsync` and sync-on-commit, and never again at the LSN already synced. |
| Journal.Flushed | src/org/exist/storage/log/LogManager.java:214-238 | `flushToLog(fsync, forceSync)` keeps the file number, the channel and the current LSN. Outside recovery it empties the buffer, and a forced flush sets `lastSyncLsn` to the current LSN. |
| Journal.FlushMovesBuffer | src/org/exist/storage/log/LogManager.java:214-238 | A flush appends the buffer to the current file and empties it, leaving the stream unchanged. It requests a sync exactly when forced, or when `fsync`, sync-on-commit and an unsynced LSN all hold, and moves `lastSyncLsn` then. It requests a checkpoint exactly when the file has reached the limit. |
| Journal.FlushStream | src/org/exist/storage/log/LogManager.java:219-223 | After a flush, the current file holds what the stream held and the buffer is empty. |
| Journal.AppendFrames | src/org/exist/storage/log/LogManager.java:176-193 | `writeToLog` appends exactly the record's frame and assigns the LSN (current file, stream length + 1). It flushes first exactly when the frame does not fit the free space, and otherwise leaves the files alone. |
| Journal.AppendStream | src/org/exist/storage/log/LogManager.java:176-193 | `writeToLog` keeps the channel and extends the stream by the frame. |
| Journal.MustFlush | src/org/exist/storage/log/LogManager.java:180 | When `writeToLog` does not flush first, the frame fits the free space of the buffer; a record that fits the buffer never forces a flush of an empty one. |
| Journal.Appended | src/org/exist/storage/log/LogManager.java:176-193 | `writeToLog` outside recovery keeps the file number, the channel and the recovery flag, and leaves a journal that can take the next write. |
| Journal.AppendedAll | src/org/exist/storage/log/LogManager.java:176-193 | A run of writes keeps the file number and the channel, and the journal stays writable and out of recovery. |
| Journal.AppendedAllLast | src/org/exist/storage/log/LogManager.java:176-193 | The last write of a run appends its frame to the stream written by the writes before it. |
| Journal.ConsecutiveLsns | src/org/exist/storage/log/LogManager.java:183 | Two writes in a row get strictly increasing LSNs, `|data| + 13` apart. |
| Journal.AppendedAllStream | src/org/exist/storage/log/LogManager.java:176-193 | A run of writes appends the frames of its records, in order. |
| Journal.FlushedRecordsRecoverable | src/org/exist/storage/log/LogManager.java:176-193 | Records written to a fresh file and then flushed scan back from the file, through the back-links, as exactly those records. |
| Journal.SwitchAdvances | src/org/exist/storage/log/LogManager.java:283-308 | `switchFiles` increments the file number with `int` wrap-around and moves an existing file of the new name to ".bak". On a successful open it makes an empty file of the new name current; on failure no channel stays open. Every other file, an existing ".bak" of the new name included when no file has that name, keeps its contents. The buffer, both LSNs, the recovery flag, the sync mode and the size limit are unchanged. |
| Journal.Switched | src/org/exist/storage/log/LogManager.java:283-308 | `switchFiles` increments the file number with `int` wrap-around. A channel is open afterwards exactly when the open succeeds. The buffer and both LSNs are unchanged. |
| Journal.LsnAcrossRotation | src/org/exist/storage/log/LogManager.java:249-266 | After a checkpoint that rotates to a newly opened file, the journal is still writable and the next record's LSN (taken at line 183) is after the checkpoint's. The premise that the file number is below the largest `int` is needed: `++currentFile` at line 284 wraps there, and the new file's LSNs would then sort before the old ones. |
| Journal.CheckpointEffect | src/org/exist/storage/log/LogManager.java:249-266 | A checkpoint syncs at its own record's LSN. It rotates exactly when asked to and the file exceeds 1 MiB, and a rotation deletes the old file even if opening the new one failed. Without a rotation, the record ends the current file. |
| Journal.Checkpointed | src/org/exist/storage/log/LogManager.java:249-266 | After a checkpoint the buffer is empty, and `lastSyncLsn` is the LSN of the checkpoint record itself. |
| Journal.Rotated | src/org/exist/storage/log/LogManager.java:253-262 | The rotation advances the file number, and the file of the old number no longer exists, whatever the switch did. The buffer and both LSNs are unchanged. |
| Journal.LastFileIsMax | src/org/exist/storage/log/LogManager.java:326-340 | `findLastFile` succeeds exactly when every name parses. Its result bounds every number and is one of them, or -1. |
| Journal.LastFileNumber | src/org/exist/storage/log/LogManager.java:326-339 | A successful `findLastFile` returns an `int` of at least -1, and the last name in the listing parses to a number no larger than it. |
| Journal.NextFileIsNew | src/org/exist/storage/log/LogManager.java:283-285 | A file number above all existing ones names no existing file. |
| Journal.LastFileOfNumbers | src/org/exist/storage/log/LogManager.java:326-340 | Over names with known non-negative numbers, the result is their maximum, or -1 for none. |
| Journal.LastFileOfFileNames | src/org/exist/storage/log/LogManager.java:326-340 | Over journal names, the result is the largest number, and the file after it collides with no existing name. |
| Journal.LastFileUnordered | src/org/exist/storage/log/LogManager.java:326-340 | The highest number wins wherever the listing puts it. |
| Journal.FindLastFile | src/org/exist/storage/log/LogManager.java:326-340 | The running-maximum loop computes `LastFileNumber`. |
| Journal.LastFileNoneExtends | src/org/exist/storage/log/LogManager.java:328-331 | Once one name fails to parse, the whole call fails. |
| Journal.LogManager.constructor | src/org/exist/storage/log/LogManager.java:125-166 | The journal starts with an empty 256 KiB buffer, file number 0, no channel and invalid LSNs. |
| Journal.LogManager.Put | src/org/exist/storage/log/LogManager.java:184-189 | `ByteBuffer.put` advances the position by the number of bytes, and the buffer's written prefix grows by exactly those bytes. |
| Journal.LogManager.PutHeader | src/org/exist/storage/log/LogManager.java:184-187 | The three header `put` calls append the type byte, the eight-byte transaction id and the two-byte data length, in that order. |
| Journal.LogManager.PutFrame | src/org/exist/storage/log/LogManager.java:184-189 | The buffer's written prefix grows by exactly the record's frame. |
| Journal.LogManager.WriteToLog | src/org/exist/storage/log/LogManager.java:176-193 | In recovery the write is an error with no change; otherwise the state becomes `Appended` and the result is the record's LSN. |
| Journal.LogManager.FlushToLogUnforced | src/org/exist/storage/log/LogManager.java:202-204 | `flushToLog(fsync)` is `Flushed` without forcing. |
| Journal.LogManager.FlushToLog | src/org/exist/storage/log/LogManager.java:214-238 | The state becomes `Flushed`. |
| Journal.LogManager.Checkpoint | src/org/exist/storage/log/LogManager.java:249-266 | The state becomes `Checkpointed`; in recovery it is the write error with no change. |
| Journal.LogManager.RotateFiles | src/org/exist/storage/log/LogManager.java:253-262 | Switch files, then delete the file of the old number. |
| Journal.LogManager.SetCurrentFileNum | src/org/exist/storage/log/LogManager.java:273-275 | Only the file number changes. |
| Journal.LogManager.SetInRecovery | src/org/exist/storage/log/LogManager.java:376-378 | Only the recovery flag changes. |
| Journal.LogManager.SwitchFiles | src/org/exist/storage/log/LogManager.java:283-308 | The state becomes `Switched`; the result is the open error exactly when the open fails. |
| ObjectPool.Empty | src/org/exist/storage/pool/ReentrantGenericObjectPool.java:34-36 | A new pool satisfies the invariant. |
| ObjectPool.Take | src/org/exist/storage/pool/ReentrantGenericObjectPool.java:42 | The underlying `borrowObject` makes the returned object active and counts one more borrow. Under the pool invariant the object was not active before, and the invariant is kept. |
| ObjectPool.Give | src/org/exist/storage/pool/ReentrantGenericObjectPool.java:59 | The underlying `returnObject` succeeds exactly for an active object, which is then no longer active; it counts one more return on success. The pool invariant is kept. |
| ObjectPool.Destroy | src/org/exist/storage/pool/ReentrantGenericObjectPool.java:68 | The underlying `invalidateObject` succeeds exactly for an active or idle object of the pool. On success only that object leaves the active set, and the idle deque becomes `Without(idle, obj)`, which holds every other idle object; on failure nothing changes. The counters are untouched, and the pool invariant is kept. |
| ObjectPool.Borrowed | src/org/exist/storage/pool/ReentrantGenericObjectPool.java:39-47 | After `borrowObject` the calling thread's slot holds the returned object, and every other thread's slot is unchanged. |
| ObjectPool.Returned | src/org/exist/storage/pool/ReentrantGenericObjectPool.java:50-63 | `returnObject` succeeds only for the object in the calling thread's slot, and no other thread's slot changes. |
| ObjectPool.Invalidated | src/org/exist/storage/pool/ReentrantGenericObjectPool.java:66-72 | `invalidateObject` always clears the caller's slot and no other. It succeeds exactly for an active or idle object of the underlying pool. |
| ObjectPool.FirstBorrow | src/org/exist/storage/pool/ReentrantGenericObjectPool.java:39-47 | A thread's first borrow takes the first idle object, or a new one. The object becomes active, is recorded with count 1, and the active count rises by one. |
| ObjectPool.Reborrow | src/org/exist/storage/pool/ReentrantGenericObjectPool.java:40-46 | A later borrow returns the same object and only increments its count. |
| ObjectPool.BorrowKeepsInv | src/org/exist/storage/pool/ReentrantGenericObjectPool.java:39-47 | Borrowing keeps counts positive, held objects out of the idle deque and objects unshared between threads. |
| ObjectPool.ReturnByHolder | src/org/exist/storage/pool/ReentrantGenericObjectPool.java:57-62 | A return decrements the count. At 0 it clears the slot and gives the object back: the object leaves the active set and goes to the idle front unless `maxIdle` objects are idle. |
| ObjectPool.ReturnErrors | src/org/exist/storage/pool/ReentrantGenericObjectPool.java:51-56 | A null return fails and changes nothing. A return from the wrong thread fails and clears only that thread's slot. |
| ObjectPool.ReturnKeepsInv | src/org/exist/storage/pool/ReentrantGenericObjectPool.java:50-63 | Returning preserves the invariant. |
| ObjectPool.BorrowReturnRestores | src/org/exist/storage/pool/ReentrantGenericObjectPool.java:39-63 | A fresh thread's borrow and return restores the slots and the active set. |
| ObjectPool.ReborrowReturnRestores | src/org/exist/storage/pool/ReentrantGenericObjectPool.java:39-63 | A nested borrow and return changes nothing at all. |
| ObjectPool.InvalidateEffect | src/org/exist/storage/pool/ReentrantGenericObjectPool.java:66-72 | `invalidateObject` always clears the caller's slot. It succeeds exactly for an object of the pool, which is then neither active nor idle while every other active and idle object stays; on failure the underlying pool is unchanged. `getNumActive()` drops by one exactly when the object was lent out. |
| ObjectPool.InvalidateKeepsInv | src/org/exist/storage/pool/ReentrantGenericObjectPool.java:66-72 | Invalidating preserves the invariant. |
| ObjectPool.ForeignInvalidate | src/org/exist/storage/pool/ReentrantGenericObjectPool.java:66-72 | After another thread invalidates a held object, the holder still borrows the destroyed object. |
| ObjectPool.ScenarioBorrows | test/src/org/exist/storage/pool/DBBrokerPoolTest.java:36-51 | Main borrows twice (the same broker, 1 active), then a second thread borrows (2 active). Exactly these two threads then hold objects, main with count 2. |
| ObjectPool.ReentrantScenario | test/src/org/exist/storage/pool/DBBrokerPoolTest.java:36-69 | The test's active counts 1, 1, 2, 2, 2, 1, with both of main's returns succeeding. |
| ObjectPool.ScenarioReturns | test/src/org/exist/storage/pool/DBBrokerPoolTest.java:53-69 | A third thread's borrow and return leaves the active count unchanged. Then main's first return only lowers its count, and its second return gives the broker back, lowering the active count by one. |
| ObjectPool.ReturnedCountMismatch | src/org/exist/storage/pool/ReentrantGenericObjectPool.java:181-184 | As written, `getReturnedCount` reports 1 after a single borrow and no return. |
| ObjectPool.ReturnedCountAsWritten | src/org/exist/storage/pool/ReentrantGenericObjectPool.java:181-184 | As written, `getReturnedCount` reports the underlying pool's borrowed count (see Findings). |
| ObjectPool.ReturnedCountCounts | src/org/exist/storage/pool/ReentrantGenericObjectPool.java:181-184 | The returned count is unchanged by a borrow and rises by one on a last return. |
| ObjectPool.BackingPool.constructor | src/org/exist/storage/pool/ReentrantGenericObjectPool.java:34-36 | An empty underlying pool. |
| ObjectPool.BackingPool.BorrowObject | src/org/exist/storage/pool/ReentrantGenericObjectPool.java:42 | The pool's state and result become `Take`. |
| ObjectPool.BackingPool.ReturnObject | src/org/exist/storage/pool/ReentrantGenericObjectPool.java:59 | The pool's state and result become `Give`. |
| ObjectPool.BackingPool.InvalidateObject | src/org/exist/storage/pool/ReentrantGenericObjectPool.java:68 | The pool's state and result become `Destroy`. |
| ObjectPool.BackingPool.NumActive | src/org/exist/storage/pool/ReentrantGenericObjectPool.java:86 | The number of active objects. |
| ObjectPool.ReentrantGenericObjectPool.constructor | src/org/exist/storage/pool/ReentrantGenericObjectPool.java:34-36 | The state is `Empty`. |
| ObjectPool.ReentrantGenericObjectPool.AddToCount | src/org/exist/storage/pool/ReentrantGenericObjectPool.java:278-284 | The holder's count changes by `delta`; the result is the new count; no other slot changes. |
| ObjectPool.ReentrantGenericObjectPool.BorrowObject | src/org/exist/storage/pool/ReentrantGenericObjectPool.java:39-47 | The state and result become `Borrowed`, keeping the invariant. |
| ObjectPool.ReentrantGenericObjectPool.ReturnObject | src/org/exist/storage/pool/ReentrantGenericObjectPool.java:50-63 | The state and result become `Returned`, keeping the invariant. |
| ObjectPool.ReentrantGenericObjectPool.InvalidateObject | src/org/exist/storage/pool/ReentrantGenericObjectPool.java:66-72 | The state and result become `Invalidated`, keeping the invariant. |
| ObjectPool.ReentrantGenericObjectPool.NumActive | src/org/exist/storage/pool/ReentrantGenericObjectPool.java:84-87 | `getNumActive` is the abstract active count. |
| ObjectPool.ReentrantGenericObjectPool.BorrowedCount | src/org/exist/storage/pool/ReentrantGenericObjectPool.java:176-179 | The underlying pool's borrowed count. |
| ObjectPool.ReentrantGenericObjectPool.ReturnedCountOf | src/org/exist/storage/pool/ReentrantGenericObjectPool.java:181-184 | The underlying pool's returned count (corrected; see Findings). |
| Client.Padded | src/org/exist/client/InteractiveClient.java:2018-2028 | `formatString(s1, s2, width)` fails exactly when `width < 0`, or when `width == 0` and `s1` is not empty. |
| Client.FormatString | src/org/exist/client/InteractiveClient.java:2018-2028 | The buffer loop computes `Padded`. |
| Client.PaddedFits | src/org/exist/client/InteractiveClient.java:2018-2028 | When both strings fit, the field is exactly `width` long: `s1` on the left, `s2` on the right, spaces between. |
| Client.PaddedTruncates | src/org/exist/client/InteractiveClient.java:2020-2026 | A too-long `s1` keeps its first `width - 1` characters, and `s2` still ends the result. |
| Client.PaddedEndsWith | src/org/exist/client/InteractiveClient.java:2018-2028 | Every result is at least `width` long and ends with `s2`. |
| Client.Formatted | src/org/exist/client/InteractiveClient.java:2030-2043 | The row is defined exactly when there are at least as many sizes as arguments. |
| Client.ColumnFixed | src/org/exist/client/InteractiveClient.java:2033-2040 | A column of size >= 0 is exactly that wide: the argument's first `min(size, len)` characters, then spaces. |
| Client.ColumnFree | src/org/exist/client/InteractiveClient.java:2033-2040 | A column of negative size is the argument unchanged. |
| Client.Column | src/org/exist/client/InteractiveClient.java:2033-2040 | A column of size >= 0 is exactly `size` characters wide, and a column of negative size is the argument unchanged. |
| Client.Row | src/org/exist/client/InteractiveClient.java:2030-2043 | When every size is fixed, the row is exactly as wide as the sizes add up to. |
| Client.AppendColumn | src/org/exist/client/InteractiveClient.java:2033-2040 | The two inner loops append exactly one `Column`. |
| Client.FormatColumns | src/org/exist/client/InteractiveClient.java:2030-2043 | The nested loops compute `Formatted`. |
| Client.RowPrefix | src/org/exist/client/InteractiveClient.java:2032-2041 | The columns come in argument order: the row of a prefix of the arguments is a prefix of the row. |
| Client.CollectionLine | src/org/exist/client/InteractiveClient.java:2030-2043 | With `colSizes {10,10,10,-1}` (line 278) and the 'd' prefix (line 409), a collection line is 'd', three 10-character columns and then the name, `31 + len(name)` long. |
| Client.LastIndexOf | src/org/exist/client/InteractiveClient.java:542 | `lastIndexOf("/")` is the last '/', or -1. |
| Client.CdTarget | src/org/exist/client/InteractiveClient.java:538-548 | The path rule of `cd` fails exactly for `..` from a path other than "/db" that holds no '/'. |
| Client.CdStaysRooted | src/org/exist/client/InteractiveClient.java:530-548 | From a path starting with '/', `cd` never throws, and its target starts with '/'. |
| Client.CdUp | src/org/exist/client/InteractiveClient.java:538-544 | `cd ..` gives the part of the path before its last '/', or "/db" when that part is empty. |
| Client.CdChildThenUp | src/org/exist/client/InteractiveClient.java:538-548 | `cd child` followed by `cd ..` returns to the starting path. |
| Client.ShowWindowBounds | src/org/exist/client/InteractiveClient.java:616-634 | The window starts at the requested item, within the result. It ends at the requested count or at the result's end, whichever is first, and `nextInSet` is one past it. |
| Client.ShowOutOfRange | src/org/exist/client/InteractiveClient.java:625-628 | `show` is refused exactly for starts outside `1..size`. |
| Client.ShowWindow | src/org/exist/client/InteractiveClient.java:616-634 | The corrected `show` reports no result set exactly when there is none, and a wrong argument exactly when one is malformed. A shown window starts inside the result and ends at most at its end, and it is non-empty for a count of at least 1. |
| Client.ShowAsWritten | src/org/exist/client/InteractiveClient.java:616-634 | `show` as written reports no result set and wrong arguments in exactly the same cases. A shown window starts inside the result and ends at most at its end, but its end may fall before its start. |
| Client.ShowContinues | src/org/exist/client/InteractiveClient.java:616-633 | A following `show` without arguments displays the next single item, or is out of range at the end. |
| Client.ShowOverflowSkipsWindow | src/org/exist/client/InteractiveClient.java:630-634 | As written, `show 2 2147483647` on 5 results displays nothing; the corrected window displays items 2 to 5. |
| Client.ShowAgrees | src/org/exist/client/InteractiveClient.java:616-634 | Whenever `start - 1 + count` fits an `int`, the as-written and the corrected windows are the same. |
| Client.ShowSteps | src/org/exist/client/InteractiveClient.java:616-633 | The argument checks, the range check, the clamp of the count and the new `nextInSet` compute exactly `ShowWindow` of the current `nextInSet`. |
| Client.Fetch | src/org/exist/client/InteractiveClient.java:634-640 | The display loop fetches exactly the window's items, in order. |
| Client.InteractiveClient.constructor | src/org/exist/client/InteractiveClient.java:285-287 | The client starts at the given path with `nextInSet == 1`. |
| Client.InteractiveClient.NewResultSet | src/org/exist/client/InteractiveClient.java:607 | A new query result resets `nextInSet` to 1. |
| Client.InteractiveClient.Cd | src/org/exist/client/InteractiveClient.java:525-563 | The path becomes the `cd` target exactly when the collection exists; a failing path rule is an error. |
| Client.InteractiveClient.Show | src/org/exist/client/InteractiveClient.java:609-650 | The outcome is `ShowWindow`. `nextInSet` moves whenever the start is in range, to one past the window's end, even for an empty window (a count of 0 or less). Exactly the window's items are fetched. |

## Left out

- Configuration and file I/O: the configuration lookups in the `LogManager` constructor and the journal directory's creation and permission checks are left out. The directory is a map of names to bytes.
- Concurrency: `FileSyncThread`, the `latch`, `synchronized` and the threads of the pool test are left out. A sync or checkpoint request is recorded as an `Event`, and the threads of the test run one after another.
- IO errors that are logged and swallowed are left out. These are a failed `channel.write`, a failed `channel.size()`, a failed close, and the `IOException` in `checkpoint`. A `.bak` rename is modelled as always succeeding.
- Journal.LogManager.WriteToLog: it requires the record's frame to fit the 256 KiB buffer and an open channel. Java would throw a buffer overflow exception on an oversized record. Without an open channel there are two cases. Before the first `switchFiles` the channel is null, and `channel.position()` at LogManager.java:183 throws a null-pointer exception. After a failed open in `switchFiles` (296-305), the field still holds the old channel, which `close()` (310-317) closed but did not null. Then `channel.position()` at 183 throws a `ClosedChannelException`, which becomes the `TransactionException("Failed to write to log")` of lines 190-191. Before that, a flush the full buffer forces logs the failed write and keeps the buffer, and with a sync wanted it still moves `lastSyncLsn` (228-231). The model leaves these paths out; `Switched` records the failed open as no channel.
- Journal.LogManager.WriteToLog: a write during recovery is an error without any change. What `SanityCheck.ASSERT` does is not part of this model.
- `Lsn`, `Loggable`, `Checkpoint` and `BrokerPool` are not part of this model. An LSN is an ordered pair (file, offset). A record is a datatype of type byte, 64-bit transaction id and payload bytes. `Checkpoint(txnId)` is a parameter record. `triggerCheckpoint` is an event.
- Recovery and redo: only the back-link decoder is modelled, to state the frame layout.
- `getFiles` and `getFile`: the directory listing is not modelled. Its name filter is `LogFormat.IsLogFileName`, and `getFile(n)` is `LogFormat.FileName(n)`.
- Journal.SizeLimit: the contract covers sizes up to 2047 MB. A larger configured size wraps around as a Java `int` in the body, and the contract does not state the wrapped value.
- LogFormat.ParseHexInt: `Integer.parseInt(s, 16)` is modelled, through the digit table `LogFormat.HexValue`, for ASCII hex digits and signs only, not for the other Unicode digits `Character.digit` accepts; those are errors here.
- LogFormat.FileNumberOf: it parses with `ParseHexInt`, so it has the same ASCII-only gap.
- Journal.LastFileNumber: it parses each name with `FileNumberOf`, so it has the same ASCII-only gap.
- `LogManager.shutdown` and `LogManager.close` are left out: they only stop a thread or close a channel.
- ObjectPool.ReentrantGenericObjectPool: the `ThreadLocal` is `static` in the source, so it is shared by all pool instances. The model keeps one slot map per pool.
- ObjectPool.ReentrantGenericObjectPool: a thread's `ReentrantObject` is a `Holder` value in a map field. Its reference count is updated by replacing the value, not in place through a shared reference.
- ObjectPool.ReentrantGenericObjectPool.AddToCount: the `AtomicLong` reference count is unbounded, so its 64-bit overflow is not modelled.
- ObjectPool.BackingPool: commons-pool's `maxTotal`, blocking when the pool is exhausted, factory failures, validation, eviction and abandoned-object tracking are left out. The pool factory (`DBBrokerFactory`, `Pool2`) is left out too.
- The delegating getters (`addObject`, `getNumIdle`, `clear`, `close`, `use`, and the JMX getters other than the borrowed, returned and active counts) are left out. They forward to the underlying pool unchanged.
- Client.InteractiveClient.Show: `Integer.parseInt` of the arguments is a parameter (`Arg`), with `Malformed` for a `NumberFormatException`. The result set is its size. The `(int)` cast of `getSize()` is modelled.
- Client.InteractiveClient.Show: it uses the corrected window; see Findings. `Client.ShowAsWritten` keeps the source's arithmetic.
- Client.ShowSteps: the clamp compares `start + count` without `int` wrap-around, the correction recorded under Findings; `Client.ShowAsWritten` keeps the source's arithmetic.
- Client.InteractiveClient.Cd: the XML:DB lookup of the collection is a parameter, the set of existing collection paths. The `uri` prefix, the GUI update, the completion list and the listing refresh are left out.
- Client.Padded: a string is a sequence of Unicode scalar values, not of UTF-16 code units, so the model agrees with Java's `length()` and `substring` only for text inside the Basic Multilingual Plane. A character outside it counts 1 here and 2 in Java, so Java truncates `s1` and pads at other points, and its `substring` can split a surrogate pair.
- Client.Column: the same difference in string length; for text outside the Basic Multilingual Plane Java's column is cut or padded at a different point.
- Client.CdTarget: the same difference in string length; `lastIndexOf` and `substring` positions differ from Java's for paths with characters outside the Basic Multilingual Plane, though the resulting path text is the same.
- The rest of `InteractiveClient` (other commands, Readline, GUI, uploads, queries, the password prompt) is left out.

## Findings

| source | as written | input that shows it | evidently intended | confidence | as-written member | corrected member |
|---|---|---|---|---|---|---|
| src/org/exist/storage/pool/ReentrantGenericObjectPool.java:181-184 | `getReturnedCount()` returns the underlying pool's borrowed count | one `borrowObject()` and no return: it reports 1 | the underlying pool's returned count | high; not executed | ObjectPool.ReturnedCountMismatch | ObjectPool.ReturnedCountCounts |
| src/org/exist/client/InteractiveClient.java:630-634 | `start + count` is `int` arithmetic, so a large count wraps the sum negative and skips the clamp to the result size | `show 2 2147483647` on a result of 5 items: nothing is displayed and `nextInSet` becomes -2147483647 | the window is clamped to the result: items 2 to 5, `nextInSet` 6 | medium; not executed | Client.ShowOverflowSkipsWindow | Client.ShowWindowBounds |
