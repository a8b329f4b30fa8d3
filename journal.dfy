/**
 * The journal manager (`LogManager`): an append buffer in front of the
 * current journal file, LSN assignment, flushing with sync requests and
 * checkpoint triggers, checkpoints and the rotation of journal files.
 *
 * `JournalState` and the functions `Flushed`, `Appended`, `Switched` and
 * `Checkpointed` are the specification; the class `LogManager` implements
 * them over an array buffer, and each of its methods is proved to move its
 * abstract state exactly as the matching function says.
 */
module Journal {
  import opened Wrappers
  import opened LogFormat

  /** What the journal asks of its collaborators: the sync thread and the broker pool. */
  datatype Event = SyncRequested(lsn: Lsn) | CheckpointRequested

  datatype LogError = WriteDuringRecovery | OpenFailed(name: string)

  /**
   * The journal directory maps file names to contents; `channel` names the
   * file the output channel appends to, if one is open; `buffer` holds the
   * bytes not yet written to it.
   */
  datatype JournalState = JournalState(
    syncOnCommit: bool,
    logSizeLimit: int,
    currentFile: int,
    files: map<string, seq<byte>>,
    channel: Option<string>,
    buffer: seq<byte>,
    currentLsn: Lsn,
    lastSyncLsn: Lsn,
    inRecovery: bool,
    events: seq<Event>)

  predicate WellFormed(s: JournalState) {
    && IsInt32(s.currentFile)
    && |s.buffer| <= BufferCapacity
    && (s.channel.Some? ==> s.channel.value in s.files)
  }

  /** A state in which records can be written: the channel is open. */
  predicate Writable(s: JournalState) {
    WellFormed(s) && s.channel.Some?
  }

  /** What the open channel has written so far. */
  function ChannelFile(s: JournalState): seq<byte>
    requires Writable(s)
  {
    s.files[s.channel.value]
  }

  /** The bytes of the current journal file once the buffer is flushed. */
  function Stream(s: JournalState): seq<byte>
    requires Writable(s)
  {
    ChannelFile(s) + s.buffer
  }

  /** The `logSizeLimit` the constructor computes from the configured size in megabytes. */
  function SizeLimit(sizeLimitMb: Option<int>): (limit: int)
    requires sizeLimitMb.Some? ==> IsInt32(sizeLimitMb.value)
    ensures sizeLimitMb.None? ==> limit == DefaultMaxLogSize
    ensures sizeLimitMb.Some? && 0 <= sizeLimitMb.value < 2048 ==> limit == sizeLimitMb.value * 0x10_0000
  {
    if sizeLimitMb.None? then DefaultMaxLogSize else Int32(sizeLimitMb.value * 1024 * 1024)
  }

  function Initial(syncOnCommit: bool, sizeLimitMb: Option<int>, directory: map<string, seq<byte>>): (s: JournalState)
    requires sizeLimitMb.Some? ==> IsInt32(sizeLimitMb.value)
    ensures WellFormed(s)
  {
    JournalState(syncOnCommit, SizeLimit(sizeLimitMb), 0, directory, None, [], LsnInvalid, LsnInvalid, false, [])
  }

  /** Whether `flushToLog(fsync, forceSync)` asks the sync thread for a sync. */
  predicate SyncWanted(s: JournalState, fsync: bool, forceSync: bool)
    ensures forceSync ==> SyncWanted(s, fsync, forceSync)
    ensures !forceSync && !(fsync && s.syncOnCommit) ==> !SyncWanted(s, fsync, forceSync)
    ensures !forceSync && s.currentLsn == s.lastSyncLsn ==> !SyncWanted(s, fsync, forceSync)
  {
    forceSync || (fsync && s.syncOnCommit && LsnAfter(s.currentLsn, s.lastSyncLsn))
  }

  /** `flushToLog(fsync, forceSync)`. */
  function Flushed(s: JournalState, fsync: bool, forceSync: bool): (t: JournalState)
    requires WellFormed(s) && (s.inRecovery || s.channel.Some?)
    ensures WellFormed(t)
    ensures t.currentFile == s.currentFile && t.channel == s.channel && t.currentLsn == s.currentLsn
    ensures !s.inRecovery ==> t.buffer == []
    ensures !s.inRecovery && forceSync ==> t.lastSyncLsn == s.currentLsn
  {
    if s.inRecovery then s
    else
      var name := s.channel.value;
      var written :=
        if |s.buffer| > 0 then s.(files := s.files[name := s.files[name] + s.buffer], buffer := [])
        else s;
      var synced :=
        if SyncWanted(s, fsync, forceSync)
        then written.(events := written.events + [SyncRequested(s.currentLsn)], lastSyncLsn := s.currentLsn)
        else written;
      if |synced.files[name]| >= s.logSizeLimit then synced.(events := synced.events + [CheckpointRequested])
      else synced
  }

  /** The records `writeToLog` accepts: their frame fits the buffer. */
  predicate Fits(r: Loggable) {
    |r.data| + LogEntryBaseLen <= BufferCapacity
  }

  /** Whether `writeToLog` flushes the buffer before framing the record. */
  predicate MustFlush(s: JournalState, r: Loggable)
    ensures !MustFlush(s, r) ==> |s.buffer| + |Frame(r)| <= BufferCapacity
    ensures Fits(r) && s.buffer == [] ==> !MustFlush(s, r)
  {
    |r.data| + LogEntryBaseLen > BufferCapacity - |s.buffer|
  }

  /** `writeToLog(r)` outside recovery. */
  function Appended(s: JournalState, r: Loggable): (t: JournalState)
    requires Writable(s) && !s.inRecovery && Fits(r)
    ensures Writable(t)
    ensures t.currentFile == s.currentFile && t.channel == s.channel && t.inRecovery == s.inRecovery
  {
    var s1 := if MustFlush(s, r) then Flushed(s, false, false) else s;
    s1.(currentLsn := Lsn(s1.currentFile, Int32(|ChannelFile(s1)| + |s1.buffer| + 1)),
        buffer := s1.buffer + Frame(r))
  }

  /** `switchFiles()`; `openFails` says whether opening the new file fails. */
  function Switched(s: JournalState, openFails: bool): (t: JournalState)
    requires WellFormed(s)
    ensures WellFormed(t)
    ensures t.currentFile == Int32(s.currentFile + 1)
    ensures t.channel.Some? <==> !openFails
    ensures t.buffer == s.buffer && t.currentLsn == s.currentLsn && t.lastSyncLsn == s.lastSyncLsn
  {
    var next := Int32(s.currentFile + 1);
    var name := FileName(next);
    var moved := if name in s.files then (s.files - {name})[name + BakFileSuffix := s.files[name]] else s.files;
    if openFails then s.(currentFile := next, files := moved, channel := None)
    else s.(currentFile := next, files := moved[name := []], channel := Some(name))
  }

  /** `checkpoint(txnId, switchLogFiles)`, where `cp` is the checkpoint record for `txnId`. */
  function Checkpointed(s: JournalState, cp: Loggable, switchLogFiles: bool, openFails: bool): (t: JournalState)
    requires Writable(s) && !s.inRecovery && Fits(cp)
    ensures WellFormed(t)
    ensures t.lastSyncLsn == Appended(s, cp).currentLsn && t.buffer == []
  {
    var s2 := Flushed(Appended(s, cp), true, true);
    if switchLogFiles && |ChannelFile(s2)| > MinLogReplace then Rotated(s2, openFails) else s2
  }

  /** The rotation in `checkpoint`: `switchFiles()`, then the file of the old number is deleted, whatever the switch did. */
  function Rotated(s: JournalState, openFails: bool): (t: JournalState)
    requires WellFormed(s)
    ensures WellFormed(t)
    ensures t.currentFile == Int32(s.currentFile + 1) && FileName(s.currentFile) !in t.files
    ensures t.buffer == s.buffer && t.currentLsn == s.currentLsn && t.lastSyncLsn == s.lastSyncLsn
  {
    var s3 := Switched(s, openFails);
    FileNameInjective(s.currentFile, s3.currentFile);
    s3.(files := s3.files - {FileName(s.currentFile)})
  }

  /** A sequence of `writeToLog` calls. */
  function AppendedAll(s: JournalState, recs: seq<Loggable>): (t: JournalState)
    requires Writable(s) && !s.inRecovery
    requires forall i :: 0 <= i < |recs| ==> Fits(recs[i])
    ensures Writable(t) && !t.inRecovery
    ensures t.currentFile == s.currentFile && t.channel == s.channel
    decreases |recs|
  {
    if recs == [] then s else Appended(AppendedAll(s, recs[..|recs| - 1]), recs[|recs| - 1])
  }

  // ---------------------------------------------------------------------
  // Properties of the specification

  /** While recovery runs, a flush changes nothing. */
  lemma FlushInRecovery(s: JournalState, fsync: bool, forceSync: bool)
    requires WellFormed(s) && s.inRecovery
    ensures Flushed(s, fsync, forceSync) == s
  {
  }

  /**
   * A flush appends the buffer to the channel's file in order and empties it,
   * so the journal stream is unchanged; it requests a sync exactly when
   * `SyncWanted` holds, and a checkpoint exactly when the file has reached the size limit.
   */
  lemma FlushMovesBuffer(s: JournalState, fsync: bool, forceSync: bool)
    requires Writable(s) && !s.inRecovery
    ensures var t := Flushed(s, fsync, forceSync);
      && Writable(t) && t.channel == s.channel && t.currentFile == s.currentFile
      && t.files == s.files[s.channel.value := ChannelFile(s) + s.buffer]
      && t.buffer == []
      && Stream(t) == Stream(s)
      && t.currentLsn == s.currentLsn
      && t.lastSyncLsn == (if SyncWanted(s, fsync, forceSync) then s.currentLsn else s.lastSyncLsn)
      && t.events == s.events
                     + (if SyncWanted(s, fsync, forceSync) then [SyncRequested(s.currentLsn)] else [])
                     + (if |Stream(s)| >= s.logSizeLimit then [CheckpointRequested] else [])
  {
    if s.buffer == [] {
      assert ChannelFile(s) + s.buffer == ChannelFile(s);
      assert s.files[s.channel.value := ChannelFile(s)] == s.files;
    }
  }

  /** The part of `FlushMovesBuffer` that the lemmas below need. */
  lemma FlushStream(s: JournalState, fsync: bool, forceSync: bool)
    requires Writable(s) && !s.inRecovery
    ensures Flushed(s, fsync, forceSync).channel == s.channel
    ensures Flushed(s, fsync, forceSync).buffer == []
    ensures Writable(Flushed(s, fsync, forceSync)) && ChannelFile(Flushed(s, fsync, forceSync)) == Stream(s)
  {
    FlushMovesBuffer(s, fsync, forceSync);
  }

  /**
   * `writeToLog` appends exactly the record's frame to the journal stream and
   * assigns it the LSN of the position its header takes (plus one). It
   * flushes first exactly when the frame does not fit the free space of the
   * buffer; otherwise the directory is untouched.
   */
  lemma AppendFrames(s: JournalState, r: Loggable)
    requires Writable(s) && !s.inRecovery && Fits(r)
    ensures var t := Appended(s, r);
      && t.channel == s.channel && t.currentFile == s.currentFile
      && Stream(t) == Stream(s) + Frame(r)
      && t.currentLsn == Lsn(s.currentFile, Int32(|Stream(s)| + 1))
      && (MustFlush(s, r) ==> t.buffer == Frame(r) && ChannelFile(t) == Stream(s))
      && (!MustFlush(s, r) ==> t.buffer == s.buffer + Frame(r) && t.files == s.files && t.events == s.events)
  {
    if MustFlush(s, r) {
      FlushMovesBuffer(s, false, false);
    }
  }

  /** The part of `AppendFrames` that a run of writes needs. */
  lemma AppendStream(s: JournalState, r: Loggable)
    requires Writable(s) && !s.inRecovery && Fits(r)
    ensures Appended(s, r).channel == s.channel
    ensures Stream(Appended(s, r)) == Stream(s) + Frame(r)
  {
    AppendFrames(s, r);
  }

  /**
   * Two consecutive records in one file get strictly increasing LSNs whose
   * offsets differ by the framed size of the first, as long as the offset
   * does not overflow an int.
   */
  lemma ConsecutiveLsns(s: JournalState, r1: Loggable, r2: Loggable)
    requires Writable(s) && !s.inRecovery && Fits(r1) && Fits(r2)
    requires |Stream(s)| + |Frame(r1)| + 1 <= IntMax
    ensures var t1 := Appended(s, r1); var t2 := Appended(t1, r2);
      && t2.currentLsn.file == t1.currentLsn.file
      && t2.currentLsn.offset == t1.currentLsn.offset + |r1.data| + LogEntryBaseLen
      && LsnAfter(t2.currentLsn, t1.currentLsn)
  {
    var t1 := Appended(s, r1);
    AppendFrames(s, r1);
    AppendFrames(t1, r2);
  }

  /** The last write of a run appends its frame to the stream of the writes before it. */
  lemma AppendedAllLast(s: JournalState, recs: seq<Loggable>)
    requires Writable(s) && !s.inRecovery && recs != []
    requires forall i :: 0 <= i < |recs| ==> Fits(recs[i])
    ensures Stream(AppendedAll(s, recs)) == Stream(AppendedAll(s, recs[..|recs| - 1])) + Frame(recs[|recs| - 1])
  {
    AppendStream(AppendedAll(s, recs[..|recs| - 1]), recs[|recs| - 1]);
  }

  /** A run of `writeToLog` calls appends the frames of the records, in order, to the journal stream. */
  lemma {:induction false} AppendedAllStream(s: JournalState, recs: seq<Loggable>)
    requires Writable(s) && !s.inRecovery
    requires forall i :: 0 <= i < |recs| ==> Fits(recs[i])
    ensures AppendedAll(s, recs).channel == s.channel
    ensures Stream(AppendedAll(s, recs)) == Stream(s) + Frames(recs)
    decreases |recs|
  {
    if recs != [] {
      var init, last := recs[..|recs| - 1], recs[|recs| - 1];
      calc {
        Stream(AppendedAll(s, recs));
      == { AppendedAllLast(s, recs); }
        Stream(AppendedAll(s, init)) + Frame(last);
      == { AppendedAllStream(s, init); }
        (Stream(s) + Frames(init)) + Frame(last);
      ==
        Stream(s) + (Frames(init) + Frame(last));
      }
    }
  }

  /**
   * Records written into a fresh journal file and then flushed are all in
   * the file, in order, none split: a backward scan of the file through the
   * back-links returns exactly them.
   */
  lemma FlushedRecordsRecoverable(s: JournalState, recs: seq<Loggable>, fsync: bool, forceSync: bool)
    requires Writable(s) && !s.inRecovery && Stream(s) == []
    requires forall i :: 0 <= i < |recs| ==> Fits(recs[i]) && Readable(recs[i])
    ensures var t := Flushed(AppendedAll(s, recs), fsync, forceSync);
      Writable(t) && t.channel == s.channel && Records(ChannelFile(t)) == Some(recs)
  {
    var a := AppendedAll(s, recs);
    AppendedAllStream(s, recs);
    FlushStream(a, fsync, forceSync);
    assert Stream(a) == Frames(recs);
    RecordsOfFrames(recs);
  }

  /**
   * `switchFiles` advances the file number by one, moves a file already
   * carrying the new name aside to name + ".bak", and, when the open
   * succeeds, makes an empty file of that name current. Nothing else changes.
   */
  lemma SwitchAdvances(s: JournalState, openFails: bool)
    requires WellFormed(s)
    ensures var t := Switched(s, openFails); var name := FileName(t.currentFile);
      && t.currentFile == Int32(s.currentFile + 1)
      && (0 <= s.currentFile < IntMax ==> t.currentFile == s.currentFile + 1)
      && (name in s.files ==> name + BakFileSuffix in t.files && t.files[name + BakFileSuffix] == s.files[name])
      && (openFails ==> t.channel == None && name !in t.files)
      && (!openFails ==> t.channel == Some(name) && t.files[name] == [])
      && (name !in s.files && name + BakFileSuffix in s.files ==> name + BakFileSuffix in t.files && t.files[name + BakFileSuffix] == s.files[name + BakFileSuffix])
      && (forall f :: f in s.files && f != name && f != name + BakFileSuffix ==> f in t.files && t.files[f] == s.files[f])
      && t.buffer == s.buffer && t.currentLsn == s.currentLsn && t.lastSyncLsn == s.lastSyncLsn && t.events == s.events
      && t.inRecovery == s.inRecovery && t.syncOnCommit == s.syncOnCommit && t.logSizeLimit == s.logSizeLimit
  {
  }

  /**
   * A checkpoint always requests a sync at the LSN of its own record. It
   * rotates exactly when `switchLogFiles` holds and the flushed file is
   * larger than 1 MiB; a rotation deletes the file named by the old file
   * number even when opening the new file failed. Without a rotation the
   * directory keeps its names and the record is in the current file.
   */
  lemma CheckpointEffect(s: JournalState, cp: Loggable, switchLogFiles: bool, openFails: bool)
    requires Writable(s) && !s.inRecovery && Fits(cp)
    ensures var t := Checkpointed(s, cp, switchLogFiles, openFails);
      var cpLsn := Lsn(s.currentFile, Int32(|Stream(s)| + 1));
      var rotates := switchLogFiles && |Stream(s)| + |Frame(cp)| > MinLogReplace;
      && t.currentLsn == cpLsn && t.lastSyncLsn == cpLsn
      && SyncRequested(cpLsn) in t.events
      && t.buffer == []
      && (rotates ==> t.currentFile == Int32(s.currentFile + 1) && FileName(s.currentFile) !in t.files)
      && (rotates && !openFails ==> t.channel == Some(FileName(t.currentFile)) && t.files[FileName(t.currentFile)] == [])
      && (rotates && openFails ==> t.channel == None)
      && (!rotates ==> t.currentFile == s.currentFile && t.channel == s.channel
                       && t.files.Keys == s.files.Keys && ChannelFile(t) == Stream(s) + Frame(cp))
  {
    var a := Appended(s, cp);
    AppendFrames(s, cp);
    FlushMovesBuffer(a, true, true);
    var s2 := Flushed(a, true, true);
    assert SyncRequested(a.currentLsn) in s2.events;
    if switchLogFiles && |ChannelFile(s2)| > MinLogReplace {
      SwitchAdvances(s2, openFails);
      FileNameInjective(s2.currentFile, Int32(s2.currentFile + 1));
    }
  }

  /**
   * LSNs keep increasing across a rotation: after a checkpoint that switched
   * to a newly opened file, the next record's LSN is after the checkpoint's.
   * The file number must be below the largest `int`, since `++currentFile`
   * wraps there and the new file's LSNs would then sort before the old ones.
   */
  lemma LsnAcrossRotation(s: JournalState, cp: Loggable, r: Loggable)
    requires Writable(s) && !s.inRecovery && Fits(cp) && Fits(r)
    requires 0 <= s.currentFile < IntMax && |Stream(s)| + |Frame(cp)| > MinLogReplace
    ensures var t := Checkpointed(s, cp, true, false);
      && Writable(t) && !t.inRecovery
      && LsnAfter(Appended(t, r).currentLsn, t.currentLsn)
  {
    CheckpointEffect(s, cp, true, false);
    var t := Checkpointed(s, cp, true, false);
    var s2 := Flushed(Appended(s, cp), true, true);
    AppendFrames(s, cp);
    FlushMovesBuffer(Appended(s, cp), true, true);
    SwitchAdvances(s2, false);
    assert !t.inRecovery;
    AppendFrames(t, r);
  }

  // ---------------------------------------------------------------------
  // findLastFile

  /** The result of `findLastFile`: the largest file number, -1 for no file, `None` where Java throws. */
  function LastFileNumber(names: seq<string>): (r: Option<int>)
    ensures r.Some? ==> -1 <= r.value && IsInt32(r.value)
    ensures r.Some? && names != [] ==> FileNumberOf(names[|names| - 1]).Some? && FileNumberOf(names[|names| - 1]).value <= r.value
  {
    if names == [] then Some(-1)
    else
      match (LastFileNumber(names[..|names| - 1]), FileNumberOf(names[|names| - 1]))
      case (Some(m), Some(k)) => Some(if k > m then k else m)
      case _ => None
  }

  /** The result bounds every file number and is one of them (or -1, the starting value). */
  lemma {:induction false} LastFileIsMax(names: seq<string>)
    ensures LastFileNumber(names).Some? <==> forall i :: 0 <= i < |names| ==> FileNumberOf(names[i]).Some?
    ensures LastFileNumber(names).Some? ==>
      var m := LastFileNumber(names).value;
      && m >= -1
      && (forall i :: 0 <= i < |names| ==> FileNumberOf(names[i]).value <= m)
      && (m == -1 || exists i :: 0 <= i < |names| && FileNumberOf(names[i]) == Some(m))
  {
    if names != [] {
      var init, last := names[..|names| - 1], names[|names| - 1];
      LastFileIsMax(init);
      assert forall i :: 0 <= i < |init| ==> init[i] == names[i];
      if LastFileNumber(names).Some? {
        var m := LastFileNumber(names).value;
        var m0 := LastFileNumber(init).value;
        assert m0 <= m && FileNumberOf(last).value <= m;
        forall i | 0 <= i < |names| ensures FileNumberOf(names[i]).Some? && FileNumberOf(names[i]).value <= m {
          if i < |init| {
            assert names[i] == init[i];
          }
        }
        if m != -1 {
          if FileNumberOf(last) != Some(m) {
            var i :| 0 <= i < |init| && FileNumberOf(init[i]) == Some(m);
            assert FileNumberOf(names[i]) == Some(m);
          }
        }
      } else if LastFileNumber(init).None? {
        var i :| 0 <= i < |init| && FileNumberOf(init[i]).None?;
        assert FileNumberOf(names[i]).None?;
      } else {
        assert FileNumberOf(names[|names| - 1]).None?;
      }
    }
  }

  /** `names` lists the files of the journal numbers `nums`, as `getFileName` names them. */
  predicate NamesOf(names: seq<string>, nums: seq<int>) {
    && |names| == |nums|
    && forall i :: 0 <= i < |nums| ==> IsInt32(nums[i]) && names[i] == FileName(nums[i])
  }

  /** A file number above all the given ones names a file that is not among theirs. */
  lemma NextFileIsNew(names: seq<string>, nums: seq<int>, next: int)
    requires NamesOf(names, nums) && IsInt32(next)
    requires forall i :: 0 <= i < |nums| ==> nums[i] < next
    ensures FileName(next) !in names
  {
    if FileName(next) in names {
      var i :| 0 <= i < |names| && names[i] == FileName(next);
      FileNameInjective(nums[i], next);
    }
  }

  /** `findLastFile` over names whose numbers are known. */
  lemma LastFileOfNumbers(names: seq<string>, nums: seq<int>)
    requires |names| == |nums|
    requires forall i :: 0 <= i < |nums| ==> 0 <= nums[i] && FileNumberOf(names[i]) == Some(nums[i])
    ensures var r := LastFileNumber(names);
      && r.Some?
      && (forall i :: 0 <= i < |nums| ==> nums[i] <= r.value)
      && (nums == [] ==> r.value == -1)
      && (nums != [] ==> r.value in nums)
  {
    LastFileIsMax(names);
    var m := LastFileNumber(names).value;
    if nums != [] {
      assert m != -1 by {
        assert nums[0] >= 0 && FileNumberOf(names[0]).value <= m;
      }
      var i :| 0 <= i < |names| && FileNumberOf(names[i]) == Some(m);
      assert nums[i] == m;
    }
  }

  /**
   * Over names made by `getFileName`, `findLastFile` returns the largest file
   * number (or -1 for none), and the file after it collides with no existing
   * name: a journal started with `setCurrentFileNum(findLastFile(..))`
   * followed by `switchFiles()` never reopens an old file.
   */
  lemma LastFileOfFileNames(names: seq<string>, nums: seq<int>)
    requires NamesOf(names, nums)
    requires forall i :: 0 <= i < |nums| ==> 0 <= nums[i] < IntMax
    ensures var r := LastFileNumber(names);
      && r.Some?
      && (forall i :: 0 <= i < |nums| ==> nums[i] <= r.value)
      && (nums == [] ==> r.value == -1)
      && (nums != [] ==> r.value in nums)
      && FileName(r.value + 1) !in names
  {
    forall i | 0 <= i < |nums| ensures FileNumberOf(names[i]) == Some(nums[i]) {
      FileNumberOfFileName(nums[i]);
    }
    LastFileOfNumbers(names, nums);
    var m := LastFileNumber(names).value;
    assert -1 <= m < IntMax by {
      if nums != [] {
        var i :| 0 <= i < |nums| && nums[i] == m;
      }
    }
    NextFileIsNew(names, nums, m + 1);
  }

  /** The directory listing comes in no particular order: the highest number wins wherever it is listed. */
  lemma LastFileUnordered(a: int, b: int, c: int)
    requires 0 <= a < b < c < IntMax
    ensures LastFileNumber([FileName(c), FileName(a), FileName(b)]) == Some(c)
  {
    var names, nums := [FileName(c), FileName(a), FileName(b)], [c, a, b];
    forall i | 0 <= i < |nums|
      ensures 0 <= nums[i] && FileNumberOf(names[i]) == Some(nums[i])
    {
      FileNumberOfFileName(nums[i]);
    }
    LastFileOfNumbers(names, nums);
    var m := LastFileNumber(names).value;
    assert m in nums && m >= nums[0];
    assert m == c;
  }

  /** `findLastFile(files)`: a loop keeping the running maximum, starting from -1; `None` where Java throws. */
  method FindLastFile(names: seq<string>) returns (r: Option<int>)
    ensures r == LastFileNumber(names)
  {
    var max := -1;
    for i := 0 to |names|
      invariant LastFileNumber(names[..i]) == Some(max)
    {
      assert names[..i + 1][..i] == names[..i];
      var num := FileNumberOf(names[i]);
      if num.None? {
        LastFileNoneExtends(names, i + 1);
        return None;
      }
      if num.value > max {
        max := num.value;
      }
    }
    assert names[..|names|] == names;
    r := Some(max);
  }

  /** Once a prefix of the names makes `findLastFile` throw, the whole list does. */
  lemma {:induction false} LastFileNoneExtends(names: seq<string>, k: nat)
    requires k <= |names| && LastFileNumber(names[..k]).None?
    ensures LastFileNumber(names).None?
    decreases |names| - k
  {
    if k < |names| {
      assert names[..k + 1][..k] == names[..k];
      LastFileNoneExtends(names, k + 1);
    } else {
      assert names[..k] == names;
    }
  }

  // ---------------------------------------------------------------------
  // The journal manager

  class LogManager {
    const syncOnCommit: bool
    const logSizeLimit: int
    /** The append buffer; `position` bytes of it are in use. */
    const currentBuffer: array<byte>
    var position: nat
    var currentFile: int
    /** The journal directory: file name to contents. */
    var files: map<string, seq<byte>>
    /** The file the output channel appends to, if a channel is open. */
    var channel: Option<string>
    var currentLsn: Lsn
    var lastSyncLsn: Lsn
    var inRecovery: bool
    /** Requests made to the sync thread and the broker pool, in order. */
    ghost var events: seq<Event>

    ghost predicate Valid()
      reads this, currentBuffer
    {
      currentBuffer.Length == BufferCapacity && position <= currentBuffer.Length && WellFormed(Model())
    }

    ghost function Model(): JournalState
      reads this, currentBuffer
      requires position <= currentBuffer.Length
    {
      JournalState(syncOnCommit, logSizeLimit, currentFile, files, channel, currentBuffer[..position],
                   currentLsn, lastSyncLsn, inRecovery, events)
    }

    /** The configuration lookups become the parameters; `directory` is the journal directory found on disk. */
    constructor (syncOnCommit: bool, sizeLimitMb: Option<int>, directory: map<string, seq<byte>>)
      requires sizeLimitMb.Some? ==> IsInt32(sizeLimitMb.value)
      ensures Valid() && fresh(currentBuffer)
      ensures Model() == Initial(syncOnCommit, sizeLimitMb, directory)
    {
      this.syncOnCommit := syncOnCommit;
      this.logSizeLimit := SizeLimit(sizeLimitMb);
      currentBuffer := new byte[BufferCapacity];
      position := 0;
      currentFile := 0;
      files := directory;
      channel := None;
      currentLsn := LsnInvalid;
      lastSyncLsn := LsnInvalid;
      inRecovery := false;
      events := [];
    }

    /** `ByteBuffer.put`: copies `bytes` into the buffer at `position`. */
    method Put(bytes: seq<byte>)
      requires position + |bytes| <= currentBuffer.Length
      modifies this`position, currentBuffer
      ensures position == old(position) + |bytes|
      ensures currentBuffer[..position] == old(currentBuffer[..position]) + bytes
    {
      var i := 0;
      while i < |bytes|
        invariant 0 <= i <= |bytes|
        invariant position == old(position) + i
        invariant currentBuffer[..position] == old(currentBuffer[..position]) + bytes[..i]
      {
        currentBuffer[position] := bytes[i];
        position := position + 1;
        i := i + 1;
      }
    }

    /** The three `put` calls of the record header: type, transaction id and data length. */
    method PutHeader(r: Loggable)
      requires position + LogEntryHeaderLen <= currentBuffer.Length
      modifies this`position, currentBuffer
      ensures position == old(position) + LogEntryHeaderLen
      ensures currentBuffer[..position] == old(currentBuffer[..position]) + ([r.logType] + Long(r.transactionId) + Short(|r.data|))
    {
      ghost var b0 := currentBuffer[..position];
      Put([r.logType]);
      Put(Long(r.transactionId));
      assert currentBuffer[..position] == b0 + ([r.logType] + Long(r.transactionId));
      Put(Short(|r.data|));
    }

    /** The `put` calls of `writeToLog`: header, data and back-link. */
    method PutFrame(r: Loggable)
      requires position + |Frame(r)| <= currentBuffer.Length
      modifies this`position, currentBuffer
      ensures position == old(position) + |Frame(r)|
      ensures currentBuffer[..position] == old(currentBuffer[..position]) + Frame(r)
    {
      ghost var b0 := currentBuffer[..position];
      PutHeader(r);
      Put(r.data);
      Put(Short(|r.data| + LogEntryHeaderLen));
      assert currentBuffer[..position] == b0 + ([r.logType] + Long(r.transactionId) + Short(|r.data|)) + r.data + Short(|r.data| + LogEntryHeaderLen);
    }

    /** `writeToLog(loggable)`: returns the LSN assigned to the record, or fails during recovery. */
    method WriteToLog(r: Loggable) returns (result: Result<Lsn, LogError>)
      requires Valid() && (inRecovery || channel.Some?) && Fits(r)
      modifies this, currentBuffer
      ensures Valid()
      ensures old(inRecovery) ==> result == Failure(WriteDuringRecovery) && Model() == old(Model())
      ensures !old(inRecovery) ==> Model() == Appended(old(Model()), r) && result == Success(currentLsn)
    {
      if inRecovery {
        return Failure(WriteDuringRecovery);
      }
      ghost var s0 := Model();
      var required := |r.data| + LogEntryBaseLen;
      if required > currentBuffer.Length - position {
        FlushToLog(false, false);
      }
      ghost var s1 := Model();
      assert s1 == if MustFlush(s0, r) then Flushed(s0, false, false) else s0;
      currentLsn := Lsn(currentFile, Int32(|files[channel.value]| + position + 1));
      PutFrame(r);
      assert Model() == s1.(currentLsn := currentLsn, buffer := s1.buffer + Frame(r));
      result := Success(currentLsn);
    }

    /** `flushToLog(fsync)`: a flush that does not force a sync. */
    method FlushToLogUnforced(fsync: bool)
      requires Valid() && (inRecovery || channel.Some?)
      modifies this
      ensures Valid()
      ensures Model() == Flushed(old(Model()), fsync, false)
    {
      FlushToLog(fsync, false);
    }

    /** `flushToLog(fsync, forceSync)`. */
    method FlushToLog(fsync: bool, forceSync: bool)
      requires Valid() && (inRecovery || channel.Some?)
      modifies this
      ensures Valid()
      ensures Model() == Flushed(old(Model()), fsync, forceSync)
    {
      if inRecovery {
        return;
      }
      var name := channel.value;
      if position > 0 {
        files := files[name := files[name] + currentBuffer[..position]];
        position := 0;
      }
      if forceSync || (fsync && syncOnCommit && LsnAfter(currentLsn, lastSyncLsn)) {
        events := events + [SyncRequested(currentLsn)];
        lastSyncLsn := currentLsn;
      }
      if |files[name]| >= logSizeLimit {
        events := events + [CheckpointRequested];
      }
    }

    /**
     * `checkpoint(txnId, switchLogFiles)` with `cp` the checkpoint record;
     * a failure of `switchFiles` is only logged.
     */
    method Checkpoint(cp: Loggable, switchLogFiles: bool, openFails: bool) returns (result: Outcome<LogError>)
      requires Valid() && (inRecovery || channel.Some?) && Fits(cp)
      modifies this, currentBuffer
      ensures Valid()
      ensures old(inRecovery) ==> result == Fail(WriteDuringRecovery) && Model() == old(Model())
      ensures !old(inRecovery) ==> result == Pass && Model() == Checkpointed(old(Model()), cp, switchLogFiles, openFails)
    {
      var written := WriteToLog(cp);
      if written.Failure? {
        return Fail(written.error);
      }
      FlushToLog(true, true);
      if switchLogFiles && |files[channel.value]| > MinLogReplace {
        RotateFiles(openFails);
      }
      result := Pass;
    }

    /** The rotation step of `checkpoint`. */
    method RotateFiles(openFails: bool)
      requires Valid()
      modifies this
      ensures Valid() && Model() == Rotated(old(Model()), openFails)
    {
      var last := currentFile;
      var switched := SwitchFiles(openFails);
      FileNameInjective(last, currentFile);
      files := files - {FileName(last)};
    }

    /** `setCurrentFileNum(fileNum)`. */
    method SetCurrentFileNum(fileNum: int)
      requires Valid() && IsInt32(fileNum)
      modifies this
      ensures Valid() && Model() == old(Model()).(currentFile := fileNum)
    {
      currentFile := fileNum;
    }

    /** `setInRecovery(value)`. */
    method SetInRecovery(value: bool)
      requires Valid()
      modifies this
      ensures Valid() && Model() == old(Model()).(inRecovery := value)
    {
      inRecovery := value;
    }

    /** `switchFiles()`: `openFails` says whether opening the new file fails. */
    method SwitchFiles(openFails: bool) returns (result: Outcome<LogError>)
      requires Valid()
      modifies this
      ensures Valid() && Model() == Switched(old(Model()), openFails)
      ensures result == if openFails then Fail(OpenFailed(FileName(currentFile))) else Pass
    {
      var next := Int32(currentFile + 1);
      var name := FileName(next);
      var moved := files;
      if name in files {
        moved := (files - {name})[name + BakFileSuffix := files[name]];
      }
      if openFails {
        currentFile, files, channel := next, moved, None;
        return Fail(OpenFailed(name));
      }
      currentFile, files, channel := next, moved[name := []], Some(name);
      result := Pass;
    }
  }
}
