/**
 * The on-disk format of the eXist journal: Java `int` arithmetic, log
 * sequence numbers, the framing of one log record, the backward reading of a
 * record through its trailing back-link, and the names of the log files.
 */
module LogFormat {
  import opened Wrappers

  /** Length of a record header: entry type (1) + transaction id (8) + length (2). */
  const LogEntryHeaderLen: nat := 11
  /** Header plus the trailing 2-byte back-link. */
  const LogEntryBaseLen: nat := LogEntryHeaderLen + 2
  /** Default size limit of a journal file, in bytes. */
  const DefaultMaxLogSize: int := 10 * 1024 * 1024
  /** A checkpoint only replaces a journal file larger than this. */
  const MinLogReplace: int := 1024 * 1024
  /** Capacity of the append buffer. */
  const BufferCapacity: nat := 0x40000
  const LogFileSuffix: string := "log"
  const BakFileSuffix: string := ".bak"

  const IntMin: int := -0x8000_0000
  const IntMax: int := 0x7FFF_FFFF

  // ---------------------------------------------------------------------
  // Java int arithmetic

  predicate IsInt32(x: int) {
    IntMin <= x <= IntMax
  }

  /** The value a Java `int` holds after an arithmetic result `x` wraps around. */
  function Int32(x: int): (r: int)
    ensures IsInt32(r)
    ensures IsInt32(x) ==> r == x
    ensures (r - x) % 0x1_0000_0000 == 0
  {
    (x - IntMin) % 0x1_0000_0000 + IntMin
  }

  /** The unsigned reading of a 32-bit value, as `Integer.toHexString` prints it. */
  function Unsigned32(n: int): (u: nat)
    requires IsInt32(n)
    ensures u < 0x1_0000_0000
    ensures 0 <= n ==> u == n
    ensures n < 0 ==> u == n + 0x1_0000_0000
  {
    if n < 0 then n + 0x1_0000_0000 else n
  }

  // ---------------------------------------------------------------------
  // Log sequence numbers

  /**
   * An LSN is created from a file number and an offset; the file number is
   * the more significant part of the order. `LsnInvalid` is below every LSN.
   */
  datatype Lsn = LsnInvalid | Lsn(file: int, offset: int)

  /**
   * `a > b` in the order of LSNs: the file number dominates the offset, and
   * the invalid LSN is below every other.
   */
  predicate LsnAfter(a: Lsn, b: Lsn)
    ensures LsnAfter(a, b) ==> a.Lsn?
    ensures a.Lsn? && b.LsnInvalid? ==> LsnAfter(a, b)
    ensures a.Lsn? && b.Lsn? && a.file > b.file ==> LsnAfter(a, b)
    ensures a.Lsn? && b.Lsn? && a.file < b.file ==> !LsnAfter(a, b)
  {
    match (a, b)
    case (LsnInvalid, _) => false
    case (Lsn(_, _), LsnInvalid) => true
    case (Lsn(f1, o1), Lsn(f2, o2)) => f1 > f2 || (f1 == f2 && o1 > o2)
  }

  lemma LsnAfterIsStrictOrder(a: Lsn, b: Lsn, c: Lsn)
    ensures !LsnAfter(a, a)
    ensures LsnAfter(a, b) ==> !LsnAfter(b, a)
    ensures LsnAfter(a, b) && LsnAfter(b, c) ==> LsnAfter(a, c)
    ensures a != b ==> LsnAfter(a, b) || LsnAfter(b, a)
  {
  }

  // ---------------------------------------------------------------------
  // Log records

  /** An unsigned byte as it lies in a journal file. */
  newtype byte = x: int | 0 <= x < 0x100

  const LongMin: int := -0x8000_0000_0000_0000
  const LongMax: int := 0x7FFF_FFFF_FFFF_FFFF

  predicate IsInt64(x: int) {
    LongMin <= x <= LongMax
  }

  /** A loggable record: entry type, transaction id (a Java `long`) and payload. */
  datatype Loggable = Loggable(logType: byte, transactionId: int, data: seq<byte>)

  function Pow256(k: nat): (p: nat)
    ensures p >= 1
  {
    if k == 0 then 1 else 256 * Pow256(k - 1)
  }

  /** The low `k` bytes of `v`, most significant first. */
  function BigEndian(v: nat, k: nat): (b: seq<byte>)
    ensures |b| == k
  {
    if k == 0 then [] else BigEndian(v / 256, k - 1) + [(v % 256) as byte]
  }

  /** The unsigned value of big-endian bytes. */
  function Unsigned(b: seq<byte>): nat
  {
    if b == [] then 0 else Unsigned(b[..|b| - 1]) * 256 + b[|b| - 1] as nat
  }

  lemma {:induction false} MulSign(m: int, d: int)
    requires m >= 0
    ensures d > 0 ==> m * d >= m
    ensures d < 0 ==> m * d <= -m
    decreases if d < 0 then -d else d
  {
    if d > 1 {
      MulSign(m, d - 1);
      assert m * d == m * (d - 1) + m;
    } else if d < -1 {
      MulSign(m, d + 1);
      assert m * d == m * (d + 1) - m;
    }
  }

  /** Euclidean remainders are unique. */
  lemma ModOfSum(v: int, m: nat, q: int, r: int)
    requires m > 0 && v == m * q + r && 0 <= r < m
    ensures v % m == r
  {
    var d := q - v / m;
    assert m * d == v % m - r;
    MulSign(m, d);
  }

  /** Splitting off the lowest byte of `v` commutes with reducing modulo `256 * p`. */
  lemma LowByteStep(v: nat, p: nat)
    requires p >= 1
    ensures (v / 256 % p) * 256 + v % 256 == v % (256 * p)
  {
    var q := v / 256;
    var rest := (q % p) * 256 + v % 256;
    assert q == p * (q / p) + q % p;
    assert v == 256 * q + v % 256;
    assert v == (256 * p) * (q / p) + rest;
    ModOfSum(v, 256 * p, q / p, rest);
  }

  /** Reading `k` big-endian bytes gives back the low `k` bytes of the value written. */
  lemma {:induction false} BigEndianRoundTrip(v: nat, k: nat)
    ensures Unsigned(BigEndian(v, k)) == v % Pow256(k)
  {
    if k > 0 {
      var b := BigEndian(v, k);
      assert b[..k - 1] == BigEndian(v / 256, k - 1);
      BigEndianRoundTrip(v / 256, k - 1);
      assert Unsigned(b) == (v / 256 % Pow256(k - 1)) * 256 + v % 256;
      LowByteStep(v, Pow256(k - 1));
    }
  }

  /** `ByteBuffer.putShort((short) v)`: the low 16 bits of `v`, big-endian. */
  function Short(v: int): (b: seq<byte>)
    ensures |b| == 2
  {
    BigEndian(v % 0x1_0000, 2)
  }

  /** `getShort` read as an unsigned length. */
  function ShortValue(b: seq<byte>): nat
    requires |b| == 2
  {
    b[0] as nat * 0x100 + b[1] as nat
  }

  lemma Pow256Values()
    ensures Pow256(2) == 0x1_0000
    ensures Pow256(8) == 0x1_0000_0000_0000_0000
  {
    assert Pow256(4) == 0x1_0000_0000;
  }

  /** A short reads back as the low 16 bits of the value written. */
  lemma ShortRoundTrip(v: int)
    ensures ShortValue(Short(v)) == v % 0x1_0000
    ensures 0 <= v < 0x1_0000 ==> ShortValue(Short(v)) == v
  {
    var b := Short(v);
    BigEndianRoundTrip(v % 0x1_0000, 2);
    Pow256Values();
    assert b[..1][..0] == [];
    assert Unsigned(b) == ShortValue(b);
  }

  /** `ByteBuffer.putLong(v)`: the 64-bit two's complement of `v`, big-endian. */
  function Long(v: int): (b: seq<byte>)
    ensures |b| == 8
  {
    BigEndian(v % 0x1_0000_0000_0000_0000, 8)
  }

  /** `ByteBuffer.getLong`: eight big-endian bytes read as a signed `long`. */
  function LongValue(b: seq<byte>): (v: int)
    requires |b| == 8
  {
    var u := Unsigned(b);
    if u > LongMax then u - 0x1_0000_0000_0000_0000 else u
  }

  /** The eight bytes of `putLong(v)` hold `v` modulo 2^64. */
  lemma LongBytes(v: int)
    ensures Unsigned(Long(v)) == v % 0x1_0000_0000_0000_0000
  {
    var u := v % 0x1_0000_0000_0000_0000;
    BigEndianRoundTrip(u, 8);
    Pow256Values();
    ModOfSum(u, 0x1_0000_0000_0000_0000, 0, u);
  }

  /** Every Java `long` survives `putLong` followed by `getLong`. */
  lemma LongRoundTrip(v: int)
    requires IsInt64(v)
    ensures LongValue(Long(v)) == v
  {
    LongBytes(v);
  }

  /**
   * The bytes a record occupies in the journal:
   * [type:1][transactionId:8][length:2][data][backLink:2],
   * where length and back-link are written through a 16-bit cast.
   */
  function Frame(r: Loggable): (f: seq<byte>)
    ensures |f| == |r.data| + LogEntryBaseLen
  {
    [r.logType] + Long(r.transactionId) + Short(|r.data|) + r.data + Short(|r.data| + LogEntryHeaderLen)
  }

  /**
   * A record that reads back as written: its transaction id is a Java `long`,
   * and its length and back-link survive the 16-bit cast.
   */
  predicate Readable(r: Loggable) {
    IsInt64(r.transactionId) && |r.data| + LogEntryHeaderLen < 0x1_0000
  }

  /** The journal bytes of a sequence of records, in order. */
  function Frames(recs: seq<Loggable>): (log: seq<byte>)
    ensures |log| >= |recs| * LogEntryBaseLen
    ensures recs == [] <==> log == []
  {
    if recs == [] then [] else Frames(recs[..|recs| - 1]) + Frame(recs[|recs| - 1])
  }

  /** A record read from the journal, with the offset at which its header starts. */
  datatype Located = Located(rec: Loggable, start: nat)

  /**
   * Reads the record that ends at the end of `log`: the trailing back-link
   * gives the length of header plus data, so the record starts at
   * `|log| - 2 - backLink`. This is the step of a backward scan of the journal.
   */
  function LastRecord(log: seq<byte>): (res: Option<Located>)
    ensures res.Some? ==> res.value.start + LogEntryBaseLen <= |log|
  {
    if |log| < LogEntryBaseLen then None
    else
      var link := ShortValue(log[|log| - 2..]);
      if link < LogEntryHeaderLen || link + 2 > |log| then None
      else
        var start := |log| - 2 - link;
        var len := ShortValue(log[start + 9..start + 11]);
        if len + LogEntryHeaderLen != link then None
        else Some(Located(RecordAt(log, start, len), start))
  }

  /** The record whose header starts at `start` and whose data is `len` bytes long. */
  function RecordAt(log: seq<byte>, start: nat, len: nat): Loggable
    requires start + LogEntryHeaderLen + len <= |log|
  {
    Loggable(log[start], LongValue(log[start + 1..start + 9]), log[start + 11..start + 11 + len])
  }

  /** All records of a journal, found by walking the back-links from its end. */
  function Records(log: seq<byte>): (res: Option<seq<Loggable>>)
    ensures log == [] ==> res == Some([])
    ensures res.Some? ==> |res.value| * LogEntryBaseLen <= |log|
    decreases |log|
  {
    if log == [] then Some([])
    else
      match LastRecord(log)
      case None => None
      case Some(Located(r, start)) =>
        match Records(log[..start])
        case None => None
        case Some(rs) => Some(rs + [r])
  }

  /** Where each field of a framed record sits. */
  lemma FrameFields(r: Loggable)
    ensures var f, n := Frame(r), |r.data|;
      && f[0] == r.logType
      && f[1..9] == Long(r.transactionId)
      && f[9..11] == Short(n)
      && f[11..11 + n] == r.data
      && f[11 + n..] == Short(n + LogEntryHeaderLen)
  {
  }

  /** The trailing back-link of a framed record reads back as header plus data length. */
  lemma BackLinkOfFrame(prefix: seq<byte>, r: Loggable)
    requires Readable(r)
    ensures var log := prefix + Frame(r);
      ShortValue(log[|log| - 2..]) == |r.data| + LogEntryHeaderLen
  {
    var log := prefix + Frame(r);
    FrameFields(r);
    assert log[|log| - 2..] == Frame(r)[|r.data| + LogEntryHeaderLen..];
    ShortRoundTrip(|r.data| + LogEntryHeaderLen);
  }

  /** The header of a framed record, read at the record's start, gives back the record. */
  lemma HeaderOfFrame(prefix: seq<byte>, r: Loggable)
    requires Readable(r)
    ensures var log, p := prefix + Frame(r), |prefix|;
      && ShortValue(log[p + 9..p + 11]) == |r.data|
      && RecordAt(log, p, |r.data|) == r
  {
    var log, p, n := prefix + Frame(r), |prefix|, |r.data|;
    FrameFields(r);
    assert log[p..] == Frame(r);
    assert log[p + 9..p + 11] == Short(n);
    ShortRoundTrip(n);
    assert log[p] == r.logType;
    assert log[p + 1..p + 9] == Long(r.transactionId);
    LongRoundTrip(r.transactionId);
    assert log[p + 11..p + 11 + n] == r.data;
  }

  /** From the end of a framed record, the back-link leads to the record's start and the header reads back. */
  lemma LastRecordOfFrame(prefix: seq<byte>, r: Loggable)
    requires Readable(r)
    ensures LastRecord(prefix + Frame(r)) == Some(Located(r, |prefix|))
  {
    BackLinkOfFrame(prefix, r);
    HeaderOfFrame(prefix, r);
  }

  /** Walking a journal backwards through the back-links yields exactly the records written, in order. */
  lemma {:induction false} RecordsOfFrames(recs: seq<Loggable>)
    requires forall i :: 0 <= i < |recs| ==> Readable(recs[i])
    ensures Records(Frames(recs)) == Some(recs)
  {
    if recs != [] {
      var init, last := recs[..|recs| - 1], recs[|recs| - 1];
      assert Frames(recs) == Frames(init) + Frame(last);
      assert init + [last] == recs;
      RecordsOfFrames(init);
      RecordsOfFrame(Frames(init), last);
    }
  }

  /** A backward scan of a journal ending in a framed record yields that record after those before it. */
  lemma RecordsOfFrame(prefix: seq<byte>, r: Loggable)
    requires Readable(r) && Records(prefix).Some?
    ensures Records(prefix + Frame(r)) == Some(Records(prefix).value + [r])
  {
    var log := prefix + Frame(r);
    LastRecordOfFrame(prefix, r);
    assert log[..|prefix|] == prefix;
  }

  // ---------------------------------------------------------------------
  // Hexadecimal numbers

  /** `Character.digit(c, 16)` restricted to ASCII. */
  function HexValue(c: char): Option<nat>
  {
    if '0' <= c <= '9' then Some(c as nat - '0' as nat)
    else if 'a' <= c <= 'f' then Some(c as nat - 'a' as nat + 10)
    else if 'A' <= c <= 'F' then Some(c as nat - 'A' as nat + 10)
    else None
  }

  predicate IsLowerHexDigit(c: char) {
    '0' <= c <= '9' || 'a' <= c <= 'f'
  }

  function HexDigit(d: nat): (c: char)
    requires d < 16
    ensures HexValue(c) == Some(d)
    ensures IsLowerHexDigit(c)
  {
    if d < 10 then (48 + d) as char else (87 + d) as char
  }

  /** `Integer.toHexString` of a non-negative value: lower-case, no leading zeros. */
  function ToHex(n: nat): (s: string)
    ensures |s| >= 1
    ensures forall i :: 0 <= i < |s| ==> IsLowerHexDigit(s[i])
  {
    if n < 16 then [HexDigit(n)] else ToHex(n / 16) + [HexDigit(n % 16)]
  }

  /** The value of a string of hexadecimal digits; `None` if any character is not one. */
  function Digits(s: string): Option<nat>
  {
    if s == [] then Some(0)
    else
      match (Digits(s[..|s| - 1]), HexValue(s[|s| - 1]))
      case (Some(v), Some(d)) => Some(v * 16 + d)
      case _ => None
  }

  function Zeros(k: nat): (s: string)
    ensures |s| == k
    ensures forall i :: 0 <= i < k ==> s[i] == '0'
  {
    if k == 0 then [] else Zeros(k - 1) + "0"
  }

  lemma {:induction false} DigitsOfToHex(n: nat)
    ensures Digits(ToHex(n)) == Some(n)
  {
    if n >= 16 {
      DigitsOfToHex(n / 16);
      var s := ToHex(n);
      assert s[..|s| - 1] == ToHex(n / 16);
    }
  }

  lemma {:induction false} DigitsOfZerosThen(k: nat, s: string)
    ensures Digits(Zeros(k) + s) == Digits(s)
    decreases |s|, k
  {
    if s == [] {
      if k > 0 {
        assert Zeros(k) + s == Zeros(k);
        assert Zeros(k)[..k - 1] == Zeros(k - 1);
        DigitsOfZerosThen(k - 1, []);
        assert Zeros(k - 1) + [] == Zeros(k - 1);
      }
    } else {
      var t := Zeros(k) + s;
      assert t[..|t| - 1] == Zeros(k) + s[..|s| - 1];
      DigitsOfZerosThen(k, s[..|s| - 1]);
    }
  }

  lemma {:induction false} ToHexLength(n: nat, k: nat, bound: nat)
    requires k >= 1 && bound == Pow16(k) && n < bound
    ensures |ToHex(n)| <= k
  {
    if n >= 16 {
      assert k >= 2;
      ToHexLength(n / 16, k - 1, Pow16(k - 1));
    }
  }

  function Pow16(k: nat): (p: nat)
    ensures p >= 1
  {
    if k == 0 then 1 else 16 * Pow16(k - 1)
  }

  /** `Integer.parseInt(s, 16)`: an optional sign, at least one hex digit, and a value that fits an int. */
  function ParseHexInt(s: string): (r: Option<int>)
    ensures r.Some? ==> IsInt32(r.value)
    ensures s == [] ==> r.None?
    ensures s != [] && s[0] != '-' && s[0] != '+' && Digits(s).Some? ==>
      r == (if Digits(s).value <= IntMax then Some(Digits(s).value) else None)
    ensures s != [] && s[0] != '-' && s[0] != '+' && Digits(s).None? ==> r.None?
    ensures |s| >= 1 && s[0] == '-' ==>
      r == (match Digits(s[1..])
            case Some(v) => if |s| >= 2 && v <= IntMax + 1 then Some(-(v as int)) else None
            case None => None)
    ensures |s| >= 1 && s[0] == '+' ==>
      r == (match Digits(s[1..])
            case Some(v) => if |s| >= 2 && v <= IntMax then Some(v) else None
            case None => None)
  {
    if s == [] then None
    else if s[0] == '-' || s[0] == '+' then
      if |s| == 1 then None
      else
        match Digits(s[1..])
        case None => None
        case Some(v) =>
          var x := if s[0] == '-' then -(v as int) else v as int;
          if IsInt32(x) then Some(x) else None
    else
      match Digits(s)
      case None => None
      case Some(v) => if v <= IntMax then Some(v) else None
  }

  /**
   * `Integer.parseInt(s, 16)` reads back what `toHexString` wrote, with or
   * without a minus sign, exactly for the values an `int` holds.
   */
  lemma {:induction false} ParseHexIntOfToHex(n: nat)
    ensures ParseHexInt(ToHex(n)) == (if n <= IntMax then Some(n) else None)
    ensures ParseHexInt("-" + ToHex(n)) == (if n <= IntMax + 1 then Some(-(n as int)) else None)
  {
    var t := ToHex(n);
    DigitsOfToHex(n);
    assert IsLowerHexDigit(t[0]);
    assert ("-" + t)[1..] == t;
  }

  // ---------------------------------------------------------------------
  // Log file names

  /** `String.indexOf(c)`: the first position of `c`, or -1. */
  function IndexOf(s: string, c: char): (r: int)
    ensures -1 <= r < |s|
    ensures r == -1 <==> c !in s
    ensures 0 <= r ==> s[r] == c && c !in s[..r]
  {
    if s == [] then -1
    else if s[0] == c then 0
    else
      var k := IndexOf(s[1..], c);
      if k == -1 then -1 else k + 1
  }

  /** `getFileName`: the file number in ten lower-case hex digits, then ".log". */
  function FileName(fileNum: int): (name: string)
    requires IsInt32(fileNum)
    ensures |name| == 14 && name[10..] == "." + LogFileSuffix
    ensures forall i :: 0 <= i < 10 ==> IsLowerHexDigit(name[i])
  {
    var hex := ToHex(Unsigned32(fileNum));
    ToHexLength(Unsigned32(fileNum), 8, Pow16(8));
    Zeros(10 - |hex|) + hex + "." + LogFileSuffix
  }

  /** The number `findLastFile` reads from a file name: the part before the first '.', parsed as hex. */
  function FileNumberOf(name: string): (r: Option<int>)
    ensures r.Some? ==> IsInt32(r.value)
  {
    var p := IndexOf(name, '.');
    if p < 0 then None else ParseHexInt(name[..p])
  }

  /** A name ending in the suffix is some prefix followed by it. */
  lemma SuffixSplits(name: string)
    ensures |name| >= |LogFileSuffix| && name[|name| - |LogFileSuffix|..] == LogFileSuffix ==>
              name == name[..|name| - |LogFileSuffix|] + LogFileSuffix
  {
  }

  /** The filter of `getFiles`: the name ends with "log". */
  predicate IsLogFileName(name: string)
    ensures IsLogFileName(name) <==> exists prefix :: name == prefix + LogFileSuffix
  {
    SuffixSplits(name);
    |name| >= |LogFileSuffix| && name[|name| - |LogFileSuffix|..] == LogFileSuffix
  }

  /** A file name is fourteen characters: ten lower-case hex digits spelling the number, then ".log". */
  lemma FileNameShape(n: int)
    requires IsInt32(n)
    ensures |FileName(n)| == 14
    ensures FileName(n)[10..] == ".log"
    ensures forall i :: 0 <= i < 10 ==> IsLowerHexDigit(FileName(n)[i])
    ensures Digits(FileName(n)[..10]) == Some(Unsigned32(n))
  {
    var u := Unsigned32(n);
    var hex := ToHex(u);
    ToHexLength(u, 8, Pow16(8));
    var name := FileName(n);
    assert name == Zeros(10 - |hex|) + hex + ".log";
    assert name[..10] == Zeros(10 - |hex|) + hex;
    DigitsOfToHex(u);
    DigitsOfZerosThen(10 - |hex|, hex);
  }

  /** Distinct file numbers give distinct file names. */
  lemma FileNameInjective(a: int, b: int)
    requires IsInt32(a) && IsInt32(b)
    ensures FileName(a) == FileName(b) ==> a == b
  {
    if FileName(a) == FileName(b) {
      FileNameShape(a);
      FileNameShape(b);
    }
  }

  /** Reading the number back from a name made by `FileName` gives the number, for every non-negative int. */
  lemma FileNumberOfFileName(n: int)
    requires 0 <= n <= IntMax
    ensures FileNumberOf(FileName(n)) == Some(n)
  {
    var name := FileName(n);
    FileNameShape(n);
    assert '.' !in name[..10];
    assert name[10] == '.';
    assert IndexOf(name, '.') == 10;
    assert name[0] != '-' && name[0] != '+';
  }

  /** Every name made by `FileName` passes the ".log" filter; its ".bak" copy does not. */
  lemma FileNameFilter(n: int)
    requires IsInt32(n)
    ensures IsLogFileName(FileName(n))
    ensures !IsLogFileName(FileName(n) + BakFileSuffix)
  {
    FileNameShape(n);
    assert FileName(n)[11..] == "log";
    var bak := FileName(n) + BakFileSuffix;
    assert bak[|bak| - 3..] == "bak";
  }

  /** A file number below 16 is nine zeros, its one hex digit, then ".log". */
  lemma FileNameOneDigit(n: int)
    requires 0 <= n < 16
    ensures FileName(n) == "000000000" + [HexDigit(n)] + ".log"
  {
    assert ToHex(Unsigned32(n)) == [HexDigit(n)];
    assert Zeros(9) == "000000000";
  }

  /** A file number from 16 to 255 is eight zeros, its two hex digits, then ".log". */
  lemma FileNameTwoDigits(n: int)
    requires 16 <= n < 256
    ensures FileName(n) == "00000000" + [HexDigit(n / 16), HexDigit(n % 16)] + ".log"
  {
    assert ToHex(Unsigned32(n)) == [HexDigit(n / 16), HexDigit(n % 16)];
    assert Zeros(8) == "00000000";
  }

  lemma FileNameExamples()
    ensures FileName(255) == "00000000ff.log"
    ensures FileName(0) == "0000000000.log"
    ensures FileName(10) == "000000000a.log"
    ensures FileName(1) == "0000000001.log"
  {
    FileNameTwoDigits(255);
    assert HexDigit(15) == 'f';
    FileNameOneDigit(0);
    assert HexDigit(0) == '0';
    FileNameOneDigit(10);
    assert HexDigit(10) == 'a';
    FileNameOneDigit(1);
    assert HexDigit(1) == '1';
  }
}
