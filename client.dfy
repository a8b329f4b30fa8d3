/**
 * The string and arithmetic helpers of the interactive command-line client:
 * the two fixed-width column formatters, the path rule of the `cd` command
 * and the window of results the `show` command displays.
 *
 * Strings are `seq<char>`, and a Dafny `char` is a Unicode scalar value.  A
 * Java string is a sequence of UTF-16 code units, so the two lengths agree
 * only for text inside the Basic Multilingual Plane: a character outside it
 * counts once here and twice in Java's `length()` and `substring`.  A Java
 * runtime exception (a negative buffer capacity, a
 * substring out of range, an array index out of range) is a `None` result.
 */
module Client {
  import opened Wrappers
  import LogFormat

  function Min(a: int, b: int): int {
    if a <= b then a else b
  }

  /**
   * The spaces a padding loop `for (j = 0; j < n; j++) append(' ')` appends:
   * none when `n` is not positive.
   */
  function Spaces(n: int): (r: string)
    ensures |r| == if n > 0 then n else 0
    ensures forall i :: 0 <= i < |r| ==> r[i] == ' '
  {
    if n <= 0 then "" else Spaces(n - 1) + " "
  }

  // ---------------------------------------------------------------------
  // formatString(s1, s2, width)

  /**
   * `s1` and `s2` laid out in a field of `width` characters: `s1` is cut to
   * its first `width - 1` characters when it is longer than the field, then
   * spaces fill the gap so that `s2` ends the field.  `None` when the buffer
   * capacity is negative or the cut to `width - 1` characters is out of range.
   */
  function Padded(s1: string, s2: string, width: int): (r: Option<string>)
    ensures r.None? <==> width < 0 || (width == 0 && |s1| > 0)
  {
    if width < 0 || (|s1| > width && width == 0) then None
    else
      var t := if |s1| > width then s1[..width - 1] else s1;
      Some(t + Spaces(width - (|t| + |s2|)) + s2)
  }

  /** The loop that builds the padded field, proved to compute `Padded`. */
  method FormatString(s1: string, s2: string, width: int) returns (r: Option<string>)
    ensures r == Padded(s1, s2, width)
  {
    if width < 0 {
      return None;
    }
    var t := s1;
    if |t| > width {
      if width == 0 {
        return None;
      }
      t := t[..width - 1];
    }
    var buf := t;
    var fill := width - (|t| + |s2|);
    var i := 0;
    while i < fill
      invariant 0 <= i <= if fill > 0 then fill else 0
      invariant buf == t + Spaces(i)
    {
      buf := buf + " ";
      i := i + 1;
    }
    buf := buf + s2;
    r := Some(buf);
  }

  /**
   * When both strings fit, the field is exactly `width` characters: `s1`
   * left-aligned, `s2` right-aligned, spaces in between.
   */
  lemma PaddedFits(s1: string, s2: string, width: int)
    requires |s1| + |s2| <= width
    ensures Padded(s1, s2, width).Some?
    ensures var f := Padded(s1, s2, width).value;
      && |f| == width
      && f[..|s1|] == s1
      && f[width - |s2|..] == s2
      && forall i :: |s1| <= i < width - |s2| ==> f[i] == ' '
  {
    var f := Padded(s1, s2, width).value;
    assert f == s1 + Spaces(width - (|s1| + |s2|)) + s2;
  }

  /**
   * When `s1` is longer than the field, its first `width - 1` characters are
   * kept and `s2` still ends the result; the field grows past `width` when
   * `s2` has more than one character.
   */
  lemma PaddedTruncates(s1: string, s2: string, width: int)
    requires 1 <= width < |s1|
    ensures Padded(s1, s2, width).Some?
    ensures var f := Padded(s1, s2, width).value;
      && |f| == (if |s2| == 0 then width else width - 1 + |s2|)
      && f[..width - 1] == s1[..width - 1]
      && f[|f| - |s2|..] == s2
  {
    var t := s1[..width - 1];
    var f := Padded(s1, s2, width).value;
    assert f == t + Spaces(1 - |s2|) + s2;
  }

  /** Whatever the lengths, a field that is built never ends with anything but `s2`. */
  lemma PaddedEndsWith(s1: string, s2: string, width: int)
    requires Padded(s1, s2, width).Some?
    ensures var f := Padded(s1, s2, width).value;
      |f| >= width && f[|f| - |s2|..] == s2
  {
    var t := if |s1| > width then s1[..width - 1] else s1;
    var f := Padded(s1, s2, width).value;
    assert f == (t + Spaces(width - (|t| + |s2|))) + s2;
  }

  // ---------------------------------------------------------------------
  // formatString(args, sizes)

  /**
   * One column: a negative size takes the argument whole; otherwise the
   * argument is cut to `size` characters and padded with spaces up to it.
   */
  function Column(arg: string, size: int): (c: string)
    ensures size >= 0 ==> |c| == size
    ensures size < 0 ==> c == arg
  {
    (if size < 0 then arg else arg[..Min(size, |arg|)]) + Spaces(size - |arg|)
  }

  /** The sum of the sizes. */
  function Sum(sizes: seq<int>): int
    decreases |sizes|
  {
    if sizes == [] then 0 else Sum(sizes[..|sizes| - 1]) + sizes[|sizes| - 1]
  }

  /** The columns of `args` laid out one after another, each with its size. */
  function Row(args: seq<string>, sizes: seq<int>): (r: string)
    requires |args| <= |sizes|
    ensures (forall i :: 0 <= i < |args| ==> sizes[i] >= 0) ==> |r| == Sum(sizes[..|args|])
    decreases |args|
  {
    if args == [] then ""
    else
      var n := |args|;
      assert sizes[..n][..n - 1] == sizes[..n - 1];
      Row(args[..n - 1], sizes) + Column(args[n - 1], sizes[n - 1])
  }

  /** The formatted row; `None` when `sizes` has fewer entries than `args`, where `sizes[i]` is out of bounds. */
  function Formatted(args: seq<string>, sizes: seq<int>): (r: Option<string>)
    ensures r.Some? <==> |args| <= |sizes|
  {
    if |sizes| < |args| then None else Some(Row(args, sizes))
  }

  /** A column of a non-negative size is exactly that wide: a cut or a padding of the argument. */
  lemma ColumnFixed(arg: string, size: int)
    requires size >= 0
    ensures |Column(arg, size)| == size
    ensures Column(arg, size)[..Min(size, |arg|)] == arg[..Min(size, |arg|)]
    ensures forall i :: |arg| <= i < size ==> Column(arg, size)[i] == ' '
  {
    var c := Column(arg, size);
    assert c == arg[..Min(size, |arg|)] + Spaces(size - |arg|);
  }

  /** A column of a negative size is the argument as it is. */
  lemma ColumnFree(arg: string, size: int)
    requires size < 0
    ensures Column(arg, size) == arg
  {
    assert Spaces(size - |arg|) == "";
  }

  /** Appends one column to `buf`, character by character. */
  method AppendColumn(buf: string, arg: string, size: int) returns (r: string)
    ensures r == buf + Column(arg, size)
  {
    r := buf;
    if size < 0 {
      r := r + arg;
    } else {
      var j := 0;
      while j < size && j < |arg|
        invariant 0 <= j <= Min(size, |arg|)
        invariant r == buf + arg[..j]
      {
        assert arg[..j + 1] == arg[..j] + [arg[j]];
        r := r + [arg[j]];
        j := j + 1;
      }
    }
    ghost var cut := r;
    var k := 0;
    while k < size - |arg|
      invariant 0 <= k <= if size - |arg| > 0 then size - |arg| else 0
      invariant r == cut + Spaces(k)
    {
      r := r + " ";
      k := k + 1;
    }
  }

  /** The loop over the columns, proved to compute `Formatted`. */
  method FormatColumns(args: seq<string>, sizes: seq<int>) returns (r: Option<string>)
    ensures r == Formatted(args, sizes)
  {
    var buf := "";
    var i := 0;
    while i < |args|
      invariant 0 <= i <= |args|
      invariant i <= |sizes|
      invariant buf == Row(args[..i], sizes)
    {
      if i >= |sizes| {
        return None;
      }
      assert Row(args[..i + 1], sizes) == Row(args[..i], sizes) + Column(args[i], sizes[i]) by {
        assert args[..i + 1][..i] == args[..i];
      }
      buf := AppendColumn(buf, args[i], sizes[i]);
      i := i + 1;
    }
    assert args[..|args|] == args;
    r := Some(buf);
  }

  /** The row for the first `k` arguments is the start of the row for all of them. */
  lemma {:induction false} RowPrefix(args: seq<string>, sizes: seq<int>, k: nat)
    requires k <= |args| <= |sizes|
    ensures |Row(args[..k], sizes)| <= |Row(args, sizes)|
    ensures Row(args, sizes)[..|Row(args[..k], sizes)|] == Row(args[..k], sizes)
    decreases |args|
  {
    if k < |args| {
      var init := args[..|args| - 1];
      assert init[..k] == args[..k];
      RowPrefix(init, sizes, k);
    } else {
      assert args[..k] == args;
    }
  }

  /** The column sizes of a collection listing: permissions, owner, group, then the name. */
  const ColSizes: seq<int> := [10, 10, 10, -1]

  /**
   * A collection's listing line is 'd' followed by three 10-character
   * columns and then the collection name in full.
   */
  lemma CollectionLine(cols: seq<string>)
    requires |cols| == 4
    ensures Formatted(cols, ColSizes).Some?
    ensures var line := "d" + Formatted(cols, ColSizes).value;
      && |line| == 31 + |cols[3]|
      && line[1..11] == Column(cols[0], 10)
      && line[11..21] == Column(cols[1], 10)
      && line[21..31] == Column(cols[2], 10)
      && line[31..] == cols[3]
  {
    var c0, c1, c2 := Column(cols[0], 10), Column(cols[1], 10), Column(cols[2], 10);
    ColumnFixed(cols[0], 10);
    ColumnFixed(cols[1], 10);
    ColumnFixed(cols[2], 10);
    ColumnFree(cols[3], -1);
    assert cols[..3][..2] == cols[..2];
    assert cols[..2][..1] == cols[..1];
    assert cols[..1][..0] == [];
    assert Row(cols[..1], ColSizes) == c0;
    assert Row(cols[..2], ColSizes) == c0 + c1;
    assert Row(cols[..3], ColSizes) == c0 + c1 + c2;
    assert Row(cols, ColSizes) == c0 + c1 + c2 + cols[3];
  }

  // ---------------------------------------------------------------------
  // cd

  /** The home collection. */
  const Root: string := "/db"

  /** The index of the last `c` in `s`, or -1 when there is none. */
  function LastIndexOf(s: string, c: char): (r: int)
    ensures -1 <= r < |s|
    ensures r >= 0 ==> s[r] == c
    ensures forall i :: r < i < |s| ==> s[i] != c
  {
    if s == [] then -1
    else if s[|s| - 1] == c then |s| - 1
    else LastIndexOf(s[..|s| - 1], c)
  }

  /**
   * The collection path `cd` looks up from the current `path`: home without
   * an argument or from home with "..", otherwise ".." drops the last
   * segment (an empty result is home), an argument starting with '/' is
   * absolute and any other is appended as a child.  `None` where ".." meets
   * a path without '/' and the substring is out of range.
   */
  function CdTarget(path: string, arg: Option<string>): (r: Option<string>)
    ensures r.None? <==> arg == Some("..") && path != Root && '/' !in path
  {
    match arg
    case None => Some(Root)
    case Some(a) =>
      if a == ".." then
        if path == Root then Some(Root)
        else
          var k := LastIndexOf(path, '/');
          if k < 0 then None
          else
            var p := path[..k];
            Some(if |p| == 0 then Root else p)
      else if |a| > 0 && a[0] == '/' then Some(a)
      else Some(path + "/" + a)
  }

  /** A path that starts with '/' always has a target, and the target starts with '/'. */
  lemma CdStaysRooted(path: string, arg: Option<string>)
    requires |path| > 0 && path[0] == '/'
    ensures CdTarget(path, arg).Some?
    ensures |CdTarget(path, arg).value| > 0 && CdTarget(path, arg).value[0] == '/'
  {
    if arg.Some? && arg.value == ".." && path != Root {
      assert path[0] == '/';
    }
  }

  /** ".." goes to the part of the path before its last '/', or home when that part is empty. */
  lemma CdUp(path: string)
    requires path != Root && '/' in path
    ensures CdTarget(path, Some("..")).Some?
    ensures var p := CdTarget(path, Some("..")).value;
      p == Root || (|p| < |path| && path[..|p|] == p && path[|p|] == '/' && forall j :: |p| < j < |path| ==> path[j] != '/')
  {
    var i :| 0 <= i < |path| && path[i] == '/';
    assert LastIndexOf(path, '/') >= i;
  }

  /** Going into a child collection and back up returns to where `cd` started. */
  lemma CdChildThenUp(path: string, child: string)
    requires |path| > 0 && '/' !in child && child != ".."
    ensures CdTarget(path, Some(child)) == Some(path + "/" + child)
    ensures CdTarget(path + "/" + child, Some("..")) == Some(path)
  {
    var q := path + "/" + child;
    assert q[|path|] == '/';
    assert forall j :: |path| < j < |q| ==> q[j] == child[j - |path| - 1];
    assert LastIndexOf(q, '/') == |path|;
    assert q[..|path|] == path;
  }

  // ---------------------------------------------------------------------
  // show

  /** A command-line argument of `show`: missing, a number, or text `parseInt` rejects. */
  datatype Arg = Absent | Number(n: int) | Malformed

  predicate ArgOk(a: Arg) {
    a.Number? ==> LogFormat.IsInt32(a.n)
  }

  /**
   * What `show` does: no result set, a malformed number, a start out of
   * range, or the 0-based items `lo` up to (not including) `hi` displayed
   * with `next` the new 1-based start of the following `show`.
   */
  datatype ShowOutcome =
    | NoResultSet
    | WrongArgument
    | OutOfRange
    | Shown(lo: int, hi: int, next: int)

  /**
   * `show` as written: `start + count` is Java `int` arithmetic, so a count
   * near the largest `int` wraps the sum negative, the clamp to the result
   * size is skipped and nothing is displayed.  `size` is the result set's
   * size, a `long` cast to `int`.
   */
  function ShowAsWritten(next: int, start: Arg, count: Arg, size: Option<nat>): (r: ShowOutcome)
    requires ArgOk(start) && ArgOk(count) && LogFormat.IsInt32(next)
    ensures r == NoResultSet <==> size.None?
    ensures r == WrongArgument <==> size.Some? && (start.Malformed? || count.Malformed?)
    ensures r.Shown? ==> size.Some? && 0 <= r.lo < LogFormat.Int32(size.value) && r.hi <= LogFormat.Int32(size.value)
  {
    if size.None? then NoResultSet
    else if start.Malformed? || count.Malformed? then WrongArgument
    else
      var first := if start.Number? then start.n else next;
      var c := if count.Number? then count.n else 1;
      var s := LogFormat.Int32(size.value);
      if first < 1 || first > s then OutOfRange
      else
        var st := first - 1;
        var c' := if LogFormat.Int32(st + c) > s then s - st else c;
        Shown(st, LogFormat.Int32(st + c'), LogFormat.Int32(st + c' + 1))
  }

  /**
   * `show` with the clamp compared without wrap-around: the window is cut at
   * the end of the result set.  `next` keeps the `int` wrap of the source,
   * which only matters for a result set of the largest `int` size.
   */
  function ShowWindow(next: int, start: Arg, count: Arg, size: Option<nat>): (r: ShowOutcome)
    requires ArgOk(start) && ArgOk(count) && LogFormat.IsInt32(next)
    ensures r == NoResultSet <==> size.None?
    ensures r == WrongArgument <==> size.Some? && (start.Malformed? || count.Malformed?)
    ensures r.Shown? ==> size.Some? && 0 <= r.lo < LogFormat.Int32(size.value) && r.hi <= LogFormat.Int32(size.value)
    ensures r.Shown? && (if count.Number? then count.n else 1) >= 1 ==> r.lo < r.hi
  {
    if size.None? then NoResultSet
    else if start.Malformed? || count.Malformed? then WrongArgument
    else
      var first := if start.Number? then start.n else next;
      var c := if count.Number? then count.n else 1;
      var s := LogFormat.Int32(size.value);
      if first < 1 || first > s then OutOfRange
      else
        var st := first - 1;
        var c' := if st + c > s then s - st else c;
        Shown(st, st + c', LogFormat.Int32(st + c' + 1))
  }

  /**
   * The window starts at the requested 1-based item, ends at the requested
   * count or at the end of the result set, whichever comes first, and the
   * next `show` starts one past the last item displayed.
   */
  lemma ShowWindowBounds(next: int, start: Arg, count: Arg, size: nat)
    requires ArgOk(start) && ArgOk(count) && LogFormat.IsInt32(next)
    requires size <= LogFormat.IntMax
    requires ShowWindow(next, start, count, Some(size)).Shown?
    ensures var w := ShowWindow(next, start, count, Some(size));
      var first := if start.Number? then start.n else next;
      var c := if count.Number? then count.n else 1;
      && w.lo == first - 1
      && 0 <= w.lo < size
      && w.hi == Min(w.lo + c, size)
      && (c >= 1 ==> w.lo < w.hi)
      && (w.hi < LogFormat.IntMax ==> w.next == w.hi + 1)
  {
  }

  /** `show` refuses exactly the starts outside 1 ..= size. */
  lemma ShowOutOfRange(next: int, start: Arg, count: Arg, size: nat)
    requires ArgOk(start) && ArgOk(count) && LogFormat.IsInt32(next)
    requires size <= LogFormat.IntMax && !start.Malformed? && !count.Malformed?
    ensures var first := if start.Number? then start.n else next;
      ShowWindow(next, start, count, Some(size)) == OutOfRange <==> first < 1 || first > size
  {
  }

  /**
   * Pages forward: after a window ending at `hi`, a `show` without arguments
   * displays the single item `hi`, or is out of range at the end of the set.
   */
  lemma ShowContinues(next: int, start: Arg, count: Arg, size: nat)
    requires ArgOk(start) && ArgOk(count) && LogFormat.IsInt32(next)
    requires size < LogFormat.IntMax
    requires ShowWindow(next, start, count, Some(size)).Shown?
    ensures var w := ShowWindow(next, start, count, Some(size));
      var w' := ShowWindow(w.next, Absent, Absent, Some(size));
      if 0 <= w.hi < size then w' == Shown(w.hi, w.hi + 1, w.hi + 2)
      else w' == OutOfRange
  {
    ShowWindowBounds(next, start, count, size);
  }

  /**
   * The wrap-around as written: `show 2 2147483647` on a set of five results
   * displays nothing, where the clamped window displays items 2 to 5.
   */
  lemma ShowOverflowSkipsWindow()
    ensures ShowAsWritten(1, Number(2), Number(LogFormat.IntMax), Some(5)).Shown?
    ensures var w := ShowAsWritten(1, Number(2), Number(LogFormat.IntMax), Some(5));
      w.hi < w.lo && w.next == LogFormat.IntMin + 1
    ensures ShowWindow(1, Number(2), Number(LogFormat.IntMax), Some(5)) == Shown(1, 5, 6)
  {
    assert LogFormat.Int32(1 + LogFormat.IntMax) == LogFormat.IntMin;
  }

  /** Whenever `start - 1 + count` fits an `int`, the two agree. */
  lemma ShowAgrees(next: int, start: Arg, count: Arg, size: Option<nat>)
    requires ArgOk(start) && ArgOk(count) && LogFormat.IsInt32(next)
    requires (if start.Number? then start.n else next) - 1 + (if count.Number? then count.n else 1) <= LogFormat.IntMax
    ensures ShowAsWritten(next, start, count, size) == ShowWindow(next, start, count, size)
  {
  }

  /** The integers `lo` up to (not including) `hi`. */
  function Range(lo: int, hi: int): (r: seq<int>)
    decreases if hi > lo then hi - lo else 0
    ensures |r| == (if hi > lo then hi - lo else 0)
    ensures forall i :: 0 <= i < |r| ==> r[i] == lo + i
  {
    if hi <= lo then [] else [lo] + Range(lo + 1, hi)
  }

  /** The client's state that the modelled commands read and update. */
  class InteractiveClient {
    /** The current collection path. */
    var path: string
    /** The 1-based start of the next `show` without arguments. */
    var nextInSet: int

    ghost predicate Valid()
      reads this
    {
      LogFormat.IsInt32(nextInSet)
    }

    /** A client starting in `path` ("/db" unless given on the command line). */
    constructor(path: string)
      ensures Valid()
      ensures this.path == path && nextInSet == 1
    {
      this.path := path;
      nextInSet := 1;
    }

    /** A new query result restarts `show` at the first item. */
    method NewResultSet()
      requires Valid()
      modifies this`nextInSet
      ensures Valid() && nextInSet == 1
    {
      nextInSet := 1;
    }

    /**
     * `cd`: moves to the target collection when it is one of `collections`
     * (the collections the database has); `None` where the path rule throws.
     */
    method Cd(arg: Option<string>, collections: set<string>) returns (found: Option<bool>)
      requires Valid()
      modifies this`path
      ensures Valid()
      ensures var t := CdTarget(old(path), arg);
        && (found.Some? <==> t.Some?)
        && (found == Some(true) <==> t.Some? && t.value in collections)
        && path == (if found == Some(true) then t.value else old(path))
    {
      var t := CdTarget(path, arg);
      if t.None? {
        return None;
      }
      if t.value in collections {
        path := t.value;
        found := Some(true);
      } else {
        found := Some(false);
      }
    }

    /**
     * `show`: displays the window of the result set of `size` items and
     * moves `nextInSet` past it; `displayed` lists the 0-based items fetched.
     */
    method Show(start: Arg, count: Arg, size: Option<nat>) returns (outcome: ShowOutcome, displayed: seq<int>)
      requires Valid() && ArgOk(start) && ArgOk(count)
      modifies this`nextInSet
      ensures Valid()
      ensures outcome == ShowWindow(old(nextInSet), start, count, size)
      ensures outcome.Shown? ==> nextInSet == outcome.next && displayed == Range(outcome.lo, outcome.hi)
      ensures !outcome.Shown? ==> nextInSet == old(nextInSet) && displayed == []
    {
      outcome := ShowSteps(nextInSet, start, count, size);
      displayed := [];
      if outcome.Shown? {
        nextInSet := outcome.next;
        displayed := Fetch(outcome.lo, outcome.hi);
      }
    }
  }

  /**
   * The steps of `show` before its display loop: the argument checks, the
   * range check, the clamp of the count and the new `nextInSet`, computed
   * from the current `nextInSet` value `next`.
   */
  method ShowSteps(next: int, start: Arg, count: Arg, size: Option<nat>) returns (outcome: ShowOutcome)
    requires ArgOk(start) && ArgOk(count) && LogFormat.IsInt32(next)
    ensures outcome == ShowWindow(next, start, count, size)
  {
    if size.None? {
      return NoResultSet;
    }
    if start.Malformed? || count.Malformed? {
      return WrongArgument;
    }
    var first := if start.Number? then start.n else next;
    var c := if count.Number? then count.n else 1;
    var s := LogFormat.Int32(size.value);
    if first < 1 || first > s {
      return OutOfRange;
    }
    first := first - 1;
    if first + c > s {
      c := s - first;
    }
    outcome := Shown(first, first + c, LogFormat.Int32(first + c + 1));
  }

  /** The display loop of `show`: the items `lo` up to (not including) `hi`, fetched in order. */
  method Fetch(lo: int, hi: int) returns (displayed: seq<int>)
    ensures displayed == Range(lo, hi)
  {
    displayed := [];
    var stop := if hi < lo then lo else hi;
    for i := lo to stop
      invariant displayed == Range(lo, i)
    {
      RangeSnoc(lo, i);
      displayed := displayed + [i];
    }
  }

  lemma {:induction false} RangeSnoc(lo: int, hi: int)
    requires lo <= hi
    ensures Range(lo, hi + 1) == Range(lo, hi) + [hi]
    decreases hi - lo
  {
    if lo < hi {
      RangeSnoc(lo + 1, hi);
    }
  }
}
