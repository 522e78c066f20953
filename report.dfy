/** The top-N reporter of du-lite.c: compare_dir_info, print_sizes and
    sweep_directory. */
module Report {
  import opened FsTree
  import opened Units

  /** DirInfo: a measured subdirectory, its full path and its size. */
  datatype DirInfo = DirInfo(path: string, size: int)

  /** One reported line "<path>: <value>.0 <unit>", as the path, the whole
      value printed and the index of the unit label. */
  datatype Line = Line(path: string, value: int, unit: nat)

  // ----- compare_dir_info -----

  /** The comparator handed to qsort, read as intended: negative when a is
      the larger directory (so it sorts first), zero for equal sizes,
      positive when b is larger. */
  function CompareDirInfo(a: DirInfo, b: DirInfo): (r: int)
    ensures r < 0 <==> a.size > b.size
    ensures r == 0 <==> a.size == b.size
    ensures r > 0 <==> a.size < b.size
  {
    b.size - a.size
  }

  /** The conversion of a long long to the int the comparator returns:
      keep the low 32 bits and read them as two's complement. */
  function ToInt32(x: int): (r: int)
    ensures -0x8000_0000 <= r < 0x8000_0000
    ensures (r - x) % 0x1_0000_0000 == 0
  {
    var low := x % 0x1_0000_0000;
    if low < 0x8000_0000 then low else low - 0x1_0000_0000
  }

  /** compare_dir_info exactly as written: the long long difference of the
      sizes returned as an int. */
  function CompareAsWritten(a: DirInfo, b: DirInfo): (r: int)
    ensures -0x8000_0000 <= r < 0x8000_0000
    ensures (r - (b.size - a.size)) % 0x1_0000_0000 == 0
  {
    ToInt32(b.size - a.size)
  }

  /** As written, the comparator agrees with the intended one while the
      sizes differ by less than 2^31 bytes (2 GiB), but not beyond: a gap
      of exactly 2^31 bytes ranks the smaller directory first, and a gap of
      4 GiB reports the two as equal. */
  lemma ComparatorTruncation()
    ensures forall a: DirInfo, b: DirInfo
      :: -0x8000_0000 < b.size - a.size < 0x8000_0000 ==> CompareAsWritten(a, b) == CompareDirInfo(a, b)
    ensures CompareAsWritten(DirInfo("small", 1), DirInfo("big", 0x8000_0001)) < 0
    ensures CompareDirInfo(DirInfo("small", 1), DirInfo("big", 0x8000_0001)) > 0
    ensures CompareAsWritten(DirInfo("small", 1), DirInfo("big", 0x1_0000_0001)) == 0
    ensures CompareDirInfo(DirInfo("small", 1), DirInfo("big", 0x1_0000_0001)) > 0
  {
  }

  // ----- Sorting and print_sizes -----

  /** Sizes never increase along the sequence. */
  predicate SortedDescending(s: seq<DirInfo>)
  {
    forall i, j :: 0 <= i < j < |s| ==> s[i].size >= s[j].size
  }

  /** qsort(dirs, dir_count, sizeof(DirInfo), compare_dir_info): the
      entries end up in non-increasing order of size and are a
      permutation of what was there. The order of equal sizes is not
      specified by qsort; this insertion sort keeps it. */
  method SortBySizeDescending(a: array<DirInfo>)
    modifies a
    ensures SortedDescending(a[..])
    ensures multiset(a[..]) == old(multiset(a[..]))
  {
    var i := 0;
    while i < a.Length
      invariant 0 <= i <= a.Length
      invariant SortedDescending(a[..i])
      invariant multiset(a[..]) == old(multiset(a[..]))
    {
      StartInsert(a[..], i);
      var j := i;
      while j > 0 && CompareDirInfo(a[j - 1], a[j]) > 0
        invariant 0 <= j <= i
        invariant SortedExcept(a[..], i, j) && LargerThanRight(a[..], i, j)
        invariant multiset(a[..]) == old(multiset(a[..]))
      {
        SwapStep(a[..], i, j);
        a[j - 1], a[j] := a[j], a[j - 1];
        j := j - 1;
      }
      InsertDone(a[..], i, j);
      i := i + 1;
    }
    assert a[..a.Length] == a[..];
  }

  /** Sorted up to index hi, leaving out the element at j. */
  predicate SortedExcept(s: seq<DirInfo>, hi: nat, j: nat)
    requires hi < |s|
  {
    forall k, m :: 0 <= k < m <= hi && k != j && m != j ==> s[k].size >= s[m].size
  }

  /** The element at j is larger than every element after it up to hi. */
  predicate LargerThanRight(s: seq<DirInfo>, hi: nat, j: nat)
    requires j <= hi < |s|
  {
    forall m :: j < m <= hi ==> s[m].size < s[j].size
  }

  function SwapAdjacent(s: seq<DirInfo>, j: nat): seq<DirInfo>
    requires 0 < j < |s|
  {
    s[j - 1 := s[j]][j := s[j - 1]]
  }

  lemma StartInsert(s: seq<DirInfo>, i: nat)
    requires i < |s| && SortedDescending(s[..i])
    ensures SortedExcept(s, i, i) && LargerThanRight(s, i, i)
  {
    forall k, m | 0 <= k < m <= i && k != i && m != i
      ensures s[k].size >= s[m].size
    {
      assert s[k] == s[..i][k] && s[m] == s[..i][m];
    }
  }

  /** One step of the inner loop: swapping the inserted element one place
      to the left keeps the loop invariants and the multiset. */
  lemma SwapStep(s: seq<DirInfo>, i: nat, j: nat)
    requires 0 < j <= i < |s|
    requires SortedExcept(s, i, j) && LargerThanRight(s, i, j)
    requires s[j - 1].size < s[j].size
    ensures SortedExcept(SwapAdjacent(s, j), i, j - 1) && LargerThanRight(SwapAdjacent(s, j), i, j - 1)
    ensures multiset(SwapAdjacent(s, j)) == multiset(s)
  {
    var t := SwapAdjacent(s, j);
    assert t == s[..j - 1] + [s[j], s[j - 1]] + s[j + 1..];
    assert s == s[..j - 1] + [s[j - 1], s[j]] + s[j + 1..];
  }

  /** When the inner loop stops, the first i + 1 elements are sorted. */
  lemma InsertDone(s: seq<DirInfo>, i: nat, j: nat)
    requires j <= i < |s|
    requires SortedExcept(s, i, j) && LargerThanRight(s, i, j)
    requires j == 0 || s[j - 1].size >= s[j].size
    ensures SortedDescending(s[..i + 1])
  {
    forall k, m | 0 <= k < m <= i
      ensures s[k].size >= s[m].size
    {
      if m == j && k < j - 1 {
        assert s[k].size >= s[j - 1].size;
      }
    }
  }

  /** The number print_sizes announces: the requested count, clamped to
      the number of entries. */
  function Shown(n: int, count: nat): (r: int)
    ensures r <= count && r <= n
    ensures r == n || r == count
  {
    if n > count then count else n
  }

  /** The line printed for an entry: its path and its size through
      format_size. */
  function LineOf(d: DirInfo): Line
  {
    Line(d.path, Scaled(d.size), UnitFor(d.size))
  }

  /** The lines printed for the first Shown(n, |s|) entries of s. */
  function Emitted(s: seq<DirInfo>, n: int): seq<Line>
  {
    var count := if Shown(n, |s|) < 0 then 0 else Shown(n, |s|);
    seq(count, k requires 0 <= k < count => LineOf(s[k]))
  }

  /** print_sizes: clamp the count, sort the entries in place, then format
      and emit the first entries. */
  method PrintSizes(dirs: array<DirInfo>, n: int) returns (shown: int, lines: seq<Line>)
    modifies dirs
    ensures shown == Shown(n, dirs.Length)
    ensures SortedDescending(dirs[..])
    ensures multiset(dirs[..]) == old(multiset(dirs[..]))
    ensures lines == Emitted(dirs[..], n)
  {
    shown := n;
    if shown > dirs.Length {
      shown := dirs.Length;
    }
    SortBySizeDescending(dirs);
    ghost var sorted := dirs[..];
    lines := [];
    var i := 0;
    while i < shown && i < dirs.Length
      invariant dirs[..] == sorted
      invariant 0 <= i
      invariant i <= dirs.Length && (i <= shown || i == 0)
      invariant |lines| == i
      invariant forall k :: 0 <= k < i ==> lines[k] == LineOf(dirs[k])
    {
      var value, unit := ScaleSize(dirs[i].size);
      lines := lines + [Line(dirs[i].path, value, unit)];
      i := i + 1;
    }
  }

  /** The size order of the entries carries over to the printed lines:
      a later line never shows a larger unit, nor a larger value in the
      same unit. */
  lemma EmittedInDisplayOrder(s: seq<DirInfo>, n: int, i: nat, j: nat)
    requires SortedDescending(s) && forall k :: 0 <= k < |s| ==> s[k].size >= 0
    requires i < j < |Emitted(s, n)|
    ensures Emitted(s, n)[i].unit >= Emitted(s, n)[j].unit
    ensures Emitted(s, n)[i].unit == Emitted(s, n)[j].unit ==> Emitted(s, n)[i].value >= Emitted(s, n)[j].value
  {
    var a, b := s[j].size, s[i].size;
    assert a <= b;
    UnitForMonotone(a, b);
    if UnitFor(a) == UnitFor(b) {
      ScaledMonotoneWithinUnit(a, b);
    }
  }

  /** The printed line of an entry is the text format_size returns for its
      size: the digits of the line's value, ".0 ", then the label of the
      line's unit. */
  lemma LineShowsFormatText(d: DirInfo)
    requires 0 <= d.size <= LongLongMax
    ensures LineOf(d).unit <= LastUnit && LineOf(d).value >= 0
    ensures FormatText(d.size) == Digits(LineOf(d).value) + ".0 " + UnitLabels[LineOf(d).unit]
  {
    FormatTextNeverTruncated(d.size);
    ScaledBounds(d.size);
  }

  /** The printed entries are the largest ones: no entry left out is larger
      than one that was printed. */
  lemma EmittedAreLargest(s: seq<DirInfo>, n: int, i: nat, j: nat)
    requires SortedDescending(s)
    requires i < |Emitted(s, n)| <= j < |s|
    ensures s[i].size >= s[j].size
    ensures Emitted(s, n)[i].path == s[i].path
  {
  }

  // ----- sweep_directory -----

  /** Why a sweep ends with the program exiting with failure. */
  datatype SweepError =
    | BaseOpenFailed             // opendir on the base directory failed
    | PathFailed(name: string)   // create_pathname failed for this entry name
    | SizeFailed(path: string)   // calculate_directory_size returned -1 for this path

  /** What a sweep does: exit with an error, finish without printing, or
      print the header for `shown` directories followed by `lines`. */
  datatype SweepOutcome =
    | Failed(error: SweepError)
    | Quiet
    | Printed(shown: int, lines: seq<Line>)

  /** The state of the collection loop: the entries gathered so far, or the
      error that ended it. */
  datatype Collection = Collecting(entries: seq<DirInfo>) | Aborted(error: SweepError)

  /** The collection after the readdir loop of sweep_directory has seen the
      first i entries of the base directory. */
  function CollectUpTo(base: string, cs: seq<Entry>, i: nat): (c: Collection)
    requires i <= |cs|
    ensures c.Collecting? ==> |c.entries| <= i
    ensures c.Collecting? ==> forall d :: d in c.entries ==> d.size >= 1
  {
    if i == 0 then Collecting([])
    else match CollectUpTo(base, cs, i - 1)
      case Aborted(err) => Aborted(err)
      case Collecting(acc) =>
        var e := cs[i - 1];
        if IsDotName(e.name) then Collecting(acc)
        else if !e.pathBuilds then Aborted(PathFailed(e.name))
        else if !e.node.Dir? then Collecting(acc)
        else
          var size := DirSize(e.node);
          if size == -1 then Aborted(SizeFailed(JoinPath(base, e.name)))
          else if size >= 1 then Collecting(acc + [DirInfo(JoinPath(base, e.name), size)])
          else Collecting(acc)
  }

  /** An entry that is collected: not "." or "..", its path builds, lstat
      says it is a directory, and its size was measured. */
  predicate MeasuredAs(base: string, e: Entry, d: DirInfo)
  {
    !IsDotName(e.name) && e.pathBuilds && e.node.Dir? &&
    d.path == JoinPath(base, e.name) && d.size == DirSize(e.node)
  }

  /** sweep_directory: open the base directory, collect one entry per
      measured subdirectory of size at least 1, and print the largest ones.
      The base is a directory: the caller has validated it. */
  method SweepDirectory(base: string, dir: Node, n: int) returns (outcome: SweepOutcome, sorted: seq<DirInfo>)
    requires dir.Dir?
    ensures !dir.openable ==> outcome == Failed(BaseOpenFailed)
    ensures dir.openable ==> match CollectUpTo(base, dir.children, |dir.children|)
      case Aborted(err) => outcome == Failed(err)
      case Collecting(entries) =>
        if entries == [] then outcome == Quiet
        else outcome == Printed(Shown(n, |entries|), Emitted(sorted, n)) &&
             SortedDescending(sorted) && multiset(sorted) == multiset(entries)
  {
    sorted := [];
    if !dir.openable {
      return Failed(BaseOpenFailed), sorted;
    }
    var cs := dir.children;
    var dirs: seq<DirInfo> := [];
    var i := 0;
    while i < |cs|
      invariant i <= |cs|
      invariant CollectUpTo(base, cs, i) == Collecting(dirs)
    {
      var e := cs[i];
      i := i + 1;
      if IsDotName(e.name) {
        continue;
      }
      if !e.pathBuilds {
        AbortSticks(base, cs, i, |cs|);
        return Failed(PathFailed(e.name)), sorted;
      }
      if !e.node.Dir? {
        continue;
      }
      var path := JoinPath(base, e.name);
      var size := CalculateDirectorySize(e.node);
      if size == -1 {
        AbortSticks(base, cs, i, |cs|);
        return Failed(SizeFailed(path)), sorted;
      }
      if size >= 1 {
        dirs := dirs + [DirInfo(path, size)];
      }
    }
    if dirs == [] {
      return Quiet, sorted;
    }
    var a := new DirInfo[|dirs|](k requires 0 <= k < |dirs| => dirs[k]);
    assert a[..] == dirs;
    var shown, lines := PrintSizes(a, n);
    sorted := a[..];
    outcome := Printed(shown, lines);
  }

  // ----- Properties of the collection -----

  lemma {:induction false} AbortSticks(base: string, cs: seq<Entry>, i: nat, j: nat)
    requires i <= j <= |cs| && CollectUpTo(base, cs, i).Aborted?
    ensures CollectUpTo(base, cs, j) == CollectUpTo(base, cs, i)
    decreases j - i
  {
    if i < j {
      AbortSticks(base, cs, i, j - 1);
    }
  }

  /** Every collected entry came from a child of the base that is not "."
      or "..", whose path builds, that is a directory, and whose measured
      size is at least 1. */
  lemma {:induction false} CollectedAreMeasuredSubdirs(base: string, cs: seq<Entry>, i: nat)
    requires i <= |cs| && CollectUpTo(base, cs, i).Collecting?
    ensures forall d :: d in CollectUpTo(base, cs, i).entries ==>
      d.size >= 1 && exists k :: 0 <= k < i && MeasuredAs(base, cs[k], d)
  {
    if i > 0 {
      CollectedAreMeasuredSubdirs(base, cs, i - 1);
      var acc := CollectUpTo(base, cs, i - 1).entries;
      forall d | d in CollectUpTo(base, cs, i).entries
        ensures d.size >= 1 && exists k :: 0 <= k < i && MeasuredAs(base, cs[k], d)
      {
        if d !in acc {
          assert MeasuredAs(base, cs[i - 1], d);
        }
      }
    }
  }

  /** Every child that is not "." or "..", whose path builds, that is a
      directory and that measures at least 1 is collected, with its full
      path and its size, unless the sweep was aborted. */
  lemma {:induction false} MeasuredSubdirsAreCollected(base: string, cs: seq<Entry>, i: nat, k: nat)
    requires k < i <= |cs| && CollectUpTo(base, cs, i).Collecting?
    requires !IsDotName(cs[k].name) && cs[k].pathBuilds && cs[k].node.Dir? && DirSize(cs[k].node) >= 1
    ensures DirInfo(JoinPath(base, cs[k].name), DirSize(cs[k].node)) in CollectUpTo(base, cs, i).entries
  {
    if k < i - 1 {
      MeasuredSubdirsAreCollected(base, cs, i - 1, k);
    }
  }

  /** Each step of the loop appends at most one entry and leaves the
      earlier entries unchanged. */
  lemma CollectionOnlyAppends(base: string, cs: seq<Entry>, i: nat)
    requires i < |cs| && CollectUpTo(base, cs, i + 1).Collecting?
    ensures CollectUpTo(base, cs, i).Collecting?
    ensures var before, after := CollectUpTo(base, cs, i).entries, CollectUpTo(base, cs, i + 1).entries;
      after == before || (|after| == |before| + 1 && after[..|before|] == before)
  {
  }

  /** Conversely, the sweep aborts only at a child other than "." and ".."
      whose path cannot be built or which is a subdirectory measuring -1,
      and the error names the first such child: entries lstat cannot read
      and non-directories are skipped, never errors. */
  lemma {:induction false} AbortsOnlyOnFailure(base: string, cs: seq<Entry>, i: nat)
    requires i <= |cs| && CollectUpTo(base, cs, i).Aborted?
    ensures exists k :: (0 <= k < i && !IsDotName(cs[k].name) && CollectUpTo(base, cs, k).Collecting? &&
      ((!cs[k].pathBuilds && CollectUpTo(base, cs, i).error == PathFailed(cs[k].name)) ||
       (cs[k].pathBuilds && cs[k].node.Dir? && DirSize(cs[k].node) == -1 &&
        CollectUpTo(base, cs, i).error == SizeFailed(JoinPath(base, cs[k].name)))))
  {
    if CollectUpTo(base, cs, i - 1).Aborted? {
      AbortsOnlyOnFailure(base, cs, i - 1);
    } else {
      assert CollectUpTo(base, cs, i - 1).Collecting?;
    }
  }

  /** A child of the base whose path cannot be built, or a subdirectory
      whose size computes to -1, makes the whole sweep fail: nothing is
      reported. */
  lemma AnyFailureAborts(base: string, cs: seq<Entry>, k: nat)
    requires k < |cs| && !IsDotName(cs[k].name)
    requires !cs[k].pathBuilds || (cs[k].node.Dir? && DirSize(cs[k].node) == -1)
    ensures CollectUpTo(base, cs, |cs|).Aborted?
  {
    if CollectUpTo(base, cs, k).Aborted? {
      AbortSticks(base, cs, k, |cs|);
    } else {
      assert CollectUpTo(base, cs, k + 1).Aborted?;
      AbortSticks(base, cs, k + 1, |cs|);
    }
  }

  /** When the sweep finishes without collecting anything, every
      subdirectory measured below 1 byte without being -1: empty
      subdirectories, and subdirectories whose nested open failures pulled
      the total below zero, are silently left out. */
  lemma {:induction false} QuietMeansNothingToReport(base: string, cs: seq<Entry>, i: nat)
    requires i <= |cs| && CollectUpTo(base, cs, i) == Collecting([])
    ensures forall k :: 0 <= k < i && !IsDotName(cs[k].name) ==> cs[k].pathBuilds
    ensures forall k :: 0 <= k < i && !IsDotName(cs[k].name) && cs[k].node.Dir? ==>
      DirSize(cs[k].node) < 1 && DirSize(cs[k].node) != -1
  {
    if i > 0 {
      CollectionEmptyBefore(base, cs, i);
      QuietMeansNothingToReport(base, cs, i - 1);
    }
  }

  lemma CollectionEmptyBefore(base: string, cs: seq<Entry>, i: nat)
    requires 0 < i <= |cs| && CollectUpTo(base, cs, i) == Collecting([])
    ensures CollectUpTo(base, cs, i - 1) == Collecting([])
  {
  }

  /** The example of a base holding a/ (600 MiB of files), b/ (10 KiB), an
      empty c/ and a loose file f.txt: a and b are collected, in readdir
      order, and print as 600 MB and 10 KB; c and f.txt are absent. */
  lemma ReportExample()
    ensures var cs := [
        Entry(".", true, Dir(true, [])),
        Entry("a", true, Dir(true, [Entry("big", true, File(629145600))])),
        Entry("b", true, Dir(true, [Entry("small", true, File(10240))])),
        Entry("c", true, Dir(true, [])),
        Entry("f.txt", true, File(7))];
      CollectUpTo("base", cs, |cs|) == Collecting([DirInfo("base/a", 629145600), DirInfo("base/b", 10240)]) &&
      LineOf(DirInfo("base/a", 629145600)) == Line("base/a", 600, 2) &&
      LineOf(DirInfo("base/b", 10240)) == Line("base/b", 10, 1) &&
      SortedDescending([DirInfo("base/a", 629145600), DirInfo("base/b", 10240)]) &&
      Emitted([DirInfo("base/a", 629145600), DirInfo("base/b", 10240)], 2) ==
        [Line("base/a", 600, 2), Line("base/b", 10, 1)]
  {
    var a := Dir(true, [Entry("big", true, File(629145600))]);
    var b := Dir(true, [Entry("small", true, File(10240))]);
    var c := Dir(true, []);
    assert SumUpTo(a, 1) == Some(629145600);
    assert SumUpTo(b, 1) == Some(10240);
    assert DirSize(c) == 0 by { assert SumUpTo(c, 0) == Some(0); }
    var cs := [
        Entry(".", true, Dir(true, [])),
        Entry("a", true, a),
        Entry("b", true, b),
        Entry("c", true, c),
        Entry("f.txt", true, File(7))];
    assert CollectUpTo("base", cs, 1) == Collecting([]);
    assert JoinPath("base", "a") == "base/a";
    assert JoinPath("base", "b") == "base/b";
    assert CollectUpTo("base", cs, 2) == Collecting([DirInfo("base/a", 629145600)]);
    assert CollectUpTo("base", cs, 3) == Collecting([DirInfo("base/a", 629145600), DirInfo("base/b", 10240)]);
    assert CollectUpTo("base", cs, 4) == CollectUpTo("base", cs, 3);
    WorkedExamples();
    PowSteps();
    ExamplePrintedInOrder();
  }

  /** The two collected entries of the example are already in descending
      order, and asking for 2 prints both, a first. */
  lemma ExamplePrintedInOrder()
    ensures SortedDescending([DirInfo("base/a", 629145600), DirInfo("base/b", 10240)])
    ensures Emitted([DirInfo("base/a", 629145600), DirInfo("base/b", 10240)], 2) ==
      [Line("base/a", 600, 2), Line("base/b", 10, 1)]
  {
    var printed := Emitted([DirInfo("base/a", 629145600), DirInfo("base/b", 10240)], 2);
    assert |printed| == 2;
    WorkedExamples();
  }
}
