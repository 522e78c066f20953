/** The filesystem as du-lite sees it, and calculate_directory_size.

    opendir, readdir and lstat are replaced by a tree: each directory says
    whether it can be opened and lists the entries readdir returns, in
    readdir's order; each entry says whether create_pathname succeeds for
    it and what lstat (which does not follow symbolic links) finds there. */
module FsTree {

  datatype Option<T> = None | Some(value: T)

  /** What lstat reports at a path. */
  datatype Node =
    | Dir(openable: bool, children: seq<Entry>)  // S_ISDIR; opendir may still fail
    | File(size: nat)                            // any other non-link file: its st_size
    | Link(size: nat)                            // a symbolic link itself: its own st_size
    | Unstatable                                 // lstat returned -1

  /** One entry returned by readdir: its name, whether building its full
      path succeeds, and what lstat finds at that path. */
  datatype Entry = Entry(name: string, pathBuilds: bool, node: Node)

  /** The two pseudo-entries every directory listing holds. */
  predicate IsDotName(name: string)
  {
    name == "." || name == ".."
  }

  /** The full path of an entry: create_pathname puts the separator
      between the directory and the name. */
  function JoinPath(dir: string, name: string): string
  {
    dir + "/" + name
  }

  /** Different names in one directory give different full paths, so two
      children of the base are never collected under the same path. */
  lemma JoinPathInjective(dir: string, x: string, y: string)
    requires JoinPath(dir, x) == JoinPath(dir, y)
    ensures x == y
  {
    assert x == JoinPath(dir, x)[|dir| + 1..];
    assert y == JoinPath(dir, y)[|dir| + 1..];
  }

  // ----- calculate_directory_size, as written -----

  /** The value calculate_directory_size returns for a node lstat reported
      as a directory: -1 when opendir fails, else the running total over its
      children, or -1 when a child's path cannot be built. */
  function DirSize(n: Node): (r: int)
    requires n.Dir?
    ensures !n.openable ==> r == -1
    ensures Healthy(n) ==> r >= 0
    decreases n, |n.children| + 1
  {
    if !n.openable then -1
    else match SumUpTo(n, |n.children|)
      case None => -1
      case Some(t) => t
  }

  /** The total after the readdir loop has seen the first i children, or
      None once a child's path could not be built (the function then
      returns -1 straight away). */
  function SumUpTo(n: Node, i: nat): (r: Option<int>)
    requires n.Dir? && i <= |n.children|
    ensures Healthy(n) ==> r.Some? && r.value >= 0
    decreases n, i
  {
    if i == 0 then Some(0)
    else match SumUpTo(n, i - 1)
      case None => None
      case Some(t) =>
        var e := n.children[i - 1];
        if IsDotName(e.name) then Some(t)
        else if !e.pathBuilds then None
        else Some(t + Contribution(e.node))
  }

  /** What one child adds to the total: nothing when lstat fails, the
      recursive result for a directory (-1 included), and the lstat size of
      anything else, symbolic links included. */
  function Contribution(m: Node): (r: int)
    ensures (!m.Dir? || Healthy(m)) ==> r >= 0
    decreases m, if m.Dir? then |m.children| + 2 else 0
  {
    match m
    case Unstatable => 0
    case Dir(_, _) => DirSize(m)
    case File(s) => s
    case Link(s) => s
  }

  /** calculate_directory_size: the readdir loop that accumulates
      total_size, recursing into subdirectories. */
  method CalculateDirectorySize(n: Node) returns (total: int)
    requires n.Dir?
    ensures total == DirSize(n)
    decreases n
  {
    if !n.openable {
      return -1;
    }
    total := 0;
    var i := 0;
    while i < |n.children|
      invariant i <= |n.children|
      invariant SumUpTo(n, i) == Some(total)
    {
      var e := n.children[i];
      if IsDotName(e.name) {
        i := i + 1;
        continue;
      }
      if !e.pathBuilds {
        FailureSticks(n, i + 1, |n.children|);
        return -1;
      }
      match e.node {
        case Unstatable =>
        case Dir(_, _) =>
          var sub := CalculateDirectorySize(e.node);
          total := total + sub;
        case File(s) =>
          total := total + s;
        case Link(s) =>
          total := total + s;
      }
      i := i + 1;
    }
  }

  /** Once a path could not be built, the loop's result stays a failure. */
  lemma {:induction false} FailureSticks(n: Node, i: nat, j: nat)
    requires n.Dir? && i <= j <= |n.children|
    requires SumUpTo(n, i) == None
    ensures SumUpTo(n, j) == None
    decreases j - i
  {
    if i < j {
      FailureSticks(n, i, j - 1);
    }
  }

  // ----- When the result is -1 -----

  /** Some child other than "." and ".." has a path that cannot be built. */
  predicate PathFailsAt(n: Node)
    requires n.Dir?
  {
    exists k :: 0 <= k < |n.children| && !IsDotName(n.children[k].name) && !n.children[k].pathBuilds
  }

  /** A directory that cannot be opened, or one of whose children's paths
      cannot be built, gives -1. */
  lemma FailureGivesMinusOne(n: Node)
    requires n.Dir?
    requires !n.openable || PathFailsAt(n)
    ensures DirSize(n) == -1
  {
    if n.openable {
      var k :| 0 <= k < |n.children| && !IsDotName(n.children[k].name) && !n.children[k].pathBuilds;
      if SumUpTo(n, k) == None {
        FailureSticks(n, k, |n.children|);
      } else {
        assert SumUpTo(n, k + 1) == None;
        FailureSticks(n, k + 1, |n.children|);
      }
    }
  }

  /** A -1 from a nested call is not propagated as a failure: it is added
      to the parent's total. An openable directory all of whose paths build
      can therefore still return -1 (its only subdirectory cannot be
      opened), and one holding a 5-byte file beside such a subdirectory
      returns 4. */
  lemma NestedFailureIsAdded()
    ensures DirSize(Dir(true, [Entry("sub", true, Dir(false, []))])) == -1
    ensures !PathFailsAt(Dir(true, [Entry("sub", true, Dir(false, []))]))
    ensures DirSize(Dir(true, [Entry("f", true, File(5)), Entry("sub", true, Dir(false, []))])) == 4
  {
    var n := Dir(true, [Entry("sub", true, Dir(false, []))]);
    assert SumUpTo(n, 1) == Some(-1);
    var m := Dir(true, [Entry("f", true, File(5)), Entry("sub", true, Dir(false, []))]);
    assert SumUpTo(m, 1) == Some(5);
    assert SumUpTo(m, 2) == Some(4);
  }

  // ----- Trees without failures: the result is the bytes in the subtree -----

  /** A directory that opens, whose children's paths all build, and whose
      subdirectories are all healthy in turn. */
  predicate Healthy(n: Node)
    decreases n
  {
    n.Dir? && n.openable &&
    forall k :: 0 <= k < |n.children| && !IsDotName(n.children[k].name) ==>
      n.children[k].pathBuilds && (n.children[k].node.Dir? ==> Healthy(n.children[k].node))
  }

  /** The lstat sizes of every non-directory reachable from a node without
      following symbolic links, skipping "." and ".." and entries lstat
      cannot read. */
  function Leaves(m: Node): seq<nat>
    decreases m, 1
  {
    match m
    case Dir(_, _) => LeavesFrom(m, 0)
    case File(s) => [s]
    case Link(s) => [s]
    case Unstatable => []
  }

  /** The leaves under the children of a directory from index i on. */
  function LeavesFrom(n: Node, i: nat): seq<nat>
    requires n.Dir? && i <= |n.children|
    decreases n, 0, |n.children| - i
  {
    if i == |n.children| then []
    else (if IsDotName(n.children[i].name) then [] else Leaves(n.children[i].node)) + LeavesFrom(n, i + 1)
  }

  function Sum(s: seq<nat>): nat
  {
    if s == [] then 0 else s[0] + Sum(s[1..])
  }

  lemma {:induction false} SumConcat(a: seq<nat>, b: seq<nat>)
    ensures Sum(a + b) == Sum(a) + Sum(b)
  {
    if a == [] {
      assert a + b == b;
    } else {
      assert (a + b)[1..] == a[1..] + b;
      SumConcat(a[1..], b);
    }
  }

  /** On a healthy tree the program's total is exactly the sum of the lstat
      sizes of the files and symbolic links in the subtree. */
  lemma {:induction false} HealthySizeIsSumOfLeaves(n: Node)
    requires Healthy(n)
    ensures DirSize(n) == Sum(Leaves(n))
    decreases n, |n.children| + 1
  {
    HealthyPrefix(n, |n.children|);
  }

  /** The loop invariant of the proof above: after i children the running
      total plus the leaves of the remaining children is the whole sum. */
  lemma {:induction false} HealthyPrefix(n: Node, i: nat)
    requires Healthy(n) && i <= |n.children|
    ensures SumUpTo(n, i).Some?
    ensures SumUpTo(n, i).value + Sum(LeavesFrom(n, i)) == Sum(LeavesFrom(n, 0))
    decreases n, i, 1
  {
    if i > 0 {
      HealthyPrefix(n, i - 1);
      HealthyStep(n, i);
    }
  }

  /** One child of a healthy directory adds to the running total the sum
      of its own leaves. */
  lemma {:induction false} HealthyStep(n: Node, i: nat)
    requires Healthy(n) && 0 < i <= |n.children| && SumUpTo(n, i - 1).Some?
    ensures SumUpTo(n, i).Some?
    ensures SumUpTo(n, i).value + Sum(LeavesFrom(n, i)) == SumUpTo(n, i - 1).value + Sum(LeavesFrom(n, i - 1))
    decreases n, i, 0
  {
    var e := n.children[i - 1];
    var here := if IsDotName(e.name) then [] else Leaves(e.node);
    SumConcat(here, LeavesFrom(n, i));
    if !IsDotName(e.name) && e.node.Dir? {
      HealthySizeIsSumOfLeaves(e.node);
    }
  }

  /** Every immediate subdirectory is healthy (the directory itself need
      not be). */
  predicate SubdirsHealthy(n: Node)
    requires n.Dir?
  {
    forall k :: 0 <= k < |n.children| && !IsDotName(n.children[k].name) && n.children[k].node.Dir? ==>
      Healthy(n.children[k].node)
  }

  /** When the subdirectories are healthy, -1 comes exactly from the
      directory itself failing to open or from a child path failing, and
      any other result is non-negative. */
  lemma MinusOneExactlyOnFailure(n: Node)
    requires n.Dir? && SubdirsHealthy(n)
    ensures DirSize(n) == -1 <==> !n.openable || PathFailsAt(n)
    ensures n.openable && !PathFailsAt(n) ==> DirSize(n) >= 0
  {
    if !n.openable || PathFailsAt(n) {
      FailureGivesMinusOne(n);
    } else {
      NonNegativePrefix(n, |n.children|);
    }
  }

  lemma {:induction false} NonNegativePrefix(n: Node, i: nat)
    requires n.Dir? && SubdirsHealthy(n) && !PathFailsAt(n) && i <= |n.children|
    ensures SumUpTo(n, i).Some? && SumUpTo(n, i).value >= 0
  {
    if i > 0 {
      NonNegativePrefix(n, i - 1);
      var e := n.children[i - 1];
      if !IsDotName(e.name) && e.node.Dir? {
        HealthySizeIsSumOfLeaves(e.node);
      }
    }
  }
}
