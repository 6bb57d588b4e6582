/**
 Two monitors sum the memory of a process and its descendants. Their loops are
 written differently; both stop, and both compute the least set that contains the
 root and is closed under children.
 */
module ProcessClosure {
  import opened Graph

  /** One line of `ps`: process, parent and resident kilobytes. */
  datatype Row = Row(pid: int, parent: int, rss: int)

  function Children(rows: seq<Row>, included: set<int>): set<int> {
    set i | 0 <= i < |rows| && rows[i].parent in included :: rows[i].pid
  }

  function ChildrenOf(rows: seq<Row>): int -> set<int> {
    pid => Children(rows, {pid})
  }

  function Pids(rows: seq<Row>): set<int> {
    set i | 0 <= i < |rows| :: rows[i].pid
  }

  /** Exactly the root and its descendants by any number of parent links. */
  ghost predicate IsTree(rows: seq<Row>, root: int, included: set<int>) {
    forall pid :: pid in included <==> Reaches(ChildrenOf(rows), {root}, pid)
  }

  ghost predicate Reached(rows: seq<Row>, root: int, included: set<int>) {
    forall pid :: pid in included ==> Reaches(ChildrenOf(rows), {root}, pid)
  }

  lemma ChildIsReached(rows: seq<Row>, root: int, included: set<int>)
    requires Reached(rows, root, included)
    ensures Reached(rows, root, included + Children(rows, included))
  {
    forall pid | pid in Children(rows, included) ensures Reaches(ChildrenOf(rows), {root}, pid) {
      var i :| 0 <= i < |rows| && rows[i].parent in included && rows[i].pid == pid;
      assert pid in ChildrenOf(rows)(rows[i].parent);
      ReachesNext(ChildrenOf(rows), {root}, rows[i].parent, pid);
    }
  }

  /** A set without missing children is the whole tree. */
  lemma NoMoreChildren(rows: seq<Row>, root: int, included: set<int>)
    requires root in included && Reached(rows, root, included) && Children(rows, included) <= included
    ensures IsTree(rows, root, included)
  {
    forall pid | pid in included ensures ChildrenOf(rows)(pid) <= included {
      assert Children(rows, {pid}) <= Children(rows, included);
    }
    forall pid | Reaches(ChildrenOf(rows), {root}, pid) ensures pid in included {
      ClosedContains(ChildrenOf(rows), {root}, included, pid);
    }
  }

  /** Each round that adds something leaves fewer processes outside. */
  lemma FewerOutside(rows: seq<Row>, included: set<int>)
    requires !(Children(rows, included) <= included)
    ensures |Pids(rows) - (included + Children(rows, included))| < |Pids(rows) - included|
  {
    var pid :| pid in Children(rows, included) && pid !in included;
    var before, after := Pids(rows) - included, Pids(rows) - (included + Children(rows, included));
    assert pid in before && after <= before - {pid};
    SubsetSize(after, before - {pid});
  }

  lemma {:induction false} SubsetSize<T>(a: set<T>, b: set<T>)
    requires a <= b
    ensures |a| <= |b|
  {
    if a != {} {
      var x :| x in a;
      SubsetSize(a - {x}, b - {x});
    }
  }

  /** The benchmark's loop: expand, compare the whole sets, replace. */
  method ExpandUntilEqual(rows: seq<Row>, root: int) returns (included: set<int>)
    ensures IsTree(rows, root, included)
  {
    included := {root};
    ReachesStart(ChildrenOf(rows), {root}, root);
    while true
      invariant root in included && Reached(rows, root, included)
      decreases |Pids(rows) - included|
    {
      var expanded := included + Children(rows, included);
      if expanded == included { break; }
      ChildIsReached(rows, root, included);
      FewerOutside(rows, included);
      included := expanded;
    }
    NoMoreChildren(rows, root, included);
  }

  /** The rehearsal's loop: stop when the children are already included, else add them. */
  method AddUntilIncluded(rows: seq<Row>, root: int) returns (included: set<int>)
    ensures IsTree(rows, root, included)
  {
    included := {root};
    ReachesStart(ChildrenOf(rows), {root}, root);
    while true
      invariant root in included && Reached(rows, root, included)
      decreases |Pids(rows) - included|
    {
      var children := Children(rows, included);
      if children <= included { break; }
      ChildIsReached(rows, root, included);
      FewerOutside(rows, included);
      included := included + children;
    }
    NoMoreChildren(rows, root, included);
  }

  /** What both loops compute is one set, and the least closed set with the root. */
  lemma TreeIsLeast(rows: seq<Row>, root: int, a: set<int>, b: set<int>)
    requires IsTree(rows, root, a)
    ensures IsTree(rows, root, b) ==> a == b
    ensures root in b && Children(rows, b) <= b ==> a <= b
    ensures root in a && Children(rows, a) <= a
  {
    ReachesStart(ChildrenOf(rows), {root}, root);
    ChildIsReached(rows, root, a);
    if IsTree(rows, root, b) {
      forall pid ensures pid in a <==> pid in b { assert pid in a <==> Reaches(ChildrenOf(rows), {root}, pid); }
    }
    if root in b && Children(rows, b) <= b {
      forall pid | pid in b ensures ChildrenOf(rows)(pid) <= b { assert Children(rows, {pid}) <= Children(rows, b); }
      forall pid | pid in a ensures pid in b { ClosedContains(ChildrenOf(rows), {root}, b, pid); }
    }
  }

  /** Resident bytes of the rows of included processes. */
  function Resident(rows: seq<Row>, included: set<int>): int {
    if rows == [] then 0
    else
      var last := rows[|rows| - 1];
      Resident(rows[..|rows| - 1], included) + if last.pid in included then last.rss * 1024 else 0
  }

  method SumResident(rows: seq<Row>, included: set<int>) returns (sum: int)
    ensures sum == Resident(rows, included)
  {
    sum := 0;
    for i := 0 to |rows|
      invariant sum == Resident(rows[..i], included)
    {
      assert rows[..i + 1][..i] == rows[..i];
      if rows[i].pid in included { sum := sum + rows[i].rss * 1024; }
    }
    assert rows[..|rows|] == rows;
  }

  function Max(a: int, b: int): int {
    if a < b then b else a
  }

  class MemorySampler {
    const pid: int
    var peak: int
    var workers: int
    var samples: nat

    constructor (pid: int)
      ensures this.pid == pid && peak == 0 && workers == 0 && samples == 0
    {
      this.pid := pid;
      peak, workers, samples := 0, 0, 0;
    }

    /** One process table: the peak covers the root and all its descendants, the workers the descendants alone. */
    method Sample(rows: seq<Row>) returns (included: set<int>)
      modifies this
      ensures IsTree(rows, pid, included)
      ensures peak == Max(old(peak), Resident(rows, included))
      ensures workers == Max(old(workers), |included - {pid}|)
      ensures samples == old(samples) + 1
    {
      included := ExpandUntilEqual(rows, pid);
      var sum := SumResident(rows, included);
      peak := Max(peak, sum);
      TreeIsLeast(rows, pid, included, included);
      workers := Max(workers, |included| - 1);
      samples := samples + 1;
    }
  }

  class Monitor {
    const pid: int
    var peakRssBytes: int
    var samples: nat

    constructor (pid: int)
      ensures this.pid == pid && peakRssBytes == 0 && samples == 0
    {
      this.pid := pid;
      peakRssBytes, samples := 0, 0;
    }

    method Sample(rows: seq<Row>) returns (included: set<int>)
      modifies this
      ensures IsTree(rows, pid, included)
      ensures peakRssBytes == Max(old(peakRssBytes), Resident(rows, included))
      ensures samples == old(samples) + 1
    {
      included := AddUntilIncluded(rows, pid);
      var sum := SumResident(rows, included);
      peakRssBytes := Max(peakRssBytes, sum);
      samples := samples + 1;
    }
  }
}
