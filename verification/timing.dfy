/** How much of a span's time is its own. */
module Timing {
  import opened Forest

  function Later(a: int, b: int): int {
    if a > b then a else b
  }

  function Earlier(a: int, b: int): int {
    if a < b then a else b
  }

  predicate RunsAt(n: Node, t: int) {
    n.start <= t < n.end
  }

  predicate AnyRuns(ns: seq<Node>, t: int) {
    exists i :: 0 <= i < |ns| && RunsAt(ns[i], t)
  }

  /** The instants of a span at which none of its children runs. */
  ghost function OwnInstants(n: Node): set<int> {
    set t | n.start <= t < n.end && !AnyRuns(n.children, t)
  }

  predicate SortedByStart(ns: seq<Node>) {
    forall i, j :: 0 <= i < j < |ns| ==> ns[i].start <= ns[j].start
  }

  predicate Within(a: int, t: int, b: int) {
    a <= t < b
  }

  ghost function Range(a: int, b: int): set<int> {
    set t | a <= t < b && Within(a, t, b)
  }

  lemma {:induction false} RangeSize(a: int, b: int)
    requires a <= b
    ensures |Range(a, b)| == b - a
    decreases b - a
  {
    if a < b {
      RangeSize(a, b - 1);
      assert Range(a, b) == Range(a, b - 1) + {b - 1};
    }
  }

  lemma Apart(x: set<int>, y: set<int>)
    requires x !! y
    ensures |x + y| == |x| + |y|
  {
  }

  /** The instants of n at which one of the first i children runs. */
  ghost function Covered(n: Node, i: nat): set<int>
    requires i <= |n.children|
  {
    set t | n.start <= t < n.end && AnyRuns(n.children[..i], t)
  }

  lemma CoveredNext(n: Node, i: nat, t: int)
    requires i < |n.children|
    ensures AnyRuns(n.children[..i + 1], t) <==> AnyRuns(n.children[..i], t) || RunsAt(n.children[i], t)
  {
    var before, after := n.children[..i], n.children[..i + 1];
    if AnyRuns(before, t) {
      var k :| 0 <= k < |before| && RunsAt(before[k], t);
      assert RunsAt(after[k], t);
    }
    if RunsAt(n.children[i], t) {
      assert RunsAt(after[i], t);
    }
    if AnyRuns(after, t) && !RunsAt(n.children[i], t) {
      var k :| 0 <= k < |after| && RunsAt(after[k], t);
      assert RunsAt(before[k], t);
    }
  }

  /** Everything the pass has seen is before the cursor, and from the start of
      some child seen up to the cursor there is no gap. */
  ghost predicate Merging(n: Node, i: nat, busy: int, cursor: int, reach: int) {
    && i <= |n.children|
    && n.start <= cursor
    && (forall t :: t in Covered(n, i) ==> t < cursor)
    && (forall t :: reach <= t < cursor && n.start <= t < n.end ==> t in Covered(n, i))
    && (cursor > n.start ==> cursor <= n.end && forall k :: i <= k < |n.children| ==> reach <= n.children[k].start)
    && busy == |Covered(n, i)|
  }

  /** One more child adds exactly what it has beyond the cursor. */
  lemma NewInstants(n: Node, i: nat, busy: int, cursor: int, reach: int, t: int)
    requires Merging(n, i, busy, cursor, reach) && i < |n.children|
    ensures var c := n.children[i];
            t in Covered(n, i + 1) <==>
            t in Covered(n, i) || Within(Later(c.start, cursor), t, Earlier(c.end, n.end))
  {
    CoveredNext(n, i, t);
    hide AnyRuns;
  }

  lemma OwnInstantsOfChild(n: Node, i: nat, t: int)
    requires i < |n.children| && RunsAt(n.children[i], t) && n.start <= t < n.end
    ensures t in Covered(n, i + 1)
  {
    CoveredNext(n, i, t);
  }

  lemma MergeNext(n: Node, i: nat, busy: int, cursor: int, reach: int)
    requires Merging(n, i, busy, cursor, reach) && i < |n.children| && SortedByStart(n.children)
    ensures var c := n.children[i];
            var from, to := Later(c.start, cursor), Earlier(c.end, n.end);
            if from < to then Merging(n, i + 1, busy + to - from, to, c.start)
            else Merging(n, i + 1, busy, cursor, reach)
  {
    var c := n.children[i];
    var from, to := Later(c.start, cursor), Earlier(c.end, n.end);
    forall t
      ensures t in Covered(n, i + 1) <==> t in Covered(n, i) || Within(from, t, to)
    {
      NewInstants(n, i, busy, cursor, reach, t);
    }
    if from < to {
      forall t | RunsAt(c, t) && n.start <= t < n.end
        ensures t in Covered(n, i + 1)
      {
        OwnInstantsOfChild(n, i, t);
      }
      hide Covered;
      CoveredGrows(Covered(n, i), Covered(n, i + 1), cursor, from, to);
    } else {
      hide Covered;
      assert Covered(n, i + 1) == Covered(n, i);
    }
  }

  /** Instants from the cursor on are new, so they add up. */
  lemma CoveredGrows(was: set<int>, now: set<int>, cursor: int, from: int, to: int)
    requires forall t :: t in now <==> t in was || Within(from, t, to)
    requires (forall t :: t in was ==> t < cursor) && cursor <= from <= to
    ensures |now| == |was| + to - from
  {
    assert now == was + Range(from, to);
    RangeSize(from, to);
    Apart(was, Range(from, to));
  }

  lemma OwnIsTheRest(n: Node)
    requires n.start <= n.end
    ensures |OwnInstants(n)| == n.end - n.start - |Covered(n, |n.children|)|
    ensures 0 <= |OwnInstants(n)| <= n.end - n.start
  {
    var own, covered := OwnInstants(n), Covered(n, |n.children|);
    assert n.children[..|n.children|] == n.children;
    assert own + covered == Range(n.start, n.end);
    RangeSize(n.start, n.end);
    Apart(own, covered);
  }

  /** The time a span spent on its own account. A placeholder reports none, even
      where none of its children runs. */
  ghost function SelfTimeOf(n: Node): nat {
    if n.Missing() then 0 else |OwnInstants(n)|
  }

  /** SelfTime: one pass over children sorted by start measures what is left of
      the span once the union of its children is taken away. */
  method SelfTime(n: Node) returns (d: int)
    requires n.start <= n.end && SortedByStart(n.children)
    ensures d == SelfTimeOf(n)
    ensures 0 <= d <= n.end - n.start
  {
    if n.Missing() {
      return 0;
    }
    hide Merging;
    var busy, cursor := 0, n.start;
    ghost var reach := n.start;
    MergeStart(n);
    var i := 0;
    while i < |n.children|
      invariant 0 <= i <= |n.children|
      invariant Merging(n, i, busy, cursor, reach)
    {
      var c := n.children[i];
      MergeNext(n, i, busy, cursor, reach);
      var from, to := Later(c.start, cursor), Earlier(c.end, n.end);
      if to > from {
        busy := busy + (to - from);
        cursor := to;
        reach := c.start;
      }
      i := i + 1;
    }
    MergeEnd(n, busy, cursor, reach);
    OwnIsTheRest(n);
    d := n.end - n.start - busy;
  }

  lemma MergeStart(n: Node)
    ensures Merging(n, 0, 0, n.start, n.start)
  {
    assert Covered(n, 0) == {};
  }

  lemma MergeEnd(n: Node, busy: int, cursor: int, reach: int)
    requires Merging(n, |n.children|, busy, cursor, reach)
    ensures busy == |Covered(n, |n.children|)|
  {
  }
}
