/** How the critical path and the self times of a trace compare. */
module Charges {
  import opened Trace
  import opened Sorting
  import opened Links
  import opened Marking
  import opened Assembly
  import opened Forest
  import opened Timing
  import opened Critical

  /** The time a path charges to a span. */
  function ChargedTime(path: seq<Segment>, m: Node): int {
    if path == [] then 0
    else
      var s := path[|path| - 1];
      ChargedTime(path[..|path| - 1], m) + if s.node == m then s.end - s.start else 0
  }

  ghost function ChargedInstants(path: seq<Segment>, m: Node): set<int> {
    if path == [] then {}
    else
      var s := path[|path| - 1];
      ChargedInstants(path[..|path| - 1], m) + if s.node == m then Range(s.start, s.end) else {}
  }

  lemma {:induction false} ChargedInstantsAre(path: seq<Segment>, m: Node, t: int)
    ensures t in ChargedInstants(path, m) <==> ChargedAt(path, m, t)
  {
    if path != [] {
      var last := |path| - 1;
      var front := path[..last];
      ChargedInstantsAre(front, m, t);
      if ChargedAt(front, m, t) {
        var i :| 0 <= i < |front| && front[i].node == m && Within(front[i].start, t, front[i].end);
        assert path[i] == front[i];
      }
      if ChargedAt(path, m, t) {
        var i :| 0 <= i < |path| && path[i].node == m && Within(path[i].start, t, path[i].end);
        assert i < last ==> front[i] == path[i];
      }
    }
  }

  /** Stretches that tile are apart, so times add up to instants. */
  lemma {:induction false} ChargedTimeIsMeasure(path: seq<Segment>, lo: int, hi: int, m: Node)
    requires Tiles(path, lo, hi)
    ensures ChargedTime(path, m) == |ChargedInstants(path, m)|
    ensures forall t :: t in ChargedInstants(path, m) ==> lo <= t < hi
  {
    if path != [] {
      var last := |path| - 1;
      TilesFront(path, lo, hi);
      ChargedTimeIsMeasure(path[..last], lo, path[last].start, m);
      RangeSize(path[last].start, path[last].end);
      Apart(ChargedInstants(path[..last], m), Range(path[last].start, path[last].end));
    }
  }

  lemma ChargesAreOwn(path: seq<Segment>, top: Node, m: Node)
    requires Charged(path, top)
    ensures ChargedInstants(path, m) <= OwnInstants(m)
  {
    forall t | t in ChargedInstants(path, m)
      ensures t in OwnInstants(m)
    {
      ChargedInstantsAre(path, m, t);
      var i :| 0 <= i < |path| && path[i].node == m && Within(path[i].start, t, path[i].end);
      assert Own(path[i]);
    }
  }

  /** No span is charged more of the path than the time none of its children runs,
      which for a span that arrived is its self time. */
  lemma ChargeIsAtMostSelfTime(path: seq<Segment>, n: Node, m: Node)
    requires Tiles(path, n.start, n.end) && Charged(path, n)
    ensures ChargedTime(path, m) <= |OwnInstants(m)|
    ensures !m.Missing() ==> ChargedTime(path, m) <= SelfTimeOf(m)
  {
    ChargedTimeIsMeasure(path, n.start, n.end, m);
    ChargesAreOwn(path, n, m);
    SubsetSize(ChargedInstants(path, m), OwnInstants(m));
  }

  // ------------------------------------------------- one thing at a time

  /** Every span inside its parent, and siblings one after the other. */
  predicate Nested(n: Node) {
    && n.start <= n.end
    && (forall c :: c in n.children ==> n.start <= c.start && c.end <= n.end && Nested(c))
    && (forall i, j :: 0 <= i < j < |n.children| ==> n.children[i].end <= n.children[j].start)
  }

  lemma {:induction false} NestedInside(n: Node, m: Node)
    requires Nested(n) && Under(n, m)
    ensures n.start <= m.start && m.end <= n.end
    decreases n
  {
    if m != n {
      var c :| c in n.children && Under(c, m);
      NestedInside(c, m);
    }
  }

  lemma RunsAbove(n: Node, m: Node, t: int) returns (i: nat)
    requires Nested(n) && Under(n, m) && m != n && RunsAt(m, t)
    ensures i < |n.children| && Under(n.children[i], m) && RunsAt(n.children[i], t)
  {
    var c :| c in n.children && Under(c, m);
    NestedInside(c, m);
    i :| 0 <= i < |n.children| && n.children[i] == c;
  }

  /** At any moment at most one span is at work on its own account. */
  lemma {:induction false} OneOwner(n: Node, m: Node, k: Node, t: int)
    requires Nested(n) && Under(n, m) && Under(n, k)
    requires t in OwnInstants(m) && t in OwnInstants(k)
    ensures m == k
    decreases n
  {
    if m != n && k != n {
      var i := RunsAbove(n, m, t);
      var j := RunsAbove(n, k, t);
      assert i == j;
      OneOwner(n.children[i], m, k, t);
    } else if m != n {
      var i := RunsAbove(n, m, t);
      assert false;
    } else if k != n {
      var i := RunsAbove(n, k, t);
      assert false;
    }
  }

  /** And there always is one. */
  lemma {:induction false} SomeOwner(n: Node, t: int) returns (m: Node)
    requires Nested(n) && RunsAt(n, t)
    ensures Under(n, m) && t in OwnInstants(m)
    decreases n
  {
    if AnyRuns(n.children, t) {
      var i :| 0 <= i < |n.children| && RunsAt(n.children[i], t);
      m := SomeOwner(n.children[i], t);
    } else {
      m := n;
    }
  }

  /** At any moment of a span exactly one span is at work on its own account. */
  lemma ExactlyOneOwner(n: Node, t: int)
    requires Nested(n) && RunsAt(n, t)
    ensures exists m :: Under(n, m) && t in OwnInstants(m)
    ensures forall m, k :: Under(n, m) && t in OwnInstants(m) && Under(n, k) && t in OwnInstants(k) ==> m == k
  {
    var owner := SomeOwner(n, t);
    hide Nested, Under, OwnInstants;
    forall m, k | Under(n, m) && t in OwnInstants(m) && Under(n, k) && t in OwnInstants(k)
      ensures m == k
    {
      OneOwner(n, m, k, t);
    }
  }

  /** Where spans nest and siblings do not overlap, the path charges every node
      exactly the time none of its children runs. That is its self time, but for a
      placeholder whose children leave a gap. */
  lemma NestedChargeIsSelfTime(path: seq<Segment>, n: Node, m: Node)
    requires Nested(n) && Under(n, m) && Tiles(path, n.start, n.end) && Charged(path, n)
    ensures ChargedTime(path, m) == |OwnInstants(m)|
    ensures ChargedTime(path, m) == SelfTimeOf(m) <==> !m.Missing() || OwnInstants(m) == {}
  {
    ChargedTimeIsMeasure(path, n.start, n.end, m);
    ChargesAreOwn(path, n, m);
    NestedInside(n, m);
    hide Under, Nested;
    forall t | t in OwnInstants(m)
      ensures t in ChargedInstants(path, m)
    {
      var i := TilesCover(path, n.start, n.end, t);
      assert Own(path[i]) && t in OwnInstants(path[i].node);
      OneOwner(n, m, path[i].node, t);
      ChargedInstantsAre(path, m, t);
      assert ChargedAt(path, m, t) by { assert Within(path[i].start, t, path[i].end); }
    }
    assert ChargedInstants(path, m) == OwnInstants(m);
  }

  /** The self times of a span and all below it, added up. */
  ghost function TotalSelfTime(n: Node): int
    decreases n, 0
  {
    SelfTimeOf(n) + TotalSelfTimes(n.children)
  }

  ghost function TotalSelfTimes(ns: seq<Node>): int
    decreases ns, 1
  {
    if ns == [] then 0 else TotalSelfTimes(ns[..|ns| - 1]) + TotalSelfTime(ns[|ns| - 1])
  }

  function Durations(ns: seq<Node>): int {
    if ns == [] then 0 else Durations(ns[..|ns| - 1]) + (ns[|ns| - 1].end - ns[|ns| - 1].start)
  }

  lemma NestedCoveredNext(n: Node, i: nat, t: int)
    requires Nested(n) && i < |n.children|
    ensures var c := n.children[i];
            t in Covered(n, i + 1) <==> t in Covered(n, i) || Within(c.start, t, c.end)
  {
    var c := n.children[i];
    assert c in n.children;
    CoveredNext(n, i, t);
    hide AnyRuns;
  }

  lemma NestedInOrder(n: Node, i: nat)
    requires Nested(n) && i < |n.children|
    ensures n.children[i].start <= n.children[i].end && (i > 0 ==> n.children[i - 1].end <= n.children[i].start)
  {
    assert n.children[i] in n.children && Nested(n.children[i]);
  }

  lemma {:induction false} NestedCovered(n: Node, i: nat)
    requires Nested(n) && i <= |n.children|
    ensures |Covered(n, i)| == Durations(n.children[..i])
    ensures forall t :: t in Covered(n, i) ==> i > 0 && t < n.children[i - 1].end
    decreases i
  {
    if i == 0 {
      assert Covered(n, 0) == {};
    } else {
      var c := n.children[i - 1];
      NestedCovered(n, i - 1);
      assert n.children[..i][..i - 1] == n.children[..i - 1];
      forall t
        ensures t in Covered(n, i) <==> t in Covered(n, i - 1) || Within(c.start, t, c.end)
      {
        NestedCoveredNext(n, i - 1, t);
      }
      NestedInOrder(n, i - 1);
      hide Covered, Nested, AnyRuns;
      CoveredGrows(Covered(n, i - 1), Covered(n, i), c.start, c.start, c.end);
    }
  }

  /** The time in the gaps of placeholders, which no self time counts. */
  ghost function Unclaimed(n: Node): nat
    decreases n, 0
  {
    (if n.Missing() then |OwnInstants(n)| else 0) + AllUnclaimed(n.children)
  }

  ghost function AllUnclaimed(ns: seq<Node>): nat
    decreases ns, 1
  {
    if ns == [] then 0 else AllUnclaimed(ns[..|ns| - 1]) + Unclaimed(ns[|ns| - 1])
  }

  /** Where spans nest and siblings do not overlap, nothing is counted twice: the
      self times and the gaps of placeholders add up to the time the root took. */
  lemma {:induction false} NestedTimesAddUp(n: Node)
    requires Nested(n)
    ensures TotalSelfTime(n) + Unclaimed(n) == n.end - n.start
    decreases n, 0
  {
    NestedCovered(n, |n.children|);
    assert n.children[..|n.children|] == n.children;
    OwnIsTheRest(n);
    AllAddUp(n.children);
  }

  lemma {:induction false} AllAddUp(ns: seq<Node>)
    requires forall c :: c in ns ==> Nested(c)
    ensures TotalSelfTimes(ns) + AllUnclaimed(ns) == Durations(ns)
    decreases ns, 1
  {
    if ns != [] {
      var last := |ns| - 1;
      assert forall c :: c in ns[..last] ==> c in ns;
      AllAddUp(ns[..last]);
      NestedTimesAddUp(ns[last]);
    }
  }

  /** The children of every placeholder cover it. */
  ghost predicate NoGaps(n: Node) {
    forall m :: Under(n, m) && m.Missing() ==> OwnInstants(m) == {}
  }

  lemma {:induction false} NoneUnclaimed(ns: seq<Node>)
    ensures AllUnclaimed(ns) == 0 <==> forall c :: c in ns ==> Unclaimed(c) == 0
  {
    if ns != [] {
      var last := |ns| - 1;
      NoneUnclaimed(ns[..last]);
      assert AllUnclaimed(ns) == AllUnclaimed(ns[..last]) + Unclaimed(ns[last]);
      hide AllUnclaimed, Unclaimed;
      assert forall c :: c in ns <==> c in ns[..last] || c == ns[last];
    }
  }

  lemma {:induction false} UnclaimedIsGaps(n: Node)
    ensures Unclaimed(n) == 0 <==> NoGaps(n)
    decreases n
  {
    hide OwnInstants;
    NoneUnclaimed(n.children);
    hide AllUnclaimed;
    forall c | c in n.children
      ensures Unclaimed(c) == 0 <==> NoGaps(c)
    {
      UnclaimedIsGaps(c);
    }
    if NoGaps(n) {
      forall c | c in n.children
        ensures NoGaps(c)
      {
        assert forall m :: Under(c, m) ==> Under(n, m);
      }
      assert Under(n, n);
    }
    if Unclaimed(n) == 0 {
      forall m | Under(n, m) && m.Missing()
        ensures OwnInstants(m) == {}
      {
        if m != n {
          var c :| c in n.children && Under(c, m);
          assert NoGaps(c);
        }
      }
    }
  }

  /** So the self times add up to the time the root took exactly when no
      placeholder has a gap. */
  lemma NestedSelfTimesAddUp(n: Node)
    requires Nested(n)
    ensures TotalSelfTime(n) == n.end - n.start <==> NoGaps(n)
  {
    NestedTimesAddUp(n);
    UnclaimedIsGaps(n);
  }

  // ---------------------------------------------------- the trees Build makes

  /** A tree built from spans that do not end before they start is tidy all the
      way down, placeholders included. */
  lemma {:induction false} GrownIsTidy(last: map<SpanID, Span>, phase: Phase, t: Assembled, depth: map<SpanID, nat>, n: SpanID)
    requires IsTree(last, phase, t) && Grounded(t, depth) && n in depth && depth.Keys == Nodes(last)
    requires forall id :: id in last ==> last[id].start <= last[id].end
    ensures Tidy(Grow(t, depth, n))
    decreases Height(depth) - depth[n]
  {
    hide Grow, Grounded, IsTree;
    GrownTimes(last, phase, t, depth, n);
    GrownOrder(last, phase, t, depth, n);
    hide Tidy, NodeBefore, Nodes;
    var g := Grow(t, depth, n);
    forall c | c in g.children
      ensures Tidy(c)
    {
      var i :| 0 <= i < |g.children| && g.children[i] == c;
      GrownChild(t, depth, n, i);
      GrownIsTidy(last, phase, t, depth, t.children[n][i]);
    }
    TidyIs(g);
  }

  lemma TidyIs(n: Node)
    requires n.start <= n.end && forall c :: c in n.children ==> Tidy(c)
    requires forall i, j :: 0 <= i < j < |n.children| ==> NodeBefore(n.children[i], n.children[j])
    ensures Tidy(n)
  {
    hide NodeBefore;
  }

  lemma GrownChild(t: Assembled, depth: map<SpanID, nat>, n: SpanID, i: nat)
    requires Grounded(t, depth) && n in depth && i < |Grow(t, depth, n).children|
    ensures n in t.children && i < |t.children[n]| && t.children[n][i] in depth
    ensures depth[t.children[n][i]] == depth[n] + 1
    ensures Grow(t, depth, n).children[i] == Grow(t, depth, t.children[n][i])
  {
    KidsLevel(t, depth, n);
    hide Grounded;
    assert t.children[n][i] in t.children[n];
  }

  /** Where a grown node starts is where the tree says it does. */
  lemma GrownStart(last: map<SpanID, Span>, phase: Phase, t: Assembled, depth: map<SpanID, nat>, n: SpanID)
    requires IsTree(last, phase, t) && Grounded(t, depth) && n in depth
    ensures n in Starts(last, t.bounds) && Grow(t, depth, n).start == Starts(last, t.bounds)[n]
  {
    hide Kept, InStartOrder, Absent, Cuts, Inverse, IsDepth, IsEnvelope;
  }

  lemma GrownTimes(last: map<SpanID, Span>, phase: Phase, t: Assembled, depth: map<SpanID, nat>, n: SpanID)
    requires IsTree(last, phase, t) && Grounded(t, depth) && n in depth
    requires forall id :: id in last ==> last[id].start <= last[id].end
    ensures Grow(t, depth, n).start <= Grow(t, depth, n).end
  {
    hide Kept, InStartOrder, Absent, Cuts, Inverse, IsDepth;
    if n !in last {
      assert n in t.bounds;
      EnvelopeIsOrdered(last, ChildSet(t.parent, n), t.bounds[n]);
    }
  }

  lemma EnvelopeIsOrdered(last: map<SpanID, Span>, ids: set<SpanID>, b: Bounds)
    requires IsEnvelope(last, ids, b) && forall id :: id in last ==> last[id].start <= last[id].end
    ensures b.start <= b.end
  {
    var c :| c in ids && c in last && last[c].start == b.start;
  }

  lemma GrownOrder(last: map<SpanID, Span>, phase: Phase, t: Assembled, depth: map<SpanID, nat>, n: SpanID)
    requires IsTree(last, phase, t) && Grounded(t, depth) && n in depth && depth.Keys == Nodes(last)
    ensures var kids := Grow(t, depth, n).children;
            forall i, j :: 0 <= i < j < |kids| ==> NodeBefore(kids[i], kids[j])
  {
    hide *;
    forall i, j | 0 <= i < j < |Grow(t, depth, n).children|
      ensures NodeBefore(Grow(t, depth, n).children[i], Grow(t, depth, n).children[j])
    {
      GrownPair(last, phase, t, depth, n, i, j);
    }
  }

  lemma GrownPair(last: map<SpanID, Span>, phase: Phase, t: Assembled, depth: map<SpanID, nat>, n: SpanID, i: nat, j: nat)
    requires IsTree(last, phase, t) && Grounded(t, depth) && n in depth && depth.Keys == Nodes(last)
    requires i < j < |Grow(t, depth, n).children|
    ensures NodeBefore(Grow(t, depth, n).children[i], Grow(t, depth, n).children[j])
  {
    hide IsTree, Grounded, Nodes, Starts, Grow, LexLess;
    GrownChild(t, depth, n, i);
    GrownChild(t, depth, n, j);
    var a, b := t.children[n][i], t.children[n][j];
    GrownStart(last, phase, t, depth, a);
    GrownStart(last, phase, t, depth, b);
    ChildrenStart(last, phase, t, n, i, j);
  }

  lemma ChildrenStart(last: map<SpanID, Span>, phase: Phase, t: Assembled, n: SpanID, i: nat, j: nat)
    requires IsTree(last, phase, t) && n in Nodes(last) && n in t.children && i < j < |t.children[n]|
    ensures StartsBefore(Starts(last, t.bounds), t.children[n][i], t.children[n][j])
  {
    hide Kept, Absent, Cuts, IsEnvelope, Nodes;
  }

  /** In a grown tree a node is known by its identifier. */
  lemma {:induction false} UnderGrown(t: Assembled, depth: map<SpanID, nat>, n: SpanID, m: Node)
    requires Grounded(t, depth) && n in depth && Under(Grow(t, depth, n), m)
    ensures m.id in depth && m == Grow(t, depth, m.id)
    decreases Height(depth) - depth[n]
  {
    hide Grow, Grounded;
    var g := Grow(t, depth, n);
    if m != g {
      var c :| c in g.children && Under(c, m);
      hide Under;
      var i :| 0 <= i < |g.children| && g.children[i] == c;
      GrownChild(t, depth, n, i);
      UnderGrown(t, depth, t.children[n][i], m);
    }
  }

  /** So neighbours on a critical path are different spans. */
  lemma NeighboursDiffer(t: Assembled, depth: map<SpanID, nat>, n: SpanID, path: seq<Segment>, lo: int, hi: int, i: nat)
    requires Grounded(t, depth) && n in depth && Charged(path, Grow(t, depth, n)) && Tiles(path, lo, hi)
    requires 0 < i < |path|
    ensures path[i].node.id != path[i - 1].node.id
  {
    UnderGrown(t, depth, n, path[i].node);
    UnderGrown(t, depth, n, path[i - 1].node);
  }

  /** In a built tree only a root is a placeholder. */
  lemma {:induction false} MissingIsOnTop(last: map<SpanID, Span>, phase: Phase, t: Assembled, depth: map<SpanID, nat>,
                                          n: SpanID, m: Node)
    requires IsTree(last, phase, t) && Grounded(t, depth) && n in depth
    requires Under(Grow(t, depth, n), m) && m.Missing()
    ensures m == Grow(t, depth, n) && n !in last && n in t.roots
    decreases Height(depth) - depth[n]
  {
    hide Grow, Grounded, IsTree;
    var g := Grow(t, depth, n);
    if m != g {
      var c :| c in g.children && Under(c, m);
      hide Under;
      var i :| 0 <= i < |g.children| && g.children[i] == c;
      GrownChild(t, depth, n, i);
      MissingIsOnTop(last, phase, t, depth, t.children[n][i], m);
      ChildArrived(last, phase, t, depth, n, i);
      assert false;
    } else {
      GrownSpan(last, phase, t, depth, n);
      AbsentIsRoot(last, phase, t, depth, n);
    }
  }

  lemma ChildArrived(last: map<SpanID, Span>, phase: Phase, t: Assembled, depth: map<SpanID, nat>, n: SpanID, i: nat)
    requires IsTree(last, phase, t) && Grounded(t, depth) && n in depth && n in t.children && i < |t.children[n]|
    ensures t.children[n][i] in last
  {
    hide IsEnvelope, InStartOrder, Cuts, Absent, IsDepth;
    assert ListsChildren(t.children[n], t.parent, n);
    assert t.children[n][i] in t.children[n];
  }

  lemma AbsentIsRoot(last: map<SpanID, Span>, phase: Phase, t: Assembled, depth: map<SpanID, nat>, n: SpanID)
    requires IsTree(last, phase, t) && Grounded(t, depth) && n in depth && n !in last
    ensures n in t.roots
  {
    hide IsEnvelope, InStartOrder, Cuts, Absent, IsDepth, Inverse;
  }

  /** The self times of a built tree of nested spans add up exactly when its root
      arrived, or its children cover it. */
  lemma GrownSelfTimesAddUp(last: map<SpanID, Span>, phase: Phase, t: Assembled, depth: map<SpanID, nat>, n: SpanID)
    requires IsTree(last, phase, t) && Grounded(t, depth) && n in depth && Nested(Grow(t, depth, n))
    ensures var g := Grow(t, depth, n);
            TotalSelfTime(g) == g.end - g.start <==> n in last || OwnInstants(g) == {}
  {
    var g := Grow(t, depth, n);
    GrownSpan(last, phase, t, depth, n);
    NestedSelfTimesAddUp(g);
    assert Under(g, g);
    hide Grow, Grounded, IsTree, Under, Nested, TotalSelfTime, OwnInstants;
    forall m | Under(g, m) && m.Missing()
      ensures m == g
    {
      MissingIsOnTop(last, phase, t, depth, n, m);
    }
  }
}
