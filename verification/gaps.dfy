/** A trace in which a gap is nobody's: two spans one after the other whose parent
    never arrived. The placeholder for it covers the time between them, the
    critical path charges it that time, and no self time counts it. */
module Gaps {
  import opened Trace
  import opened Links
  import opened Marking
  import opened Assembly
  import opened Forest
  import opened Timing
  import opened Critical
  import opened Charges

  const TRACE: TraceID := [1, 0, 0, 0, 0, 0, 0, 0, 0, 0, 0, 0, 0, 0, 0, 0]
  const FIRST: SpanID := [1, 0, 0, 0, 0, 0, 0, 0]
  const SECOND: SpanID := [2, 0, 0, 0, 0, 0, 0, 0]
  const ABSENT: SpanID := [9, 0, 0, 0, 0, 0, 0, 0]

  const EARLY := Span(TRACE, FIRST, ABSENT, [97], 1, [98], 0, 1, 0, [], [], [])
  const LATE := Span(TRACE, SECOND, ABSENT, [97], 1, [98], 2, 3, 0, [], [], [])

  const GAPPED :=
    Node(ABSENT, None, 0, 3, [Node(FIRST, Some(EARLY), 0, 1, []), Node(SECOND, Some(LATE), 2, 3, [])])

  /** Two spans that name the same absent parent. */
  ghost predicate Siblings(last: map<SpanID, Span>, a: SpanID, b: SpanID, p: SpanID) {
    && last.Keys == {a, b} && a != b && p !in last && p != ZERO_SPAN
    && last[a].parentID == p && last[b].parentID == p
    && last[a].start < last[b].start && last[a].end < last[b].end
  }

  lemma SiblingLinks(last: map<SpanID, Span>, a: SpanID, b: SpanID, p: SpanID)
    requires Siblings(last, a, b, p)
    ensures Absent(last) == {p} && Nodes(last) == {a, b, p} && Kept(last) == map[a := p, b := p]
    ensures ChildSet(Kept(last), p) == {a, b} && ChildSet(Kept(last), a) == {} && ChildSet(Kept(last), b) == {}
  {
    SiblingsAbsent(last, a, b, p);
    SiblingsKept(last, a, b, p);
    hide Absent, Kept;
    var kept := Kept(last);
    assert forall c :: c in kept ==> kept[c] == p;
  }

  lemma SiblingsAbsent(last: map<SpanID, Span>, a: SpanID, b: SpanID, p: SpanID)
    requires Siblings(last, a, b, p)
    ensures Absent(last) == {p}
  {
    assert p in Absent(last) by { assert a in last && !last[a].IsRoot() && last[a].parentID == p; }
  }

  lemma SiblingsKept(last: map<SpanID, Span>, a: SpanID, b: SpanID, p: SpanID)
    requires Siblings(last, a, b, p)
    ensures Kept(last) == map[a := p, b := p]
  {
    PlaceholderKeepsChildren(last, a);
    PlaceholderKeepsChildren(last, b);
    KeptArrived(last);
    hide Kept;
    assert Kept(last).Keys == {a, b};
  }

  lemma KeptArrived(last: map<SpanID, Span>)
    ensures Kept(last).Keys <= last.Keys
  {
  }

  lemma SiblingBounds(last: map<SpanID, Span>, a: SpanID, b: SpanID, p: SpanID, bounds: Bounds)
    requires Siblings(last, a, b, p) && IsEnvelope(last, {a, b}, bounds)
    ensures bounds == Bounds(last[a].start, last[b].end)
  {
    var ids := {a, b};
    assert IsEnvelope(last, ids, Bounds(last[a].start, last[b].end)) by {
      assert a in ids && b in ids;
    }
    EnvelopeUnique(last, ids, bounds, Bounds(last[a].start, last[b].end));
  }

  lemma SiblingOrder(last: map<SpanID, Span>, a: SpanID, b: SpanID, p: SpanID, starts: map<SpanID, int>, s: seq<SpanID>)
    requires Siblings(last, a, b, p) && InStartOrder(s, {a, b}, starts)
    requires a in starts && b in starts && starts[a] == last[a].start && starts[b] == last[b].start
    ensures s == [a, b]
  {
    assert InStartOrder([a, b], {a, b}, starts);
    InStartOrderUnique(s, [a, b], {a, b}, starts);
  }

  lemma NoneInOrder(starts: map<SpanID, int>, s: seq<SpanID>)
    requires InStartOrder(s, {}, starts)
    ensures s == []
  {
    assert InStartOrder([], {}, starts);
    InStartOrderUnique(s, [], {}, starts);
  }

  /** What a tree of such siblings holds. */
  lemma SiblingTree(last: map<SpanID, Span>, a: SpanID, b: SpanID, p: SpanID, phase: Phase, t: Assembled)
    requires Siblings(last, a, b, p) && IsTree(last, phase, t)
    ensures p in t.bounds && t.bounds[p] == Bounds(last[a].start, last[b].end)
    ensures t.children.Keys == {a, b, p} && t.children[p] == [a, b] && t.children[a] == [] && t.children[b] == []
  {
    SiblingLinks(last, a, b, p);
    hide InStartOrder, IsEnvelope, Absent, Nodes, Kept, Cuts, ChildSet;
    var starts := Starts(last, t.bounds);
    SiblingBounds(last, a, b, p, t.bounds[p]);
    SiblingOrder(last, a, b, p, starts, t.children[p]);
    NoneInOrder(starts, t.children[a]);
    NoneInOrder(starts, t.children[b]);
  }

  lemma Leaf(last: map<SpanID, Span>, phase: Phase, t: Assembled, depth: map<SpanID, nat>, n: SpanID)
    requires IsTree(last, phase, t) && Grounded(t, depth) && n in depth && n in last && n in t.children && t.children[n] == []
    ensures Grow(t, depth, n) == Node(n, Some(last[n]), last[n].start, last[n].end, [])
  {
    GrownSpan(last, phase, t, depth, n);
    KidsLevel(t, depth, n);
    hide IsTree, Grounded;
  }

  /** Build gives them a placeholder that spans both. */
  lemma SiblingsGrow(last: map<SpanID, Span>, a: SpanID, b: SpanID, p: SpanID, phase: Phase, t: Assembled,
                     depth: map<SpanID, nat>)
    requires Siblings(last, a, b, p) && IsTree(last, phase, t) && IsDepth(t.parent, Nodes(last), depth)
    ensures Grounded(t, depth) && p in depth
    ensures Grow(t, depth, p) ==
            Node(p, None, last[a].start, last[b].end,
                 [Node(a, Some(last[a]), last[a].start, last[a].end, []), Node(b, Some(last[b]), last[b].start, last[b].end, [])])
  {
    TreeIsGrounded(last, phase, t, depth);
    DepthKeys(t.parent, Nodes(last), depth);
    SiblingLinks(last, a, b, p);
    SiblingTree(last, a, b, p, phase, t);
    hide IsTree, IsDepth, Grounded, Nodes;
    Leaf(last, phase, t, depth, a);
    Leaf(last, phase, t, depth, b);
    GrownSpan(last, phase, t, depth, p);
    GrownKids(t, depth, p, a, b);
  }

  lemma GrownCount(t: Assembled, depth: map<SpanID, nat>, p: SpanID)
    requires Grounded(t, depth) && p in depth
    ensures p in t.children && |Grow(t, depth, p).children| == |t.children[p]|
  {
    KidsLevel(t, depth, p);
    hide Grounded;
  }

  lemma GrownKids(t: Assembled, depth: map<SpanID, nat>, p: SpanID, a: SpanID, b: SpanID)
    requires Grounded(t, depth) && p in depth && a in depth && b in depth && p in t.children && t.children[p] == [a, b]
    ensures Grow(t, depth, p).children == [Grow(t, depth, a), Grow(t, depth, b)]
  {
    hide Grounded, Grow;
    GrownCount(t, depth, p);
    GrownChild(t, depth, p, 0);
    GrownChild(t, depth, p, 1);
    var kids := Grow(t, depth, p).children;
    assert kids == [kids[0], kids[1]];
  }

  lemma GappedSiblings()
    ensures LastCopies([EARLY, LATE]) == map[FIRST := EARLY, SECOND := LATE]
    ensures Siblings(LastCopies([EARLY, LATE]), FIRST, SECOND, ABSENT)
  {
    var spans := [EARLY, LATE];
    assert spans[..1] == [EARLY] && [EARLY][..0] == [];
    assert LastCopies([EARLY]) == map[FIRST := EARLY];
    assert FIRST[0] == 1 && SECOND[0] == 2 && ABSENT[0] == 9 && ZERO_SPAN[0] == 0;
  }

  /** Of the two spans here, Build makes just this tree. */
  lemma GappedIsBuilt(t: Assembled, depth: map<SpanID, nat>)
    requires IsTree(LastCopies([EARLY, LATE]), Sealed, t)
    requires IsDepth(t.parent, Nodes(LastCopies([EARLY, LATE])), depth)
    ensures Grounded(t, depth) && ABSENT in depth && Grow(t, depth, ABSENT) == GAPPED
  {
    GappedSiblings();
    hide LastCopies, Siblings, IsTree, IsDepth, Grounded, Grow;
    SiblingsGrow(LastCopies([EARLY, LATE]), FIRST, SECOND, ABSENT, Sealed, t, depth);
  }

  /** A parent that runs on past one child and until another begins. */
  lemma OwnTimes(n: Node)
    requires n.start == 0 && n.end == 3 && |n.children| == 2
    requires var a, b := n.children[0], n.children[1];
             a.start == 0 && a.end == 1 && b.start == 2 && b.end == 3 && a.children == [] && b.children == []
    ensures OwnInstants(n) == {1} && OwnInstants(n.children[0]) == {0} && OwnInstants(n.children[1]) == {2}
  {
    var a, b := n.children[0], n.children[1];
    forall t
      ensures t in OwnInstants(n) <==> t == 1
      ensures t in OwnInstants(a) <==> t == 0
      ensures t in OwnInstants(b) <==> t == 2
    {
      assert RunsAt(a, t) <==> t == 0;
      assert RunsAt(b, t) <==> t == 2;
      assert AnyRuns(n.children, t) <==> RunsAt(n.children[0], t) || RunsAt(n.children[1], t);
    }
  }

  lemma TwoLeaves(n: Node)
    requires |n.children| == 2 && n.children[0].children == [] && n.children[1].children == []
    ensures TotalSelfTime(n) == SelfTimeOf(n) + SelfTimeOf(n.children[0]) + SelfTimeOf(n.children[1])
  {
    hide SelfTimeOf;
    var ns := n.children;
    assert ns[..1] == [ns[0]] && [ns[0]][..0] == [];
    assert TotalSelfTime(ns[0]) == SelfTimeOf(ns[0]) && TotalSelfTime(ns[1]) == SelfTimeOf(ns[1]);
    assert TotalSelfTimes([ns[0]]) == TotalSelfTimes([]) + TotalSelfTime(ns[0]);
    assert TotalSelfTimes(ns) == TotalSelfTimes([ns[0]]) + TotalSelfTime(ns[1]);
  }

  lemma TwoInARow(n: Node)
    requires |n.children| == 2 && n.children[0].children == [] && n.children[1].children == []
    requires var a, b := n.children[0], n.children[1];
             n.start <= a.start <= a.end <= b.start <= b.end <= n.end && a.start < b.start
    ensures Tidy(n) && Nested(n)
  {
    var a, b := n.children[0], n.children[1];
    assert Tidy(a) && Tidy(b) && Nested(a) && Nested(b);
    assert forall c :: c in n.children ==> c == a || c == b;
    assert NodeBefore(a, b);
  }

  /** Of the three instants the trace took its self times count two, and the path
      charges the third to the placeholder, whose self time is none. */
  lemma GapIsNobodys(path: seq<Segment>)
    requires Tiles(path, GAPPED.start, GAPPED.end) && Charged(path, GAPPED)
    ensures EARLY.Valid() && LATE.Valid() && Tidy(GAPPED) && Nested(GAPPED)
    ensures GAPPED.end - GAPPED.start == 3 && TotalSelfTime(GAPPED) == 2
    ensures ChargedTime(path, GAPPED) == 1 && SelfTimeOf(GAPPED) == 0
  {
    GappedSiblings();
    assert TRACE[0] == 1 && ZERO_TRACE[0] == 0;
    OwnTimes(GAPPED);
    TwoLeaves(GAPPED);
    TwoInARow(GAPPED);
    assert Under(GAPPED, GAPPED);
    hide Tiles, Charged, Tidy, Nested, TotalSelfTime, OwnInstants, ChargedTime, LastCopies, Siblings;
    NestedChargeIsSelfTime(path, GAPPED, GAPPED);
  }
}
