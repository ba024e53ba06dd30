/** What an assembled trace says about the links it was made from: where they
    were cut, what is missing, and when nothing is wrong with them. */
module Repairs {
  import opened Trace
  import opened Sorting
  import opened Links
  import opened Assembly
  import opened Forest

  /** Distinct spans make the same tree in whatever order they arrive. */
  lemma OrderLeavesTree(spans: seq<Span>, other: seq<Span>, phase: Phase, t: Assembled, u: Assembled)
    requires Distinct(spans) && Distinct(other) && multiset(spans) == multiset(other)
    requires IsTree(LastCopies(spans), phase, t) && IsTree(LastCopies(other), phase, u)
    ensures t == u
  {
    OrderLeavesCopies(spans, other);
    hide IsTree, LastCopies;
    TreeIsUnique(LastCopies(spans), phase, t, u);
  }

  lemma CyclesAreCuts(last: map<SpanID, Span>, phase: Phase, t: Assembled, c: SpanID)
    requires IsTree(last, phase, t)
    ensures c in t.cycles <==> c in last && IsCut(Named(last), SpanStarts(last), c)
  {
    hide IsCut, Kept, Absent, IsEnvelope, ChildSet, StartsBefore, SpanStarts, Named;
  }

  /** A chain of links leads nowhere that is cut, so it is still there. */
  lemma UncutCycle(q: Links, cuts: set<SpanID>, nodes: set<SpanID>, depth: map<SpanID, nat>, n: SpanID)
    requires OnCycle(q, n) && n in nodes && IsDepth(q - cuts, nodes, depth)
    ensures exists c :: c in cuts && Reaches(q, n, c)
  {
    if n in cuts {
      ReachesSelf(q, n);
    } else if forall c :: Reaches(q, n, c) ==> c !in cuts {
      var k: nat :| Up(q, q[n], k) == Some(n);
      forall j | 0 <= j < k && Up(q, q[n], j).Some?
        ensures Up(q, q[n], j).value !in cuts
      {
        var m := Up(q, q[n], j).value;
        assert Reaches(q, q[n], m);
        ReachesNext(q, n, m);
      }
      UpSurvives(q, cuts, q[n], k);
      assert OnCycle(q - cuts, n) by { assert Up(q - cuts, (q - cuts)[n], k) == Some(n); }
      NoCycleLeft(q - cuts, nodes, depth, n);
      assert false;
    }
  }

  lemma CutsOfOneCycle(q: Links, starts: map<SpanID, int>, n: SpanID, c: SpanID, d: SpanID)
    requires OnCycle(q, n) && Reaches(q, n, c) && Reaches(q, n, d) && IsCut(q, starts, c) && IsCut(q, starts, d)
    ensures c == d
  {
    CycleIsShared(q, n, c);
    CycleIsShared(q, n, d);
    ReachesTransitive(q, c, n, d);
    ReachesTransitive(q, d, n, c);
    if c != d {
      BeforeAsymmetric(starts, c, d);
      assert false;
    }
  }

  /** The cut comes before the rest of its cycle: it starts earlier, or together and
      has the smaller identifier. */
  ghost predicate Earliest(last: map<SpanID, Span>, n: SpanID, c: SpanID) {
    c in last && forall m :: m in last && m != c && Reaches(Named(last), n, m) ==>
      last[c].start < last[m].start || (last[c].start == last[m].start && LexLess(c, m))
  }

  lemma CutIsEarliest(last: map<SpanID, Span>, n: SpanID, c: SpanID)
    requires c in last
    requires forall m :: Reaches(Named(last), n, m) && m != c ==> StartsBefore(SpanStarts(last), c, m)
    ensures Earliest(last, n, c)
  {
    hide Named, Reaches;
  }

  /** Every cycle of the parent links is cut at exactly one of its spans, the one
      that starts earliest. */
  lemma OneCutPerCycle(last: map<SpanID, Span>, phase: Phase, t: Assembled, depth: map<SpanID, nat>, n: SpanID)
    requires IsTree(last, phase, t) && IsDepth(t.parent, Nodes(last), depth)
    requires n in last && OnCycle(Named(last), n)
    ensures exists c :: c in t.cycles && Reaches(Named(last), n, c) && Earliest(last, n, c)
    ensures forall c, d :: c in t.cycles && d in t.cycles && Reaches(Named(last), n, c) && Reaches(Named(last), n, d)
              ==> c == d
  {
    var q, starts := Named(last), SpanStarts(last);
    assert t.parent == q - Cuts(last) && n in Nodes(last);
    UncutCycle(q, Cuts(last), Nodes(last), depth, n);
    hide Named, SpanStarts, Nodes, IsTree, IsDepth, OnCycle, Reaches, StartsBefore, Earliest;
    var c :| c in Cuts(last) && Reaches(q, n, c);
    CyclesAreCuts(last, phase, t, c);
    CycleIsShared(q, n, c);
    forall m | Reaches(q, n, m) && m != c
      ensures StartsBefore(starts, c, m)
    {
      ReachesTransitive(q, c, n, m);
    }
    CutIsEarliest(last, n, c);
    hide Cuts, IsCut;
    forall a, b | a in t.cycles && b in t.cycles && Reaches(q, n, a) && Reaches(q, n, b)
      ensures a == b
    {
      CyclesAreCuts(last, phase, t, a);
      CyclesAreCuts(last, phase, t, b);
      CutsOfOneCycle(q, starts, n, a, b);
    }
  }

  /** Every other link is as its span says. */
  lemma OtherLinksAreIntact(last: map<SpanID, Span>, phase: Phase, t: Assembled, n: SpanID)
    requires IsTree(last, phase, t) && n in last
    ensures n in t.parent <==> last[n].parentID != ZERO_SPAN && n !in t.cycles
    ensures n in t.parent ==> t.parent[n] == last[n].parentID
  {
    CyclesAreCuts(last, phase, t, n);
    hide IsCut, Absent, IsEnvelope, InStartOrder, ChildSet;
  }

  /** Complete. */
  predicate Complete(t: Assembled) {
    |t.missing| == 0 && |t.cycles| == 0 && |t.roots| == 1
  }

  ghost predicate Single(xs: set<SpanID>) {
    exists x :: x in xs && forall y :: y in xs ==> y == x
  }

  ghost function RootSpans(last: map<SpanID, Span>): set<SpanID> {
    set id | id in last && last[id].parentID == ZERO_SPAN
  }

  /** Nothing wrong with the links: every parent arrived, no link leads back, and
      one span is the root. */
  ghost predicate Sound(last: map<SpanID, Span>) {
    && (forall id :: id in last && last[id].parentID != ZERO_SPAN ==> last[id].parentID in last)
    && (forall id :: id in last ==> !OnCycle(Named(last), id))
    && Single(RootSpans(last))
  }

  lemma ListSizes(s: seq<SpanID>, xs: set<SpanID>, starts: map<SpanID, int>)
    requires InStartOrder(s, xs, starts)
    ensures |s| == 0 <==> xs == {}
    ensures |s| == 1 <==> Single(xs)
  {
    InOrderLists(s, xs, starts);
    hide InStartOrder;
    assert |s| > 0 ==> s[0] in s;
    assert |s| > 1 ==> s[0] in s && s[1] in s && s[0] != s[1];
    if |s| == 1 {
      assert s == [s[0]];
      assert forall y :: y in xs ==> y == s[0];
    }
  }

  lemma RootsOfSound(last: map<SpanID, Span>)
    requires Absent(last) == {} && Cuts(last) == {}
    ensures Nodes(last) - Kept(last).Keys == RootSpans(last)
  {
  }

  lemma NoneAbsent(last: map<SpanID, Span>)
    ensures Absent(last) == {} <==> forall id :: id in last && !last[id].IsRoot() ==> last[id].parentID in last
  {
    if id :| id in last && !last[id].IsRoot() && last[id].parentID !in last {
      assert last[id].parentID in Absent(last);
    }
  }

  lemma NoneCut(last: map<SpanID, Span>, depth: map<SpanID, nat>)
    requires IsDepth(Kept(last), Nodes(last), depth)
    ensures Cuts(last) == {} <==> forall id :: id in last ==> !OnCycle(Named(last), id)
  {
    hide OnCycle, Reaches, Named, IsDepth;
    assert last.Keys <= Nodes(last);
    if Cuts(last) == {} {
      forall id | id in last
        ensures !OnCycle(Named(last), id)
      {
        if OnCycle(Named(last), id) {
          UncutCycle(Named(last), Cuts(last), Nodes(last), depth, id);
          assert false;
        }
      }
    }
  }

  /** A tree calls itself complete exactly when nothing is wrong with the links
      of the spans that arrived. */
  lemma CompleteMeansSound(last: map<SpanID, Span>, phase: Phase, t: Assembled, depth: map<SpanID, nat>)
    requires IsTree(last, phase, t) && IsDepth(t.parent, Nodes(last), depth)
    ensures Complete(t) <==> Sound(last)
  {
    var starts := Starts(last, t.bounds);
    ListSizes(t.missing, Absent(last), starts);
    ListSizes(t.cycles, Cuts(last), starts);
    ListSizes(t.roots, Nodes(last) - Kept(last).Keys, starts);
    NoneAbsent(last);
    NoneCut(last, depth);
    if Absent(last) == {} && Cuts(last) == {} {
      RootsOfSound(last);
    }
    hide IsTree, Absent, Cuts, Kept, Nodes, OnCycle, Named, IsDepth, Single, RootSpans;
  }
}
