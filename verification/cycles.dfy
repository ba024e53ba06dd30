/** Finding where to cut a cycle of parent links, and what cutting does. */
module Cycles {
  import opened Trace
  import opened Sorting
  import opened Links
  import opened Marking

  /** Nothing but settled nodes lacks a parent, so an unsettled node has one, and
      it is unsettled too. */
  ghost predicate Stranding(parent: Links, nodes: set<SpanID>, reached: set<SpanID>) {
    && (forall n :: n in parent ==> n in nodes && parent[n] in nodes)
    && (forall n :: n in nodes && n !in parent ==> n in reached)
    && (forall n :: n in parent && parent[n] in reached ==> n in reached)
  }

  lemma {:induction false} UpRepeats(p: Links, n: SpanID, i: nat, k: nat)
    requires i > 0 && Up(p, n, i) == Some(n)
    ensures exists t: nat :: t < i && Up(p, n, k) == Up(p, n, t)
    decreases k
  {
    if k < i {
      assert Up(p, n, k) == Up(p, n, k);
    } else {
      UpPlus(p, n, i, k - i);
      assert i + (k - i) == k;
      UpRepeats(p, n, i, k - i);
    }
  }

  /** The path came back to a node of its own: that node is on a cycle. */
  lemma PathCloses(parent: Links, n0: SpanID, path: seq<SpanID>, n: SpanID, j: nat)
    requires j < |path| && path[j] == n
    requires forall i :: 0 <= i < |path| ==> Up(parent, n0, i) == Some(path[i])
    requires Up(parent, n0, |path|) == Some(n)
    ensures |path| - j > 0 && Up(parent, n, |path| - j) == Some(n)
    ensures OnCycle(parent, n)
  {
    var l := |path| - j;
    UpPlus(parent, n0, j, l);
    assert j + l == |path|;
    UpDefined(parent, n, 1, l);
    assert Up(parent, n, 0) == Some(n);
    UpPlus(parent, n, 1, l - 1);
    assert Up(parent, parent[n], l - 1) == Some(n);
  }

  /** The earliest of a whole round is the cut. */
  lemma RoundHasCut(parent: Links, starts: map<SpanID, int>, n: SpanID, i: nat, cut: SpanID, t: nat)
    requires OnCycle(parent, n) && i > 0 && Up(parent, n, i) == Some(n)
    requires t < i && Up(parent, n, t) == Some(cut)
    requires forall u: nat :: u < i && Up(parent, n, u).Some? ==>
      Up(parent, n, u).value == cut || StartsBefore(starts, cut, Up(parent, n, u).value)
    ensures IsCut(parent, starts, cut)
  {
    assert Reaches(parent, n, cut);
    CycleIsShared(parent, n, cut);
    forall m | Reaches(parent, cut, m) && m != cut
      ensures StartsBefore(starts, cut, m)
    {
      ReachesTransitive(parent, n, cut, m);
      var k: nat :| Up(parent, n, k) == Some(m);
      UpRepeats(parent, n, i, k);
    }
  }

  lemma UpNext(p: Links, n: SpanID, k: nat, m: SpanID)
    requires Up(p, n, k) == Some(m) && m in p
    ensures Up(p, n, k + 1) == Some(p[m])
  {
  }

  /** Up from a stranded node until the path comes back to itself. */
  method Climb(parent: Links, n0: SpanID, ghost nodes: set<SpanID>, ghost reached: set<SpanID>)
    returns (n: SpanID, ghost round: nat)
    requires Stranding(parent, nodes, reached) && n0 in nodes && n0 !in reached
    ensures n in nodes && n !in reached && OnCycle(parent, n) && Reaches(parent, n0, n)
    ensures round > 0 && Up(parent, n, round) == Some(n)
  {
    ghost var path: seq<SpanID> := [];
    assert Up(parent, n0, 0) == Some(n0);
    hide Up, OnCycle;
    n := n0;
    var seen := {};
    while n !in seen
      invariant n in nodes && n !in reached && seen <= nodes
      invariant forall i :: 0 <= i < |path| ==> Up(parent, n0, i) == Some(path[i])
      invariant Up(parent, n0, |path|) == Some(n)
      invariant forall x :: x in seen ==> x in path
      decreases nodes - seen
    {
      UpNext(parent, n0, |path|, n);
      seen := seen + {n};
      path := path + [n];
      n := parent[n];
    }
    ghost var j :| 0 <= j < |path| && path[j] == n;
    PathCloses(parent, n0, path, n, j);
    round := |path| - j;
  }

  /** From a stranded node up to a cycle, and once round it to its earliest
      span. */
  method FindCut(parent: Links, starts: map<SpanID, int>, n0: SpanID,
                 ghost nodes: set<SpanID>, ghost reached: set<SpanID>)
    returns (cut: SpanID)
    requires Stranding(parent, nodes, reached) && n0 in nodes && n0 !in reached
    ensures IsCut(parent, starts, cut) && Reaches(parent, n0, cut)
    ensures cut in nodes && cut !in reached && cut in parent
  {
    hide IsCut, OnCycle, StartsBefore;
    ghost var round;
    var n;
    n, round := Climb(parent, n0, nodes, reached);
    cut := n;
    var m := parent[n];
    ghost var i, t := 1, 0;
    assert Up(parent, n, 0) == Some(n) && Up(parent, n, 1) == Some(m);
    hide Up, Reaches;
    while m != n
      invariant 1 <= i <= round && t < i
      invariant m in nodes && m !in reached && cut in nodes && cut !in reached
      invariant Up(parent, n, i) == Some(m) && Up(parent, n, t) == Some(cut)
      invariant forall u: nat :: u < i && Up(parent, n, u).Some? ==>
        Up(parent, n, u).value == cut || StartsBefore(starts, cut, Up(parent, n, u).value)
      decreases round - i
    {
      Earlier(parent, starts, n, i, cut, m);
      UpNext(parent, n, i, m);
      if StartsBefore(starts, m, cut) {
        cut, t := m, i;
      }
      m, i := parent[m], i + 1;
    }
    RoundHasCut(parent, starts, n, i, cut, t);
    UpReaches(parent, n, t, cut);
    ReachesTransitive(parent, n0, n, cut);
  }

  lemma UpReaches(p: Links, n: SpanID, k: nat, m: SpanID)
    requires Up(p, n, k) == Some(m)
    ensures Reaches(p, n, m)
  {
  }

  lemma Earlier(parent: Links, starts: map<SpanID, int>, n: SpanID, i: nat, cut: SpanID, m: SpanID)
    requires Up(parent, n, i) == Some(m)
    requires forall u: nat :: u < i && Up(parent, n, u).Some? ==>
      Up(parent, n, u).value == cut || StartsBefore(starts, cut, Up(parent, n, u).value)
    ensures var least := if StartsBefore(starts, m, cut) then m else cut;
            forall u: nat :: u < i + 1 && Up(parent, n, u).Some? ==>
              Up(parent, n, u).value == least || StartsBefore(starts, least, Up(parent, n, u).value)
  {
    hide StartsBefore;
    var least := if StartsBefore(starts, m, cut) then m else cut;
    forall u: nat | u < i + 1 && Up(parent, n, u).Some?
      ensures Up(parent, n, u).value == least || StartsBefore(starts, least, Up(parent, n, u).value)
    {
      var x := Up(parent, n, u).value;
      if u == i {
        if m != cut && least == cut {
          BeforeConnected(starts, m, cut);
        }
      } else if StartsBefore(starts, m, cut) && x != cut {
        BeforeTransitive(starts, m, cut, x);
      }
    }
  }

  // ---------------------------------------------------------------- cutting

  function Without(s: seq<SpanID>, x: SpanID): seq<SpanID> {
    if s == [] then []
    else
      var n := |s| - 1;
      Without(s[..n], x) + if s[n] == x then [] else [s[n]]
  }

  lemma {:induction false} WithoutKeeps(s: seq<SpanID>, x: SpanID)
    ensures forall y :: y in Without(s, x) <==> y in s && y != x
    ensures NoDuplicates(s) ==> NoDuplicates(Without(s, x))
  {
    if s != [] {
      var n := |s| - 1;
      WithoutKeeps(s[..n], x);
      assert s == s[..n] + [s[n]];
      if NoDuplicates(s) {
        assert s[n] !in s[..n];
      }
    }
  }

  /** Cutting one link on both ends keeps the rest inverse. */
  lemma CutKeepsInverse(children: Children, parent: Links, nodes: set<SpanID>, cut: SpanID)
    requires Inverse(children, parent, nodes) && cut in parent
    ensures var p := parent[cut];
            Inverse(children[p := Without(children[p], cut)], parent - {cut}, nodes)
  {
    hide ListsChildren;
    var p := parent[cut];
    CutListsOwn(children[p], parent, cut);
    forall q | q in nodes && q != p
      ensures ListsChildren(children[q], parent - {cut}, q)
    {
      CutListsOther(children[q], parent, cut, q);
    }
  }

  lemma CutListsOwn(s: seq<SpanID>, parent: Links, cut: SpanID)
    requires cut in parent && ListsChildren(s, parent, parent[cut])
    ensures ListsChildren(Without(s, cut), parent - {cut}, parent[cut])
  {
    WithoutKeeps(s, cut);
  }

  lemma CutListsOther(s: seq<SpanID>, parent: Links, cut: SpanID, q: SpanID)
    requires cut in parent && ListsChildren(s, parent, q) && q != parent[cut]
    ensures ListsChildren(s, parent - {cut}, q)
  {
  }

  lemma CutKeepsSettled(parent: Links, nodes: set<SpanID>, reached: set<SpanID>, depth: map<SpanID, nat>, cut: SpanID)
    requires Settled(parent, nodes, reached, depth) && cut !in reached
    ensures Settled(parent - {cut}, nodes, reached, depth)
  {
  }

  /** Once the cut is settled, so is everything that led to it. */
  lemma {:induction false} LedToCut(parent: Links, nodes: set<SpanID>, after: set<SpanID>, depth: map<SpanID, nat>,
                                    cut: SpanID, n: SpanID, k: nat)
    requires Settled(parent - {cut}, nodes, after, depth) && cut in after
    requires Up(parent, n, k) == Some(cut)
    ensures n in after
    decreases k
  {
    if k > 0 && n != cut {
      UpDefined(parent, n, 1, k);
      assert Up(parent, n, 0) == Some(n) && Up(parent, n, 1) == Some(parent[n]);
      UpPlus(parent, n, 1, k - 1);
      LedToCut(parent, nodes, after, depth, cut, parent[n], k - 1);
      assert n in parent - {cut} && (parent - {cut})[n] == parent[n];
    }
  }
}
