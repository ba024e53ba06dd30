/** Build, as the program runs it: nodes are linked in whatever order a map is
    walked, cycles are cut in place, and everything is sorted at the end. */
module Tree {
  import opened Trace
  import opened Sorting
  import opened Links
  import opened Marking
  import opened Cycles
  import opened Assembly

  class Tree {
    const traceID: TraceID
    var spans: map<SpanID, Span>
    var absent: Presence
    var bounds: map<SpanID, Bounds>
    var parent: Links
    var children: Children
    var roots: seq<SpanID>
    var missing: seq<SpanID>
    var cycles: seq<SpanID>

    function View(): Assembled
      reads this
    {
      Assembled(spans, bounds, absent, parent, children, roots, missing, cycles)
    }

    constructor (id: TraceID)
      ensures traceID == id && spans == map[] && parent == map[] && children == map[] && bounds == map[]
      ensures roots == missing == cycles == []
    {
      traceID := id;
      spans, absent, bounds, parent, children := map[], Awaited, map[], map[], map[];
      roots, missing, cycles := [], [], [];
    }

    /** Every node linked as its span says, placeholders made, nothing sorted. */
    ghost predicate Linked()
      reads this
    {
      && parent == Named(spans)
      && Shaped() && cycles == []
    }

    /** The links are inverse on all nodes, and the lists hold what they should. */
    ghost predicate Shaped()
      reads `spans, `parent, `children, `roots, `missing
    {
      && Inverse(children, parent, Nodes(spans))
      && multiset(roots) == multiset(Nodes(spans) - parent.Keys)
      && multiset(missing) == multiset(Absent(spans))
    }

    /** Hangs every span under the parent it names, or under a placeholder. */
    method Link()
      requires parent == map[] && roots == missing == cycles == []
      requires children.Keys == spans.Keys && forall p :: p in children ==> children[p] == []
      modifies `parent, `children, `roots, `missing
      ensures Linked()
    {
      hide Inverse, Linking, Absent, Named, Nodes;
      var placeholders: set<SpanID> := {};
      var todo := spans.Keys;
      StartLinking(spans, children);
      while todo != {}
        invariant todo <= spans.Keys
        invariant Linking(spans, spans.Keys - todo, parent, children, roots, missing, placeholders)
      {
        var id :| id in todo;
        ghost var done := spans.Keys - todo;
        todo := todo - {id};
        assert spans.Keys - todo == done + {id};
        placeholders := LinkOne(id, placeholders, done);
      }
      assert spans.Keys - todo == spans.Keys;
      DoneLinking(spans, parent, children, roots, missing, placeholders);
    }

    method LinkOne(id: SpanID, placeholders: set<SpanID>, ghost done: set<SpanID>) returns (more: set<SpanID>)
      requires Linking(spans, done, parent, children, roots, missing, placeholders) && id in spans && id !in done
      modifies `parent, `children, `roots, `missing
      ensures Linking(spans, done + {id}, parent, children, roots, missing, more)
    {
      hide Linking;
      more := placeholders;
      if spans[id].IsRoot() {
        LinkRoot(spans, done, parent, children, roots, missing, placeholders, id);
        roots := roots + [id];
        return;
      }
      var pid := spans[id].parentID;
      if pid in spans || pid in placeholders {
        LinkKnown(spans, done, parent, children, roots, missing, placeholders, id);
      } else {
        LinkNew(spans, done, parent, children, roots, missing, placeholders, id);
        more := placeholders + {pid};
        children := children[pid := []];
        roots := roots + [pid];
        missing := missing + [pid];
      }
      parent := parent[id := pid];
      children := children[pid := children[pid] + [id]];
    }

    /** Marks what hangs below the roots. */
    method MarkRoots() returns (reached: set<SpanID>, ghost depth: map<SpanID, nat>)
      requires Shaped()
      ensures Settled(parent, Nodes(spans), reached, depth)
      ensures forall n :: n in Nodes(spans) && n !in parent ==> n in reached
    {
      hide Inverse, Settled, Nodes, Absent;
      reached, depth := {}, map[];
      NothingSettled(parent, Nodes(spans));
      ListsASet(roots, Nodes(spans) - parent.Keys);
      var i := 0;
      while i < |roots|
        invariant 0 <= i <= |roots|
        invariant Settled(parent, Nodes(spans), reached, depth)
        invariant forall k :: 0 <= k < i ==> roots[k] in reached
        invariant forall k :: i <= k < |roots| ==> roots[k] !in reached
      {
        assert roots[i] in roots;
        reached, depth := Mark(children, roots[i], reached, parent, Nodes(spans), depth);
        i := i + 1;
      }
      ListedAreReached(roots, Nodes(spans) - parent.Keys, reached);
    }

    /** The spans that no root leads to, earliest first. */
    method Strand(reached: set<SpanID>) returns (stranded: seq<SpanID>)
      ensures InStartOrder(stranded, spans.Keys - reached, SpanStarts(spans))
    {
      stranded := [];
      var todo := spans.Keys;
      while todo != {}
        invariant todo <= spans.Keys
        invariant multiset(stranded) == multiset(spans.Keys - todo - reached)
      {
        var n :| n in todo;
        ghost var before := spans.Keys - todo - reached;
        todo := todo - {n};
        if n !in reached {
          ListOneMore(stranded, before, n);
          assert spans.Keys - todo - reached == before + {n};
          stranded := stranded + [n];
        } else {
          assert spans.Keys - todo - reached == before;
        }
      }
      assert spans.Keys - todo - reached == spans.Keys - reached;
      stranded := SortByStart(stranded, SpanStarts(spans), spans.Keys - reached);
    }

    /** Cuts the cycle that a stranded node leads to, at its earliest span. */
    method CutLoose(n: SpanID, reached: set<SpanID>, ghost depth: map<SpanID, nat>, ghost cuts: set<SpanID>)
      returns (after: set<SpanID>, ghost deeper: map<SpanID, nat>, ghost more: set<SpanID>)
      requires Breaking(spans, parent, children, roots, cycles, reached, depth, cuts)
      requires n in spans && n !in reached
      modifies `parent, `children, `roots, `cycles
      ensures Breaking(spans, parent, children, roots, cycles, after, deeper, more)
      ensures reached <= after && n in after
    {
      hide Breaking, Stranding, Inverse, Settled, IsCut, Reaches, Nodes, SpanStarts;
      ghost var nodes := Nodes(spans);
      BreakingStrands(spans, parent, children, roots, cycles, reached, depth, cuts, n);
      var cut := FindCut(parent, SpanStarts(spans), n, nodes, reached);
      ghost var whole := parent;
      CutBreaks(spans, parent, children, roots, cycles, reached, depth, cuts, cut);
      var above := parent[cut];
      children := children[above := Without(children[above], cut)];
      parent := parent - {cut};
      roots := roots + [cut];
      cycles := cycles + [cut];
      after, deeper := Mark(children, cut, reached, parent, nodes, depth);
      more := cuts + {cut};
      MarkBreaks(spans, parent, children, roots, cycles, reached, after, deeper, more, cut);
      LeadsToCut(whole, nodes, after, deeper, cut, n);
    }

    /** Cuts loose whatever is still stranded when its turn comes. */
    method CutAll(stranded: seq<SpanID>, start: set<SpanID>, ghost from: map<SpanID, nat>)
      returns (ghost depth: map<SpanID, nat>)
      requires Breaking(spans, parent, children, roots, cycles, start, from, {})
      requires InStartOrder(stranded, spans.Keys - start, SpanStarts(spans))
      modifies `parent, `children, `roots, `cycles
      ensures parent == Kept(spans) && multiset(cycles) == multiset(Cuts(spans))
      ensures Inverse(children, parent, Nodes(spans)) && multiset(roots) == multiset(Nodes(spans) - parent.Keys)
      ensures IsDepth(parent, Nodes(spans), depth)
    {
      hide Breaking, Inverse, Nodes, Kept, Cuts, InStartOrder, SpanStarts, IsDepth;
      var reached := start;
      depth := from;
      ghost var cuts: set<SpanID> := {};
      var i := 0;
      while i < |stranded|
        invariant 0 <= i <= |stranded|
        invariant Breaking(spans, parent, children, roots, cycles, reached, depth, cuts)
        invariant forall k :: 0 <= k < i ==> stranded[k] in reached
        invariant start <= reached
      {
        var n := stranded[i];
        StrandedArrived(stranded, spans.Keys - start, SpanStarts(spans), i);
        if n !in reached {
          reached, depth, cuts := CutLoose(n, reached, depth, cuts);
        }
        i := i + 1;
      }
      StrandedAreReached(stranded, spans.Keys - start, SpanStarts(spans), reached);
      SpansReached(spans, parent, children, roots, cycles, reached, depth, cuts);
      DoneBreaking(spans, parent, children, roots, cycles, reached, depth, cuts);
    }

    /** breakCycles: one link of each cycle is cut, the one above its earliest
        span, and then every node is below some root. */
    method BreakCycles() returns (ghost depth: map<SpanID, nat>)
      requires Linked()
      modifies `parent, `children, `roots, `cycles
      ensures Shaped() && parent == Kept(spans)
      ensures InStartOrder(cycles, Cuts(spans), SpanStarts(spans))
      ensures IsDepth(parent, Nodes(spans), depth)
    {
      hide Breaking, Inverse, Settled, Nodes, Absent, Named, Kept, Cuts, InStartOrder, SpanStarts, IsDepth;
      var reached;
      reached, depth := MarkRoots();
      ghost var cuts: set<SpanID> := {};
      NothingCut(spans, parent, children, roots, cycles, reached, depth);
      if |reached| == |spans| + |missing| {
        AllReached(spans, parent, missing, reached, depth);
        DoneBreaking(spans, parent, children, roots, cycles, reached, depth, cuts);
        NoneInOrder(spans, cycles);
        return;
      }
      var stranded := Strand(reached);
      depth := CutAll(stranded, reached, depth);
      cycles := SortByStart(cycles, SpanStarts(spans), Cuts(spans));
    }

    /** Gives every placeholder the envelope of its children. */
    method Borrow()
      requires Shaped() && parent == Kept(spans) && bounds == map[]
      modifies `bounds
      ensures Borrowed(spans, parent, bounds)
    {
      hide Inverse, Nodes, Absent, Kept, IsEnvelope;
      ListsASet(missing, Absent(spans));
      var i := 0;
      while i < |missing|
        invariant 0 <= i <= |missing|
        invariant forall p :: p in bounds <==> p in missing[..i]
        invariant forall p :: p in bounds ==> IsEnvelope(spans, ChildSet(parent, p), bounds[p])
      {
        var p := missing[i];
        assert p in missing;
        HasFirstChild(spans, children, p);
        var b := Envelope(spans, children[p]);
        bounds := bounds[p := b];
        assert missing[..i + 1] == missing[..i] + [p];
        i := i + 1;
      }
      assert missing[..i] == missing;
      assert bounds.Keys == Absent(spans);
    }

    /** Sorts the children of some of the nodes, in whatever order they come. */
    method SortChildren(of: set<SpanID>, starts: map<SpanID, int>)
      requires Inverse(children, parent, Nodes(spans)) && of <= Nodes(spans)
      modifies `children
      ensures Inverse(children, parent, Nodes(spans))
      ensures forall p :: p in of ==> p in children && InStartOrder(children[p], ChildSet(parent, p), starts)
      ensures forall p :: p in old(children) && p !in of ==> p in children && children[p] == old(children[p])
    {
      hide Inverse, InStartOrder, Nodes, ChildSet;
      var todo := of;
      while todo != {}
        invariant todo <= of
        invariant Inverse(children, parent, Nodes(spans))
        invariant forall p :: p in of && p !in todo ==> p in children && InStartOrder(children[p], ChildSet(parent, p), starts)
        invariant forall p :: p in old(children) && p !in of ==> p in children && children[p] == old(children[p])
      {
        var p :| p in todo;
        todo := todo - {p};
        ChildrenListed(children, parent, Nodes(spans), p);
        var sorted := SortByStart(children[p], starts, ChildSet(parent, p));
        ReorderKeepsInverse(children, parent, Nodes(spans), p, sorted);
        children := children[p := sorted];
      }
    }

    /** Puts everything that was collected in map order into start order. */
    method Sort()
      requires Shaped() && parent == Kept(spans) && Borrowed(spans, parent, bounds)
      requires InStartOrder(cycles, Cuts(spans), SpanStarts(spans))
      modifies `roots, `missing, `children
      ensures Placed(spans, View())
    {
      hide Inverse, InStartOrder, Nodes, Absent, Kept, Cuts, Borrowed, ChildSet, Starts, SpanStarts, Placed;
      var starts := Starts(spans, bounds);
      roots := SortByStart(roots, starts, Nodes(spans) - parent.Keys);
      missing := SortByStart(missing, starts, Absent(spans));
      SortAllChildren(starts);
      SortedIsPlaced(spans, View());
    }

    method SortAllChildren(starts: map<SpanID, int>)
      requires Inverse(children, parent, Nodes(spans)) && multiset(missing) == multiset(Absent(spans))
      modifies `children
      ensures children.Keys == Nodes(spans)
      ensures forall p :: p in children ==> InStartOrder(children[p], ChildSet(parent, p), starts)
    {
      hide Inverse, InStartOrder, Nodes, Absent, ChildSet;
      ListsASet(missing, Absent(spans));
      NodesAre(spans);
      SortChildren(spans.Keys, starts);
      SortChildren((set p | p in missing), starts);
      ChildrenKeys(children, parent, Nodes(spans));
    }

    /** The spans that arrived, the last copy of each. */
    method Receive(arrived: seq<Span>) returns (ok: bool)
      requires spans == map[] && children == map[]
      modifies `spans, `children
      ensures ok <==> forall i :: 0 <= i < |arrived| ==> arrived[i].traceID == traceID
      ensures ok ==> spans == LastCopies(arrived)
      ensures children.Keys == spans.Keys && forall p :: p in children ==> children[p] == []
    {
      for i := 0 to |arrived|
        invariant forall k :: 0 <= k < i ==> arrived[k].traceID == traceID
        invariant spans == LastCopies(arrived[..i])
        invariant children.Keys == spans.Keys && forall p :: p in children ==> children[p] == []
      {
        var s := arrived[i];
        if s.traceID != traceID {
          return false;
        }
        assert arrived[..i + 1][..i] == arrived[..i];
        spans := spans[s.spanID := s];
        children := children[s.spanID := []];
      }
      assert arrived[..|arrived|] == arrived;
      return true;
    }

    method Assemble(phase: Phase) returns (ghost depth: map<SpanID, nat>)
      requires parent == map[] && bounds == map[] && roots == missing == cycles == []
      requires children.Keys == spans.Keys && forall p :: p in children ==> children[p] == []
      modifies `absent, `parent, `bounds, `children, `roots, `missing, `cycles
      ensures IsTree(spans, phase, View()) && IsDepth(parent, Nodes(spans), depth)
    {
      hide IsTree, IsDepth, Nodes, Placed, Borrowed, Inverse, Named, Absent, Kept, Cuts, InStartOrder, SpanStarts, Shaped, Linked;
      absent := if phase == Sealed then Lost else Awaited;
      Link();
      depth := BreakCycles();
      Borrow();
      Sort();
      PlacedIsTree(spans, phase, View());
    }
  }

  datatype Outcome = NoSpans | MixedTraces | Built(tree: Tree)

  /** Build: for any spans of one trace, however broken their links, it ends with
      the one tree their last copies call for, and that tree is a forest. */
  method Build(arrived: seq<Span>, phase: Phase) returns (r: Outcome, ghost depth: map<SpanID, nat>)
    ensures r.NoSpans? <==> arrived == []
    ensures r.MixedTraces? <==> exists i :: 0 <= i < |arrived| && arrived[i].traceID != arrived[0].traceID
    ensures r.Built? ==> fresh(r.tree) && r.tree.traceID == arrived[0].traceID
    ensures r.Built? ==> IsTree(LastCopies(arrived), phase, r.tree.View())
    ensures r.Built? ==> IsDepth(r.tree.parent, Nodes(LastCopies(arrived)), depth)
  {
    hide IsTree, IsDepth, Nodes, LastCopies;
    depth := map[];
    if arrived == [] {
      return NoSpans, depth;
    }
    var t := new Tree(arrived[0].traceID);
    var ok := t.Receive(arrived);
    if !ok {
      return MixedTraces, depth;
    }
    depth := t.Assemble(phase);
    r := Built(t);
  }

  /** The absent parents named by some of the spans. */
  function AbsentAmong(last: map<SpanID, Span>, done: set<SpanID>): set<SpanID> {
    set id | id in last && id in done && !last[id].IsRoot() && last[id].parentID !in last :: last[id].parentID
  }

  function RootsAmong(last: map<SpanID, Span>, done: set<SpanID>): set<SpanID> {
    set id | id in last && id in done && last[id].IsRoot()
  }

  function NamedAmong(last: map<SpanID, Span>, done: set<SpanID>): Links {
    map id | id in last && id in done && !last[id].IsRoot() :: last[id].parentID
  }

  /** The linking loop, once it is done with some of the spans. */
  ghost predicate Linking(last: map<SpanID, Span>, done: set<SpanID>, parent: Links, children: Children,
                          roots: seq<SpanID>, missing: seq<SpanID>, placeholders: set<SpanID>)
  {
    && placeholders == AbsentAmong(last, done)
    && parent == NamedAmong(last, done)
    && Inverse(children, parent, last.Keys + placeholders)
    && multiset(roots) == multiset(RootsAmong(last, done) + placeholders)
    && multiset(missing) == multiset(placeholders)
  }

  lemma StartLinking(last: map<SpanID, Span>, children: Children)
    requires children.Keys == last.Keys && forall p :: p in children ==> children[p] == []
    ensures Linking(last, {}, map[], children, [], [], {})
  {
    assert RootsAmong(last, {}) + {} == {};
    assert last.Keys + {} == last.Keys;
  }

  lemma InverseAdd(children: Children, parent: Links, nodes: set<SpanID>, id: SpanID, pid: SpanID)
    requires Inverse(children, parent, nodes) && id in nodes && pid in nodes && id !in parent
    ensures Inverse(children[pid := children[pid] + [id]], parent[id := pid], nodes)
  {
    hide ListsChildren;
    ListsOneMore(children[pid], parent, id, pid);
    forall q | q in nodes && q != pid
      ensures ListsChildren(children[q], parent[id := pid], q)
    {
      ListsNoMore(children[q], parent, id, pid, q);
    }
  }

  lemma ListsOneMore(s: seq<SpanID>, parent: Links, id: SpanID, pid: SpanID)
    requires ListsChildren(s, parent, pid) && id !in parent
    ensures ListsChildren(s + [id], parent[id := pid], pid)
  {
    assert id !in s;
  }

  lemma ListsNoMore(s: seq<SpanID>, parent: Links, id: SpanID, pid: SpanID, q: SpanID)
    requires ListsChildren(s, parent, q) && id !in parent && q != pid
    ensures ListsChildren(s, parent[id := pid], q)
  {
    assert id !in s;
  }

  lemma InverseNew(children: Children, parent: Links, nodes: set<SpanID>, x: SpanID)
    requires Inverse(children, parent, nodes) && x !in nodes
    ensures Inverse(children[x := []], parent, nodes + {x})
  {
    hide ListsChildren;
    assert ListsChildren([], parent, x) by { NoChildren(parent, x); }
  }

  lemma NoChildren(parent: Links, x: SpanID)
    requires forall n :: n in parent ==> parent[n] != x
    ensures ListsChildren([], parent, x)
  {
  }

  lemma AmongOneMore(last: map<SpanID, Span>, done: set<SpanID>, id: SpanID)
    requires id in last && id !in done
    ensures var s := last[id];
            && AbsentAmong(last, done + {id}) == AbsentAmong(last, done) +
                 (if !s.IsRoot() && s.parentID !in last then {s.parentID} else {})
            && RootsAmong(last, done + {id}) == RootsAmong(last, done) + (if s.IsRoot() then {id} else {})
            && NamedAmong(last, done + {id}) ==
                 (if s.IsRoot() then NamedAmong(last, done) else NamedAmong(last, done)[id := s.parentID])
    ensures AbsentAmong(last, done) !! last.Keys
    ensures RootsAmong(last, done) <= last.Keys && id !in RootsAmong(last, done) && id !in NamedAmong(last, done)
  {
    var named, more := NamedAmong(last, done), NamedAmong(last, done + {id});
    if last[id].IsRoot() {
      assert more == named;
    } else {
      assert more == named[id := last[id].parentID];
    }
  }

  lemma ListOneMore(s: seq<SpanID>, xs: set<SpanID>, x: SpanID)
    requires multiset(s) == multiset(xs) && x !in xs
    ensures multiset(s + [x]) == multiset(xs + {x})
  {
  }

  lemma LinkRoot(last: map<SpanID, Span>, done: set<SpanID>, parent: Links, children: Children,
                 roots: seq<SpanID>, missing: seq<SpanID>, placeholders: set<SpanID>, id: SpanID)
    requires Linking(last, done, parent, children, roots, missing, placeholders) && id in last && id !in done
    requires last[id].IsRoot()
    ensures Linking(last, done + {id}, parent, children, roots + [id], missing, placeholders)
  {
    hide Inverse, AbsentAmong, RootsAmong, NamedAmong;
    AmongOneMore(last, done, id);
    ListOneMore(roots, RootsAmong(last, done) + placeholders, id);
    assert RootsAmong(last, done + {id}) + placeholders == RootsAmong(last, done) + placeholders + {id};
    assert placeholders + {} == placeholders;
  }

  lemma LinkKnown(last: map<SpanID, Span>, done: set<SpanID>, parent: Links, children: Children,
                  roots: seq<SpanID>, missing: seq<SpanID>, placeholders: set<SpanID>, id: SpanID)
    requires Linking(last, done, parent, children, roots, missing, placeholders) && id in last && id !in done
    requires !last[id].IsRoot() && (last[id].parentID in last || last[id].parentID in placeholders)
    ensures var pid := last[id].parentID;
            && pid in children
            && Linking(last, done + {id}, parent[id := pid], children[pid := children[pid] + [id]],
                       roots, missing, placeholders)
  {
    hide Inverse, AbsentAmong, RootsAmong, NamedAmong;
    AmongOneMore(last, done, id);
    ChildrenKeys(children, parent, last.Keys + placeholders);
    InverseAdd(children, parent, last.Keys + placeholders, id, last[id].parentID);
    assert AbsentAmong(last, done + {id}) == placeholders;
    assert RootsAmong(last, done + {id}) == RootsAmong(last, done);
  }

  lemma ChildrenKeys(children: Children, parent: Links, nodes: set<SpanID>)
    requires Inverse(children, parent, nodes)
    ensures children.Keys == nodes
  {
  }

  lemma LinkNew(last: map<SpanID, Span>, done: set<SpanID>, parent: Links, children: Children,
                roots: seq<SpanID>, missing: seq<SpanID>, placeholders: set<SpanID>, id: SpanID)
    requires Linking(last, done, parent, children, roots, missing, placeholders) && id in last && id !in done
    requires !last[id].IsRoot() && last[id].parentID !in last && last[id].parentID !in placeholders
    ensures var pid := last[id].parentID;
            Linking(last, done + {id}, parent[id := pid], children[pid := []][pid := [] + [id]],
                    roots + [pid], missing + [pid], placeholders + {pid})
  {
    hide Inverse, AbsentAmong, RootsAmong, NamedAmong;
    var pid := last[id].parentID;
    var nodes := last.Keys + placeholders;
    AmongOneMore(last, done, id);
    InverseNew(children, parent, nodes, pid);
    InverseAdd(children[pid := []], parent, nodes + {pid}, id, pid);
    assert nodes + {pid} == last.Keys + (placeholders + {pid});
    ListOneMore(roots, RootsAmong(last, done) + placeholders, pid);
    ListOneMore(missing, placeholders, pid);
    assert RootsAmong(last, done + {id}) + (placeholders + {pid}) == RootsAmong(last, done) + placeholders + {pid};
  }

  lemma DoneLinking(last: map<SpanID, Span>, parent: Links, children: Children,
                    roots: seq<SpanID>, missing: seq<SpanID>, placeholders: set<SpanID>)
    requires Linking(last, last.Keys, parent, children, roots, missing, placeholders)
    ensures parent == Named(last) && Inverse(children, parent, Nodes(last))
    ensures multiset(roots) == multiset(Nodes(last) - parent.Keys)
    ensures multiset(missing) == multiset(Absent(last))
  {
    hide Inverse;
    AllLinked(last);
  }

  lemma AllLinked(last: map<SpanID, Span>)
    ensures AbsentAmong(last, last.Keys) == Absent(last)
    ensures NamedAmong(last, last.Keys) == Named(last)
    ensures RootsAmong(last, last.Keys) + Absent(last) == Nodes(last) - Named(last).Keys
  {
  }

  // ---------------------------------------------------------- breaking cycles

  /** Some cycles cut, and everything below the roots there are by now reached. */
  ghost predicate Breaking(last: map<SpanID, Span>, parent: Links, children: Children, roots: seq<SpanID>,
                           cycles: seq<SpanID>, reached: set<SpanID>, depth: map<SpanID, nat>, cuts: set<SpanID>)
  {
    && cuts <= Named(last).Keys && parent == Named(last) - cuts
    && (forall c :: c in cuts ==> IsCut(Named(last), SpanStarts(last), c))
    && Inverse(children, parent, Nodes(last))
    && Settled(parent, Nodes(last), reached, depth)
    && (forall n :: n in Nodes(last) && n !in parent ==> n in reached)
    && multiset(roots) == multiset(Nodes(last) - parent.Keys)
    && multiset(cycles) == multiset(cuts)
  }

  lemma NothingSettled(parent: Links, nodes: set<SpanID>)
    ensures Settled(parent, nodes, {}, map[])
  {
  }

  lemma ListedAreReached(roots: seq<SpanID>, xs: set<SpanID>, reached: set<SpanID>)
    requires forall x :: x in roots <==> x in xs
    requires forall k :: 0 <= k < |roots| ==> roots[k] in reached
    ensures forall x :: x in xs ==> x in reached
  {
  }

  lemma NothingCut(last: map<SpanID, Span>, parent: Links, children: Children, roots: seq<SpanID>,
                   cycles: seq<SpanID>, reached: set<SpanID>, depth: map<SpanID, nat>)
    requires parent == Named(last) && Inverse(children, parent, Nodes(last)) && cycles == []
    requires multiset(roots) == multiset(Nodes(last) - parent.Keys)
    requires Settled(parent, Nodes(last), reached, depth)
    requires forall n :: n in Nodes(last) && n !in parent ==> n in reached
    ensures Breaking(last, parent, children, roots, cycles, reached, depth, {})
  {
    hide Inverse, Settled, Nodes, Named;
    assert Named(last) - {} == Named(last);
  }

  lemma BreakingStrands(last: map<SpanID, Span>, parent: Links, children: Children, roots: seq<SpanID>,
                        cycles: seq<SpanID>, reached: set<SpanID>, depth: map<SpanID, nat>, cuts: set<SpanID>, n: SpanID)
    requires Breaking(last, parent, children, roots, cycles, reached, depth, cuts) && n in last
    ensures Stranding(parent, Nodes(last), reached) && n in Nodes(last)
  {
    hide Absent, ListsChildren, IsDepth, IsCut, Named;
  }

  lemma CutBreaks(last: map<SpanID, Span>, parent: Links, children: Children, roots: seq<SpanID>,
                  cycles: seq<SpanID>, reached: set<SpanID>, depth: map<SpanID, nat>, cuts: set<SpanID>, cut: SpanID)
    requires Breaking(last, parent, children, roots, cycles, reached, depth, cuts)
    requires IsCut(parent, SpanStarts(last), cut) && cut in parent && cut !in reached && cut in Nodes(last)
    ensures var above := parent[cut];
            var more := cuts + {cut};
            && above in children
            && Inverse(children[above := Without(children[above], cut)], parent - {cut}, Nodes(last))
            && Settled(parent - {cut}, Nodes(last), reached, depth)
            && more <= Named(last).Keys && parent - {cut} == Named(last) - more
            && (forall c :: c in more ==> IsCut(Named(last), SpanStarts(last), c))
            && (forall n :: n in Nodes(last) && n !in parent - {cut} && n != cut ==> n in reached)
            && multiset(roots + [cut]) == multiset(Nodes(last) - (parent - {cut}).Keys)
            && multiset(cycles + [cut]) == multiset(more)
  {
    hide IsCut, Nodes, Named, SpanStarts, IsDepth, ListsChildren;
    InverseLinks(children, parent, Nodes(last), cut);
    hide Inverse;
    CutKeepsInverse(children, parent, Nodes(last), cut);
    CutKeepsSettled(parent, Nodes(last), reached, depth, cut);
    hide Settled;
    assert parent - {cut} == Named(last) - (cuts + {cut});
    CutAmong(parent, Named(last), SpanStarts(last), cut);
    ListOneMore(roots, Nodes(last) - parent.Keys, cut);
    assert Nodes(last) - (parent - {cut}).Keys == Nodes(last) - parent.Keys + {cut};
    ListOneMore(cycles, cuts, cut);
  }

  lemma InverseLinks(children: Children, parent: Links, nodes: set<SpanID>, n: SpanID)
    requires Inverse(children, parent, nodes) && n in parent
    ensures parent[n] in children
  {
  }

  lemma MarkBreaks(last: map<SpanID, Span>, parent: Links, children: Children, roots: seq<SpanID>, cycles: seq<SpanID>,
                   reached: set<SpanID>, after: set<SpanID>, depth: map<SpanID, nat>, cuts: set<SpanID>, cut: SpanID)
    requires cuts <= Named(last).Keys && parent == Named(last) - cuts
    requires forall c :: c in cuts ==> IsCut(Named(last), SpanStarts(last), c)
    requires Inverse(children, parent, Nodes(last)) && Settled(parent, Nodes(last), after, depth)
    requires multiset(roots) == multiset(Nodes(last) - parent.Keys) && multiset(cycles) == multiset(cuts)
    requires reached <= after && cut in after
    requires forall n :: n in Nodes(last) && n !in parent && n != cut ==> n in reached
    ensures Breaking(last, parent, children, roots, cycles, after, depth, cuts)
  {
    hide IsCut, Inverse, Settled, Nodes, Named, SpanStarts;
  }

  lemma LeadsToCut(parent: Links, nodes: set<SpanID>, after: set<SpanID>, depth: map<SpanID, nat>, cut: SpanID, n: SpanID)
    requires Settled(parent - {cut}, nodes, after, depth) && cut in after && Reaches(parent, n, cut)
    ensures n in after
  {
    var k: nat :| Up(parent, n, k) == Some(cut);
    LedToCut(parent, nodes, after, depth, cut, n, k);
  }

  lemma SetSizes(xs: set<SpanID>, ys: set<SpanID>, s: seq<SpanID>)
    requires multiset(s) == multiset(ys) && xs !! ys
    ensures |xs + ys| == |xs| + |s|
  {
    assert |multiset(s)| == |s|;
    SetSize(ys);
  }

  lemma {:induction false} SetSize(ys: set<SpanID>)
    ensures |multiset(ys)| == |ys|
  {
    if ys != {} {
      var y :| y in ys;
      SetSize(ys - {y});
      assert ys == ys - {y} + {y};
      assert multiset(ys) == multiset(ys - {y}) + multiset{y};
    }
  }

  lemma {:induction false} SameSize(xs: set<SpanID>, ys: set<SpanID>)
    requires xs <= ys && |xs| == |ys|
    ensures xs == ys
  {
    if xs != {} {
      var x :| x in xs;
      SameSize(xs - {x}, ys - {x});
    }
  }

  /** Counting settles it: reached as often as there are nodes, nothing is left. */
  lemma AllReached(last: map<SpanID, Span>, parent: Links, missing: seq<SpanID>, reached: set<SpanID>, depth: map<SpanID, nat>)
    requires Settled(parent, Nodes(last), reached, depth) && multiset(missing) == multiset(Absent(last))
    requires |reached| == |last| + |missing|
    ensures reached == Nodes(last)
  {
    AbsentIsAbsent(last);
    hide Absent, IsDepth;
    SetSizes(last.Keys, Absent(last), missing);
    assert |last.Keys| == |last|;
    SameSize(reached, Nodes(last));
  }

  lemma AbsentIsAbsent(last: map<SpanID, Span>)
    ensures last.Keys !! Absent(last) && Named(last).Keys <= last.Keys
  {
  }

  lemma SpansReached(last: map<SpanID, Span>, parent: Links, children: Children, roots: seq<SpanID>,
                     cycles: seq<SpanID>, reached: set<SpanID>, depth: map<SpanID, nat>, cuts: set<SpanID>)
    requires Breaking(last, parent, children, roots, cycles, reached, depth, cuts)
    requires forall x :: x in last ==> x in reached
    ensures reached == Nodes(last)
  {
    AbsentIsAbsent(last);
    hide Absent, Inverse, IsCut, IsDepth, Named;
  }

  lemma StrandedArrived(stranded: seq<SpanID>, xs: set<SpanID>, starts: map<SpanID, int>, i: nat)
    requires InStartOrder(stranded, xs, starts) && i < |stranded|
    ensures stranded[i] in xs
  {
  }

  lemma StrandedAreReached(stranded: seq<SpanID>, xs: set<SpanID>, starts: map<SpanID, int>, reached: set<SpanID>)
    requires InStartOrder(stranded, xs, starts) && forall k :: 0 <= k < |stranded| ==> stranded[k] in reached
    ensures forall x :: x in xs ==> x in reached
  {
  }

  /** With all nodes reached, the cuts made are all the cuts there are. */
  lemma DoneBreaking(last: map<SpanID, Span>, parent: Links, children: Children, roots: seq<SpanID>,
                     cycles: seq<SpanID>, reached: set<SpanID>, depth: map<SpanID, nat>, cuts: set<SpanID>)
    requires Breaking(last, parent, children, roots, cycles, reached, depth, cuts) && reached == Nodes(last)
    ensures parent == Kept(last) && multiset(cycles) == multiset(Cuts(last))
    ensures Inverse(children, parent, Nodes(last)) && multiset(roots) == multiset(Nodes(last) - parent.Keys)
    ensures IsDepth(parent, Nodes(last), depth)
  {
    AbsentIsAbsent(last);
    hide IsCut, Inverse, IsDepth, Named, SpanStarts, Absent;
    forall n | n in last
      ensures n in cuts <==> n in Cuts(last)
    {
      if n in Cuts(last) {
        CutsAreAll(Named(last), SpanStarts(last), cuts, Nodes(last), depth, n);
      }
    }
    assert cuts == Cuts(last);
  }

  lemma NoneInOrder(last: map<SpanID, Span>, cycles: seq<SpanID>)
    requires multiset(cycles) == multiset(Cuts(last)) && cycles == []
    ensures InStartOrder(cycles, Cuts(last), SpanStarts(last))
  {
    hide Cuts;
    ListsASet(cycles, Cuts(last));
  }

  // ------------------------------------------------------- times and sorting

  ghost predicate Borrowed(last: map<SpanID, Span>, parent: Links, bounds: map<SpanID, Bounds>) {
    && bounds.Keys == Absent(last)
    && forall p :: p in bounds ==> IsEnvelope(last, ChildSet(parent, p), bounds[p])
  }

  /** Everything a tree should be, but for how its placeholders are called. */
  ghost predicate Placed(last: map<SpanID, Span>, t: Assembled) {
    var starts := Starts(last, t.bounds);
    && t.spans == last && t.parent == Kept(last) && Borrowed(last, t.parent, t.bounds)
    && t.children.Keys == Nodes(last)
    && (forall p :: p in Nodes(last) ==> InStartOrder(t.children[p], ChildSet(t.parent, p), starts))
    && InStartOrder(t.roots, Nodes(last) - t.parent.Keys, starts)
    && InStartOrder(t.missing, Absent(last), starts)
    && InStartOrder(t.cycles, Cuts(last), starts)
  }

  lemma SortedIsPlaced(last: map<SpanID, Span>, t: Assembled)
    requires t.spans == last && t.parent == Kept(last) && Borrowed(last, t.parent, t.bounds)
    requires t.children.Keys == Nodes(last)
    requires var starts := Starts(last, t.bounds);
             && (forall p :: p in t.children ==> InStartOrder(t.children[p], ChildSet(t.parent, p), starts))
             && InStartOrder(t.roots, Nodes(last) - t.parent.Keys, starts)
             && InStartOrder(t.missing, Absent(last), starts)
    requires InStartOrder(t.cycles, Cuts(last), SpanStarts(last))
    ensures Placed(last, t)
  {
    hide InStartOrder, Nodes, Absent, Kept, Cuts, Borrowed, ChildSet, Starts, SpanStarts;
    CyclesInOrder(last, t.bounds, t.cycles);
  }

  lemma PlacedIsTree(last: map<SpanID, Span>, phase: Phase, t: Assembled)
    requires Placed(last, t) && t.absent == (if phase == Sealed then Lost else Awaited)
    ensures IsTree(last, phase, t)
  {
    hide InStartOrder, IsEnvelope, ChildSet, Nodes, Absent, Kept, Cuts, Starts;
  }

  lemma HasFirstChild(last: map<SpanID, Span>, children: Children, p: SpanID)
    requires Inverse(children, Kept(last), Nodes(last)) && p in Absent(last)
    ensures p in children && children[p] != [] && (forall c :: c in children[p] ==> c in last)
    ensures (set c | c in children[p]) == ChildSet(Kept(last), p)
  {
    hide Kept, Absent;
    assert p in Nodes(last);
    assert ListsChildren(children[p], Kept(last), p);
    assert (set c | c in children[p]) == ChildSet(Kept(last), p);
    PlaceholderHasChildren(last, p);
    ChildrenArrived(last, p);
    var c :| c in ChildSet(Kept(last), p);
    assert c in children[p];
  }

  lemma ChildrenListed(children: Children, parent: Links, nodes: set<SpanID>, p: SpanID)
    requires Inverse(children, parent, nodes) && p in nodes
    ensures p in children && multiset(children[p]) == multiset(ChildSet(parent, p))
  {
    var s := children[p];
    assert ListsChildren(s, parent, p);
    forall x
      ensures multiset(s)[x] == multiset(ChildSet(parent, p))[x]
    {
      OccursOnce(s, x);
    }
  }

  lemma {:induction false} OccursOnce(s: seq<SpanID>, x: SpanID)
    requires NoDuplicates(s)
    ensures multiset(s)[x] == if x in s then 1 else 0
  {
    if s != [] {
      var n := |s| - 1;
      assert s == s[..n] + [s[n]];
      OccursOnce(s[..n], x);
    }
  }

  lemma ReorderKeepsInverse(children: Children, parent: Links, nodes: set<SpanID>, p: SpanID, s: seq<SpanID>)
    requires Inverse(children, parent, nodes) && p in nodes
    requires multiset(s) == multiset(ChildSet(parent, p))
    ensures Inverse(children[p := s], parent, nodes)
  {
    ListsASet(s, ChildSet(parent, p));
    assert ListsChildren(s, parent, p);
    hide ListsChildren;
  }

  lemma NodesAre(last: map<SpanID, Span>)
    ensures Nodes(last) == last.Keys + Absent(last)
  {
  }

  /** Only spans that arrived are cut, so placeholders' times do not matter to the
      order of the cycles. */
  lemma CyclesInOrder(last: map<SpanID, Span>, bounds: map<SpanID, Bounds>, cycles: seq<SpanID>)
    requires InStartOrder(cycles, Cuts(last), SpanStarts(last))
    ensures InStartOrder(cycles, Cuts(last), Starts(last, bounds))
  {
    CutsArrived(last);
    hide Cuts;
    forall i, j | 0 <= i < j < |cycles|
      ensures StartsBefore(Starts(last, bounds), cycles[i], cycles[j])
    {
      assert cycles[i] in Cuts(last) && cycles[j] in Cuts(last);
    }
  }

  lemma CutsArrived(last: map<SpanID, Span>)
    ensures Cuts(last) <= last.Keys
  {
  }
}
