/** Judging an assembled trace. */
module Policy {
  import opened Trace
  import opened Sorting
  import opened Links
  import opened Marking
  import opened Assembly
  import opened Forest
  import Tree

  datatype Verdict = Verdict(keep: bool, reason: string)

  /** The policies that are shipped. */
  datatype Policy = KeepErrors | KeepSlow(threshold: int) | KeepFraction(threshold: int)

  // -------------------------------------- what the verdict on a trace should be

  ghost predicate SomeFailed(last: map<SpanID, Span>) {
    exists id :: id in last && last[id].code == 2
  }

  /** The spans nothing that arrived is above: roots, the cut ones included, and
      the children of placeholders. */
  ghost function Tops(last: map<SpanID, Span>): set<SpanID> {
    set id | id in last && (id !in Kept(last) || Kept(last)[id] !in last)
  }

  /** How long a trace took: from the earliest start to the latest end of its
      topmost spans. */
  ghost predicate Took(last: map<SpanID, Span>, d: int) {
    exists b :: IsEnvelope(last, Tops(last), b) && d == b.end - b.start
  }

  lemma TookUnique(last: map<SpanID, Span>, d: int, e: int)
    requires Took(last, d) && Took(last, e)
    ensures d == e
  {
    var a :| IsEnvelope(last, Tops(last), a) && d == a.end - a.start;
    var b :| IsEnvelope(last, Tops(last), b) && e == b.end - b.start;
    EnvelopeUnique(last, Tops(last), a, b);
  }

  function BigEndian(s: seq<Byte>): nat {
    if s == [] then 0 else BigEndian(s[..|s| - 1]) * 256 + s[|s| - 1]
  }

  const LOW_BITS: nat := 0x100_0000_0000_0000

  /** The rightmost 56 bits of a trace identifier. */
  function Randomness(id: TraceID): nat {
    BigEndian(id[8..]) % LOW_BITS
  }

  function Sampled(id: TraceID, threshold: int): Verdict {
    if Randomness(id) < threshold then Verdict(true, "sampled") else Verdict(false, "sampled out")
  }

  /** What one policy makes of a trace, from the last copies of its spans. */
  ghost predicate Says(p: Policy, id: TraceID, last: map<SpanID, Span>, v: Option<Verdict>) {
    match p
    case KeepErrors => v == if SomeFailed(last) then Some(Verdict(true, "error")) else None
    case KeepSlow(threshold) =>
      exists d :: Took(last, d) && v == if d > threshold then Some(Verdict(true, "slow")) else None
    case KeepFraction(threshold) => v == Some(Sampled(id, threshold))
  }

  /** The verdict of a chain: the first there is, or to drop what none claims. */
  ghost predicate Rules(chain: seq<Policy>, id: TraceID, last: map<SpanID, Span>, v: Verdict) {
    if chain == [] then v == Verdict(false, "unclaimed")
    else Says(chain[0], id, last, Some(v)) || (Says(chain[0], id, last, None) && Rules(chain[1..], id, last, v))
  }

  lemma SaysOnce(p: Policy, id: TraceID, last: map<SpanID, Span>, v: Option<Verdict>, w: Option<Verdict>)
    requires Says(p, id, last, v) && Says(p, id, last, w)
    ensures v == w
  {
    if p.KeepSlow? {
      var d :| Took(last, d) && v == if d > p.threshold then Some(Verdict(true, "slow")) else None;
      var e :| Took(last, e) && w == if e > p.threshold then Some(Verdict(true, "slow")) else None;
      TookUnique(last, d, e);
    }
  }

  lemma {:induction false} RulesOnce(chain: seq<Policy>, id: TraceID, last: map<SpanID, Span>, v: Verdict, w: Verdict)
    requires Rules(chain, id, last, v) && Rules(chain, id, last, w)
    ensures v == w
    decreases |chain|
  {
    if chain != [] {
      hide Says;
      var a := if Says(chain[0], id, last, Some(v)) then Some(v) else None;
      var b := if Says(chain[0], id, last, Some(w)) then Some(w) else None;
      SaysOnce(chain[0], id, last, a, b);
      if a == None {
        RulesOnce(chain[1..], id, last, v, w);
      }
    }
  }

  // ------------------------------------------------------------- the walks

  lemma {:induction false} StopsAtFirst(vs: seq<Visit>, go: (Node, nat) -> bool) returns (k: nat)
    requires !AllGo(vs, go)
    ensures k < |vs| && !go(vs[k].node, vs[k].depth) && AllGo(vs[..k], go)
    ensures UpTo(vs, go) == vs[..k + 1]
    decreases |vs|
  {
    if go(vs[0].node, vs[0].depth) {
      assert vs == [vs[0]] + vs[1..];
      var j := StopsAtFirst(vs[1..], go);
      k := j + 1;
      assert vs[..k] == [vs[0]] + vs[1..][..j];
      assert vs[..k + 1] == [vs[0]] + vs[1..][..j + 1];
    } else {
      k := 0;
    }
  }

  predicate Failing(n: Node) {
    !n.Missing() && n.span.value.Failed()
  }

  ghost predicate AnyFailing(vs: seq<Visit>) {
    exists i :: 0 <= i < |vs| && Failing(vs[i].node)
  }

  /** The walk of KeepErrors: it holds what the last visit found. */
  method WalkForErrors(roots: seq<Node>) returns (failed: bool)
    ensures failed <==> AnyFailing(VisitsAll(roots, 0))
  {
    hide VisitsAll, Visits;
    var go := (n: Node, depth: nat) => !Failing(n);
    var visited := Walk(roots, go);
    failed := visited != [] && Failing(visited[|visited| - 1].node);
    ghost var vs := VisitsAll(roots, 0);
    if AllGo(vs, go) {
      UpToAppend(vs, [], go);
      assert visited == vs;
    } else {
      var k := StopsAtFirst(vs, go);
      assert Failing(vs[k].node) && visited[|visited| - 1] == vs[k];
    }
  }

  /** Duration over the roots. */
  ghost predicate Spread(roots: seq<Node>, d: int) {
    exists a, b :: a in roots && b in roots && d == b.end - a.start && Widest(roots, a, b)
  }

  ghost predicate Widest(roots: seq<Node>, a: Node, b: Node) {
    forall r :: r in roots ==> a.start <= r.start && r.end <= b.end
  }

  method Duration(roots: seq<Node>) returns (d: int)
    requires roots != []
    ensures Spread(roots, d)
  {
    var start, end := roots[0].start, roots[0].end;
    ghost var a, b := roots[0], roots[0];
    for i := 1 to |roots|
      invariant a in roots && a.start == start && b in roots && b.end == end
      invariant forall k :: 0 <= k < i ==> start <= roots[k].start && roots[k].end <= end
    {
      var r := roots[i];
      if r.start < start {
        start, a := r.start, r;
      }
      if end < r.end {
        end, b := r.end, r;
      }
    }
    d := end - start;
    assert Widest(roots, a, b);
  }

  /** The service of the first visited node that has a span. */
  method RootService(roots: seq<Node>) returns (service: Text)
    ensures var vs := VisitsAll(roots, 0);
            if forall i :: 0 <= i < |vs| ==> vs[i].node.Missing() then service == []
            else exists k :: 0 <= k < |vs| && vs[k].node.span.Some? && service == vs[k].node.span.value.service
                   && forall i :: 0 <= i < k ==> vs[i].node.Missing()
  {
    hide VisitsAll, Visits;
    var go := (n: Node, depth: nat) => n.Missing();
    var visited := Walk(roots, go);
    ghost var vs := VisitsAll(roots, 0);
    if visited != [] && visited[|visited| - 1].node.span.Some? {
      service := visited[|visited| - 1].node.span.value.service;
    } else {
      service := [];
    }
    if AllGo(vs, go) {
      UpToAppend(vs, [], go);
      assert visited == vs;
    } else {
      var k := StopsAtFirst(vs, go);
      assert !vs[k].node.Missing() && visited[|visited| - 1] == vs[k];
      forall i | 0 <= i < k
        ensures vs[i].node.Missing()
      {
        assert vs[..k][i] == vs[i];
      }
    }
  }

  // ------------------------------------------------ over the tree of a trace

  /** The trees that Build makes of a trace. */
  ghost predicate TreesOf(last: map<SpanID, Span>, phase: Phase, t: Assembled, depth: map<SpanID, nat>, roots: seq<Node>) {
    && IsTree(last, phase, t) && IsDepth(t.parent, Nodes(last), depth)
    && Grounded(t, depth) && depth.Keys == Nodes(last)
    && roots == Trees(t, depth)
  }

  /** The trees depend on nothing but the last copies. */
  lemma SameTrees(last: map<SpanID, Span>, phase: Phase, t: Assembled, u: Assembled,
                  d: map<SpanID, nat>, e: map<SpanID, nat>, roots: seq<Node>, others: seq<Node>)
    requires TreesOf(last, phase, t, d, roots) && TreesOf(last, phase, u, e, others)
    ensures t == u && d == e && roots == others
  {
    hide *;
    TreesOfIs(last, phase, t, d, roots);
    TreesOfIs(last, phase, u, e, others);
    TreeIsUnique(last, phase, t, u);
    DepthsAreSame(t.parent, Nodes(last), d, e);
  }

  lemma TreesOfIs(last: map<SpanID, Span>, phase: Phase, t: Assembled, depth: map<SpanID, nat>, roots: seq<Node>)
    requires TreesOf(last, phase, t, depth, roots)
    ensures IsTree(last, phase, t) && IsDepth(t.parent, Nodes(last), depth)
    ensures Grounded(t, depth) && depth.Keys == Nodes(last) && roots == Trees(t, depth)
  {
    hide IsTree, IsDepth, Grounded, Nodes, Trees;
  }

  lemma DepthsAreSame(p: Links, nodes: set<SpanID>, d: map<SpanID, nat>, e: map<SpanID, nat>)
    requires IsDepth(p, nodes, d) && IsDepth(p, nodes, e)
    ensures d == e
  {
    DepthKeys(p, nodes, d);
    DepthKeys(p, nodes, e);
    hide IsDepth;
    forall n | n in d
      ensures d[n] == e[n]
    {
      DepthUnique(p, nodes, d, e, n);
    }
  }

  lemma VisitedIds(vs: seq<Visit>, id: SpanID) returns (i: nat)
    requires id in Ids(vs)
    ensures i < |vs| && vs[i].node.id == id
  {
    i :| 0 <= i < |vs| && Ids(vs)[i] == id;
  }

  lemma VisitedNode(t: Assembled, depth: map<SpanID, nat>, vs: seq<Visit>, i: nat)
    requires Grounded(t, depth) && EachOnce(t, depth, vs) && i < |vs|
    ensures vs[i].node.id in depth && vs[i].node == Grow(t, depth, vs[i].node.id)
  {
    hide Grounded, NoDuplicates, Ids, Grow;
  }

  lemma VisitedAll(t: Assembled, depth: map<SpanID, nat>, vs: seq<Visit>, id: SpanID)
    requires Grounded(t, depth) && EachOnce(t, depth, vs) && id in depth
    ensures id in Ids(vs)
  {
    hide Grounded, NoDuplicates, Faithful;
  }

  /** However broken the links, the walk finds an error exactly when some span
      that survived has one. */
  lemma FailingIsFailed(last: map<SpanID, Span>, phase: Phase, t: Assembled, depth: map<SpanID, nat>, vs: seq<Visit>)
    requires IsTree(last, phase, t) && Grounded(t, depth) && depth.Keys == Nodes(last) && EachOnce(t, depth, vs)
    ensures AnyFailing(vs) <==> SomeFailed(last)
  {
    hide *;
    if AnyFailing(vs) {
      FailingHasFailed(last, phase, t, depth, vs);
    }
    if SomeFailed(last) {
      FailedIsFailing(last, phase, t, depth, vs);
    }
  }

  lemma FailingHasFailed(last: map<SpanID, Span>, phase: Phase, t: Assembled, depth: map<SpanID, nat>, vs: seq<Visit>)
    requires IsTree(last, phase, t) && Grounded(t, depth) && depth.Keys == Nodes(last) && EachOnce(t, depth, vs)
    requires AnyFailing(vs)
    ensures SomeFailed(last)
  {
    hide IsTree, Grounded, EachOnce, Grow, Nodes;
    var i :| 0 <= i < |vs| && Failing(vs[i].node);
    VisitedNode(t, depth, vs, i);
    GrownSpan(last, phase, t, depth, vs[i].node.id);
  }

  lemma FailedIsFailing(last: map<SpanID, Span>, phase: Phase, t: Assembled, depth: map<SpanID, nat>, vs: seq<Visit>)
    requires IsTree(last, phase, t) && Grounded(t, depth) && depth.Keys == Nodes(last) && EachOnce(t, depth, vs)
    requires SomeFailed(last)
    ensures AnyFailing(vs)
  {
    hide *;
    var id := ItFailed(last);
    ArrivedIsNode(last, id);
    VisitedAll(t, depth, vs, id);
    var i := VisitedIds(vs, id);
    VisitedNode(t, depth, vs, i);
    GrownSpan(last, phase, t, depth, id);
    FailedFails(vs, i);
  }

  lemma ItFailed(last: map<SpanID, Span>) returns (id: SpanID)
    requires SomeFailed(last)
    ensures id in last && last[id].code == 2
  {
    id :| id in last && last[id].code == 2;
  }

  lemma ArrivedIsNode(last: map<SpanID, Span>, id: SpanID)
    requires id in last
    ensures id in Nodes(last)
  {
  }

  lemma FailedFails(vs: seq<Visit>, i: nat)
    requires i < |vs| && vs[i].node.span.Some? && vs[i].node.span.value.code == 2
    ensures AnyFailing(vs)
  {
    assert Failing(vs[i].node);
  }

  // ------------------------------------------------------------- durations

  lemma RootInTrees(t: Assembled, depth: map<SpanID, nat>, n: SpanID)
    requires Grounded(t, depth) && n in t.roots
    ensures n in depth && Grow(t, depth, n) in Trees(t, depth)
  {
    RootsLevel(t, depth);
    hide Grounded, Grow;
    var i :| 0 <= i < |t.roots| && t.roots[i] == n;
    assert Trees(t, depth)[i] == Grow(t, depth, n);
  }

  lemma TreeIsRoot(t: Assembled, depth: map<SpanID, nat>, r: Node)
    requires Grounded(t, depth) && r in Trees(t, depth)
    ensures r.id in t.roots && r.id in depth && r == Grow(t, depth, r.id)
  {
    RootsLevel(t, depth);
    hide Grounded;
    var i :| 0 <= i < |Trees(t, depth)| && Trees(t, depth)[i] == r;
    assert r == Grow(t, depth, t.roots[i]);
  }

  /** A root is a topmost span, or the placeholder of some. */
  lemma RootsAreTops(last: map<SpanID, Span>, phase: Phase, t: Assembled, n: SpanID)
    requires IsTree(last, phase, t) && n in Nodes(last)
    ensures n in t.roots && n in last ==> n in Tops(last)
    ensures n in Absent(last) ==> n in t.roots && n in t.bounds
    ensures n in Absent(last) ==> IsEnvelope(last, ChildSet(Kept(last), n), t.bounds[n])
    ensures n in Absent(last) ==> ChildSet(Kept(last), n) <= Tops(last)
    ensures n in t.roots && n !in last ==> n in Absent(last)
    ensures n in Tops(last) ==> if n in Kept(last) then Kept(last)[n] in Absent(last) else n in t.roots
  {
    hide IsEnvelope, Cuts;
    InOrderLists(t.roots, Nodes(last) - t.parent.Keys, Starts(last, t.bounds));
    hide InStartOrder;
  }

  lemma EdgeOfTops(last: map<SpanID, Span>, phase: Phase, t: Assembled, depth: map<SpanID, nat>, n: SpanID)
    returns (first: SpanID, final: SpanID)
    requires IsTree(last, phase, t) && Grounded(t, depth) && depth.Keys == Nodes(last) && n in t.roots && n in depth
    ensures first in Tops(last) && first in last && last[first].start == Grow(t, depth, n).start
    ensures final in Tops(last) && final in last && last[final].end == Grow(t, depth, n).end
  {
    RootsAreTops(last, phase, t, n);
    GrownSpan(last, phase, t, depth, n);
    hide IsTree, Grounded, Tops, Grow, Kept, Absent, ChildSet;
    if n in last {
      first, final := n, n;
    } else {
      var ids := ChildSet(Kept(last), n);
      first :| first in ids && first in last && last[first].start == t.bounds[n].start;
      final :| final in ids && final in last && last[final].end == t.bounds[n].end;
    }
  }

  /** Every topmost span is within the bounds of some root. */
  lemma TopIsInside(last: map<SpanID, Span>, phase: Phase, t: Assembled, depth: map<SpanID, nat>, c: SpanID)
    returns (r: Node)
    requires IsTree(last, phase, t) && Grounded(t, depth) && depth.Keys == Nodes(last) && c in Tops(last)
    ensures r in Trees(t, depth) && c in last && r.start <= last[c].start && last[c].end <= r.end
  {
    TopsArrived(last, c);
    RootsAreTops(last, phase, t, c);
    var n := if c in Kept(last) then Kept(last)[c] else c;
    AbsentAreNodes(last);
    if n in Absent(last) {
      RootsAreTops(last, phase, t, n);
    }
    GrownSpan(last, phase, t, depth, n);
    RootInTrees(t, depth, n);
    hide IsTree, Grounded, Grow, Trees, Tops, Kept;
    r := Grow(t, depth, n);
  }

  lemma AbsentAreNodes(last: map<SpanID, Span>)
    ensures Absent(last) <= Nodes(last) && Absent(last) !! last.Keys
  {
  }

  lemma TopsArrived(last: map<SpanID, Span>, c: SpanID)
    requires c in Tops(last)
    ensures c in last && c in Nodes(last)
  {
  }

  /** The spread of the roots is the time the trace took: placeholders neither
      lengthen nor shorten it. */
  lemma SpreadIsTook(last: map<SpanID, Span>, phase: Phase, t: Assembled, depth: map<SpanID, nat>, d: int)
    requires IsTree(last, phase, t) && Grounded(t, depth) && depth.Keys == Nodes(last)
    requires Spread(Trees(t, depth), d)
    ensures Took(last, d)
  {
    hide IsTree, Grounded, Tops, Trees, Grow, Nodes;
    var roots := Trees(t, depth);
    var a, b :| a in roots && b in roots && d == b.end - a.start && Widest(roots, a, b);
    TreeIsRoot(t, depth, a);
    TreeIsRoot(t, depth, b);
    var first, _ := EdgeOfTops(last, phase, t, depth, a.id);
    var _, final := EdgeOfTops(last, phase, t, depth, b.id);
    var bounds := Bounds(a.start, b.end);
    forall c | c in Tops(last) && c in last
      ensures bounds.start <= last[c].start && last[c].end <= bounds.end
    {
      var r := TopIsInside(last, phase, t, depth, c);
    }
    assert IsEnvelope(last, Tops(last), bounds);
  }

  // -------------------------------------------------------------- judging

  lemma TreesExist(last: map<SpanID, Span>, phase: Phase, t: Assembled, depth: map<SpanID, nat>, roots: seq<Node>)
    requires TreesOf(last, phase, t, depth, roots) && last != map[]
    ensures roots != []
  {
    TreesOfIs(last, phase, t, depth, roots);
    assert last.Keys <= Nodes(last);
    hide *;
    var id :| id in last;
    var root := HasRoot(t, depth, id);
    RootInTrees(t, depth, root);
  }

  method Evaluate(p: Policy, id: TraceID, roots: seq<Node>,
                  ghost last: map<SpanID, Span>, ghost phase: Phase, ghost t: Assembled, ghost depth: map<SpanID, nat>)
    returns (v: Option<Verdict>)
    requires TreesOf(last, phase, t, depth, roots) && roots != []
    ensures Says(p, id, last, v)
  {
    hide IsTree, Grounded, Nodes, IsDepth, Took, SomeFailed, EachOnce, AnyFailing, VisitsAll, Visits, Spread;
    match p
    case KeepErrors =>
      var failed := WalkForErrors(roots);
      WalkRoots(t, depth);
      FailingIsFailed(last, phase, t, depth, VisitsAll(roots, 0));
      v := if failed then Some(Verdict(true, "error")) else None;
    case KeepSlow(threshold) =>
      var d := Duration(roots);
      SpreadIsTook(last, phase, t, depth, d);
      v := if d > threshold then Some(Verdict(true, "slow")) else None;
    case KeepFraction(threshold) =>
      v := Some(if Randomness(id) < threshold then Verdict(true, "sampled") else Verdict(false, "sampled out"));
  }

  lemma {:induction false} RulesFrom(chain: seq<Policy>, i: nat, id: TraceID, last: map<SpanID, Span>, v: Verdict)
    requires i <= |chain| && Rules(chain[i..], id, last, v)
    requires forall k :: 0 <= k < i ==> Says(chain[k], id, last, None)
    ensures Rules(chain, id, last, v)
    decreases i
  {
    hide Says;
    if i == 0 {
      assert chain[0..] == chain;
    } else {
      assert chain[i - 1..][0] == chain[i - 1] && chain[i - 1..][1..] == chain[i..];
      RulesFrom(chain, i - 1, id, last, v);
    }
  }

  /** Decide: the first decision of the chain. */
  method Decide(chain: seq<Policy>, id: TraceID, roots: seq<Node>,
                ghost last: map<SpanID, Span>, ghost phase: Phase, ghost t: Assembled, ghost depth: map<SpanID, nat>)
    returns (v: Verdict)
    requires TreesOf(last, phase, t, depth, roots) && roots != []
    ensures Rules(chain, id, last, v)
  {
    hide TreesOf, Says;
    for i := 0 to |chain|
      invariant forall k :: 0 <= k < i ==> Says(chain[k], id, last, None)
    {
      var o := Evaluate(chain[i], id, roots, last, phase, t, depth);
      if o.Some? {
        v := o.value;
        RulesFrom(chain, i, id, last, v);
        return;
      }
    }
    v := Verdict(false, "unclaimed");
    RulesFrom(chain, |chain|, id, last, v);
  }

  /** A trace is charged to the service of its earliest root, or if that root
      never arrived to that of its earliest child, which did. */
  ghost predicate ServiceOf(roots: seq<Node>, service: Text) {
    && roots != []
    && if roots[0].span.Some? then service == roots[0].span.value.service
       else roots[0].children != [] && roots[0].children[0].span.Some?
            && service == roots[0].children[0].span.value.service
  }

  /** The service the trees of a trace charge it to. */
  ghost predicate ChargedTo(last: map<SpanID, Span>, service: Text) {
    exists t, depth, roots :: TreesOf(last, Sealed, t, depth, roots) && ServiceOf(roots, service)
  }

  lemma ChargedToOnce(last: map<SpanID, Span>, s: Text, u: Text)
    requires ChargedTo(last, s) && ChargedTo(last, u)
    ensures s == u
  {
    hide TreesOf;
    var t, d, roots :| TreesOf(last, Sealed, t, d, roots) && ServiceOf(roots, s);
    var q, e, others :| TreesOf(last, Sealed, q, e, others) && ServiceOf(others, u);
    SameTrees(last, Sealed, t, q, d, e, roots, others);
  }

  lemma FirstVisits(roots: seq<Node>)
    requires roots != []
    ensures var vs := VisitsAll(roots, 0);
            && |vs| > 0 && vs[0].node == roots[0]
            && (roots[0].children != [] ==> |vs| > 1 && vs[1].node == roots[0].children[0])
  {
    var kids := roots[0].children;
    assert VisitsAll(roots, 0) == [Visit(roots[0], 0)] + VisitsAll(kids, 1) + VisitsAll(roots[1..], 0);
    if kids != [] {
      assert VisitsAll(kids, 1)[0] == Visit(kids[0], 1);
    }
  }

  lemma PlaceholderHasFirstChild(last: map<SpanID, Span>, phase: Phase, t: Assembled, depth: map<SpanID, nat>, n: SpanID)
    requires IsTree(last, phase, t) && Grounded(t, depth) && n in depth && n !in last && depth.Keys == Nodes(last)
    ensures var g := Grow(t, depth, n);
            g.children != [] && g.children[0].span.Some? && g.children[0].id in last
            && g.children[0].span.value == last[g.children[0].id]
  {
    KidsLevel(t, depth, n);
    PlaceholderHasChildren(last, n);
    ChildrenArrived(last, n);
    InOrderLists(t.children[n], ChildSet(Kept(last), n), Starts(last, t.bounds));
    var c :| c in ChildSet(Kept(last), n);
    assert c in t.children[n];
    var first := t.children[n][0];
    assert first in t.children[n];
    GrownSpan(last, phase, t, depth, first);
    hide IsTree, Grounded, Kept, Nodes, InStartOrder;
  }

  lemma ServiceArrived(last: map<SpanID, Span>, phase: Phase, t: Assembled, depth: map<SpanID, nat>, roots: seq<Node>, service: Text)
    requires TreesOf(last, phase, t, depth, roots) && ServiceOf(roots, service)
    ensures exists id :: id in last && service == last[id].service
  {
    hide IsTree, Grounded, Nodes, IsDepth, Trees, Grow;
    var r := roots[0];
    TreeIsRoot(t, depth, r);
    GrownSpan(last, phase, t, depth, r.id);
    if r.id !in last {
      PlaceholderHasFirstChild(last, phase, t, depth, r.id);
    }
  }

  /** What decide makes of the spans of a trace before it writes them. */
  method Judge(spans: seq<Span>, chain: seq<Policy>) returns (v: Verdict, service: Text)
    requires spans != [] && forall i :: 0 <= i < |spans| ==> spans[i].traceID == spans[0].traceID
    ensures Rules(chain, spans[0].traceID, LastCopies(spans), v)
    ensures exists id :: id in LastCopies(spans) && service == LastCopies(spans)[id].service
    ensures ChargedTo(LastCopies(spans), service)
  {
    ghost var last := LastCopies(spans);
    assert last != map[] by { ArrivedHasCopy(spans, 0); }
    hide LastCopies, TreesOf, Rules, ServiceOf, VisitsAll;
    ghost var depth;
    var r;
    r, depth := Tree.Build(spans, Sealed);
    var t := r.tree.View();
    BuiltTrees(last, Sealed, t, depth);
    var roots := Trees(t, depth);
    TreesExist(last, Sealed, t, depth, roots);
    v := Decide(chain, r.tree.traceID, roots, last, Sealed, t, depth);
    service := RootService(roots);
    ServiceIs(last, Sealed, t, depth, roots, service);
    ServiceArrived(last, Sealed, t, depth, roots, service);
  }

  lemma BuiltTrees(last: map<SpanID, Span>, phase: Phase, t: Assembled, depth: map<SpanID, nat>)
    requires IsTree(last, phase, t) && IsDepth(t.parent, Nodes(last), depth)
    ensures Grounded(t, depth) && TreesOf(last, phase, t, depth, Trees(t, depth))
  {
    TreeIsGrounded(last, phase, t, depth);
    DepthKeys(t.parent, Nodes(last), depth);
  }

  lemma ServiceIs(last: map<SpanID, Span>, phase: Phase, t: Assembled, depth: map<SpanID, nat>, roots: seq<Node>, service: Text)
    requires TreesOf(last, phase, t, depth, roots) && roots != []
    requires var vs := VisitsAll(roots, 0);
             if forall i :: 0 <= i < |vs| ==> vs[i].node.Missing() then service == []
             else exists k :: 0 <= k < |vs| && vs[k].node.span.Some? && service == vs[k].node.span.value.service
                    && forall i :: 0 <= i < k ==> vs[i].node.Missing()
    ensures ServiceOf(roots, service)
  {
    hide IsTree, Grounded, Nodes, IsDepth, Trees, Grow;
    var r := roots[0];
    TreeIsRoot(t, depth, r);
    GrownSpan(last, phase, t, depth, r.id);
    if r.id !in last {
      PlaceholderHasFirstChild(last, phase, t, depth, r.id);
    }
    FirstVisits(roots);
    hide VisitsAll;
    var vs := VisitsAll(roots, 0);
    assert !vs[if r.span.Some? then 0 else 1].node.Missing();
    var k :| 0 <= k < |vs| && vs[k].node.span.Some? && service == vs[k].node.span.value.service
                    && forall i :: 0 <= i < k ==> vs[i].node.Missing();
    assert k == if r.span.Some? then 0 else 1;
  }

  /** Distinct spans of a trace get the same verdict, and are charged to the same
      service, in whatever order they arrived. */
  lemma OrderDoesNotMatter(spans: seq<Span>, other: seq<Span>, chain: seq<Policy>, id: TraceID,
                           v: Verdict, w: Verdict, s: Text, u: Text)
    requires Distinct(spans) && Distinct(other) && multiset(spans) == multiset(other)
    requires Rules(chain, id, LastCopies(spans), v) && Rules(chain, id, LastCopies(other), w)
    requires ChargedTo(LastCopies(spans), s) && ChargedTo(LastCopies(other), u)
    ensures v == w && s == u
  {
    OrderLeavesCopies(spans, other);
    hide LastCopies, Rules, ChargedTo;
    RulesOnce(chain, id, LastCopies(spans), v, w);
    ChargedToOnce(LastCopies(spans), s, u);
  }

  // -------------------------------------------------------------- fractions

  lemma {:induction false} BigEndianShift(a: seq<Byte>, s: seq<Byte>, scale: nat)
    requires scale == Pow256(|s|)
    ensures BigEndian(a + s) == BigEndian(a) * scale + BigEndian(s)
    ensures BigEndian(s) < scale
    decreases |s|
  {
    if s == [] {
      assert a + s == a;
    } else {
      var n := |s| - 1;
      assert (a + s)[..|a + s| - 1] == a + s[..n];
      BigEndianShift(a, s[..n], Pow256(n));
      ShiftByOne(BigEndian(a), Pow256(n));
    }
  }

  lemma ShiftByOne(x: nat, y: nat)
    ensures x * y * 256 == x * (256 * y)
  {
  }

  /** The share kept is decided by the last seven bytes of the identifier alone. */
  lemma FractionReadsLowBits(a: TraceID, b: TraceID, threshold: int)
    ensures Randomness(a) == BigEndian(a[9..]) < LOW_BITS
    ensures a[9..] == b[9..] ==> Sampled(a, threshold) == Sampled(b, threshold)
  {
    LowBits(a);
    LowBits(b);
  }

  /** A trace is kept by its share exactly if those seven bytes, the first of them
      weighing most, make a number below the threshold. */
  lemma FractionKeepsBelow(id: TraceID, threshold: int)
    ensures Sampled(id, threshold).keep <==>
              id[9] * 0x1_0000_0000_0000 + id[10] * 0x100_0000_0000 + id[11] * 0x1_0000_0000 + id[12] * 0x100_0000
              + id[13] * 0x1_0000 + id[14] * 0x100 + id[15] < threshold
  {
    LowBits(id);
    SevenBytes(id[9..]);
  }

  lemma SevenBytes(s: seq<Byte>)
    requires |s| == 7
    ensures BigEndian(s) == s[0] as int * 0x1_0000_0000_0000 + s[1] as int * 0x100_0000_0000 + s[2] as int * 0x1_0000_0000
                            + s[3] as int * 0x100_0000 + s[4] as int * 0x1_0000 + s[5] as int * 0x100 + s[6] as int
  {
    hide BigEndian;
    FourBytes(s);
    LastByte(s, 5);
    LastByte(s, 6);
    LastByte(s, 7);
    assert s[..7] == s;
  }

  lemma FourBytes(s: seq<Byte>)
    requires |s| >= 4
    ensures BigEndian(s[..4]) == s[0] as int * 0x100_0000 + s[1] as int * 0x1_0000 + s[2] as int * 0x100 + s[3] as int
  {
    assert BigEndian(s[..0]) == 0;
    hide BigEndian;
    LastByte(s, 1);
    LastByte(s, 2);
    LastByte(s, 3);
    LastByte(s, 4);
  }

  lemma LastByte(s: seq<Byte>, n: nat)
    requires 0 < n <= |s|
    ensures BigEndian(s[..n]) == BigEndian(s[..n - 1]) * 256 + s[n - 1] as int
  {
    assert s[..n][..n - 1] == s[..n - 1];
  }

  lemma LowBits(id: TraceID)
    ensures Randomness(id) == BigEndian(id[9..]) < LOW_BITS
  {
    assert Pow256(7) == LOW_BITS;
    assert id[8..] == [id[8]] + id[9..];
    BigEndianShift([id[8]], id[9..], LOW_BITS);
  }
}
