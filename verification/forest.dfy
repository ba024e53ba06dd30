/** An assembled trace as the trees it holds, and the walk over them. */
module Forest {
  import opened Trace
  import opened Sorting
  import opened Links
  import opened Marking
  import opened Assembly

  /** A node with all that hangs below it. A placeholder has no span. */
  datatype Node = Node(id: SpanID, span: Option<Span>, start: int, end: int, children: seq<Node>) {
    predicate Missing() {
      span.None?
    }
  }

  datatype Visit = Visit(node: Node, depth: nat)

  /** Parents before children, and siblings in their order. */
  function Visits(n: Node, depth: nat): seq<Visit>
    decreases n, 0
  {
    [Visit(n, depth)] + VisitsAll(n.children, depth + 1)
  }

  function VisitsAll(ns: seq<Node>, depth: nat): seq<Visit>
    decreases ns, 1
  {
    if ns == [] then [] else Visits(ns[0], depth) + VisitsAll(ns[1..], depth)
  }

  /** The visits up to the first that ends the walk, that one included. */
  function UpTo(vs: seq<Visit>, go: (Node, nat) -> bool): seq<Visit> {
    if vs == [] then []
    else [vs[0]] + if go(vs[0].node, vs[0].depth) then UpTo(vs[1..], go) else []
  }

  predicate AllGo(vs: seq<Visit>, go: (Node, nat) -> bool) {
    forall i :: 0 <= i < |vs| ==> go(vs[i].node, vs[i].depth)
  }

  lemma AllGoFirst(vs: seq<Visit>, go: (Node, nat) -> bool)
    requires vs != []
    ensures AllGo(vs, go) <==> go(vs[0].node, vs[0].depth) && AllGo(vs[1..], go)
  {
    if go(vs[0].node, vs[0].depth) && AllGo(vs[1..], go) {
      assert forall i :: 0 < i < |vs| ==> vs[i] == vs[1..][i - 1];
    }
  }

  lemma {:induction false} UpToThrough(a: seq<Visit>, b: seq<Visit>, go: (Node, nat) -> bool)
    requires AllGo(a, go)
    ensures UpTo(a + b, go) == a + UpTo(b, go)
    decreases |a|
  {
    if a == [] {
      assert a + b == b;
    } else {
      hide UpTo, AllGo;
      AllGoFirst(a, go);
      UpToThrough(a[1..], b, go);
      UpToFirst(a + b, go);
      Regroup(a, b);
      Regroup(a, UpTo(b, go));
    }
  }

  lemma Regroup<T>(a: seq<T>, b: seq<T>)
    requires a != []
    ensures (a + b)[0] == a[0] && (a + b)[1..] == a[1..] + b
    ensures [a[0]] + (a[1..] + b) == a + b
  {
  }

  lemma {:induction false} UpToWithin(a: seq<Visit>, b: seq<Visit>, go: (Node, nat) -> bool)
    requires !AllGo(a, go)
    ensures UpTo(a + b, go) == UpTo(a, go)
    decreases |a|
  {
    assert a != [];
    hide UpTo, AllGo;
    AllGoFirst(a, go);
    UpToFirst(a, go);
    UpToFirst(a + b, go);
    Regroup(a, b);
    if go(a[0].node, a[0].depth) {
      UpToWithin(a[1..], b, go);
    }
  }

  lemma UpToAppend(a: seq<Visit>, b: seq<Visit>, go: (Node, nat) -> bool)
    ensures AllGo(a, go) ==> UpTo(a, go) == a && UpTo(a + b, go) == a + UpTo(b, go)
    ensures !AllGo(a, go) ==> UpTo(a + b, go) == UpTo(a, go)
  {
    hide AllGo;
    if AllGo(a, go) {
      UpToThrough(a, b, go);
      UpToThrough(a, [], go);
      assert UpTo([], go) == [] && a + [] == a;
    } else {
      UpToWithin(a, b, go);
    }
  }

  lemma UpToFirst(vs: seq<Visit>, go: (Node, nat) -> bool)
    requires vs != []
    ensures UpTo(vs, go) == [vs[0]] + if go(vs[0].node, vs[0].depth) then UpTo(vs[1..], go) else []
  {
  }

  /** walk: calls back for each node in turn until told to stop. */
  method WalkFrom(n: Node, depth: nat, go: (Node, nat) -> bool, visited: seq<Visit>)
    returns (after: seq<Visit>, more: bool)
    ensures after == visited + UpTo(Visits(n, depth), go)
    ensures more <==> AllGo(Visits(n, depth), go)
    decreases n, 0
  {
    after := visited + [Visit(n, depth)];
    VisitsFirst(n, depth, go);
    hide Visits, VisitsAll, UpTo, AllGo;
    if !go(n, depth) {
      return after, false;
    }
    after, more := WalkAll(n.children, depth + 1, go, after);
  }

  lemma VisitsFirst(n: Node, depth: nat, go: (Node, nat) -> bool)
    ensures var below := VisitsAll(n.children, depth + 1);
            && UpTo(Visits(n, depth), go) == [Visit(n, depth)] + (if go(n, depth) then UpTo(below, go) else [])
            && (AllGo(Visits(n, depth), go) <==> go(n, depth) && AllGo(below, go))
  {
    hide VisitsAll, UpTo, AllGo;
    var vs := Visits(n, depth);
    assert vs[0] == Visit(n, depth) && vs[1..] == VisitsAll(n.children, depth + 1);
    UpToFirst(vs, go);
    AllGoFirst(vs, go);
  }

  /** The loop over siblings: over children, and over the roots. */
  method WalkAll(ns: seq<Node>, depth: nat, go: (Node, nat) -> bool, visited: seq<Visit>)
    returns (after: seq<Visit>, more: bool)
    ensures after == visited + UpTo(VisitsAll(ns, depth), go)
    ensures more <==> AllGo(VisitsAll(ns, depth), go)
    decreases ns, 1
  {
    hide VisitsAll, Visits, UpTo;
    after := visited;
    VisitsNone(depth);
    assert ns[..0] == [];
    for i := 0 to |ns|
      invariant after == visited + VisitsAll(ns[..i], depth)
      invariant AllGo(VisitsAll(ns[..i], depth), go)
    {
      VisitsNext(ns, i, depth, go);
      after, more := WalkFrom(ns[i], depth, go, after);
      if !more {
        return;
      }
    }
    assert ns[..|ns|] == ns;
    UpToAppend(VisitsAll(ns, depth), [], go);
    more := true;
  }

  lemma VisitsNone(depth: nat)
    ensures VisitsAll([], depth) == []
  {
  }

  lemma VisitsNext(ns: seq<Node>, i: nat, depth: nat, go: (Node, nat) -> bool)
    requires i < |ns| && AllGo(VisitsAll(ns[..i], depth), go)
    ensures var done, here := VisitsAll(ns[..i], depth), Visits(ns[i], depth);
            && VisitsAll(ns[..i + 1], depth) == done + here
            && (AllGo(here, go) ==> UpTo(here, go) == here && AllGo(done + here, go))
            && (!AllGo(here, go) ==>
                  UpTo(VisitsAll(ns, depth), go) == done + UpTo(here, go) && !AllGo(VisitsAll(ns, depth), go))
  {
    VisitsNone(depth);
    hide VisitsAll, Visits, UpTo;
    var done, here, rest := VisitsAll(ns[..i], depth), Visits(ns[i], depth), VisitsAll(ns[i + 1..], depth);
    VisitsSplit(ns, i, depth);
    UpToAppend(done, here + rest, go);
    UpToAppend(here, rest, go);
    VisitsSplit(ns[..i + 1], i, depth);
    assert ns[..i + 1][..i] == ns[..i] && ns[..i + 1][i + 1..] == [];
    if !AllGo(here, go) {
      var k :| 0 <= k < |here| && !go(here[k].node, here[k].depth);
      assert VisitsAll(ns, depth)[|done| + k] == here[k];
    }
  }

  lemma {:induction false} VisitsSplit(ns: seq<Node>, i: nat, depth: nat)
    requires i < |ns|
    ensures VisitsAll(ns, depth) == VisitsAll(ns[..i], depth) + (Visits(ns[i], depth) + VisitsAll(ns[i + 1..], depth))
    decreases i
  {
    if i > 0 {
      VisitsSplit(ns[1..], i - 1, depth);
      assert ns[1..][..i - 1] == ns[..i][1..];
      assert ns[1..][i..] == ns[i + 1..];
    }
  }

  /** Walk: over the roots in turn. */
  method Walk(roots: seq<Node>, go: (Node, nat) -> bool) returns (visited: seq<Visit>)
    ensures visited == UpTo(VisitsAll(roots, 0), go)
  {
    var more;
    visited, more := WalkAll(roots, 0, go, []);
  }

  // ----------------------------------------------------- growing the forest

  /** Links that form a forest, the same both ways. */
  ghost predicate Grounded(t: Assembled, depth: map<SpanID, nat>) {
    && Inverse(t.children, t.parent, depth.Keys)
    && IsDepth(t.parent, depth.Keys, depth)
    && (forall n :: n in depth ==> n in t.spans || n in t.bounds)
    && NoDuplicates(t.roots)
    && (forall n :: n in t.roots <==> n in depth && n !in t.parent)
  }

  /** A bound on the depths. */
  ghost function Height(depth: map<SpanID, nat>): (h: nat)
    ensures forall n :: n in depth ==> depth[n] < h
    decreases |depth|
  {
    if depth == map[] then 0
    else
      var n :| n in depth;
      var rest := Height(depth - {n});
      assert forall m :: m in depth && m != n ==> m in depth - {n};
      if depth[n] < rest then rest else depth[n] + 1
  }

  /** The tree below a node. */
  function Grow(t: Assembled, ghost depth: map<SpanID, nat>, n: SpanID): (r: Node)
    requires Grounded(t, depth) && n in depth
    ensures r.id == n
    decreases Height(depth) - depth[n], 1, 0
  {
    assert ListsChildren(t.children[n], t.parent, n);
    var kids := GrowAll(t, depth, t.children[n], depth[n]);
    if n in t.spans then Node(n, Some(t.spans[n]), t.spans[n].start, t.spans[n].end, kids)
    else Node(n, None, t.bounds[n].start, t.bounds[n].end, kids)
  }

  /** The trees below nodes that are all one deeper than a level. */
  function GrowAll(t: Assembled, ghost depth: map<SpanID, nat>, ns: seq<SpanID>, ghost level: int): (r: seq<Node>)
    requires Grounded(t, depth) && level >= -1 && forall n :: n in ns ==> n in depth && depth[n] == level + 1
    ensures |r| == |ns| && forall i :: 0 <= i < |ns| ==> r[i] == Grow(t, depth, ns[i])
    decreases Height(depth) - level, 0, |ns|
  {
    if ns == [] then []
    else
      assert ns == [ns[0]] + ns[1..];
      [Grow(t, depth, ns[0])] + GrowAll(t, depth, ns[1..], level)
  }

  ghost function Ids(vs: seq<Visit>): (r: seq<SpanID>)
    ensures |r| == |vs| && forall i :: 0 <= i < |vs| ==> r[i] == vs[i].node.id
  {
    seq(|vs|, i requires 0 <= i < |vs| => vs[i].node.id)
  }

  /** The visits are of the nodes of the forest, at their depths. */
  ghost predicate Faithful(t: Assembled, depth: map<SpanID, nat>, vs: seq<Visit>)
    requires Grounded(t, depth)
  {
    forall i :: 0 <= i < |vs| ==>
      var v := vs[i];
      v.node.id in depth && v.node == Grow(t, depth, v.node.id) && v.depth == depth[v.node.id]
  }

  /** Every parent comes first, but for those of some nodes. */
  ghost predicate ParentsFirst(p: Links, ids: seq<SpanID>, tops: seq<SpanID>) {
    forall i :: 0 <= i < |ids| && ids[i] !in tops ==> ids[i] in p && p[ids[i]] in ids[..i]
  }

  ghost predicate ReachesSome(p: Links, x: SpanID, tops: seq<SpanID>) {
    exists a :: a in tops && Reaches(p, x, a)
  }

  /** The visits take in everything below some nodes and nothing else, each node
      once, at its depth, after its parent. */
  ghost predicate Covers(t: Assembled, depth: map<SpanID, nat>, vs: seq<Visit>, tops: seq<SpanID>)
    requires Grounded(t, depth)
  {
    && Faithful(t, depth, vs)
    && NoDuplicates(Ids(vs))
    && (forall x :: x in Ids(vs) <==> x in depth && ReachesSome(t.parent, x, tops))
    && ParentsFirst(t.parent, Ids(vs), tops)
  }

  /** A node has one ancestor at each depth. */
  lemma OneAncestor(p: Links, depth: map<SpanID, nat>, x: SpanID, a: SpanID, b: SpanID)
    requires IsDepth(p, depth.Keys, depth) && x in depth && Reaches(p, x, a) && Reaches(p, x, b)
    ensures a in depth && b in depth && (depth[a] == depth[b] ==> a == b)
  {
    var j: nat :| Up(p, x, j) == Some(a);
    var k: nat :| Up(p, x, k) == Some(b);
    DepthFalls(p, depth.Keys, depth, x, j);
    DepthFalls(p, depth.Keys, depth, x, k);
  }

  /** What leads to a node is the node or leads to one of its children. */
  lemma ReachesThroughChild(p: Links, x: SpanID, n: SpanID, kids: seq<SpanID>)
    requires ListsChildren(kids, p, n)
    ensures Reaches(p, x, n) <==> x == n || ReachesSome(p, x, kids)
  {
    if Reaches(p, x, n) && x != n {
      var k: nat :| Up(p, x, k) == Some(n);
      assert k > 0;
      UpDefined(p, x, k - 1, k);
      var c := Up(p, x, k - 1).value;
      assert Up(p, x, k - 1) == Some(c);
      assert c in kids && Reaches(p, x, c);
    }
    if x == n {
      ReachesSelf(p, n);
    }
    if ReachesSome(p, x, kids) {
      var c :| c in kids && Reaches(p, x, c);
      ReachesSelf(p, n);
      ReachesNext(p, c, n);
      ReachesTransitive(p, x, c, n);
    }
  }

  lemma IdsAppend(a: seq<Visit>, b: seq<Visit>)
    ensures Ids(a + b) == Ids(a) + Ids(b)
  {
  }

  lemma NoDuplicatesAppend(a: seq<SpanID>, b: seq<SpanID>)
    requires NoDuplicates(a) && NoDuplicates(b) && forall x :: !(x in a && x in b)
    ensures NoDuplicates(a + b)
  {
    forall i, j | 0 <= i < j < |a + b|
      ensures (a + b)[i] != (a + b)[j]
    {
      if i < |a| <= j {
        assert (a + b)[i] in a && (a + b)[j] in b;
      }
    }
  }

  lemma ParentsFirstAppend(p: Links, a: seq<SpanID>, s: seq<SpanID>, b: seq<SpanID>, r: seq<SpanID>)
    requires ParentsFirst(p, a, s) && ParentsFirst(p, b, r)
    ensures ParentsFirst(p, a + b, s + r)
  {
    var ids := a + b;
    forall i | 0 <= i < |ids| && ids[i] !in s + r
      ensures ids[i] in p && p[ids[i]] in ids[..i]
    {
      if i < |a| {
        assert ids[..i] == a[..i];
      } else {
        assert ids[..i] == a + b[..i - |a|];
      }
    }
  }

  /** Subtrees of different siblings have nothing in common. */
  lemma CoversJoin(t: Assembled, depth: map<SpanID, nat>, vs: seq<Visit>, a: SpanID, ws: seq<Visit>, rest: seq<SpanID>)
    requires Grounded(t, depth) && Covers(t, depth, vs, [a]) && Covers(t, depth, ws, rest)
    requires a in depth && a !in rest && forall b :: b in rest ==> b in depth && depth[b] == depth[a]
    ensures Covers(t, depth, vs + ws, [a] + rest)
  {
    hide Inverse, IsDepth, Reaches, Grow, Faithful, ParentsFirst;
    FaithfulAppend(t, depth, vs, ws);
    IdsAppend(vs, ws);
    forall x | x in Ids(vs) && x in Ids(ws)
      ensures false
    {
      assert ReachesSome(t.parent, x, [a]) && ReachesSome(t.parent, x, rest);
      var b :| b in rest && Reaches(t.parent, x, b);
      OneAncestor(t.parent, depth, x, a, b);
      assert false;
    }
    NoDuplicatesAppend(Ids(vs), Ids(ws));
    hide NoDuplicates;
    ParentsFirstAppend(t.parent, Ids(vs), [a], Ids(ws), rest);
    forall x
      ensures ReachesSome(t.parent, x, [a] + rest) <==> ReachesSome(t.parent, x, [a]) || ReachesSome(t.parent, x, rest)
    {
      ReachesJoin(t.parent, x, [a], rest);
    }
  }

  lemma FaithfulAppend(t: Assembled, depth: map<SpanID, nat>, vs: seq<Visit>, ws: seq<Visit>)
    requires Grounded(t, depth) && Faithful(t, depth, vs) && Faithful(t, depth, ws)
    ensures Faithful(t, depth, vs + ws)
  {
    hide Grounded, Grow;
  }

  lemma ReachesJoin(p: Links, x: SpanID, r: seq<SpanID>, s: seq<SpanID>)
    ensures ReachesSome(p, x, r + s) <==> ReachesSome(p, x, r) || ReachesSome(p, x, s)
  {
    hide Reaches;
  }

  /** A node before its children's subtrees. */
  lemma CoversNode(t: Assembled, depth: map<SpanID, nat>, n: SpanID, ws: seq<Visit>)
    requires Grounded(t, depth) && n in depth && Covers(t, depth, ws, t.children[n])
    ensures Covers(t, depth, [Visit(Grow(t, depth, n), depth[n])] + ws, [n])
  {
    var kids := t.children[n];
    assert ListsChildren(kids, t.parent, n);
    var vs := [Visit(Grow(t, depth, n), depth[n])];
    FaithfulAppend(t, depth, vs, ws);
    IdsAppend(vs, ws);
    assert Ids(vs) == [n];
    CoversIs(t, depth, ws, kids);
    BelowNode(t.parent, depth, n, kids);
    hide Grounded, Grow, Faithful, Covers;
    NoDuplicatesAppend([n], Ids(ws));
    KidsFirst(t.parent, n, kids, Ids(ws));
    CoversMeans(t, depth, vs + ws, [n]);
  }

  /** Below a node are the node itself and what is below its children. */
  lemma BelowNode(p: Links, depth: map<SpanID, nat>, n: SpanID, kids: seq<SpanID>)
    requires IsDepth(p, depth.Keys, depth) && n in depth && ListsChildren(kids, p, n)
    ensures forall x :: ReachesSome(p, x, [n]) <==> x == n || ReachesSome(p, x, kids)
    ensures !ReachesSome(p, n, kids)
  {
    forall x
      ensures ReachesSome(p, x, [n]) <==> x == n || ReachesSome(p, x, kids)
    {
      ReachesThroughChild(p, x, n, kids);
      OnlyReach(p, x, n);
    }
    if ReachesSome(p, n, kids) {
      var c :| c in kids && Reaches(p, n, c);
      BelowIsDeeper(p, depth, n, c);
      assert false;
    }
  }

  lemma CoversIs(t: Assembled, depth: map<SpanID, nat>, vs: seq<Visit>, tops: seq<SpanID>)
    requires Grounded(t, depth) && Covers(t, depth, vs, tops)
    ensures Faithful(t, depth, vs) && NoDuplicates(Ids(vs)) && ParentsFirst(t.parent, Ids(vs), tops)
    ensures forall x :: x in Ids(vs) <==> x in depth && ReachesSome(t.parent, x, tops)
  {
    hide Grounded, Faithful, NoDuplicates, ParentsFirst, ReachesSome;
  }

  lemma CoversMeans(t: Assembled, depth: map<SpanID, nat>, vs: seq<Visit>, tops: seq<SpanID>)
    requires Grounded(t, depth)
    requires Faithful(t, depth, vs) && NoDuplicates(Ids(vs)) && ParentsFirst(t.parent, Ids(vs), tops)
    requires forall x :: x in Ids(vs) <==> x in depth && ReachesSome(t.parent, x, tops)
    ensures Covers(t, depth, vs, tops)
  {
    hide Grounded, Faithful, NoDuplicates, ParentsFirst, ReachesSome;
  }

  lemma OnlyReach(p: Links, x: SpanID, n: SpanID)
    ensures ReachesSome(p, x, [n]) <==> Reaches(p, x, n)
  {
    assert n in [n];
  }

  lemma BelowIsDeeper(p: Links, depth: map<SpanID, nat>, n: SpanID, c: SpanID)
    requires IsDepth(p, depth.Keys, depth) && n in depth && Reaches(p, n, c)
    ensures !(c in p && p[c] == n)
  {
    var k: nat :| Up(p, n, k) == Some(c);
    DepthFalls(p, depth.Keys, depth, n, k);
  }

  lemma KidsFirst(p: Links, n: SpanID, kids: seq<SpanID>, ids: seq<SpanID>)
    requires ListsChildren(kids, p, n) && ParentsFirst(p, ids, kids)
    ensures ParentsFirst(p, [n] + ids, [n])
  {
    var all := [n] + ids;
    forall i | 0 <= i < |all| && all[i] !in [n]
      ensures all[i] in p && p[all[i]] in all[..i]
    {
      assert i > 0 && all[i] == ids[i - 1];
      assert all[..i] == [n] + ids[..i - 1];
    }
  }

  /** The walk below one node, and below some siblings, does what it should. */
  ghost predicate Walked(t: Assembled, depth: map<SpanID, nat>, n: SpanID)
    requires Grounded(t, depth) && n in depth
  {
    Covers(t, depth, Visits(Grow(t, depth, n), depth[n]), [n])
  }

  ghost predicate WalkedAll(t: Assembled, depth: map<SpanID, nat>, ns: seq<SpanID>, level: int)
    requires Grounded(t, depth) && level >= -1 && forall n :: n in ns ==> n in depth && depth[n] == level + 1
  {
    Covers(t, depth, VisitsAll(GrowAll(t, depth, ns, level), level + 1), ns)
  }

  lemma KidsLevel(t: Assembled, depth: map<SpanID, nat>, n: SpanID)
    requires Grounded(t, depth) && n in depth
    ensures n in t.children && NoDuplicates(t.children[n])
    ensures forall c :: c in t.children[n] ==> c in depth && depth[c] == depth[n] + 1
  {
    assert ListsChildren(t.children[n], t.parent, n);
  }

  lemma WalkedNode(t: Assembled, depth: map<SpanID, nat>, n: SpanID)
    requires Grounded(t, depth) && n in depth && n in t.children
    requires forall c :: c in t.children[n] ==> c in depth && depth[c] == depth[n] + 1
    requires WalkedAll(t, depth, t.children[n], depth[n])
    ensures Walked(t, depth, n)
  {
    hide Covers, Grounded, GrowAll, VisitsAll;
    CoversNode(t, depth, n, VisitsAll(GrowAll(t, depth, t.children[n], depth[n]), depth[n] + 1));
  }

  lemma WalkedNext(t: Assembled, depth: map<SpanID, nat>, ns: seq<SpanID>, level: int)
    requires Grounded(t, depth) && level >= -1 && forall n :: n in ns ==> n in depth && depth[n] == level + 1
    requires NoDuplicates(ns) && ns != []
    requires Walked(t, depth, ns[0]) && WalkedAll(t, depth, ns[1..], level)
    ensures WalkedAll(t, depth, ns, level)
  {
    hide Covers, Grounded, Grow, Visits;
    CoversJoin(t, depth, Visits(Grow(t, depth, ns[0]), level + 1), ns[0],
               VisitsAll(GrowAll(t, depth, ns[1..], level), level + 1), ns[1..]);
    assert ns == [ns[0]] + ns[1..];
  }

  lemma WalkedNone(t: Assembled, depth: map<SpanID, nat>, level: int)
    requires Grounded(t, depth) && level >= -1
    ensures WalkedAll(t, depth, [], level)
  {
    hide Grounded;
  }

  lemma {:induction false} WalkBelow(t: Assembled, depth: map<SpanID, nat>, n: SpanID)
    requires Grounded(t, depth) && n in depth
    ensures Walked(t, depth, n)
    decreases Height(depth) - depth[n], 1, 0
  {
    hide Walked, WalkedAll;
    KidsLevel(t, depth, n);
    WalkAllBelow(t, depth, t.children[n], depth[n]);
    WalkedNode(t, depth, n);
  }

  lemma {:induction false} WalkAllBelow(t: Assembled, depth: map<SpanID, nat>, ns: seq<SpanID>, level: int)
    requires Grounded(t, depth) && level >= -1 && forall n :: n in ns ==> n in depth && depth[n] == level + 1
    requires NoDuplicates(ns)
    ensures WalkedAll(t, depth, ns, level)
    decreases Height(depth) - level, 0, |ns|
  {
    hide Walked, WalkedAll;
    if ns == [] {
      WalkedNone(t, depth, level);
    } else {
      WalkBelow(t, depth, ns[0]);
      WalkAllBelow(t, depth, ns[1..], level);
      WalkedNext(t, depth, ns, level);
    }
  }

  // --------------------------------------------------- the forest Build makes

  lemma InOrderLists(s: seq<SpanID>, xs: set<SpanID>, starts: map<SpanID, int>)
    requires InStartOrder(s, xs, starts)
    ensures NoDuplicates(s) && forall x :: x in s <==> x in xs
  {
    forall i, j | 0 <= i < j < |s|
      ensures s[i] != s[j]
    {
      BeforeAsymmetric(starts, s[i], s[j]);
    }
  }

  lemma InOrderListsChildren(s: seq<SpanID>, p: Links, n: SpanID, starts: map<SpanID, int>)
    requires InStartOrder(s, ChildSet(p, n), starts)
    ensures ListsChildren(s, p, n)
  {
    InOrderLists(s, ChildSet(p, n), starts);
  }

  lemma KeptAmongNodes(last: map<SpanID, Span>)
    ensures forall n :: n in Kept(last) ==> n in Nodes(last) && Kept(last)[n] in Nodes(last)
  {
  }

  /** A tree that Build makes is a forest with the same links both ways. */
  lemma TreeIsGrounded(last: map<SpanID, Span>, phase: Phase, t: Assembled, depth: map<SpanID, nat>)
    requires IsTree(last, phase, t) && IsDepth(t.parent, Nodes(last), depth)
    ensures Grounded(t, depth)
  {
    KeptAmongNodes(last);
    hide Kept, Absent, InStartOrder, ListsChildren, IsEnvelope, ChildSet, Cuts, NoDuplicates, IsDepth;
    assert depth.Keys == Nodes(last) by { DepthKeys(t.parent, Nodes(last), depth); }
    var starts := Starts(last, t.bounds);
    forall p | p in Nodes(last)
      ensures ListsChildren(t.children[p], t.parent, p)
    {
      InOrderListsChildren(t.children[p], t.parent, p, starts);
    }
    InOrderLists(t.roots, Nodes(last) - t.parent.Keys, starts);
  }

  lemma DepthKeys(p: Links, nodes: set<SpanID>, depth: map<SpanID, nat>)
    requires IsDepth(p, nodes, depth)
    ensures depth.Keys == nodes
  {
  }

  /** The root above a node. */
  lemma {:induction false} HasRoot(t: Assembled, depth: map<SpanID, nat>, n: SpanID) returns (root: SpanID)
    requires Grounded(t, depth) && n in depth
    ensures root in t.roots && depth[root] == 0 && Reaches(t.parent, n, root)
    decreases depth[n]
  {
    if n in t.parent {
      root := HasRoot(t, depth, t.parent[n]);
      ReachesNext(t.parent, n, root);
    } else {
      root := n;
      ReachesSelf(t.parent, n);
    }
  }

  lemma RootsLevel(t: Assembled, depth: map<SpanID, nat>)
    requires Grounded(t, depth)
    ensures NoDuplicates(t.roots) && forall n :: n in t.roots ==> n in depth && depth[n] == 0 && n !in t.parent
  {
  }

  /** Every received span and every placeholder is below exactly one root. */
  lemma ExactlyOneRoot(last: map<SpanID, Span>, phase: Phase, t: Assembled, depth: map<SpanID, nat>, n: SpanID)
    requires IsTree(last, phase, t) && IsDepth(t.parent, Nodes(last), depth) && n in Nodes(last)
    ensures exists r :: r in t.roots && Reaches(t.parent, n, r)
    ensures forall r, s :: r in t.roots && s in t.roots && Reaches(t.parent, n, r) && Reaches(t.parent, n, s) ==> r == s
  {
    TreeIsGrounded(last, phase, t, depth);
    DepthKeys(t.parent, Nodes(last), depth);
    RootsLevel(t, depth);
    var root := HasRoot(t, depth, n);
    hide IsTree, Nodes;
    forall r, s | r in t.roots && s in t.roots && Reaches(t.parent, n, r) && Reaches(t.parent, n, s)
      ensures r == s
    {
      OneAncestor(t.parent, depth, n, r, s);
    }
  }

  /** The trees of an assembled trace. */
  function Trees(t: Assembled, ghost depth: map<SpanID, nat>): seq<Node>
    requires Grounded(t, depth)
  {
    RootsLevel(t, depth);
    GrowAll(t, depth, t.roots, -1)
  }

  /** Every node of the forest is visited exactly once, at its depth, and after
      its parent. */
  ghost predicate EachOnce(t: Assembled, depth: map<SpanID, nat>, vs: seq<Visit>)
    requires Grounded(t, depth)
  {
    && Faithful(t, depth, vs)
    && NoDuplicates(Ids(vs))
    && (forall x :: x in Ids(vs) <==> x in depth)
    && (forall i :: 0 <= i < |vs| && vs[i].node.id in t.parent ==> t.parent[vs[i].node.id] in Ids(vs)[..i])
  }

  lemma CoversRoots(t: Assembled, depth: map<SpanID, nat>, vs: seq<Visit>)
    requires Grounded(t, depth) && Covers(t, depth, vs, t.roots)
    ensures EachOnce(t, depth, vs)
  {
    hide *;
    SomeRoot(t, depth);
    CoversIs(t, depth, vs, t.roots);
    RootsLevel(t, depth);
    FirstParents(t.parent, vs, t.roots);
    EachOnceIs(t, depth, vs);
  }

  lemma SomeRoot(t: Assembled, depth: map<SpanID, nat>)
    requires Grounded(t, depth)
    ensures forall x :: x in depth ==> ReachesSome(t.parent, x, t.roots)
  {
    hide Grounded, Reaches;
    forall x | x in depth
      ensures ReachesSome(t.parent, x, t.roots)
    {
      var root := HasRoot(t, depth, x);
    }
  }

  lemma FirstParents(p: Links, vs: seq<Visit>, tops: seq<SpanID>)
    requires ParentsFirst(p, Ids(vs), tops) && forall n :: n in tops ==> n !in p
    ensures forall i :: 0 <= i < |vs| && vs[i].node.id in p ==> p[vs[i].node.id] in Ids(vs)[..i]
  {
    forall i | 0 <= i < |vs| && vs[i].node.id in p
      ensures p[vs[i].node.id] in Ids(vs)[..i]
    {
      assert Ids(vs)[i] == vs[i].node.id;
    }
  }

  lemma EachOnceIs(t: Assembled, depth: map<SpanID, nat>, vs: seq<Visit>)
    requires Grounded(t, depth) && Faithful(t, depth, vs) && NoDuplicates(Ids(vs))
    requires forall x :: x in Ids(vs) <==> x in depth
    requires forall i :: 0 <= i < |vs| && vs[i].node.id in t.parent ==> t.parent[vs[i].node.id] in Ids(vs)[..i]
    ensures EachOnce(t, depth, vs)
  {
    hide Grounded, Faithful, NoDuplicates, Ids;
  }

  /** A walk over all of an assembled trace visits every received span and every
      placeholder, and nothing else. */
  lemma WalkVisitsEachOnce(last: map<SpanID, Span>, phase: Phase, t: Assembled, depth: map<SpanID, nat>)
    requires IsTree(last, phase, t) && IsDepth(t.parent, Nodes(last), depth)
    ensures Grounded(t, depth) && depth.Keys == Nodes(last)
    ensures EachOnce(t, depth, VisitsAll(Trees(t, depth), 0))
  {
    TreeIsGrounded(last, phase, t, depth);
    DepthKeys(t.parent, Nodes(last), depth);
    WalkRoots(t, depth);
  }

  lemma WalkRoots(t: Assembled, depth: map<SpanID, nat>)
    requires Grounded(t, depth)
    ensures EachOnce(t, depth, VisitsAll(Trees(t, depth), 0))
  {
    RootsLevel(t, depth);
    hide Grounded, EachOnce, Covers, GrowAll, VisitsAll;
    WalkAllBelow(t, depth, t.roots, -1);
    CoversRoots(t, depth, VisitsAll(GrowAll(t, depth, t.roots, -1), 0));
  }

  /** What a grown node is: the span that arrived, or a placeholder with borrowed
      times. */
  lemma GrownSpan(last: map<SpanID, Span>, phase: Phase, t: Assembled, depth: map<SpanID, nat>, n: SpanID)
    requires IsTree(last, phase, t) && Grounded(t, depth) && n in depth
    ensures var g := Grow(t, depth, n);
            && g.id == n
            && (n in last ==> g.span == Some(last[n]) && g.start == last[n].start && g.end == last[n].end)
            && (n !in last ==> g.Missing() && n in t.bounds && g.start == t.bounds[n].start && g.end == t.bounds[n].end)
  {
    hide Kept, InStartOrder, Absent, Cuts, Inverse, IsDepth, IsEnvelope;
  }
}
