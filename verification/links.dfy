/** Parent links of one trace as a partial function on span identifiers, with
    nothing assumed about it: it may be cyclic, and may lead to spans that never
    arrived. */
module Links {
  import opened Trace
  import opened Sorting

  type Links = map<SpanID, SpanID>

  /** The k-th ancestor, if the chain is that long. */
  function Up(p: Links, n: SpanID, k: nat): Option<SpanID> {
    if k == 0 then Some(n)
    else
      match Up(p, n, k - 1)
      case None => None
      case Some(m) => if m in p then Some(p[m]) else None
  }

  /** Following parents from n leads to m. */
  ghost predicate Reaches(p: Links, n: SpanID, m: SpanID) {
    exists k: nat :: Up(p, n, k) == Some(m)
  }

  ghost predicate OnCycle(p: Links, n: SpanID) {
    n in p && Reaches(p, p[n], n)
  }

  /** Sorting key of the nodes: their start, then their identifier. */
  predicate StartsBefore(starts: map<SpanID, int>, a: SpanID, b: SpanID) {
    var x := if a in starts then starts[a] else 0;
    var y := if b in starts then starts[b] else 0;
    x < y || (x == y && LexLess(a, b))
  }

  /** The one span of its cycle that starts earliest. */
  ghost predicate IsCut(p: Links, starts: map<SpanID, int>, n: SpanID) {
    OnCycle(p, n) && forall m :: Reaches(p, n, m) && m != n ==> StartsBefore(starts, n, m)
  }

  /** How far each node is below a root: the certificate of a forest. */
  ghost predicate IsDepth(p: Links, nodes: set<SpanID>, depth: map<SpanID, nat>) {
    && depth.Keys == nodes
    && forall n :: n in nodes ==>
         if n in p then p[n] in nodes && depth[n] == depth[p[n]] + 1 else depth[n] == 0
  }

  // ---------------------------------------------------------------- ordering

  lemma StartsBeforeIsStrictWeak(starts: map<SpanID, int>)
    ensures StrictWeak((a: SpanID, b: SpanID) => StartsBefore(starts, a, b))
    ensures Asymmetric((a: SpanID, b: SpanID) => StartsBefore(starts, a, b))
  {
    var less := (a: SpanID, b: SpanID) => StartsBefore(starts, a, b);
    forall a: SpanID, b: SpanID | less(a, b)
      ensures !less(b, a)
    {
      BeforeAsymmetric(starts, a, b);
    }
    forall a: SpanID
      ensures NotBefore(less, a)
    {
      forall b: SpanID, c: SpanID | !less(a, b) && !less(b, c)
        ensures !less(a, c)
      {
        if a != b && b != c {
          BeforeConnected(starts, a, b);
          BeforeConnected(starts, b, c);
          BeforeTransitive(starts, c, b, a);
          BeforeAsymmetric(starts, c, a);
        }
      }
    }
  }

  lemma BeforeAsymmetric(starts: map<SpanID, int>, a: SpanID, b: SpanID)
    requires StartsBefore(starts, a, b)
    ensures !StartsBefore(starts, b, a)
  {
    if LexLess(a, b) {
      LexAsymmetric(a, b);
    }
  }

  lemma BeforeTransitive(starts: map<SpanID, int>, a: SpanID, b: SpanID, c: SpanID)
    requires StartsBefore(starts, a, b) && StartsBefore(starts, b, c)
    ensures StartsBefore(starts, a, c)
  {
    if LexLess(a, b) && LexLess(b, c) {
      LexTransitive(a, b, c);
    }
  }

  lemma BeforeConnected(starts: map<SpanID, int>, a: SpanID, b: SpanID)
    requires a != b
    ensures StartsBefore(starts, a, b) || StartsBefore(starts, b, a)
  {
    LexConnected(a, b);
  }

  // ----------------------------------------------------------------- chains

  lemma {:induction false} UpPlus(p: Links, n: SpanID, j: nat, k: nat)
    requires Up(p, n, j).Some?
    ensures Up(p, n, j + k) == Up(p, Up(p, n, j).value, k)
    decreases k
  {
    if k > 0 {
      UpPlus(p, n, j, k - 1);
      assert j + k - 1 == j + (k - 1);
    }
  }

  lemma ReachesNext(p: Links, n: SpanID, m: SpanID)
    requires n in p && Reaches(p, p[n], m)
    ensures Reaches(p, n, m)
  {
    var k: nat :| Up(p, p[n], k) == Some(m);
    assert Up(p, n, 0) == Some(n) && Up(p, n, 1) == Some(p[n]);
    UpPlus(p, n, 1, k);
    assert Up(p, n, 1 + k) == Some(m);
  }

  lemma ReachesFirst(p: Links, n: SpanID, m: SpanID)
    requires Reaches(p, n, m) && m != n
    ensures n in p && Reaches(p, p[n], m)
  {
    var k: nat :| Up(p, n, k) == Some(m);
    assert k > 0;
    UpDefined(p, n, 1, k);
    assert Up(p, n, 0) == Some(n) && Up(p, n, 1) == Some(p[n]);
    UpPlus(p, n, 1, k - 1);
    assert Up(p, p[n], k - 1) == Some(m);
  }

  lemma {:induction false} UpDefined(p: Links, n: SpanID, j: nat, k: nat)
    requires j <= k && Up(p, n, k).Some?
    ensures Up(p, n, j).Some?
    decreases k - j
  {
    if j < k {
      UpDefined(p, n, j + 1, k);
    }
  }

  lemma ReachesTransitive(p: Links, a: SpanID, b: SpanID, c: SpanID)
    requires Reaches(p, a, b) && Reaches(p, b, c)
    ensures Reaches(p, a, c)
  {
    var j: nat :| Up(p, a, j) == Some(b);
    var k: nat :| Up(p, b, k) == Some(c);
    UpPlus(p, a, j, k);
    assert Up(p, a, j + k) == Some(c);
  }

  lemma ReachesSelf(p: Links, n: SpanID)
    ensures Reaches(p, n, n)
  {
    assert Up(p, n, 0) == Some(n);
  }

  /** On a cycle, what is reached leads back. */
  lemma {:induction false} CycleReturns(p: Links, n: SpanID, k: nat)
    requires OnCycle(p, n) && Up(p, n, k).Some?
    ensures var m := Up(p, n, k).value;
            m in p && Reaches(p, m, n) && Reaches(p, p[m], n)
  {
    if k == 0 {
      ReachesSelf(p, n);
    } else {
      UpDefined(p, n, k - 1, k);
      CycleReturns(p, n, k - 1);
      var m := Up(p, n, k).value;
      if m == n {
        ReachesSelf(p, n);
      } else {
        ReachesFirst(p, m, n);
      }
    }
  }

  /** Everything a node on a cycle reaches is on that cycle too. */
  lemma CycleIsShared(p: Links, n: SpanID, m: SpanID)
    requires OnCycle(p, n) && Reaches(p, n, m)
    ensures OnCycle(p, m) && Reaches(p, m, n)
  {
    var k: nat :| Up(p, n, k) == Some(m);
    CycleReturns(p, n, k);
    ReachesTransitive(p, p[m], n, m);
  }

  // ------------------------------------------------------------ fewer links

  /** Links that are among others lead where the others lead. */
  lemma {:induction false} UpAmong(p: Links, q: Links, n: SpanID, k: nat)
    requires forall x :: x in p ==> x in q && q[x] == p[x]
    requires Up(p, n, k).Some?
    ensures Up(q, n, k) == Up(p, n, k)
  {
    if k > 0 {
      UpDefined(p, n, k - 1, k);
      UpAmong(p, q, n, k - 1);
    }
  }

  /** A chain none of whose links is cut survives the cutting. */
  lemma {:induction false} UpSurvives(q: Links, cuts: set<SpanID>, n: SpanID, k: nat)
    requires Up(q, n, k).Some?
    requires forall j :: 0 <= j < k && Up(q, n, j).Some? ==> Up(q, n, j).value !in cuts
    ensures Up(q - cuts, n, k) == Up(q, n, k)
  {
    if k > 0 {
      UpDefined(q, n, k - 1, k);
      UpSurvives(q, cuts, n, k - 1);
    }
  }

  /** A cut in some of the links is a cut in all of them. */
  lemma CutAmong(p: Links, q: Links, starts: map<SpanID, int>, n: SpanID)
    requires forall x :: x in p ==> x in q && q[x] == p[x]
    requires IsCut(p, starts, n)
    ensures IsCut(q, starts, n)
  {
    var k: nat :| Up(p, p[n], k) == Some(n);
    UpAmong(p, q, p[n], k);
    assert OnCycle(q, n) by { assert Up(q, q[n], k) == Some(n); }
    forall m | Reaches(q, n, m) && m != n
      ensures StartsBefore(starts, n, m)
    {
      var j: nat :| Up(q, n, j) == Some(m);
      ChainOnCycle(p, q, n, j);
      assert Up(p, n, j) == Some(m);
    }
  }

  /** From a node on a cycle, fewer links go just as far. */
  lemma {:induction false} ChainOnCycle(p: Links, q: Links, n: SpanID, j: nat)
    requires forall x :: x in p ==> x in q && q[x] == p[x]
    requires OnCycle(p, n)
    ensures Up(p, n, j).Some? && Up(p, n, j) == Up(q, n, j)
  {
    if j > 0 {
      ChainOnCycle(p, q, n, j - 1);
      CycleReturns(p, n, j - 1);
    }
  }

  // ------------------------------------------------------------ the forest

  /** With depths there are no cycles. */
  lemma {:induction false} DepthFalls(p: Links, nodes: set<SpanID>, depth: map<SpanID, nat>, n: SpanID, k: nat)
    requires IsDepth(p, nodes, depth) && n in nodes && Up(p, n, k).Some?
    ensures var m := Up(p, n, k).value; m in nodes && depth[m] + k == depth[n]
  {
    if k > 0 {
      UpDefined(p, n, k - 1, k);
      DepthFalls(p, nodes, depth, n, k - 1);
    }
  }

  lemma NoCycleLeft(p: Links, nodes: set<SpanID>, depth: map<SpanID, nat>, n: SpanID)
    requires IsDepth(p, nodes, depth) && n in nodes
    ensures !OnCycle(p, n)
  {
    if OnCycle(p, n) {
      var k: nat :| Up(p, p[n], k) == Some(n);
      DepthFalls(p, nodes, depth, p[n], k);
      assert false;
    }
  }

  /** A node that leads off without end and without return does not exist: if
      cutting some cuts leaves a forest, every cut was among them. */
  lemma CutsAreAll(q: Links, starts: map<SpanID, int>, cuts: set<SpanID>, nodes: set<SpanID>, depth: map<SpanID, nat>, n: SpanID)
    requires IsDepth(q - cuts, nodes, depth) && n in nodes
    requires forall c :: c in cuts ==> IsCut(q, starts, c)
    requires IsCut(q, starts, n)
    ensures n in cuts
  {
    if n !in cuts {
      var k: nat :| Up(q, q[n], k) == Some(n);
      forall j | 0 <= j < k && Up(q, q[n], j).Some?
        ensures Up(q, q[n], j).value !in cuts
      {
        var m := Up(q, q[n], j).value;
        if m in cuts {
          assert Reaches(q, q[n], m);
          ReachesNext(q, n, m);
          CycleIsShared(q, n, m);
          BeforeAsymmetric(starts, n, m);
          assert false;
        }
      }
      UpSurvives(q, cuts, q[n], k);
      assert OnCycle(q - cuts, n) by { assert Up(q - cuts, (q - cuts)[n], k) == Some(n); }
      NoCycleLeft(q - cuts, nodes, depth, n);
      assert false;
    }
  }

  lemma {:induction false} DepthUnique(p: Links, nodes: set<SpanID>, d: map<SpanID, nat>, e: map<SpanID, nat>, n: SpanID)
    requires IsDepth(p, nodes, d) && IsDepth(p, nodes, e) && n in nodes
    ensures d[n] == e[n]
    decreases d[n]
  {
    if n in p {
      DepthUnique(p, nodes, d, e, p[n]);
    }
  }
}
