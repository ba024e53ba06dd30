/** Assembling a trace. The spans may name parents that never arrived, and their
    links may go round in loops. Nodes are named by their span identifiers: a
    placeholder has the identifier of the parent it stands for. */
module Assembly {
  import opened Trace
  import opened Sorting
  import opened Links
  import opened Marking

  datatype Phase = Open | Sealed

  datatype Presence = Received | Awaited | Lost

  // ------------------------------------------------- what the tree should be

  /** The last copy of each span identifier. */
  function LastCopies(spans: seq<Span>): map<SpanID, Span> {
    if spans == [] then map[]
    else
      var n := |spans| - 1;
      LastCopies(spans[..n])[spans[n].spanID := spans[n]]
  }

  /** The parent each span names. */
  function Named(last: map<SpanID, Span>): Links {
    map id | id in last && last[id].parentID != ZERO_SPAN :: last[id].parentID
  }

  /** The parents that are named and did not arrive. */
  function Absent(last: map<SpanID, Span>): set<SpanID> {
    set id | id in last && !last[id].IsRoot() && last[id].parentID !in last :: last[id].parentID
  }

  function Nodes(last: map<SpanID, Span>): set<SpanID> {
    last.Keys + Absent(last)
  }

  function SpanStarts(last: map<SpanID, Span>): map<SpanID, int> {
    map id | id in last :: last[id].start
  }

  /** The spans to cut loose: the earliest of each cycle. */
  ghost function Cuts(last: map<SpanID, Span>): set<SpanID> {
    set id | id in last && IsCut(Named(last), SpanStarts(last), id)
  }

  ghost function Kept(last: map<SpanID, Span>): Links {
    Named(last) - Cuts(last)
  }

  function ChildSet(p: Links, n: SpanID): set<SpanID> {
    set c | c in p && p[c] == n
  }

  datatype Bounds = Bounds(start: int, end: int)

  /** The tightest interval around the spans of some identifiers. */
  ghost predicate IsEnvelope(last: map<SpanID, Span>, ids: set<SpanID>, b: Bounds) {
    && (forall c :: c in ids && c in last ==> b.start <= last[c].start && last[c].end <= b.end)
    && (exists c :: c in ids && c in last && last[c].start == b.start)
    && (exists c :: c in ids && c in last && last[c].end == b.end)
  }

  /** Where each node starts, placeholders included. */
  function Starts(last: map<SpanID, Span>, bounds: map<SpanID, Bounds>): map<SpanID, int> {
    map id | id in last.Keys + bounds.Keys :: if id in last then last[id].start else bounds[id].start
  }

  /** s lists each of xs once, in order of start. */
  ghost predicate InStartOrder(s: seq<SpanID>, xs: set<SpanID>, starts: map<SpanID, int>) {
    Lists(s, xs, (a: SpanID, b: SpanID) => StartsBefore(starts, a, b))
  }

  /** An assembled trace. */
  datatype Assembled = Assembled(
    spans: map<SpanID, Span>,
    bounds: map<SpanID, Bounds>,
    absent: Presence,
    parent: Links,
    children: Children,
    roots: seq<SpanID>,
    missing: seq<SpanID>,
    cycles: seq<SpanID>)

  /** The one tree for the last copies of a trace's spans. */
  ghost predicate IsTree(last: map<SpanID, Span>, phase: Phase, t: Assembled) {
    var starts := Starts(last, t.bounds);
    && t.spans == last
    && t.absent == (if phase == Sealed then Lost else Awaited)
    && t.parent == Kept(last)
    && t.bounds.Keys == Absent(last)
    && (forall p :: p in Absent(last) ==> IsEnvelope(last, ChildSet(t.parent, p), t.bounds[p]))
    && t.children.Keys == Nodes(last)
    && (forall p :: p in Nodes(last) ==> InStartOrder(t.children[p], ChildSet(t.parent, p), starts))
    && InStartOrder(t.roots, Nodes(last) - t.parent.Keys, starts)
    && InStartOrder(t.missing, Absent(last), starts)
    && InStartOrder(t.cycles, Cuts(last), starts)
  }

  // ------------------------------------------------------------------ sorts

  lemma SortedIsInOrder(s: seq<SpanID>, xs: set<SpanID>, starts: map<SpanID, int>)
    requires multiset(s) == multiset(xs)
    requires SortedBy(s, (a: SpanID, b: SpanID) => StartsBefore(starts, a, b))
    ensures InStartOrder(s, xs, starts)
  {
    forall x
      ensures x in s <==> x in xs
    {
      assert x in s <==> x in multiset(s);
    }
    forall i, j | 0 <= i < j < |s|
      ensures StartsBefore(starts, s[i], s[j])
    {
      assert s[i] != s[j] by {
        if s[i] == s[j] {
          OccursTwice(s, i, j);
          assert false;
        }
      }
      BeforeConnected(starts, s[i], s[j]);
      var less := (a: SpanID, b: SpanID) => StartsBefore(starts, a, b);
      assert !less(s[j], s[i]);
    }
  }

  /** slices.SortFunc by byStart, on nodes that are all different. */
  method SortByStart(s: seq<SpanID>, starts: map<SpanID, int>, ghost xs: set<SpanID>) returns (r: seq<SpanID>)
    requires multiset(s) == multiset(xs)
    ensures InStartOrder(r, xs, starts) && multiset(r) == multiset(xs)
  {
    StartsBeforeIsStrictWeak(starts);
    r := SortFunc(s, (a: SpanID, b: SpanID) => StartsBefore(starts, a, b));
    SortedIsInOrder(r, xs, starts);
  }

  lemma InStartOrderUnique(s: seq<SpanID>, t: seq<SpanID>, xs: set<SpanID>, starts: map<SpanID, int>)
    requires InStartOrder(s, xs, starts) && InStartOrder(t, xs, starts)
    ensures s == t
  {
    var less := (a: SpanID, b: SpanID) => StartsBefore(starts, a, b);
    StartsBeforeIsStrictWeak(starts);
    ListsUnique(s, t, xs, less);
  }

  lemma EnvelopeUnique(last: map<SpanID, Span>, ids: set<SpanID>, a: Bounds, b: Bounds)
    requires IsEnvelope(last, ids, a) && IsEnvelope(last, ids, b)
    ensures a == b
  {
    var i :| i in ids && i in last && last[i].start == a.start;
    var j :| j in ids && j in last && last[j].end == a.end;
    var k :| k in ids && k in last && last[k].start == b.start;
    var l :| l in ids && l in last && last[l].end == b.end;
    assert b.start <= last[i].start && a.start <= last[k].start;
    assert last[j].end <= b.end && last[l].end <= a.end;
  }

  /** The tree depends on nothing but the last copy of each span: not on the
      order the spans arrived in, nor on the order any map was walked in. */
  lemma TreeIsUnique(last: map<SpanID, Span>, phase: Phase, t: Assembled, u: Assembled)
    requires IsTree(last, phase, t) && IsTree(last, phase, u)
    ensures t == u
  {
    hide InStartOrder, IsEnvelope, Cuts, Kept;
    forall p | p in Absent(last)
      ensures t.bounds[p] == u.bounds[p]
    {
      EnvelopeUnique(last, ChildSet(t.parent, p), t.bounds[p], u.bounds[p]);
    }
    assert t.bounds == u.bounds;
    var starts := Starts(last, t.bounds);
    forall p | p in Nodes(last)
      ensures t.children[p] == u.children[p]
    {
      InStartOrderUnique(t.children[p], u.children[p], ChildSet(t.parent, p), starts);
    }
    assert t.children == u.children;
    InStartOrderUnique(t.roots, u.roots, Nodes(last) - t.parent.Keys, starts);
    InStartOrderUnique(t.missing, u.missing, Absent(last), starts);
    InStartOrderUnique(t.cycles, u.cycles, Cuts(last), starts);
  }

  ghost predicate Distinct(spans: seq<Span>) {
    forall i, j :: 0 <= i < j < |spans| ==> spans[i].spanID != spans[j].spanID
  }

  /** The last copy under an identifier is a span that arrived, under its own
      identifier. */
  lemma {:induction false} LastCopyArrived(spans: seq<Span>, id: SpanID)
    requires id in LastCopies(spans)
    ensures LastCopies(spans)[id] in spans && LastCopies(spans)[id].spanID == id
  {
    var n := |spans| - 1;
    if id != spans[n].spanID {
      LastCopyArrived(spans[..n], id);
      assert LastCopies(spans)[id] in spans[..n];
    }
  }

  lemma {:induction false} ArrivedHasCopy(spans: seq<Span>, i: nat)
    requires i < |spans|
    ensures spans[i].spanID in LastCopies(spans)
    ensures Distinct(spans) ==> LastCopies(spans)[spans[i].spanID] == spans[i]
  {
    var n := |spans| - 1;
    if i < n {
      ArrivedHasCopy(spans[..n], i);
    }
  }

  /** Distinct spans leave the same last copies in whatever order they arrive. */
  lemma OrderLeavesCopies(spans: seq<Span>, other: seq<Span>)
    requires Distinct(spans) && Distinct(other) && multiset(spans) == multiset(other)
    ensures LastCopies(spans) == LastCopies(other)
  {
    CopiesAmong(spans, other);
    CopiesAmong(other, spans);
  }

  lemma CopiesAmong(spans: seq<Span>, other: seq<Span>)
    requires Distinct(other) && multiset(spans) == multiset(other)
    ensures forall id :: id in LastCopies(spans) ==>
              id in LastCopies(other) && LastCopies(other)[id] == LastCopies(spans)[id]
  {
    forall id | id in LastCopies(spans)
      ensures id in LastCopies(other) && LastCopies(other)[id] == LastCopies(spans)[id]
    {
      LastCopyArrived(spans, id);
      var s := LastCopies(spans)[id];
      assert s in multiset(other);
      var i :| 0 <= i < |other| && other[i] == s;
      ArrivedHasCopy(other, i);
    }
  }

  // ----------------------------------------------------------- placeholders

  /** No placeholder ever loses a child: a span that names a parent which did not
      arrive is on no cycle. */
  lemma PlaceholderKeepsChildren(last: map<SpanID, Span>, id: SpanID)
    requires id in last && !last[id].IsRoot() && last[id].parentID !in last
    ensures id in Kept(last) && Kept(last)[id] == last[id].parentID
  {
    var p := Named(last);
    if OnCycle(p, id) {
      ReachesFirst(p, p[id], id);
      assert false;
    }
  }

  /** So each placeholder has a first child to borrow its times from, and all its
      children arrived. */
  lemma PlaceholderHasChildren(last: map<SpanID, Span>, p: SpanID)
    requires p in Absent(last)
    ensures ChildSet(Kept(last), p) != {}
  {
    var id :| id in last && !last[id].IsRoot() && last[id].parentID !in last && last[id].parentID == p;
    PlaceholderKeepsChildren(last, id);
    assert id in ChildSet(Kept(last), p);
  }

  lemma ChildrenArrived(last: map<SpanID, Span>, p: SpanID)
    ensures forall c :: c in ChildSet(Kept(last), p) ==> c in last
  {
  }

  /** The borrowed times: the earliest start and the latest end. */
  method Envelope(last: map<SpanID, Span>, ids: seq<SpanID>) returns (b: Bounds)
    requires ids != [] && forall c :: c in ids ==> c in last
    ensures IsEnvelope(last, (set c | c in ids), b)
  {
    b := Bounds(last[ids[0]].start, last[ids[0]].end);
    ghost var first, final := ids[0], ids[0];
    for i := 1 to |ids|
      invariant forall k :: 0 <= k < i ==> b.start <= last[ids[k]].start && last[ids[k]].end <= b.end
      invariant first in ids && last[first].start == b.start
      invariant final in ids && last[final].end == b.end
    {
      var c := ids[i];
      if last[c].start < b.start {
        b, first := b.(start := last[c].start), c;
      }
      if b.end < last[c].end {
        b, final := b.(end := last[c].end), c;
      }
    }
  }
}
