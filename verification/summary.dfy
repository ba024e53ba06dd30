/** What a search returns for each trace, and the order it returns them in. */
module Summary {
  import opened Trace
  import opened Sorting
  import opened Indexes

  datatype Summary = Summary(
    traceID: TraceID,
    rootService: Text,
    rootName: Text,
    complete: bool,
    start: int,
    duration: int,
    spans: nat,
    failed: bool)

  predicate AnyRoot(spans: seq<Span>, n: nat)
    requires n <= |spans|
  {
    exists i :: 0 <= i < n && spans[i].IsRoot()
  }

  /** Whether span h stands for the first n: the last root there is among them,
      or with no root the earliest, the first of several. */
  ghost predicate IsHead(spans: seq<Span>, n: nat, h: int)
    requires n <= |spans|
  {
    && 0 <= h < n
    && (AnyRoot(spans, n) ==> spans[h].IsRoot() && forall j :: h < j < n ==> !spans[j].IsRoot())
    && (!AnyRoot(spans, n) ==>
         && (forall j :: 0 <= j < n ==> spans[h].start <= spans[j].start)
         && (forall j :: 0 <= j < h ==> spans[h].start < spans[j].start))
  }

  lemma HeadIsUnique(spans: seq<Span>, h: int, k: int)
    requires IsHead(spans, |spans|, h) && IsHead(spans, |spans|, k)
    ensures h == k
  {
    var a, b := spans[h], spans[k];
    if AnyRoot(spans, |spans|) {
      assert (h < k ==> !b.IsRoot()) && (k < h ==> !a.IsRoot());
    } else {
      assert (h < k ==> b.start < a.start) && (k < h ==> a.start < b.start);
    }
  }

  lemma {:induction false} HeadExists(spans: seq<Span>)
    requires spans != []
    ensures exists h :: IsHead(spans, |spans|, h)
  {
    var h := PickHead(spans);
  }

  ghost function Head(spans: seq<Span>): (h: int)
    requires spans != []
    ensures IsHead(spans, |spans|, h)
  {
    HeadExists(spans);
    var h :| IsHead(spans, |spans|, h);
    h
  }

  ghost function Summarised(id: TraceID, e: Entry): Summary
    requires e.spans != []
  {
    var head := e.spans[Head(e.spans)];
    Summary(id, head.service, head.name,
            AnyRoot(e.spans, |e.spans|),
            e.start, e.end - e.start, |e.spans|,
            exists i :: 0 <= i < |e.spans| && e.spans[i].Failed())
  }

  lemma HeadStep(spans: seq<Span>, n: nat, h: int) returns (k: int)
    requires n < |spans| && IsHead(spans, n, h)
    ensures k == if spans[n].IsRoot() || (!AnyRoot(spans, n) && spans[n].start < spans[h].start) then n else h
    ensures IsHead(spans, n + 1, k)
    ensures AnyRoot(spans, n + 1) <==> AnyRoot(spans, n) || spans[n].IsRoot()
  {
    assert AnyRoot(spans, n + 1) <==> AnyRoot(spans, n) || spans[n].IsRoot();
    k := if spans[n].IsRoot() || (!AnyRoot(spans, n) && spans[n].start < spans[h].start) then n else h;
  }

  lemma PickHead(spans: seq<Span>) returns (h: int)
    requires spans != []
    ensures IsHead(spans, |spans|, h)
  {
    h := 0;
    for i := 1 to |spans|
      invariant IsHead(spans, i, h)
    {
      h := HeadStep(spans, i, h);
    }
  }

  method Summarise(id: TraceID, e: Entry) returns (sum: Summary)
    requires e.spans != []
    ensures sum == Summarised(id, e)
  {
    var failed, complete, head := false, false, -1;
    for i := 0 to |e.spans|
      invariant failed <==> exists j :: 0 <= j < i && e.spans[j].Failed()
      invariant complete == AnyRoot(e.spans, i)
      invariant i == 0 ==> head == -1
      invariant i > 0 ==> IsHead(e.spans, i, head)
    {
      var s := e.spans[i];
      ghost var next := 0;
      if i > 0 {
        next := HeadStep(e.spans, i, head);
      }
      if s.Failed() {
        failed := true;
      }
      if s.IsRoot() {
        head := i;
        complete := true;
      } else if !complete && (head == -1 || s.start < e.spans[head].start) {
        head := i;
      }
    }
    HeadIsUnique(e.spans, head, Head(e.spans));
    sum := Summary(id, e.spans[head].service, e.spans[head].name, complete,
                   e.start, e.end - e.start, |e.spans|, failed);
  }

  /** Newest first, then by identifier. */
  predicate Newer(a: Summary, b: Summary) {
    a.start > b.start || (a.start == b.start && LexLess(a.traceID, b.traceID))
  }

  lemma NewerIsStrictWeak()
    ensures StrictWeak(Newer)
  {
    forall a, b | Newer(a, b)
      ensures !Newer(b, a)
    {
      if a.start == b.start {
        LexAsymmetric(a.traceID, b.traceID);
      }
    }
    forall a
      ensures NotBefore(Newer, a)
    {
      forall b, c | !Newer(a, b) && !Newer(b, c)
        ensures !Newer(a, c)
      {
        if Newer(a, c) && a.start == b.start == c.start {
          NotBeforeChains(a.traceID, b.traceID, c.traceID);
        }
      }
    }
  }

  lemma NotBeforeChains(a: seq<int>, b: seq<int>, c: seq<int>)
    requires !LexLess(a, b) && !LexLess(b, c)
    ensures !LexLess(a, c)
  {
    if a != b && b != c {
      LexConnected(a, b);
      LexConnected(b, c);
      LexTransitive(c, b, a);
      LexAsymmetric(c, a);
    }
  }

  lemma NewerConnects(a: Summary, b: Summary)
    requires a.traceID != b.traceID
    ensures Newer(a, b) || Newer(b, a)
  {
    LexConnected(a.traceID, b.traceID);
  }
}
