/** No span is lost track of: in every interleaving of the sampler's steps, each
    accepted span is in exactly one place, and the counters say so. */
module Conservation {
  import opened Trace
  import opened Verdicts
  import opened Sampling

  /** The spans the buffer holds. */
  ghost function Content(s: State): multiset<Span> {
    Spread(PendingSpans(s.pending)) + Spread(s.judging) + Spread(s.late)
  }

  /** The spans out of the buffer that are neither written nor accounted for:
      those the writer has not answered for, and those it refused and nobody has
      counted yet. */
  ghost function InFlight(w: World): multiset<Span> {
    Spread(w.taken) + Spread(w.denied) + (multiset(Joined(w.flying)) + multiset(Joined(w.refused)))
  }

  /** No trace is both waiting to be judged and being judged, and each trace
      being judged is in the hands of one caller, at one stage. */
  ghost predicate Apart(w: World) {
    Stages(w.s.pending.Keys, w.s.judging.Keys, w.taken.Keys, w.stored.Keys, w.denied.Keys)
  }

  ghost predicate Stages(pending: set<TraceID>, judging: set<TraceID>, taken: set<TraceID>,
                         stored: set<TraceID>, denied: set<TraceID>)
  {
    && pending !! judging && judging == taken + stored + denied
    && taken !! stored && taken !! denied && stored !! denied
  }

  lemma StagesMove(pending: set<TraceID>, judging: set<TraceID>, taken: set<TraceID>,
                   stored: set<TraceID>, denied: set<TraceID>, x: set<TraceID>)
    requires Stages(pending, judging, taken, stored, denied)
    ensures x <= pending ==> Stages(pending - x, judging + x, taken + x, stored, denied)
    ensures x <= taken ==> Stages(pending, judging, taken - x, stored + x, denied)
    ensures x <= taken ==> Stages(pending, judging, taken - x, stored, denied + x)
    ensures Stages(pending, judging - x, taken - x, stored - x, denied - x)
  {
  }

  predicate OfTrace(spans: seq<Span>, id: TraceID) {
    forall i :: 0 <= i < |spans| ==> spans[i].traceID == id
  }

  ghost predicate OwnedMap(m: map<TraceID, seq<Span>>) {
    forall id :: id in m ==> OfTrace(m[id], id)
  }

  ghost predicate OwnedPending(pending: map<TraceID, Pending>) {
    forall id :: id in pending ==> pending[id].spans != [] && OfTrace(pending[id].spans, id)
  }

  /** Spans are filed under their own trace, and a trace to be judged has at
      least one. */
  ghost predicate Owned(w: World) {
    && OwnedPending(w.s.pending) && OwnedMap(w.s.judging)
    && OwnedMap(w.taken) && OwnedMap(w.stored) && OwnedMap(w.denied)
    && (forall id :: id in w.taken ==> w.taken[id] != [])
  }

  /** Every accepted span is in exactly one place. */
  ghost predicate Conserved(w: World) {
    multiset(w.accepted) ==
      Content(w.s) + InFlight(w)
      + multiset(w.written) + multiset(w.lost) + multiset(w.dropped) + multiset(w.discarded)
  }

  /** The counters count what happened, and the buffer is within its limit. */
  ghost predicate Counted(cfg: Config, w: World) {
    && w.s.stats.buffered == |Content(w.s)| <= cfg.maxSpans
    && w.s.stats.accepted == |w.accepted|
    && w.s.stats.lost == |w.lost|
    && w.s.stats.droppedSpans == |w.dropped|
    && w.s.stats.lateDropped == |w.discarded|
    && w.s.stats.lateKept == |w.queued|
  }

  ghost predicate Accounted(cfg: Config, w: World) {
    Apart(w) && Owned(w) && Conserved(w) && Counted(cfg, w)
  }

  // ----------------------------------------------------------------- accept

  /** Placing a span touches no verdict, and starts no trace that has one. */
  lemma PlacedKeeps(cfg: Config, s: State, sp: Span, now: int)
    ensures var t := Placed(cfg, s, sp, now);
            && t.judging.Keys == s.judging.Keys
            && t.verdicts == s.verdicts
            && (forall id :: Verdict(cfg, t, id, now) == Verdict(cfg, s, id, now))
            && t.pending.Keys == s.pending.Keys +
                 (if sp.traceID !in s.judging && Verdict(cfg, s, sp.traceID, now) == None then {sp.traceID} else {})
  {
    hide Verdict;
    PlacedJudging(cfg, s, sp, now);
    SameVerdicts(cfg, s, Placed(cfg, s, sp, now), now);
    hide Placed;
    PlacedPending(cfg, s, sp, now);
  }

  lemma PlacedJudging(cfg: Config, s: State, sp: Span, now: int)
    ensures var t := Placed(cfg, s, sp, now);
            t.judging.Keys == s.judging.Keys && t.verdicts == s.verdicts
  {
    hide Verdict;
  }

  lemma PlacedPending(cfg: Config, s: State, sp: Span, now: int)
    ensures Placed(cfg, s, sp, now).pending.Keys == s.pending.Keys +
              (if sp.traceID !in s.judging && Verdict(cfg, s, sp.traceID, now) == None then {sp.traceID} else {})
  {
    hide Verdict;
  }

  lemma SameVerdicts(cfg: Config, s: State, t: State, now: int)
    requires t.judging.Keys == s.judging.Keys && t.verdicts == s.verdicts
    ensures forall id :: Verdict(cfg, t, id, now) == Verdict(cfg, s, id, now)
  {
  }

  lemma PendingGrows(pending: map<TraceID, Pending>, sp: Span, p: Pending)
    requires p.spans == (if sp.traceID in pending then pending[sp.traceID].spans else []) + [sp]
    ensures Spread(PendingSpans(pending[sp.traceID := p])) == Spread(PendingSpans(pending)) + multiset{sp}
  {
    hide Spread;
    SpreadAppend(PendingSpans(pending), sp.traceID, [sp]);
    assert PendingSpans(pending[sp.traceID := p]) == PendingSpans(pending)[sp.traceID := p.spans];
    assert multiset([sp]) == multiset{sp};
  }

  lemma AppendedGrows(m: map<TraceID, seq<Span>>, sp: Span)
    ensures Spread(Appended(m, sp)) == Spread(m) + multiset{sp}
  {
    hide Spread;
    SpreadAppend(m, sp.traceID, [sp]);
    assert multiset([sp]) == multiset{sp};
  }

  lemma OneOfThree(a: multiset<Span>, b: multiset<Span>, c: multiset<Span>, x: multiset<Span>)
    ensures (a + x) + b + c == a + b + c + x
    ensures a + (b + x) + c == a + b + c + x
  {
  }

  lemma ContentGrows(s: State, t: State, x: multiset<Span>)
    requires
      || (t.judging == s.judging && t.late == s.late
          && Spread(PendingSpans(t.pending)) == Spread(PendingSpans(s.pending)) + x)
      || (t.pending == s.pending && t.late == s.late && Spread(t.judging) == Spread(s.judging) + x)
      || (t.pending == s.pending && t.judging == s.judging && Spread(t.late) == Spread(s.late) + x)
    ensures Content(t) == Content(s) + x
  {
    hide Spread, PendingSpans;
    OneOfThree(Spread(PendingSpans(s.pending)), Spread(s.judging), Spread(s.late), x);
  }

  lemma PlacedContent(cfg: Config, s: State, sp: Span, now: int)
    ensures Content(Placed(cfg, s, sp, now)) ==
            Content(s) + if Verdict(cfg, s, sp.traceID, now) == Some(false) then multiset{} else multiset{sp}
  {
    hide Spread, Appended, PendingSpans, Verdict, Content;
    var id := sp.traceID;
    var t := Placed(cfg, s, sp, now);
    NoVerdictYet(cfg, s, id, now);
    if Verdict(cfg, s, id, now) == Some(false) {
      SameContent(s, t);
    } else {
      if id in s.judging {
        AppendedGrows(s.judging, sp);
      } else if Verdict(cfg, s, id, now) == None {
        PendingGrows(s.pending, sp, t.pending[id]);
      } else {
        AppendedGrows(s.late, sp);
      }
      ContentGrows(s, t, multiset{sp});
    }
  }

  lemma NoVerdictYet(cfg: Config, s: State, id: TraceID, now: int)
    ensures id in s.judging ==> Verdict(cfg, s, id, now) == None
  {
  }

  lemma PlacedStats(cfg: Config, s: State, sp: Span, now: int)
    ensures Placed(cfg, s, sp, now).stats ==
            match Verdict(cfg, s, sp.traceID, now)
            case None => s.stats
            case Some(keep) =>
              if keep then s.stats.(lateKept := s.stats.lateKept + 1)
              else s.stats.(lateDropped := s.stats.lateDropped + 1)
  {
  }

  lemma BagStep(c: multiset<Span>, more: multiset<Span>, d: multiset<Span>, gone: multiset<Span>,
                x: multiset<Span>, e: multiset<Span>, y: multiset<Span>)
    requires d + gone == c + more && e + y == d + x
    ensures e + (gone + y) == c + (more + x)
  {
    forall z: Span
      ensures (e + (gone + y))[z] == (c + (more + x))[z]
    {
      assert (d + gone)[z] == (c + more)[z] && (e + y)[z] == (d + x)[z];
    }
  }

  /** A whole batch: each span is held, or dropped by the verdict it follows. */
  lemma {:induction false} PlacedAllContent(cfg: Config, s: State, spans: seq<Span>, now: int)
    ensures Content(PlacedAll(cfg, s, spans, now)) + multiset(Following(cfg, s, spans, now, false))
            == Content(s) + multiset(spans)
  {
    hide Placed, Verdict, Content;
    if spans != [] {
      var n := |spans| - 1;
      PlacedAllContent(cfg, s, spans[..n], now);
      PlacedAllKeeps(cfg, s, spans[..n], now);
      var t := PlacedAll(cfg, s, spans[..n], now);
      PlacedContent(cfg, t, spans[n], now);
      assert spans == spans[..n] + [spans[n]];
      var one := if Verdict(cfg, s, spans[n].traceID, now) == Some(false) then [spans[n]] else [];
      BagStep(Content(s), multiset(spans[..n]), Content(t), multiset(Following(cfg, s, spans[..n], now, false)),
              multiset{spans[n]}, Content(Placed(cfg, t, spans[n], now)), multiset(one));
    }
  }

  lemma {:induction false} HeldIsTheRest(cfg: Config, s: State, spans: seq<Span>, now: int)
    ensures Held(cfg, s, spans, now) + |Following(cfg, s, spans, now, false)| == |spans|
  {
    hide Verdict;
    if spans != [] {
      HeldIsTheRest(cfg, s, spans[..|spans| - 1], now);
    }
  }

  lemma {:induction false} PlacedAllKeeps(cfg: Config, s: State, spans: seq<Span>, now: int)
    ensures var t := PlacedAll(cfg, s, spans, now);
            && t.judging.Keys == s.judging.Keys && t.verdicts == s.verdicts
            && (forall id :: Verdict(cfg, t, id, now) == Verdict(cfg, s, id, now))
            && (forall id :: id in t.pending && id !in s.pending ==>
                  id !in s.judging && Verdict(cfg, s, id, now) == None)
  {
    hide Placed, Verdict;
    if spans != [] {
      var n := |spans| - 1;
      PlacedAllKeeps(cfg, s, spans[..n], now);
      PlacedKeeps(cfg, PlacedAll(cfg, s, spans[..n], now), spans[n], now);
    }
  }

  lemma {:induction false} PlacedAllStats(cfg: Config, s: State, spans: seq<Span>, now: int)
    ensures var t := PlacedAll(cfg, s, spans, now);
            t.stats == s.stats.(lateKept := s.stats.lateKept + |Following(cfg, s, spans, now, true)|,
                                lateDropped := s.stats.lateDropped + |Following(cfg, s, spans, now, false)|)
  {
    hide Placed, Verdict;
    if spans != [] {
      var n := |spans| - 1;
      PlacedAllStats(cfg, s, spans[..n], now);
      PlacedAllKeeps(cfg, s, spans[..n], now);
      PlacedStats(cfg, PlacedAll(cfg, s, spans[..n], now), spans[n], now);
    }
  }

  /** A state whose buffered traces are filed right. */
  ghost predicate Filed(s: State) {
    OwnedPending(s.pending) && OwnedMap(s.judging) && s.pending.Keys !! s.judging.Keys
  }

  lemma {:induction false} PlacedAllFiled(cfg: Config, s: State, spans: seq<Span>, now: int)
    requires Filed(s)
    ensures Filed(PlacedAll(cfg, s, spans, now))
  {
    hide Placed, Filed;
    if spans != [] {
      var n := |spans| - 1;
      PlacedAllFiled(cfg, s, spans[..n], now);
      PlacedFiled(cfg, PlacedAll(cfg, s, spans[..n], now), spans[n], now);
    }
  }

  lemma AppendedOwned(m: map<TraceID, seq<Span>>, sp: Span)
    requires OwnedMap(m)
    ensures OwnedMap(Appended(m, sp))
  {
    if sp.traceID in m {
      assert OfTrace(m[sp.traceID], sp.traceID);
    }
  }

  lemma PendingPutOwned(pending: map<TraceID, Pending>, sp: Span, p: Pending)
    requires OwnedPending(pending)
    requires p.spans == (if sp.traceID in pending then pending[sp.traceID].spans else []) + [sp]
    ensures OwnedPending(pending[sp.traceID := p])
  {
  }

  lemma PlacedFiled(cfg: Config, s: State, sp: Span, now: int)
    requires Filed(s)
    ensures Filed(Placed(cfg, s, sp, now))
  {
    hide OwnedMap, OwnedPending, Verdict, Appended;
    var t := Placed(cfg, s, sp, now);
    PlacedKeeps(cfg, s, sp, now);
    AppendedOwned(s.judging, sp);
    if sp.traceID !in s.judging && Verdict(cfg, s, sp.traceID, now) == None {
      PendingPutOwned(s.pending, sp, t.pending[sp.traceID]);
    }
  }

  /** The account, as sums of bags. */
  lemma AddUp(accepted: multiset<Span>, more: multiset<Span>, content: multiset<Span>, content': multiset<Span>,
              others: multiset<Span>, dropped: multiset<Span>)
    requires accepted == content + others && content' + dropped == content + more
    ensures accepted + more == content' + others + dropped
    ensures |content'| + |dropped| == |content| + |more|
  {
    forall x: Span
      ensures (accepted + more)[x] == (content' + others + dropped)[x]
    {
      assert (content' + dropped)[x] == (content + more)[x];
    }
    assert |content' + dropped| == |content + more|;
  }

  lemma AcceptAccounts(cfg: Config, w: World, spans: seq<Span>, now: int)
    requires Accounted(cfg, w)
    ensures Accounted(cfg, AfterAccept(cfg, w, spans, now))
  {
    hide Content, InFlight, PlacedAll, Held, Following, OwnedMap, OwnedPending;
    var t := AfterAccept(cfg, w, spans, now);
    if AcceptOutcome(cfg, w.s, spans, now) == Taken {
      hide Apart, Owned, Conserved, Counted, AcceptOutcome, AfterAccept;
      AcceptKeepsOwners(cfg, w, spans, now);
      AcceptConserves(cfg, w, spans, now);
    } else {
      SameInFlight(w, t);
      SameContent(w.s, t.s);
    }
  }

  lemma AcceptKeepsOwners(cfg: Config, w: World, spans: seq<Span>, now: int)
    requires Apart(w) && Owned(w) && AcceptOutcome(cfg, w.s, spans, now) == Taken
    ensures var t := AfterAccept(cfg, w, spans, now); Apart(t) && Owned(t)
  {
    hide PlacedAll, Held, Following, OwnedMap, OwnedPending, AcceptOutcome;
    PlacedAllKeeps(cfg, w.s, spans, now);
    PlacedAllFiled(cfg, w.s, spans, now);
  }

  lemma AcceptConserves(cfg: Config, w: World, spans: seq<Span>, now: int)
    requires Conserved(w) && Counted(cfg, w) && AcceptOutcome(cfg, w.s, spans, now) == Taken
    ensures var t := AfterAccept(cfg, w, spans, now); Conserved(t) && Counted(cfg, t)
  {
    hide Content, InFlight, PlacedAll, Held, Following;
    var t := AfterAccept(cfg, w, spans, now);
    var p := PlacedAll(cfg, w.s, spans, now);
    var dropped := Following(cfg, w.s, spans, now, false);
    SameInFlight(w, t);
    SameContent(p, t.s);
    PlacedAllContent(cfg, w.s, spans, now);
    HeldIsTheRest(cfg, w.s, spans, now);
    PlacedAllStats(cfg, w.s, spans, now);
    AddUp(multiset(w.accepted), multiset(spans), Content(w.s), Content(p),
          InFlight(w) + multiset(w.written) + multiset(w.lost) + multiset(w.dropped) + multiset(w.discarded),
          multiset(dropped));
    assert |multiset(dropped)| == |dropped| && |multiset(spans)| == |spans|;
  }

  /** What the buffer holds does not depend on the counters or the verdicts. */
  lemma SameContent(s: State, t: State)
    requires s.pending == t.pending && s.judging == t.judging && s.late == t.late
    ensures Content(s) == Content(t)
  {
  }

  lemma SameInFlight(w: World, v: World)
    requires w.taken == v.taken && w.denied == v.denied && w.flying == v.flying && w.refused == v.refused
    ensures InFlight(w) == InFlight(v)
  {
  }

  // ------------------------------------------------------------------- seal

  lemma {:induction false} SpreadOfEmpties(due: set<TraceID>)
    ensures Spread(Emptied(due)) == multiset{}
    decreases |due|
  {
    hide Spread;
    var m := Emptied(due);
    if due == {} {
      assert m == map[];
      SpreadOfNothing();
    } else {
      var x :| x in due;
      SpreadRemove(m, x);
      assert m - {x} == Emptied(due - {x});
      SpreadOfEmpties(due - {x});
    }
  }

  /** Sealing splits what was pending in two. */
  lemma SealSplits(pending: map<TraceID, Pending>, due: set<TraceID>)
    ensures Spread(PendingSpans(pending)) ==
            Spread(PendingSpans(pending - due)) + Spread(PendingSpans(Only(pending, due)))
  {
    hide Spread;
    SpreadSplit(PendingSpans(pending), due);
    assert PendingSpans(pending) - due == PendingSpans(pending - due);
    assert Only(PendingSpans(pending), due) == PendingSpans(Only(pending, due));
  }

  lemma SealEmpties(judging: map<TraceID, seq<Span>>, due: set<TraceID>)
    requires due !! judging.Keys
    ensures Spread(judging + Emptied(due)) == Spread(judging)
  {
    hide Spread;
    SpreadUnion(judging, Emptied(due));
    SpreadOfEmpties(due);
  }

  /** Sealing moves spans out of the buffer and into the judge's hands. */
  lemma SealMoves(w: World, due: set<TraceID>, aged: nat)
    requires Apart(w) && due <= w.s.pending.Keys
    ensures var t := AfterSeal(w, due, aged);
            var sealed := Spread(PendingSpans(Only(w.s.pending, due)));
            Content(w.s) == Content(t.s) + sealed && InFlight(t) == InFlight(w) + sealed
  {
    hide Spread, PendingSpans, Only;
    var t := AfterSeal(w, due, aged);
    var gone := PendingSpans(Only(w.s.pending, due));
    SealSplits(w.s.pending, due);
    SealEmpties(w.s.judging, due);
    OneOfThree(Spread(PendingSpans(t.s.pending)), Spread(w.s.judging), Spread(w.s.late), Spread(gone));
    SealKeys(w.s.pending, due);
    SpreadUnion(w.taken, gone);
    OneOfThree(Spread(w.taken), Spread(w.denied), multiset(Joined(w.flying)) + multiset(Joined(w.refused)), Spread(gone));
  }

  lemma SealKeys(pending: map<TraceID, Pending>, due: set<TraceID>)
    requires due <= pending.Keys
    ensures PendingSpans(Only(pending, due)).Keys == due
  {
  }

  lemma SealApart(w: World, due: set<TraceID>, aged: nat)
    requires Apart(w) && due <= w.s.pending.Keys
    ensures Apart(AfterSeal(w, due, aged))
  {
    hide Spread, Only, PendingSpans, Stages;
    SealKeys(w.s.pending, due);
    var t := AfterSeal(w, due, aged);
    StagesMove(w.s.pending.Keys, w.s.judging.Keys, w.taken.Keys, w.stored.Keys, w.denied.Keys, due);
    assert t.taken.Keys == w.taken.Keys + due;
    assert t.s.judging.Keys == w.s.judging.Keys + due;
    assert t.s.pending.Keys == w.s.pending.Keys - due;
  }

  lemma SealOwned(w: World, due: set<TraceID>, aged: nat)
    requires Owned(w) && due <= w.s.pending.Keys
    ensures Owned(AfterSeal(w, due, aged))
  {
    hide Spread, OfTrace;
    var t := AfterSeal(w, due, aged);
    assert OwnedPending(w.s.pending - due);
    forall id | id in t.taken
      ensures t.taken[id] != [] && OfTrace(t.taken[id], id)
    {
      assert id in due ==> t.taken[id] == w.s.pending[id].spans;
    }
    forall id | id in t.s.judging
      ensures OfTrace(t.s.judging[id], id)
    {
      NothingIsOfTrace(id);
    }
  }

  lemma NothingIsOfTrace(id: TraceID)
    ensures OfTrace([], id)
  {
  }

  lemma SealAccounts(cfg: Config, w: World, due: set<TraceID>, aged: nat)
    requires Accounted(cfg, w) && due <= w.s.pending.Keys
    ensures Accounted(cfg, AfterSeal(w, due, aged))
  {
    hide Content, InFlight, Owned, Apart, Spread;
    SealMoves(w, due, aged);
    SealApart(w, due, aged);
    SealOwned(w, due, aged);
    var sealed := Spread(PendingSpans(Only(w.s.pending, due)));
    var t := AfterSeal(w, due, aged);
    MoveBetween(Content(t.s), sealed, InFlight(w),
                multiset(w.written) + multiset(w.lost) + multiset(w.dropped) + multiset(w.discarded));
  }

  /** Moving a bag from one place to another changes no total. */
  lemma MoveBetween(a: multiset<Span>, x: multiset<Span>, b: multiset<Span>, rest: multiset<Span>)
    ensures (a + x) + b + rest == a + (b + x) + rest
  {
  }

  // ----------------------------------------------------------------- decide

  /** A write takes the spans out of flight exactly if it succeeds. */
  lemma WriteMoves(w: World, id: TraceID, ok: bool)
    requires Apart(w) && id in w.taken
    ensures InFlight(w) == InFlight(AfterWrite(w, id, ok)) + if ok then multiset(w.taken[id]) else multiset{}
  {
    hide Spread, Joined;
    var t := AfterWrite(w, id, ok);
    var spans, late := w.taken[id], multiset(Joined(w.flying)) + multiset(Joined(w.refused));
    SpreadRemove(w.taken, id);
    if ok {
      OneOfThree(Spread(t.taken), Spread(w.denied), late, multiset(spans));
    } else {
      SpreadPut(w.denied, id, spans);
      assert w.denied - {id} == w.denied;
      OneOfThree(Spread(t.taken), Spread(w.denied), late, multiset(spans));
    }
  }

  lemma OwnedPut(m: map<TraceID, seq<Span>>, id: TraceID, spans: seq<Span>)
    requires OwnedMap(m) && OfTrace(spans, id)
    ensures OwnedMap(m[id := spans])
  {
    hide OfTrace;
  }

  lemma OwnedLess(m: map<TraceID, seq<Span>>, id: TraceID)
    requires OwnedMap(m)
    ensures OwnedMap(m - {id})
  {
    hide OfTrace;
  }

  lemma WriteApart(w: World, id: TraceID, ok: bool)
    requires Apart(w) && id in w.taken
    ensures Apart(AfterWrite(w, id, ok))
  {
    hide Stages;
    var t := AfterWrite(w, id, ok);
    StagesMove(w.s.pending.Keys, w.s.judging.Keys, w.taken.Keys, w.stored.Keys, w.denied.Keys, {id});
    assert t.taken.Keys == w.taken.Keys - {id};
    assert t.stored.Keys == if ok then w.stored.Keys + {id} else w.stored.Keys;
    assert t.denied.Keys == if ok then w.denied.Keys else w.denied.Keys + {id};
  }

  lemma WriteOwned(w: World, id: TraceID, ok: bool)
    requires Owned(w) && id in w.taken
    ensures Owned(AfterWrite(w, id, ok))
  {
    assert OfTrace(w.taken[id], id);
    hide OwnedMap, OwnedPending, OfTrace;
    OwnedLess(w.taken, id);
    OwnedPut(w.stored, id, w.taken[id]);
    OwnedPut(w.denied, id, w.taken[id]);
  }

  lemma WriteConserves(w: World, id: TraceID, ok: bool)
    requires Apart(w) && Conserved(w) && id in w.taken
    ensures Conserved(AfterWrite(w, id, ok))
  {
    hide Content, InFlight, Apart;
    var t := AfterWrite(w, id, ok);
    WriteMoves(w, id, ok);
    var x := if ok then multiset(w.taken[id]) else multiset{};
    assert multiset(t.written) == multiset(w.written) + x;
    MoveOut(Content(w.s), InFlight(t), x, multiset(w.written), multiset(w.lost) + multiset(w.dropped) + multiset(w.discarded));
  }

  lemma WriteAccounts(cfg: Config, w: World, id: TraceID, ok: bool)
    requires Accounted(cfg, w) && id in w.taken
    ensures Accounted(cfg, AfterWrite(w, id, ok))
  {
    hide Content, Apart, Owned, Conserved;
    WriteApart(w, id, ok);
    WriteOwned(w, id, ok);
    WriteConserves(w, id, ok);
  }

  lemma MoveOut(a: multiset<Span>, f: multiset<Span>, x: multiset<Span>, written: multiset<Span>, rest: multiset<Span>)
    ensures a + (f + x) + written + rest == a + f + (written + x) + rest
  {
  }

  /** Settling takes the spans in hand out of flight unless they were written, and
      the spans that waited to the late queue or out. */
  lemma SettleMoves(cfg: Config, w: World, id: TraceID, keep: bool)
    requires Apart(w) && CanSettle(w, id, keep)
    ensures var t := AfterSettle(cfg, w, id, keep);
            && Content(w.s) == Content(t.s) + (if keep then multiset{} else multiset(Waiting(w.s, id)))
            && InFlight(w) == InFlight(t) + (if id in w.stored then multiset{} else multiset(InHand(w, id)))
  {
    SettleContent(cfg, w, id, keep);
    SettleInFlight(cfg, w, id, keep);
  }

  lemma SettleContent(cfg: Config, w: World, id: TraceID, keep: bool)
    requires Apart(w) && CanSettle(w, id, keep)
    ensures var t := AfterSettle(cfg, w, id, keep);
            Content(w.s) == Content(t.s) + (if keep then multiset{} else multiset(Waiting(w.s, id)))
  {
    hide Spread, Trimmed, Noted;
    var t := AfterSettle(cfg, w, id, keep);
    var waiting := Waiting(w.s, id);
    SpreadRemove(w.s.judging, id);
    SpreadAppend(w.s.late, id, waiting);
    OneOfThree(Spread(PendingSpans(w.s.pending)), Spread(t.s.judging), Spread(w.s.late), multiset(waiting));
  }

  lemma SettleInFlight(cfg: Config, w: World, id: TraceID, keep: bool)
    requires Apart(w) && CanSettle(w, id, keep)
    ensures InFlight(w) == InFlight(AfterSettle(cfg, w, id, keep))
                           + (if id in w.stored then multiset{} else multiset(InHand(w, id)))
  {
    hide Spread, Joined, Judged;
    var t := AfterSettle(cfg, w, id, keep);
    var late := multiset(Joined(w.flying)) + multiset(Joined(w.refused));
    OneOfThree(Spread(t.taken), Spread(t.denied), late, multiset(InHand(w, id)));
    if id in w.taken {
      SpreadRemove(w.taken, id);
      assert w.denied - {id} == w.denied;
    } else if id in w.denied {
      SpreadRemove(w.denied, id);
      assert w.taken - {id} == w.taken;
    } else {
      assert w.taken - {id} == w.taken && w.denied - {id} == w.denied;
    }
  }

  lemma SettleApart(cfg: Config, w: World, id: TraceID, keep: bool)
    requires Apart(w)
    ensures Apart(AfterSettle(cfg, w, id, keep))
  {
    hide Trimmed, Noted, InHand, Waiting, Stages;
    var t := AfterSettle(cfg, w, id, keep);
    StagesMove(w.s.pending.Keys, w.s.judging.Keys, w.taken.Keys, w.stored.Keys, w.denied.Keys, {id});
    assert t.s.judging.Keys == w.s.judging.Keys - {id};
    assert t.taken.Keys == w.taken.Keys - {id};
    assert t.stored.Keys == w.stored.Keys - {id} && t.denied.Keys == w.denied.Keys - {id};
  }

  lemma SettleOwned(cfg: Config, w: World, id: TraceID, keep: bool)
    requires Owned(w)
    ensures Owned(AfterSettle(cfg, w, id, keep))
  {
    hide Trimmed, Noted, InHand, Waiting, OwnedMap, OwnedPending;
    OwnedLess(w.s.judging, id);
    OwnedLess(w.taken, id);
    OwnedLess(w.stored, id);
    OwnedLess(w.denied, id);
  }

  /** What leaves the buffer and the judge's hands ends up in the accounts. */
  lemma SettleAdds(c: multiset<Span>, x: multiset<Span>, f: multiset<Span>, y: multiset<Span>, written: multiset<Span>,
                   lost: multiset<Span>, dropped: multiset<Span>, discarded: multiset<Span>)
    ensures var total := (c + x) + (f + y) + written + lost + dropped + discarded;
            && total == c + f + written + lost + (dropped + y) + (discarded + x)
            && (x == multiset{} ==> total == c + f + written + (lost + y) + dropped + discarded)
  {
  }

  lemma SettleConserves(cfg: Config, w: World, id: TraceID, keep: bool)
    requires Apart(w) && Conserved(w) && CanSettle(w, id, keep)
    ensures Conserved(AfterSettle(cfg, w, id, keep))
  {
    hide Content, InFlight, Judged, Waiting, InHand;
    var t := AfterSettle(cfg, w, id, keep);
    SettleMoves(cfg, w, id, keep);
    var waiting := if keep then multiset{} else multiset(Waiting(w.s, id));
    var spans := if id in w.stored then multiset{} else multiset(InHand(w, id));
    SettleAdds(Content(t.s), waiting, InFlight(t), spans,
               multiset(w.written), multiset(w.lost), multiset(w.dropped), multiset(w.discarded));
    assert multiset(w.lost) + multiset{} == multiset(w.lost);
  }

  lemma SettleCounts(cfg: Config, w: World, id: TraceID, keep: bool)
    requires Apart(w) && Counted(cfg, w) && CanSettle(w, id, keep)
    ensures Counted(cfg, AfterSettle(cfg, w, id, keep))
  {
    hide Content, InFlight, Apart, Trimmed, Noted, InHand;
    SettleMoves(cfg, w, id, keep);
    var t := AfterSettle(cfg, w, id, keep);
    var waiting := Waiting(w.s, id);
    assert |multiset(waiting)| == |waiting|;
    assert |Content(t.s) + multiset(waiting)| == |Content(t.s)| + |waiting|;
  }

  lemma SettleAccounts(cfg: Config, w: World, id: TraceID, keep: bool)
    requires Accounted(cfg, w) && CanSettle(w, id, keep)
    ensures Accounted(cfg, AfterSettle(cfg, w, id, keep))
  {
    hide Apart, Owned, Conserved, Counted, AfterSettle, CanSettle;
    SettleApart(cfg, w, id, keep);
    SettleOwned(cfg, w, id, keep);
    SettleConserves(cfg, w, id, keep);
    SettleCounts(cfg, w, id, keep);
  }

  // ------------------------------------------------------------ late batches

  lemma {:induction false} JoinedConcat(a: seq<seq<Span>>, b: seq<seq<Span>>)
    ensures Joined(a + b) == Joined(a) + Joined(b)
    decreases |b|
  {
    if b == [] {
      assert a + b == a;
    } else {
      var front, x := b[..|b| - 1], b[|b| - 1];
      JoinedConcat(a, front);
      assert (a + b)[..|a + b| - 1] == a + front;
      assert Joined(b) == Joined(front) + x && Joined(a + b) == Joined(a + front) + x;
      hide Joined;
    }
  }

  lemma JoinedOne(x: seq<Span>)
    ensures Joined([x]) == x
  {
    assert [x][..0] == [];
  }

  lemma BagOut(x: seq<Span>, b: seq<Span>, y: seq<Span>)
    ensures multiset(x + b + y) == multiset(x + y) + multiset(b)
  {
  }

  lemma JoinedWithout(batches: seq<seq<Span>>, i: nat)
    requires i < |batches|
    ensures multiset(Joined(batches)) == multiset(Joined(batches[..i] + batches[i + 1..])) + multiset(batches[i])
  {
    hide Joined;
    var front, x, back := batches[..i], batches[i], batches[i + 1..];
    assert batches == front + [x] + back;
    JoinedConcat(front + [x], back);
    JoinedConcat(front, [x]);
    JoinedConcat(front, back);
    JoinedOne(x);
    BagOut(Joined(front), x, Joined(back));
  }

  /** Late batches leave the buffer and are in flight. */
  lemma TakeLateMoves(w: World, batches: seq<seq<Span>>)
    requires multiset(Joined(batches)) == Spread(w.s.late)
    ensures var t := AfterTakeLate(w, batches);
            var taken := Spread(w.s.late);
            Content(w.s) == Content(t.s) + taken && InFlight(t) == InFlight(w) + taken && |Joined(batches)| == |taken|
  {
    hide Spread, Joined;
    JoinedConcat(w.flying, batches);
    SpreadOfNothing();
    var pending, judging, none: multiset<Span> := Spread(PendingSpans(w.s.pending)), Spread(w.s.judging), multiset{};
    assert pending + judging + none == pending + judging;
    assert |multiset(Joined(batches))| == |Joined(batches)|;
    assert multiset(Joined(w.flying) + Joined(batches)) == multiset(Joined(w.flying)) + multiset(Joined(batches));
    LateGrows(Spread(w.taken) + Spread(w.denied), multiset(Joined(w.flying)), multiset(Joined(w.refused)), Spread(w.s.late));
  }

  lemma LateGrows(a: multiset<Span>, f: multiset<Span>, r: multiset<Span>, x: multiset<Span>)
    ensures a + ((f + x) + r) == a + (f + r) + x
    ensures a + (f + (r + x)) == a + (f + r) + x
  {
  }

  lemma TakeLateAccounts(cfg: Config, w: World, batches: seq<seq<Span>>)
    requires Accounted(cfg, w) && multiset(Joined(batches)) == Spread(w.s.late)
    ensures Accounted(cfg, AfterTakeLate(w, batches))
  {
    hide Content, InFlight, Spread, OwnedMap, OwnedPending, Joined;
    TakeLateMoves(w, batches);
    var t := AfterTakeLate(w, batches);
    MoveBetween(Content(t.s), Spread(w.s.late), InFlight(w),
                multiset(w.written) + multiset(w.lost) + multiset(w.dropped) + multiset(w.discarded));
  }

  /** A late write takes its batch out of flight exactly if it succeeds. */
  lemma WriteLateMoves(w: World, i: nat, ok: bool)
    requires i < |w.flying|
    ensures InFlight(w) == InFlight(AfterWriteLate(w, i, ok)) + if ok then multiset(w.flying[i]) else multiset{}
  {
    hide Spread, Joined;
    var t := AfterWriteLate(w, i, ok);
    var batch := w.flying[i];
    JoinedWithout(w.flying, i);
    JoinedConcat(w.refused, [batch]);
    JoinedOne(batch);
    assert multiset(Joined(w.refused) + batch) == multiset(Joined(w.refused)) + multiset(batch);
    LateGrows(Spread(w.taken) + Spread(w.denied), multiset(Joined(t.flying)), multiset(Joined(w.refused)), multiset(batch));
  }

  lemma WriteLateAccounts(cfg: Config, w: World, i: nat, ok: bool)
    requires Accounted(cfg, w) && i < |w.flying|
    ensures Accounted(cfg, AfterWriteLate(w, i, ok))
  {
    hide Content, InFlight, OwnedMap, OwnedPending;
    var t := AfterWriteLate(w, i, ok);
    WriteLateMoves(w, i, ok);
    var x := if ok then multiset(w.flying[i]) else multiset{};
    MoveOut(Content(w.s), InFlight(t), x, multiset(w.written), multiset(w.lost) + multiset(w.dropped) + multiset(w.discarded));
    assert multiset(t.written) == multiset(w.written) + x;
  }

  lemma CountLostMoves(w: World, i: nat)
    requires i < |w.refused|
    ensures InFlight(w) == InFlight(AfterCountLost(w, i)) + multiset(w.refused[i])
  {
    hide Spread, Joined;
    JoinedWithout(w.refused, i);
    LateGrows(Spread(w.taken) + Spread(w.denied), multiset(Joined(w.flying)),
              multiset(Joined(w.refused[..i] + w.refused[i + 1..])), multiset(w.refused[i]));
  }

  lemma CountLostConserves(w: World, i: nat)
    requires Conserved(w) && i < |w.refused|
    ensures Conserved(AfterCountLost(w, i))
  {
    var t := AfterCountLost(w, i);
    CountLostMoves(w, i);
    SameContent(w.s, t.s);
    hide Content, InFlight;
    LostAdds(Content(w.s), InFlight(t), multiset(w.refused[i]), multiset(w.written), multiset(w.lost),
             multiset(w.dropped) + multiset(w.discarded));
  }

  lemma LostAdds(a: multiset<Span>, f: multiset<Span>, x: multiset<Span>, written: multiset<Span>, lost: multiset<Span>,
                 rest: multiset<Span>)
    ensures a + (f + x) + written + lost + rest == a + f + written + (lost + x) + rest
  {
  }

  lemma CountLostAccounts(cfg: Config, w: World, i: nat)
    requires Accounted(cfg, w) && i < |w.refused|
    ensures Accounted(cfg, AfterCountLost(w, i))
  {
    CountLostConserves(w, i);
    SameContent(w.s, AfterCountLost(w, i).s);
    hide Content, Conserved, OwnedMap, OwnedPending;
  }

  // ------------------------------------------------------------- every step

  /** Every step of every caller keeps the account straight. */
  lemma StepAccounts(cfg: Config, w: World, step: Step)
    requires Accounted(cfg, w) && Enabled(w, step)
    ensures Accounted(cfg, After(cfg, w, step))
  {
    hide Content, InFlight, OwnedMap, OwnedPending;
    hide AfterAccept, AfterSeal, AfterWrite, AfterSettle, AfterTakeLate, AfterWriteLate, AfterCountLost, CanSettle;
    match step
    case Tick(_) => SameInFlight(w, After(cfg, w, step));
    case Accept(spans, now) => AcceptAccounts(cfg, w, spans, now);
    case Seal(due, aged) => SealAccounts(cfg, w, due, aged);
    case Allow(_, _) =>
      SameContent(w.s, After(cfg, w, step).s);
      SameInFlight(w, After(cfg, w, step));
    case Write(id, ok) => WriteAccounts(cfg, w, id, ok);
    case Settle(id, keep) => SettleAccounts(cfg, w, id, keep);
    case Forget(_) =>
      SameContent(w.s, After(cfg, w, step).s);
      SameInFlight(w, After(cfg, w, step));
    case TakeLate(batches) => TakeLateAccounts(cfg, w, batches);
    case WriteLate(i, ok) => WriteLateAccounts(cfg, w, i, ok);
    case CountLost(i) => CountLostAccounts(cfg, w, i);
  }
}
