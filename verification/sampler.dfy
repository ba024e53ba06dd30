/** The sampler as it runs: maps, a queue and counters updated under a lock. Each
    locked section is a method tied to one step of the state machine in module
    Sampling; Sweep and Flush are those sections in sequence. */
module Sampler {
  import opened Trace
  import opened Verdicts
  import opened Sampling
  import opened Conservation
  import opened Runs
  import B = Buckets
  import V = Verdicts
  import Sorting

  class Sampler {
    const cfg: Config

    /** The policy chain's verdict on the spans of a trace, and the service it is
        charged to. */
    const judge: seq<Span> -> bool
    const chargedTo: seq<Span> -> Text

    var pending: map<TraceID, Pending>
    var judging: map<TraceID, seq<Span>>
    var late: map<TraceID, seq<Span>>
    var decided: map<TraceID, Decision>
    var order: seq<Remembered>
    var buckets: B.Buckets
    var stats: Stats

    /** The time it is. */
    var clock: int

    /** What the state machine has come to. */
    ghost var world: World

    ghost function View(): State
      reads this
    {
      State(pending, judging, late, Verdicts(decided, order), buckets, stats)
    }

    ghost predicate Valid()
      reads this
    {
      Good(cfg, world) && world.s == View() && world.clock == clock
    }

    constructor (cfg: Config, judge: seq<Span> -> bool, chargedTo: seq<Span> -> Text, clock: int)
      requires cfg.Valid()
      ensures Valid() && world == Start(clock) && this.cfg == cfg && this.judge == judge && this.chargedTo == chargedTo
    {
      this.cfg, this.judge, this.chargedTo, this.clock := cfg, judge, chargedTo, clock;
      pending, judging, late, decided, order, buckets := map[], map[], map[], map[], [], map[];
      stats := START_STATS;
      world := Start(clock);
      new;
      StartIsGood(cfg, clock);
    }

    /** New: a sampler, unless there is no writer or the configuration makes no
        sense. */
    static method New(writer: bool, cfg: Config, judge: seq<Span> -> bool, chargedTo: seq<Span> -> Text, clock: int)
      returns (r: Option<Sampler>)
      ensures r.Some? <==> writer && cfg.Valid()
      ensures r.Some? ==> fresh(r.value) && r.value.Valid() && r.value.cfg == cfg && r.value.world == Start(clock)
    {
      if !writer { return None; }
      if cfg.quiet <= 0 { return None; }
      if cfg.maxAge < cfg.quiet { return None; }
      if cfg.maxSpans <= 0 { return None; }
      if cfg.remember < 0 { return None; }
      if cfg.remember > 0 && cfg.maxDecisions <= 0 { return None; }
      if !(cfg.limits.rate >= 0.0) { return None; }
      if cfg.limits.rate > 0.0 && cfg.limits.burst < 1 { return None; }
      var s := new Sampler(cfg, judge, chargedTo, clock);
      r := Some(s);
    }

    /** Time passes, any amount of it. */
    method Elapse()
      requires Valid()
      modifies `clock, `world
      ensures Valid() && clock >= old(clock) && world == old(world).(clock := clock)
    {
      hide Good;
      var later: int := *;
      if later < clock {
        later := clock;
      }
      StepIsGood(cfg, world, Tick(later));
      clock := later;
      world := After(cfg, world, Tick(later));
    }

    /** Reads the clock. */
    method Now() returns (now: int)
      requires Valid()
      modifies `clock, `world
      ensures Valid() && now == clock >= old(clock) && world == old(world).(clock := clock)
    {
      Elapse();
      now := clock;
    }

    method VerdictOn(id: TraceID, now: int) returns (v: Option<bool>)
      ensures v == Verdict(cfg, View(), id, now)
    {
      if id in judging { return None; }
      if id !in decided || now - decided[id].at >= cfg.remember { return None; }
      v := Some(decided[id].keep);
    }

    /** Accept buffers a batch, or refuses it whole. now was read before the lock
        was taken, so it may be behind the clock. */
    method Accept(spans: seq<Span>, now: int) returns (r: AcceptResult)
      requires Valid() && now <= clock
      modifies this
      ensures Valid()
      ensures r == AcceptOutcome(cfg, old(View()), spans, now)
      ensures world == AfterAccept(cfg, old(world), spans, now)
    {
      hide Good, PlacedAll, Held, Following;
      ghost var before, start := world, View();
      StepIsGood(cfg, before, Step.Accept(spans, now));
      if |spans| > cfg.maxSpans { return BatchTooLarge; }
      var held := CountHeld(spans, now);
      if stats.buffered + held > cfg.maxSpans {
        stats := stats.(refused := stats.refused + |spans|);
        world := AfterAccept(cfg, before, spans, now);
        return SinkFull;
      }
      PlaceAll(spans, now);
      PlacedAllStats(cfg, start, spans, now);
      stats := stats.(accepted := stats.accepted + |spans|, buffered := stats.buffered + held);
      world := AfterAccept(cfg, before, spans, now);
      r := AcceptResult.Taken;
    }

    /** How many spans of a batch will take room. */
    method CountHeld(spans: seq<Span>, now: int) returns (held: nat)
      ensures held == Held(cfg, View(), spans, now)
    {
      hide Verdict;
      held := 0;
      for i := 0 to |spans|
        invariant held == Held(cfg, View(), spans[..i], now)
      {
        var v := VerdictOn(spans[i].traceID, now);
        if v != Some(false) {
          held := held + 1;
        }
        assert spans[..i + 1][..i] == spans[..i];
      }
      assert spans[..|spans|] == spans;
    }

    method PlaceAll(spans: seq<Span>, now: int)
      modifies this
      ensures View() == PlacedAll(cfg, old(View()), spans, now)
      ensures world == old(world) && clock == old(clock)
    {
      hide Placed;
      for i := 0 to |spans|
        invariant View() == PlacedAll(cfg, old(View()), spans[..i], now)
        invariant world == old(world) && clock == old(clock)
      {
        Place(spans[i], now);
        assert spans[..i + 1][..i] == spans[..i];
      }
      assert spans[..|spans|] == spans;
    }

    /** One span: to the trace being judged, after the verdict, or to the buffer. */
    method Place(sp: Span, now: int)
      modifies this
      ensures View() == Placed(cfg, old(View()), sp, now)
      ensures world == old(world) && clock == old(clock)
    {
      var id := sp.traceID;
      if id in judging {
        judging := judging[id := judging[id] + [sp]];
        return;
      }
      var v := VerdictOn(id, now);
      if v.Some? {
        if v.value {
          late := late[id := (if id in late then late[id] else []) + [sp]];
          stats := stats.(lateKept := stats.lateKept + 1);
        } else {
          stats := stats.(lateDropped := stats.lateDropped + 1);
        }
        return;
      }
      var p := if id in pending then pending[id] else Pending([], now, now);
      pending := pending[id := Pending(p.spans + [sp], p.first, now)];
    }

    /** allow, for one service. The reading was taken before the lock. */
    method Allow(service: Text, now: int) returns (ok: bool)
      requires Valid() && world.reading <= now <= clock
      modifies `buckets, `world
      ensures Valid() && ok == B.Allowed(cfg.limits, old(buckets), service, now).1
      ensures world == AfterAllow(cfg, old(world), service, now)
    {
      hide Good;
      StepIsGood(cfg, world, Step.Allow(service, now));
      world := AfterAllow(cfg, world, service, now);
      var b := B.Bucket(cfg.limits.burst as real, now);
      if service in buckets {
        b := buckets[service];
      }
      b := B.Refilled(cfg.limits, b, now);
      if b.tokens < 1.0 {
        buckets := buckets[service := b];
        return false;
      }
      buckets := buckets[service := B.Bucket(b.tokens - 1.0, b.at)];
      ok := true;
    }

    /** The writer is handed a trace, and takes it or refuses it. */
    method Deliver(id: TraceID) returns (ok: bool)
      requires Valid() && id in world.taken
      modifies `world
      ensures Valid() && world == AfterWrite(old(world), id, ok)
    {
      hide Good;
      ok := *;
      StepIsGood(cfg, world, Step.Write(id, ok));
      world := AfterWrite(world, id, ok);
    }

    method ForgetOldest()
      requires order != []
      modifies this`order, this`decided
      ensures Verdicts(decided, order) == V.ForgetOldest(Verdicts(old(decided), old(order)))
    {
      var oldest := order[0];
      order := order[1..];
      if oldest.id in decided && decided[oldest.id].at == oldest.at {
        decided := decided - {oldest.id};
      }
    }

    /** Forgets the oldest verdicts while there are too many. There is always one
        to forget. */
    method Trim(ghost window: seq<Settled>)
      requires Remembers(Verdicts(decided, order), window) && cfg.maxDecisions >= 1
      modifies this`order, this`decided
      ensures Verdicts(decided, order) == Trimmed(Verdicts(old(decided), old(order)), cfg.maxDecisions)
    {
      ghost var w := window;
      while |decided| > cfg.maxDecisions
        invariant Remembers(Verdicts(decided, order), w)
        invariant Trimmed(Verdicts(decided, order), cfg.maxDecisions) ==
                  Trimmed(Verdicts(old(decided), old(order)), cfg.maxDecisions)
        decreases |order|
      {
        LatestIsSmall(w);
        ForgetOldestForgetsOldest(Verdicts(decided, order), w);
        ForgetOldest();
        w := w[1..];
      }
    }

    /** settle: the spans that came while a trace was judged follow its verdict,
        and the verdict is remembered. */
    method Follow(id: TraceID, keep: bool, now: int, ghost window: seq<Settled>)
      requires cfg.remember > 0 ==>
        cfg.maxDecisions >= 1 && Remembers(Noted(Verdicts(decided, order), id, keep, now), window)
      modifies this
      ensures View() == Followed(cfg, old(View()), id, keep, now)
      ensures world == old(world) && clock == old(clock)
    {
      hide Trimmed, Remembers;
      var waiting := if id in judging then judging[id] else [];
      judging := judging - {id};
      if waiting == [] {
      } else if keep {
        late := late[id := (if id in late then late[id] else []) + waiting];
        stats := stats.(lateKept := stats.lateKept + |waiting|);
      } else {
        stats := stats.(buffered := stats.buffered - |waiting|, lateDropped := stats.lateDropped + |waiting|);
      }
      if cfg.remember > 0 {
        decided := decided[id := Decision(keep, now)];
        order := order + [Remembered(id, now)];
        Trim(window);
      }
    }

    /** The locked section at the end of decide: settles the verdict on a trace
        in hand, and counts it. The reading is taken under the lock. */
    method Settle(id: TraceID, keep: bool, ok: bool, n: nat, now: int)
      requires Valid() && CanSettle(world, id, keep) && n == |InHand(world, id)| && now == clock
      requires keep ==> (ok <==> id in world.stored)
      modifies this
      ensures Valid() && clock == old(clock)
      ensures world == AfterSettle(cfg, old(world), id, keep)
    {
      hide Good, Followed, Remembers, CanSettle, InHand;
      StepIsGood(cfg, world, Step.Settle(id, keep));
      ghost var window := NotedWindow(cfg, world, id, keep);
      Follow(id, keep, now, window);
      if !keep {
        stats := stats.(dropped := stats.dropped + 1, droppedSpans := stats.droppedSpans + n);
      } else if !ok {
        stats := stats.(lost := stats.lost + n);
      } else {
        stats := stats.(kept := stats.kept + 1, keptSpans := stats.keptSpans + n);
      }
      world := AfterSettle(cfg, world, id, keep);
    }

    /** forget: drops the verdicts out of date and the buckets that are full. */
    method Forget(now: int)
      requires Valid() && now <= clock
      modifies this
      ensures Valid() && clock == old(clock)
      ensures world == AfterForget(cfg, old(world), now)
      ensures Forgotten(now)
    {
      hide Good, B.Refilled, B.Swept;
      ghost var before, start := world, View();
      StepIsGood(cfg, before, Step.Forget(now));
      while order != [] && now - order[0].at >= cfg.remember
        invariant Expired(Verdicts(decided, order), now, cfg.remember) == Expired(start.verdicts, now, cfg.remember)
        invariant pending == start.pending && judging == start.judging && late == start.late && stats == start.stats
        invariant world == before && buckets == start.buckets && clock == old(clock)
        decreases |order|
      {
        ForgetOldest();
      }
      world := AfterForget(cfg, before, now);
      DropFull(now);
      OutOfDate(cfg, before, now);
      NoneFull(cfg.limits, start.buckets, now);
    }

    /** At a reading of the clock no verdict is out of date and no bucket full. */
    ghost predicate Forgotten(now: int)
      reads `decided, `buckets
    {
      && (forall id :: id in decided ==> now - decided[id].at < cfg.remember)
      && (forall service :: service in buckets ==> buckets[service].tokens < cfg.limits.burst as real)
    }

    method DropFull(now: int)
      modifies this`buckets
      ensures buckets == B.Swept(cfg.limits, old(buckets), now)
    {
      var todo := buckets.Keys;
      ghost var all := buckets;
      while todo != {}
        invariant todo <= all.Keys
        invariant buckets == map service |
          service in all && (service in todo || B.Refilled(cfg.limits, all[service], now).tokens < cfg.limits.burst as real) ::
            if service in todo then all[service] else B.Refilled(cfg.limits, all[service], now)
      {
        var service :| service in todo;
        var b := B.Refilled(cfg.limits, buckets[service], now);
        buckets := if b.tokens >= cfg.limits.burst as real then buckets - {service} else buckets[service := b];
        todo := todo - {service};
      }
    }

    method SealOne(id: TraceID, now: Option<int>) returns (taken: bool)
      requires id in pending
      modifies this
      ensures View() == SealedOne(cfg, old(View()), id, now)
      ensures taken == IsDue(cfg, old(pending)[id], now)
      ensures world == old(world) && clock == old(clock)
    {
      var p := pending[id];
      taken := IsDue(cfg, p, now);
      if IsAged(cfg, p, now) {
        stats := stats.(sealedByAge := stats.sealedByAge + 1);
      }
      if taken {
        pending := pending - {id};
        judging := judging[id := []];
        stats := stats.(buffered := stats.buffered - |p.spans|);
      }
    }

    /** The locked section of judge: takes every trace that is due. With a time,
        those are the traces gone quiet or grown old by then; without one, all. */
    method Seal(now: Option<int>) returns (ready: seq<TraceID>, held: map<TraceID, Pending>)
      requires Valid()
      modifies this
      ensures Valid() && clock == old(clock)
      ensures var due := DueSet(cfg, old(pending), now);
              && world == AfterSeal(old(world), due, |AgedSet(cfg, old(pending), now)|)
              && held == Only(old(pending), due)
              && (forall id :: id in ready <==> id in due)
              && (forall i, j :: 0 <= i < j < |ready| ==> ready[i] != ready[j])
      ensures Takes(cfg, old(View()), View(), held, now)
    {
      hide Good, Sealed, SealedOne, IsDue, IsAged, SealedSoFar, After, AfterSeal, Takes;
      ghost var before, start := world, View();
      ghost var all := DueSet(cfg, pending, now);
      StepIsGood(cfg, before, Step.Seal(all, |AgedSet(cfg, pending, now)|));
      ready := [];
      var was, todo := pending, pending.Keys;
      ghost var due: set<TraceID>, aged: set<TraceID> := {}, {};
      SealedNothing(cfg, start, now);
      while todo != {}
        invariant pending == start.pending - due && todo <= pending.Keys && due !! todo
        invariant SealedSoFar(cfg, start.pending, now, todo, due, aged)
        invariant View() == WithAged(Sealed(start, due), |aged|)
        invariant world == before && clock == old(clock)
        invariant multiset(ready) == multiset(due)
      {
        var id :| id in todo;
        SoFarOneMore(cfg, start.pending, now, todo, due, aged, id);
        SealedOneMore(cfg, start, now, due, aged, id);
        todo := todo - {id};
        var taken := SealOne(id, now);
        if IsAged(cfg, start.pending[id], now) {
          aged := aged + {id};
        }
        if taken {
          ready := ready + [id];
          due := due + {id};
        }
        SealedPending(start, due);
      }
      SealedAll(cfg, start.pending, now, due, aged);
      world := AfterSeal(before, all, |aged|);
      SealedWorld(cfg, before, all, |aged|);
      Sorting.ListsASet(ready, due);
      held := Only(was, set id | id in ready);
      assert (set id | id in ready) == due;
      SealingTakes(cfg, start, now);
    }

    /** decide: judges a sealed trace, charges it to its service, writes it if it
        is kept, and settles. The writer may refuse it. Time passes all along:
        the allowance goes by one reading of the clock and the verdict by a later
        one. */
    method Decide(id: TraceID, spans: seq<Span>) returns (keep: bool, ok: bool, charged: int, settled: int)
      requires Valid() && id in world.taken && spans == world.taken[id]
      modifies this
      ensures Valid() && old(clock) <= charged <= settled == clock
      ensures keep <==> judge(spans) && (Capped() ==> B.HasToken(cfg.limits, old(buckets), chargedTo(spans), charged))
      ensures world == Decided(cfg, old(world), id, if judge(spans) && Capped() then Some(chargedTo(spans)) else None,
                               keep, ok, charged, settled)
    {
      hide Good, B.Allowed, B.HasToken, AfterAllow, AfterWrite, AfterSettle, CanSettle, InHand;
      TakenIsApart(cfg, world, id);
      keep, ok := judge(spans), true;
      charged := Now();
      if keep && cfg.limits.rate > 0.0 {
        GoodReading(cfg, world);
        AllowKeepsHands(cfg, world, chargedTo(spans), charged);
        B.AllowedHasToken(cfg.limits, buckets, chargedTo(spans), charged);
        keep := Allow(chargedTo(spans), charged);
      }
      ghost var before := world;
      if keep {
        ok := Deliver(id);
      }
      settled := Now();
      DeliveredSettles(before, id, keep, ok, settled);
      Settle(id, keep, ok, |spans|, settled);
    }

    predicate Capped() {
      cfg.limits.rate > 0.0
    }

    /** judge, with no other caller in between: every trace due is decided. */
    method Judge(due: Option<int>)
      requires Valid()
      modifies this
      ensures Valid() && clock >= old(clock)
      ensures pending == old(pending) - DueSet(cfg, old(pending), due)
      ensures Left(cfg, old(pending), pending, due)
      ensures SameHands(old(world), world) && judging.Keys == old(judging).Keys
    {
      hide Good, DueSet, AgedSet, AfterSeal, Only, InHands, Decided, Left;
      WhatIsLeft(cfg, pending, due);
      var ready, held := Seal(due);
      DueIsPending(cfg, old(pending), due);
      SealFacts(cfg, old(world), DueSet(cfg, old(pending), due), |AgedSet(cfg, old(pending), due)|, ready, held);
      for i := 0 to |ready|
        invariant Valid() && clock >= old(clock)
        invariant pending == old(pending) - DueSet(cfg, old(pending), due)
        invariant SameHands(old(world), world.(taken := old(world.taken)))
        invariant world.taken == InHands(old(world.taken), ready[i..], held)
      {
        var id := ready[i];
        InHandsNext(old(world.taken), ready, i, held);
        ghost var before, service := world, if judge(held[id].spans) && Capped() then Some(chargedTo(held[id].spans)) else None;
        var keep, ok, charged, settled := Decide(id, held[id].spans);
        DecideKeeps(cfg, before, id, service, keep, ok, charged, settled);
      }
      assert ready[|ready|..] == [];
      InHandsNothing(old(world.taken), held);
      JudgingIsInHand(cfg, old(world));
      JudgingIsInHand(cfg, world);
    }

    /** The locked section of writeLate: takes the late spans of kept traces, a
        batch a trace. */
    method TakeLate() returns (batches: seq<seq<Span>>)
      requires Valid()
      modifies `late, `stats, `world
      ensures Valid() && late == map[]
      ensures multiset(Joined(batches)) == Spread(old(late))
      ensures world == AfterTakeLate(old(world), batches)
    {
      hide Good, Spread, Joined;
      batches := [];
      var todo, room := late.Keys, 0;
      NoBatches(late);
      while todo != {}
        invariant todo <= late.Keys && View() == old(View()) && world == old(world)
        invariant multiset(Joined(batches)) == Spread(Only(late, late.Keys - todo))
        invariant room == |Joined(batches)|
      {
        var id :| id in todo;
        OneMoreBatch(late, todo, batches, id);
        batches := batches + [late[id]];
        room := room + |late[id]|;
        todo := todo - {id};
      }
      assert Only(late, late.Keys - todo) == late;
      StepIsGood(cfg, world, Step.TakeLate(batches));
      late := map[];
      stats := stats.(buffered := stats.buffered - room);
      world := AfterTakeLate(world, batches);
    }

    /** The writer is handed a late batch, and takes it or refuses it. */
    method DeliverLate(ghost i: nat) returns (ok: bool)
      requires Valid() && i < |world.flying|
      modifies `world
      ensures Valid() && world == AfterWriteLate(old(world), i, ok)
    {
      hide Good;
      ok := *;
      StepIsGood(cfg, world, Step.WriteLate(i, ok));
      world := AfterWriteLate(world, i, ok);
    }

    /** The locked section after a refused late write. */
    method CountLost(ghost i: nat, batch: seq<Span>)
      requires Valid() && i < |world.refused| && world.refused[i] == batch
      modifies `stats, `world
      ensures Valid() && world == AfterCountLost(old(world), i)
    {
      hide Good;
      StepIsGood(cfg, world, Step.CountLost(i));
      stats := stats.(lost := stats.lost + |batch|);
      world := AfterCountLost(world, i);
    }

    /** writeLate, with no other caller in between: the queue is empty, and every
        batch was written or counted as lost. */
    method WriteLate()
      requires Valid()
      modifies `late, `stats, `clock, `world
      ensures Valid() && late == map[] && clock >= old(clock)
      ensures SameHands(old(world), world)
    {
      hide Good, Spread, Joined;
      var batches := TakeLate();
      ghost var n, lost := |old(world.flying)|, |old(world.refused)|;
      for i := 0 to |batches|
        invariant Valid() && late == map[] && clock >= old(clock)
        invariant world.flying == old(world.flying) + batches[i..] && world.refused == old(world.refused)
        invariant world.taken == old(world.taken) && world.stored == old(world.stored) && world.denied == old(world.denied)
      {
        Elapse();
        var ok := DeliverLate(n);
        if !ok {
          Elapse();
          CountLost(lost, batches[i]);
        }
        assert world.flying == old(world.flying) + batches[i + 1..];
        assert world.refused == old(world.refused);
      }
      assert batches[|batches|..] == [];
    }

    /** Sweep, with no other caller in between. The time it goes by is the one it
        read when it began, however late it is by the time it forgets: what was
        out of date then is forgotten, and nothing else need be. */
    method Sweep() returns (now: int)
      requires Valid()
      modifies this
      ensures Valid() && late == map[] && old(clock) <= now <= clock
      ensures forall id :: id in old(pending) ==> (id !in pending <==>
                now - old(pending)[id].last >= cfg.quiet || now - old(pending)[id].first >= cfg.maxAge)
      ensures forall id :: id in pending ==> id in old(pending) && pending[id] == old(pending)[id]
      ensures SameHands(old(world), world) && Forgotten(now)
    {
      hide Good, DueSet, Expired, B.Swept, Forgotten;
      now := Now();
      Judge(Some(now));
      Forget(now);
      WriteLate();
    }

    /** Flush with nobody else at work: every buffered span is judged and written,
        dropped or counted as lost. Nothing is left buffered or in flight. */
    method Flush()
      requires Valid() && EmptyHands(world)
      modifies this
      ensures Valid() && pending == map[] && judging == map[] && late == map[] && EmptyHands(world)
      ensures stats.buffered == 0 && InFlight(world) == multiset{}
      ensures stats.accepted == |world.written| + stats.lost + stats.droppedSpans + stats.lateDropped
    {
      hide Good, DueSet;
      DueIsPending(cfg, pending, None);
      Judge(None);
      assert pending == map[];
      JudgingIsInHand(cfg, world);
      WriteLate();
      EverythingIsOut(cfg, world);
    }
  }

  /** Callers hold outside the lock what they held before. */
  ghost predicate SameHands(w: World, t: World) {
    && t.taken == w.taken && t.stored == w.stored && t.denied == w.denied
    && t.flying == w.flying && t.refused == w.refused
  }

  ghost predicate EmptyHands(w: World) {
    && w.taken == map[] && w.stored == map[] && w.denied == map[]
    && w.flying == [] && w.refused == []
  }

  /** The steps of one decision: the allowance if it is capped, the write if it is
      kept, and the settling, each at its time. */
  ghost function Decided(cfg: Config, w: World, id: TraceID, service: Option<Text>, keep: bool, ok: bool,
                         charged: int, settled: int): World
    requires id in w.taken
  {
    var at := w.(clock := charged);
    var paid := if service.Some? then AfterAllow(cfg, at, service.value, charged) else at;
    var sent := if keep then AfterWrite(paid, id, ok) else paid;
    AfterSettle(cfg, sent.(clock := settled), id, keep)
  }

  lemma OutOfDate(cfg: Config, w: World, now: int)
    requires Good(cfg, w)
    ensures var v := Expired(w.s.verdicts, now, cfg.remember);
            forall id :: id in v.decided ==> now - v.decided[id].at < cfg.remember
  {
    hide Accounted, Remembers, Expired;
    var k :| 0 <= k <= |w.log| && Remembers(w.s.verdicts, w.log[k..]);
    var window := w.log[k..];
    var j := ExpiredIsRemembered(w.s.verdicts, window, now, cfg.remember);
    var v := Expired(w.s.verdicts, now, cfg.remember);
    DecidedIs(v, window[j..]);
    forall id | id in v.decided
      ensures now - v.decided[id].at < cfg.remember
    {
      var i := LatestIsOneOf(window[j..], id);
      assert window[j..][i] == window[j + i];
    }
  }

  lemma NoneFull(lim: B.Limits, bs: B.Buckets, now: int)
    ensures var after := B.Swept(lim, bs, now);
            forall service :: service in after ==> after[service].tokens < lim.burst as real
  {
  }

  lemma GoodReading(cfg: Config, w: World)
    requires Good(cfg, w)
    ensures w.reading <= w.clock
  {
  }

  lemma TakenIsApart(cfg: Config, w: World, id: TraceID)
    requires Good(cfg, w) && id in w.taken
    ensures id !in w.stored && id !in w.denied
  {
  }

  lemma AllowKeepsHands(cfg: Config, w: World, service: Text, now: int)
    ensures var t := AfterAllow(cfg, w, service, now);
            t.taken == w.taken && SameHands(w, t) && t.clock == w.clock && t.s.pending == w.s.pending
  {
    hide B.Allowed;
  }

  lemma DeliveredSettles(w: World, id: TraceID, keep: bool, ok: bool, settled: int)
    requires id in w.taken && id !in w.stored && id !in w.denied
    ensures var t := (if keep then AfterWrite(w, id, ok) else w).(clock := settled);
            CanSettle(t, id, keep) && InHand(t, id) == w.taken[id] && (keep ==> (ok <==> id in t.stored))
  {
  }

  ghost function SealedOne(cfg: Config, s: State, id: TraceID, now: Option<int>): State
    requires id in s.pending
  {
    var p := s.pending[id];
    var t := if IsAged(cfg, p, now) then WithAged(s, 1) else s;
    if IsDue(cfg, p, now) then
      t.(pending := t.pending - {id},
         judging := t.judging[id := []],
         stats := t.stats.(buffered := t.stats.buffered - |p.spans|))
    else t
  }

  /** Whether a buffered trace is judged at a time, or at all events. */
  predicate IsDue(cfg: Config, p: Pending, now: Option<int>) {
    now.Some? ==> now.value - p.last >= cfg.quiet || now.value - p.first >= cfg.maxAge
  }

  /** Whether it is only its age that makes it due. */
  predicate IsAged(cfg: Config, p: Pending, now: Option<int>) {
    now.Some? && now.value - p.last < cfg.quiet && now.value - p.first >= cfg.maxAge
  }

  function DueSet(cfg: Config, pending: map<TraceID, Pending>, now: Option<int>): set<TraceID> {
    set id | id in pending && IsDue(cfg, pending[id], now)
  }

  function AgedSet(cfg: Config, pending: map<TraceID, Pending>, now: Option<int>): set<TraceID> {
    set id | id in pending && IsAged(cfg, pending[id], now)
  }

  /** A trace is due once no span has come for Quiet, or MaxAge after its first;
      and sealed by age if only the latter. */
  lemma DueInNumbers(cfg: Config, pending: map<TraceID, Pending>, now: Option<int>)
    ensures forall id :: id in DueSet(cfg, pending, now) ==> id in pending
    ensures forall id :: id in pending ==> (id in DueSet(cfg, pending, now) <==>
              now.None? || now.value - pending[id].last >= cfg.quiet || now.value - pending[id].first >= cfg.maxAge)
    ensures var aged := set id | id in pending && now.Some?
              && now.value - pending[id].last < cfg.quiet && now.value - pending[id].first >= cfg.maxAge;
            AgedSet(cfg, pending, now) == aged
  {
  }

  /** What is left of the buffer: untouched, exactly the traces that were neither
      quiet for long enough nor old enough at a time; and without one, nothing. */
  ghost predicate Left(cfg: Config, before: map<TraceID, Pending>, after: map<TraceID, Pending>, due: Option<int>) {
    && (forall id :: id in after ==> id in before && after[id] == before[id])
    && (forall id :: id in before ==> (id in after <==>
         due.Some? && due.value - before[id].last < cfg.quiet && due.value - before[id].first < cfg.maxAge))
  }

  lemma WhatIsLeft(cfg: Config, before: map<TraceID, Pending>, due: Option<int>)
    ensures Left(cfg, before, before - DueSet(cfg, before, due), due)
  {
    DueInNumbers(cfg, before, due);
    hide DueSet;
  }

  /** What sealing takes out of the buffer, from state s to state t: exactly the
      traces that no span has come for in Quiet, or that are MaxAge old, at a time;
      without one, all. Those that were only old are counted. */
  ghost predicate Takes(cfg: Config, s: State, t: State, held: map<TraceID, Pending>, now: Option<int>) {
    var aged := set id | id in s.pending && now.Some?
      && now.value - s.pending[id].last < cfg.quiet && now.value - s.pending[id].first >= cfg.maxAge;
    && t.pending == s.pending - held.Keys
    && t.stats.sealedByAge == s.stats.sealedByAge + |aged|
    && (forall id :: id in held ==> id in s.pending && held[id] == s.pending[id])
    && (forall id :: id in s.pending ==> (id in held <==>
         now.None? || now.value - s.pending[id].last >= cfg.quiet || now.value - s.pending[id].first >= cfg.maxAge))
  }

  lemma SealingTakes(cfg: Config, s: State, now: Option<int>)
    ensures var due, aged := DueSet(cfg, s.pending, now), AgedSet(cfg, s.pending, now);
            Takes(cfg, s, WithAged(Sealed(s, due), |aged|), Only(s.pending, due), now)
  {
    DueInNumbers(cfg, s.pending, now);
    hide DueSet, AgedSet, Spread, PendingSpans;
    assert Only(s.pending, DueSet(cfg, s.pending, now)).Keys == DueSet(cfg, s.pending, now);
  }

  lemma DueIsPending(cfg: Config, pending: map<TraceID, Pending>, now: Option<int>)
    ensures DueSet(cfg, pending, now) <= pending.Keys
    ensures now.None? ==> DueSet(cfg, pending, now) == pending.Keys
  {
  }

  ghost function WithAged(s: State, n: nat): State {
    s.(stats := s.stats.(sealedByAge := s.stats.sealedByAge + n))
  }

  /** What the sealing loop has found among the traces it is done with. */
  ghost predicate SealedSoFar(cfg: Config, pending: map<TraceID, Pending>, now: Option<int>, todo: set<TraceID>,
                              due: set<TraceID>, aged: set<TraceID>)
  {
    && todo <= pending.Keys
    && (forall id :: id in due <==> id in pending && id !in todo && IsDue(cfg, pending[id], now))
    && (forall id :: id in aged <==> id in pending && id !in todo && IsAged(cfg, pending[id], now))
  }

  lemma SealedWorld(cfg: Config, w: World, due: set<TraceID>, aged: nat)
    requires due <= w.s.pending.Keys
    ensures var t := AfterSeal(w, due, aged); t.s == WithAged(Sealed(w.s, due), aged) && t.clock == w.clock
    ensures After(cfg, w, Step.Seal(due, aged)) == AfterSeal(w, due, aged)
  {
    hide Sealed, PendingSpans, Only;
  }

  lemma SealedAll(cfg: Config, pending: map<TraceID, Pending>, now: Option<int>, due: set<TraceID>, aged: set<TraceID>)
    requires SealedSoFar(cfg, pending, now, {}, due, aged)
    ensures due == DueSet(cfg, pending, now) && aged == AgedSet(cfg, pending, now)
  {
    hide IsDue, IsAged;
  }

  lemma SealedNothing(cfg: Config, s: State, now: Option<int>)
    ensures WithAged(Sealed(s, {}), 0) == s
    ensures SealedSoFar(cfg, s.pending, now, s.pending.Keys, {}, {})
  {
    assert Only(s.pending, {}) == map[] && PendingSpans(map[]) == map[];
    SpreadOfNothing();
    assert s.pending - {} == s.pending;
    assert s.judging + Emptied({}) == s.judging;
  }

  lemma SealedRoom(pending: map<TraceID, Pending>, due: set<TraceID>, id: TraceID)
    requires id in pending && id !in due
    ensures |Spread(PendingSpans(Only(pending, due + {id})))| ==
            |Spread(PendingSpans(Only(pending, due)))| + |pending[id].spans|
  {
    hide Spread;
    var a, b := PendingSpans(Only(pending, due)), PendingSpans(Only(pending, due + {id}));
    SpreadRemove(b, id);
    assert b - {id} == a;
  }

  lemma SealedMore(s: State, due: set<TraceID>, id: TraceID)
    requires id in s.pending && id !in due
    ensures var t := Sealed(s, due);
            Sealed(s, due + {id}) ==
              t.(pending := t.pending - {id},
                 judging := t.judging[id := []],
                 stats := t.stats.(buffered := t.stats.buffered - |s.pending[id].spans|))
  {
    hide Spread, Only, PendingSpans;
    SealedRoom(s.pending, due, id);
    assert s.pending - due - {id} == s.pending - (due + {id});
    assert (s.judging + Emptied(due))[id := []] == s.judging + Emptied(due + {id});
  }

  lemma SoFarOneMore(cfg: Config, pending: map<TraceID, Pending>, now: Option<int>, todo: set<TraceID>,
                     due: set<TraceID>, aged: set<TraceID>, id: TraceID)
    requires SealedSoFar(cfg, pending, now, todo, due, aged) && id in todo
    ensures id in pending && id !in due && id !in aged && due !! todo
    ensures SealedSoFar(cfg, pending, now, todo - {id},
                        if IsDue(cfg, pending[id], now) then due + {id} else due,
                        if IsAged(cfg, pending[id], now) then aged + {id} else aged)
  {
    hide IsDue, IsAged;
  }

  lemma SealedOneMore(cfg: Config, s: State, now: Option<int>, due: set<TraceID>, aged: set<TraceID>, id: TraceID)
    requires id in s.pending && id !in due && id !in aged
    ensures var due' := if IsDue(cfg, s.pending[id], now) then due + {id} else due;
            var aged' := if IsAged(cfg, s.pending[id], now) then aged + {id} else aged;
            var t := WithAged(Sealed(s, due), |aged|);
            && id in t.pending && t.pending[id] == s.pending[id]
            && SealedOne(cfg, t, id, now) == WithAged(Sealed(s, due'), |aged'|)
  {
    hide IsDue, IsAged, Sealed;
    SealedMore(s, due, id);
    SealedPending(s, due);
    assert |aged + {id}| == |aged| + 1;
    SealedOneIs(cfg, Sealed(s, due), |aged|, id, now);
    hide SealedOne;
  }

  /** Sealing one trace, however many were found old so far. */
  lemma SealedOneIs(cfg: Config, s: State, n: nat, id: TraceID, now: Option<int>)
    requires id in s.pending
    ensures var p := s.pending[id];
            var more := n + if IsAged(cfg, p, now) then 1 else 0;
            var taken := s.(pending := s.pending - {id}, judging := s.judging[id := []],
                            stats := s.stats.(buffered := s.stats.buffered - |p.spans|));
            SealedOne(cfg, WithAged(s, n), id, now) == WithAged(if IsDue(cfg, p, now) then taken else s, more)
  {
    hide IsDue, IsAged;
  }

  lemma SealedPending(s: State, due: set<TraceID>)
    ensures Sealed(s, due).pending == s.pending - due
  {
  }

  /** The traces in judges' hands: those there before, and some of the sealed. */
  ghost function InHands(before: map<TraceID, seq<Span>>, ids: seq<TraceID>, held: map<TraceID, Pending>): map<TraceID, seq<Span>> {
    before + map id | id in held && id in ids :: held[id].spans
  }

  lemma JudgingIsInHand(cfg: Config, w: World)
    requires Good(cfg, w)
    ensures w.s.judging.Keys == w.taken.Keys + w.stored.Keys + w.denied.Keys
  {
  }

  lemma SealFacts(cfg: Config, w: World, due: set<TraceID>, aged: nat, ready: seq<TraceID>, held: map<TraceID, Pending>)
    requires Good(cfg, w) && due <= w.s.pending.Keys
    requires held == Only(w.s.pending, due) && forall id :: id in ready <==> id in due
    ensures var t := AfterSeal(w, due, aged);
            && SameHands(w, t.(taken := w.taken)) && t.s.pending == w.s.pending - due
            && t.taken == InHands(w.taken, ready[0..], held)
    ensures forall id :: id in ready ==> id in held && id !in w.taken
  {
    hide Good, Spread, PendingSpans, InHands;
    NewHands(cfg, w, due);
    HandsOfHeld(w.taken, ready, held);
    assert ready[0..] == ready;
  }

  lemma NewHands(cfg: Config, w: World, due: set<TraceID>)
    requires Good(cfg, w) && due <= w.s.pending.Keys
    ensures due !! w.taken.Keys
  {
  }

  lemma HandsOfHeld(before: map<TraceID, seq<Span>>, ready: seq<TraceID>, held: map<TraceID, Pending>)
    requires forall id :: id in ready <==> id in held
    ensures before + PendingSpans(held) == InHands(before, ready, held)
  {
  }

  /** One decision takes its trace out of hand and leaves the rest. */
  lemma DecideKeeps(cfg: Config, w: World, id: TraceID, service: Option<Text>, keep: bool, ok: bool, charged: int, settled: int)
    requires Good(cfg, w) && id in w.taken
    ensures var t := Decided(cfg, w, id, service, keep, ok, charged, settled);
            SameHands(w, t.(taken := w.taken)) && t.s.pending == w.s.pending && t.taken == w.taken - {id}
  {
    TakenIsApart(cfg, w, id);
    hide Good, AfterAllow, AfterSettle, AfterWrite;
    var at := w.(clock := charged);
    if service.Some? {
      AllowKeepsHands(cfg, at, service.value, charged);
    }
    var paid := if service.Some? then AfterAllow(cfg, at, service.value, charged) else at;
    WriteThenSettle(cfg, paid, id, keep, ok, settled);
  }

  lemma WriteThenSettle(cfg: Config, w: World, id: TraceID, keep: bool, ok: bool, settled: int)
    requires id in w.taken && id !in w.stored && id !in w.denied
    ensures var sent := if keep then AfterWrite(w, id, ok) else w;
            var t := AfterSettle(cfg, sent.(clock := settled), id, keep);
            SameHands(w, t.(taken := w.taken)) && t.s.pending == w.s.pending && t.taken == w.taken - {id}
  {
    hide Trimmed, Noted, InHand, Waiting;
    var spans := w.taken[id];
    assert w.stored[id := spans] - {id} == w.stored && w.stored - {id} == w.stored;
    assert w.denied[id := spans] - {id} == w.denied && w.denied - {id} == w.denied;
    assert w.taken - {id} - {id} == w.taken - {id};
  }

  lemma InHandsNext(before: map<TraceID, seq<Span>>, ready: seq<TraceID>, i: nat, held: map<TraceID, Pending>)
    requires i < |ready|
    requires forall id :: id in ready ==> id in held && id !in before
    requires forall j, k :: 0 <= j < k < |ready| ==> ready[j] != ready[k]
    ensures var id := ready[i];
            && id in InHands(before, ready[i..], held)
            && InHands(before, ready[i..], held)[id] == held[id].spans
            && InHands(before, ready[i..], held) - {id} == InHands(before, ready[i + 1..], held)
  {
    var id, rest := ready[i], ready[i + 1..];
    assert ready[i..] == [id] + rest;
    assert id !in rest;
    forall x
      ensures x in InHands(before, ready[i..], held) - {id} <==> x in InHands(before, rest, held)
    {
      assert x in ready[i..] <==> x == id || x in rest;
    }
    InHandsSame(before, rest, id, held);
  }

  lemma InHandsSame(before: map<TraceID, seq<Span>>, rest: seq<TraceID>, id: TraceID, held: map<TraceID, Pending>)
    requires id in held && id !in rest && id !in before && forall x :: x in rest ==> x in held
    ensures InHands(before, [id] + rest, held) - {id} == InHands(before, rest, held)
  {
    var m, n := InHands(before, [id] + rest, held) - {id}, InHands(before, rest, held);
    assert m.Keys == n.Keys;
  }

  lemma InHandsNothing(before: map<TraceID, seq<Span>>, held: map<TraceID, Pending>)
    ensures InHands(before, [], held) == before
  {
  }

  /** The stretch of the log the memory stands for once a verdict is noted. */
  lemma NotedWindow(cfg: Config, w: World, id: TraceID, keep: bool) returns (window: seq<Settled>)
    requires Good(cfg, w) && CanSettle(w, id, keep)
    ensures cfg.remember > 0 ==> cfg.maxDecisions >= 1 && Remembers(Noted(w.s.verdicts, id, keep, w.clock), window)
  {
    InHandIsJudged(cfg, w, id, keep);
    hide Accounted, Remembers, Noted, CanSettle;
    var k := WindowOf(w);
    window := w.log[k..] + [Settled(id, keep, w.clock)];
    if cfg.remember > 0 {
      DecidedIs(w.s.verdicts, w.log[k..]);
      OldVerdictsAreOlder(cfg, w, w.log[k..], id);
      NotedIsRemembered(w.s.verdicts, w.log[k..], Settled(id, keep, w.clock));
    }
  }

  lemma NoBatches(late: map<TraceID, seq<Span>>)
    ensures multiset(Joined([])) == Spread(Only(late, late.Keys - late.Keys)) && |Joined([])| == 0
  {
    assert Only(late, late.Keys - late.Keys) == map[];
    SpreadOfNothing();
  }

  lemma OneMoreBatch(late: map<TraceID, seq<Span>>, todo: set<TraceID>, batches: seq<seq<Span>>, id: TraceID)
    requires id in todo && todo <= late.Keys
    requires multiset(Joined(batches)) == Spread(Only(late, late.Keys - todo))
    ensures multiset(Joined(batches + [late[id]])) == Spread(Only(late, late.Keys - (todo - {id})))
    ensures |Joined(batches + [late[id]])| == |Joined(batches)| + |late[id]|
  {
    hide Spread;
    assert (batches + [late[id]])[..|batches|] == batches;
    var more := Only(late, late.Keys - (todo - {id}));
    SpreadRemove(more, id);
    assert more - {id} == Only(late, late.Keys - todo);
  }

  /** A world with nothing buffered and nothing in hand has accounted for all. */
  lemma EverythingIsOut(cfg: Config, w: World)
    requires Good(cfg, w)
    requires w.s.pending == map[] && w.s.judging == map[] && w.s.late == map[] && EmptyHands(w)
    ensures w.s.stats.buffered == 0 && InFlight(w) == multiset{}
    ensures w.s.stats.accepted == |w.written| + w.s.stats.lost + w.s.stats.droppedSpans + w.s.stats.lateDropped
  {
    hide Recalls, Owned, Spread;
    SpreadOfNothing();
    assert PendingSpans(w.s.pending) == map[];
    assert |multiset(w.accepted)| == |w.accepted|;
  }
}
