/** The allowance of kept traces each service has: a token bucket per service,
    dropped once it is full again. Tokens and rates are reals; times are
    nanoseconds. */
module Buckets {
  import opened Trace

  const SECOND: real := 1000000000.0

  datatype Bucket = Bucket(tokens: real, at: int)

  datatype Limits = Limits(rate: real, burst: int) {
    /** What the sampler demands of a cap it is asked to apply. */
    predicate Valid() {
      rate > 0.0 && burst >= 1
    }
  }

  type Buckets = map<Text, Bucket>

  function Min(x: real, y: real): real {
    if x <= y then x else y
  }

  function Earned(lim: Limits, elapsed: int): real {
    lim.rate * (elapsed as real / SECOND)
  }

  function Refilled(lim: Limits, b: Bucket, now: int): Bucket {
    if now - b.at > 0 then Bucket(Min(lim.burst as real, b.tokens + Earned(lim, now - b.at)), now) else b
  }

  /** allow: takes one token of the service if it has one. */
  function Allowed(lim: Limits, bs: Buckets, service: Text, now: int): (Buckets, bool) {
    var b := Refilled(lim, if service in bs then bs[service] else Bucket(lim.burst as real, now), now);
    if b.tokens < 1.0 then (bs[service := b], false)
    else (bs[service := Bucket(b.tokens - 1.0, b.at)], true)
  }

  /** The part of forget that drops the buckets that are full again. */
  function Swept(lim: Limits, bs: Buckets, now: int): Buckets {
    map service | service in bs && Refilled(lim, bs[service], now).tokens < lim.burst as real ::
      Refilled(lim, bs[service], now)
  }

  // ------------------------------------------------------------- the levels

  /** How many tokens a service has at a moment, whether or not it has a bucket. */
  function Level(lim: Limits, bs: Buckets, service: Text, t: int): real {
    if service in bs then Refilled(lim, bs[service], t).tokens else lim.burst as real
  }

  /** No bucket holds more than the burst, less than nothing, or was touched
      after the clock. */
  ghost predicate Sane(lim: Limits, bs: Buckets, clock: int) {
    forall service :: service in bs ==>
      0.0 <= bs[service].tokens <= lim.burst as real && bs[service].at <= clock
  }

  /** Tokens come back at the rate, a second being a thousand million
      nanoseconds. */
  lemma EarnedInNumbers(lim: Limits, d: int)
    ensures Earned(lim, d) * 1000000000.0 == lim.rate * (d as real)
    ensures Earned(lim, d) == lim.rate * (d as real) / 1000000000.0
  {
  }

  /** What a bucket that held some tokens at one moment holds at a later one. */
  function Regained(lim: Limits, left: real, elapsed: int): real {
    var tokens := left + lim.rate * (elapsed as real) / 1000000000.0;
    if tokens > lim.burst as real then lim.burst as real else tokens
  }

  /** Whether a service has a token to take: its burst if it has no bucket, and
      otherwise what its bucket holds with what the rate made since. */
  predicate HasToken(lim: Limits, bs: Buckets, service: Text, now: int) {
    if service !in bs then lim.burst >= 1
    else if now > bs[service].at then Regained(lim, bs[service].tokens, now - bs[service].at) >= 1.0
    else bs[service].tokens >= 1.0
  }

  lemma AllowedHasToken(lim: Limits, bs: Buckets, service: Text, now: int)
    ensures Allowed(lim, bs, service, now).1 <==> HasToken(lim, bs, service, now)
  {
    hide Earned, Regained;
    var b := if service in bs then bs[service] else Bucket(lim.burst as real, now);
    assert Allowed(lim, bs, service, now).1 <==> Refilled(lim, b, now).tokens >= 1.0;
    if service in bs && now > b.at {
      RefilledIs(lim, b, now);
    } else if service !in bs {
      assert lim.burst as real >= 1.0 <==> lim.burst >= 1;
    }
  }

  lemma RefilledIs(lim: Limits, b: Bucket, now: int)
    requires b.at < now
    ensures Refilled(lim, b, now).tokens == Regained(lim, b.tokens, now - b.at)
  {
    EarnedInNumbers(lim, now - b.at);
    hide Earned;
  }

  /** A bucket refills at the rate, up to the burst, from when it was last touched. */
  lemma RefillInNumbers(lim: Limits, b: Bucket, now: int)
    requires b.tokens <= lim.burst as real && b.at <= now
    ensures Refilled(lim, b, now).tokens == Regained(lim, b.tokens, now - b.at)
  {
    if b.at < now {
      RefilledIs(lim, b, now);
    } else {
      assert lim.rate * 0.0 / 1000000000.0 == 0.0;
    }
  }

  lemma EarnedAdds(lim: Limits, d: int, e: int)
    ensures Earned(lim, d + e) == Earned(lim, d) + Earned(lim, e)
  {
    assert (d + e) as real / SECOND == d as real / SECOND + e as real / SECOND;
  }

  lemma EarnedGrows(lim: Limits, d: int)
    requires lim.Valid() && d >= 0
    ensures Earned(lim, d) >= 0.0
  {
    assert d as real / SECOND >= 0.0;
  }

  /** Refilling on the way changes nothing about the level later. */
  lemma RefillTwice(lim: Limits, b: Bucket, t: int, u: int)
    requires lim.Valid() && t <= u && 0.0 <= b.tokens <= lim.burst as real
    ensures Refilled(lim, Refilled(lim, b, t), u).tokens == Refilled(lim, b, u).tokens
    ensures 0.0 <= Refilled(lim, b, t).tokens <= lim.burst as real
    ensures Refilled(lim, b, t).at == if b.at < t then t else b.at
  {
    hide Earned;
    if b.at < t {
      EarnedAdds(lim, t - b.at, u - t);
      EarnedGrows(lim, t - b.at);
      EarnedGrows(lim, u - t);
    }
  }

  lemma RefillBounds(lim: Limits, b: Bucket, t: int)
    requires lim.Valid() && 0.0 <= b.tokens <= lim.burst as real
    ensures b.tokens <= Refilled(lim, b, t).tokens <= lim.burst as real
  {
    hide Earned;
    if b.at < t {
      EarnedGrows(lim, t - b.at);
    }
  }

  // ----------------------------------------------------------------- events

  datatype Event = Allow(service: Text, now: int) | Sweep(now: int)

  /** An allowance reads a clock that never goes back. A sweep reads it before
      it judges, so it may lag behind the allowances it comes after. */
  predicate EventOk(e: Event, clock: int) {
    e.Allow? ==> e.now >= clock
  }

  function Later(clock: int, e: Event): int {
    if e.now > clock then e.now else clock
  }

  function Stepped(lim: Limits, bs: Buckets, e: Event): Buckets {
    match e
    case Allow(service, now) => Allowed(lim, bs, service, now).0
    case Sweep(now) => Swept(lim, bs, now)
  }

  /** Whether an event is an allowance granted to the service. */
  function Grant(lim: Limits, bs: Buckets, e: Event, service: Text): nat {
    if e.Allow? && e.service == service && Allowed(lim, bs, service, e.now).1 then 1 else 0
  }

  predicate EventsOk(events: seq<Event>, clock: int)
    decreases |events|
  {
    events != [] ==> EventOk(events[0], clock) && EventsOk(events[1..], Later(clock, events[0]))
  }

  /** The answers allow gives over a run of events. */
  function Answers(lim: Limits, bs: Buckets, events: seq<Event>): seq<bool>
    decreases |events|
  {
    if events == [] then []
    else
      var e := events[0];
      (if e.Allow? then [Allowed(lim, bs, e.service, e.now).1] else [])
      + Answers(lim, Stepped(lim, bs, e), events[1..])
  }

  /** The answers if no bucket were ever dropped. */
  function AnswersForever(lim: Limits, bs: Buckets, events: seq<Event>): seq<bool>
    decreases |events|
  {
    if events == [] then []
    else
      var e := events[0];
      if e.Allow? then
        [Allowed(lim, bs, e.service, e.now).1] + AnswersForever(lim, Stepped(lim, bs, e), events[1..])
      else AnswersForever(lim, bs, events[1..])
  }

  function Grants(lim: Limits, bs: Buckets, events: seq<Event>, service: Text): nat
    decreases |events|
  {
    if events == [] then 0
    else Grant(lim, bs, events[0], service) + Grants(lim, Stepped(lim, bs, events[0]), events[1..], service)
  }

  // -------------------------------------------- dropping a bucket is invisible

  /** Two sets of buckets no later allowance can tell apart. */
  ghost predicate Alike(lim: Limits, bs: Buckets, cs: Buckets, clock: int) {
    forall service: Text, t :: t >= clock ==> Level(lim, bs, service, t) == Level(lim, cs, service, t)
  }

  lemma AllowedLevels(lim: Limits, bs: Buckets, service: Text, now: int, other: Text, t: int)
    requires lim.Valid() && Sane(lim, bs, now) && t >= now
    ensures var (after, ok) := Allowed(lim, bs, service, now);
            && ok == (Level(lim, bs, service, now) >= 1.0)
            && Sane(lim, after, now)
            && (other != service ==> Level(lim, after, other, t) == Level(lim, bs, other, t))
            && Level(lim, after, service, t) ==
               Regained(lim, Level(lim, bs, service, now) - (if ok then 1.0 else 0.0), t - now)
  {
    hide Earned, Regained;
    if service in bs {
      RefillTwice(lim, bs[service], now, now);
      RefillBounds(lim, bs[service], now);
    }
    RefillInNumbers(lim, Bucket(Level(lim, bs, service, now) - (if Allowed(lim, bs, service, now).1 then 1.0 else 0.0), now), t);
  }

  lemma SweptLevels(lim: Limits, bs: Buckets, now: int, clock: int, service: Text, t: int)
    requires lim.Valid() && Sane(lim, bs, clock) && t >= clock && t >= now
    ensures Level(lim, Swept(lim, bs, now), service, t) == Level(lim, bs, service, t)
    ensures Sane(lim, Swept(lim, bs, now), t)
  {
    hide Earned;
    forall s | s in bs
      ensures 0.0 <= Refilled(lim, bs[s], now).tokens <= lim.burst as real
      ensures Refilled(lim, bs[s], now).at == if bs[s].at < now then now else bs[s].at
    {
      RefillTwice(lim, bs[s], now, now);
    }
    if service in bs {
      RefillTwice(lim, bs[service], now, t);
      RefillBounds(lim, Refilled(lim, bs[service], now), t);
    }
  }

  lemma AllowedAlike(lim: Limits, bs: Buckets, cs: Buckets, service: Text, now: int, clock: int)
    requires lim.Valid() && Sane(lim, bs, clock) && Sane(lim, cs, clock) && Alike(lim, bs, cs, clock) && now >= clock
    ensures var (bs', b) := Allowed(lim, bs, service, now);
            var (cs', c) := Allowed(lim, cs, service, now);
            b == c && Sane(lim, bs', now) && Sane(lim, cs', now) && Alike(lim, bs', cs', now)
  {
    hide Allowed, Level, Refilled;
    AllowedLevels(lim, bs, service, now, service, now);
    AllowedLevels(lim, cs, service, now, service, now);
    forall other: Text, t | t >= now
      ensures Level(lim, Allowed(lim, bs, service, now).0, other, t) ==
              Level(lim, Allowed(lim, cs, service, now).0, other, t)
    {
      AllowedLevels(lim, bs, service, now, other, t);
      AllowedLevels(lim, cs, service, now, other, t);
      assert Level(lim, bs, service, now) == Level(lim, cs, service, now);
    }
  }

  lemma SweptAlike(lim: Limits, bs: Buckets, cs: Buckets, now: int, clock: int)
    requires lim.Valid() && Sane(lim, bs, clock) && Sane(lim, cs, clock) && Alike(lim, bs, cs, clock)
    ensures var later := if now > clock then now else clock;
            Sane(lim, Swept(lim, bs, now), later) && Sane(lim, cs, later) && Alike(lim, Swept(lim, bs, now), cs, later)
  {
    hide Swept, Level;
    var later := if now > clock then now else clock;
    SweptLevels(lim, bs, now, clock, [], later);
    forall service: Text, t | t >= later
      ensures Level(lim, Swept(lim, bs, now), service, t) == Level(lim, cs, service, t)
    {
      SweptLevels(lim, bs, now, clock, service, t);
    }
  }

  /** Dropping full buckets never changes an answer, over any run. */
  lemma {:induction false} DroppingIsInvisible(lim: Limits, bs: Buckets, cs: Buckets, events: seq<Event>, clock: int)
    requires lim.Valid() && EventsOk(events, clock)
    requires Sane(lim, bs, clock) && Sane(lim, cs, clock) && Alike(lim, bs, cs, clock)
    ensures Answers(lim, bs, events) == AnswersForever(lim, cs, events)
    decreases |events|
  {
    hide Allowed, Swept, Alike, Sane;
    if events != [] {
      var e := events[0];
      if e.Allow? {
        AllowedAlike(lim, bs, cs, e.service, e.now, clock);
        DroppingIsInvisible(lim, Stepped(lim, bs, e), Stepped(lim, cs, e), events[1..], e.now);
      } else {
        SweptAlike(lim, bs, cs, e.now, clock);
        DroppingIsInvisible(lim, Stepped(lim, bs, e), cs, events[1..], Later(clock, e));
        assert [] + Answers(lim, Stepped(lim, bs, e), events[1..]) == Answers(lim, Stepped(lim, bs, e), events[1..]);
      }
    }
  }

  /** So a sampler that starts with no buckets answers as if it kept them all. */
  lemma ForgetfulSamplerIsFair(lim: Limits, events: seq<Event>, clock: int)
    requires lim.Valid() && EventsOk(events, clock)
    ensures Answers(lim, map[], events) == AnswersForever(lim, map[], events)
  {
    DroppingIsInvisible(lim, map[], map[], events, clock);
  }

  // --------------------------------------------------------------- the bound

  /** In time a level gains at most what the rate earns. */
  lemma LevelGrows(lim: Limits, bs: Buckets, service: Text, t: int, u: int)
    requires lim.Valid() && Sane(lim, bs, t) && t <= u
    ensures 0.0 <= Level(lim, bs, service, t) <= lim.burst as real
    ensures Level(lim, bs, service, u) <= Level(lim, bs, service, t) + Earned(lim, u - t)
  {
    hide Earned;
    EarnedGrows(lim, u - t);
    if service in bs {
      var b := bs[service];
      RefillBounds(lim, b, t);
      EarnedAdds(lim, t - b.at, u - t);
      EarnedGrows(lim, t - b.at);
    }
  }

  lemma SteppedLevel(lim: Limits, bs: Buckets, e: Event, service: Text, clock: int)
    requires lim.Valid() && Sane(lim, bs, clock) && EventOk(e, clock)
    ensures var later := Later(clock, e);
            && Sane(lim, Stepped(lim, bs, e), later)
            && Level(lim, Stepped(lim, bs, e), service, later) + Grant(lim, bs, e, service) as real
               == Level(lim, bs, service, later)
  {
    hide Earned;
    var later := Later(clock, e);
    match e
    case Allow(s, now) =>
      AllowedLevels(lim, bs, s, now, service, now);
      LevelGrows(lim, bs, s, now, now);
    case Sweep(now) => SweptLevels(lim, bs, now, clock, service, later);
  }

  /** What one service is granted from a moment on is bounded by the tokens it
      had then and what the rate earned since. */
  lemma {:induction false} GrantsAreEarned(lim: Limits, bs: Buckets, events: seq<Event>, service: Text, clock: int, end: int)
    requires lim.Valid() && Sane(lim, bs, clock) && EventsOk(events, clock) && clock <= end
    requires forall i :: 0 <= i < |events| ==> events[i].now <= end
    ensures Grants(lim, bs, events, service) as real
            <= Level(lim, bs, service, clock) + lim.rate * ((end - clock) as real) / 1000000000.0
    decreases |events|
  {
    EarnedInNumbers(lim, end - clock);
    hide Earned, Level, Sane, Stepped, Grant;
    LevelGrows(lim, bs, service, clock, end);
    EarnedGrows(lim, end - clock);
    if events != [] {
      var e := events[0];
      var later := Later(clock, e);
      var after := Stepped(lim, bs, e);
      SteppedLevel(lim, bs, e, service, clock);
      LevelGrows(lim, bs, service, clock, later);
      EarnedAdds(lim, later - clock, end - later);
      EarnedInNumbers(lim, end - later);
      GrantsAreEarned(lim, after, events[1..], service, later, end);
    }
  }

  function RunOf(lim: Limits, bs: Buckets, events: seq<Event>): Buckets
    decreases |events|
  {
    if events == [] then bs else RunOf(lim, Stepped(lim, bs, events[0]), events[1..])
  }

  function ClockAfter(clock: int, events: seq<Event>): int
    decreases |events|
  {
    if events == [] then clock else ClockAfter(Later(clock, events[0]), events[1..])
  }

  lemma {:induction false} RunIsSane(lim: Limits, bs: Buckets, events: seq<Event>, clock: int)
    requires lim.Valid() && Sane(lim, bs, clock) && EventsOk(events, clock)
    ensures Sane(lim, RunOf(lim, bs, events), ClockAfter(clock, events))
    decreases |events|
  {
    hide Sane, Stepped;
    if events != [] {
      SteppedLevel(lim, bs, events[0], [], clock);
      RunIsSane(lim, Stepped(lim, bs, events[0]), events[1..], Later(clock, events[0]));
    }
  }

  /** Whatever came before, the traces of one service kept in any window of time
      are at most its burst plus what its rate earns in the window. */
  lemma WindowIsBounded(lim: Limits, before: seq<Event>, window: seq<Event>, service: Text, start: int, from: int, to: int)
    requires lim.Valid() && EventsOk(before, start)
    requires ClockAfter(start, before) <= from <= to && EventsOk(window, from)
    requires forall i :: 0 <= i < |window| ==> window[i].now <= to
    ensures Grants(lim, RunOf(lim, map[], before), window, service) as real
            <= lim.burst as real + lim.rate * ((to - from) as real) / 1000000000.0
  {
    EarnedInNumbers(lim, to - from);
    hide Earned, Level;
    var bs := RunOf(lim, map[], before);
    RunIsSane(lim, map[], before, start);
    LevelGrows(lim, bs, service, from, from);
    GrantsAreEarned(lim, bs, window, service, from, to);
  }

  // ------------------------------------------------------------- coming back

  predicate Uses(e: Event, service: Text) {
    e.Allow? && e.service == service
  }

  /** Sweeps and the allowances of others leave a service's level alone. */
  lemma {:induction false} LevelCarries(lim: Limits, bs: Buckets, events: seq<Event>, service: Text, clock: int, t: int)
    requires lim.Valid() && Sane(lim, bs, clock) && EventsOk(events, clock) && ClockAfter(clock, events) <= t
    requires forall e :: e in events ==> !Uses(e, service)
    ensures Level(lim, RunOf(lim, bs, events), service, t) == Level(lim, bs, service, t)
    decreases |events|
  {
    hide Level, Sane, Allowed, Swept;
    if events != [] {
      var e, later := events[0], Later(clock, events[0]);
      SteppedLevel(lim, bs, e, service, clock);
      ClockRises(later, events[1..]);
      assert forall x :: x in events[1..] ==> x in events;
      assert e in events;
      if e.Allow? {
        SaneLater(lim, bs, clock, e.now);
        AllowedLevels(lim, bs, e.service, e.now, service, t);
      } else {
        SaneLater(lim, bs, clock, t);
        SweptLevels(lim, bs, e.now, t, service, t);
      }
      LevelCarries(lim, Stepped(lim, bs, e), events[1..], service, later, t);
    }
  }

  lemma SaneLater(lim: Limits, bs: Buckets, clock: int, later: int)
    requires Sane(lim, bs, clock) && clock <= later
    ensures Sane(lim, bs, later)
  {
  }

  lemma {:induction false} ClockRises(clock: int, events: seq<Event>)
    ensures clock <= ClockAfter(clock, events)
    decreases |events|
  {
    if events != [] {
      ClockRises(Later(clock, events[0]), events[1..]);
    }
  }

  /** Tokens do come back. A service whose last use left some has those and what
      its rate made of the time since, up to its burst, however many sweeps and
      uses by others came in between. So its next allowance is granted if and only
      if that makes a token, and whenever the rate alone made one. */
  lemma TokensComeBack(lim: Limits, bs: Buckets, service: Text, used: int, between: seq<Event>, now: int)
    requires lim.Valid() && Sane(lim, bs, used) && EventsOk(between, used) && ClockAfter(used, between) <= now
    requires forall e :: e in between ==> !Uses(e, service)
    ensures var (after, granted) := Allowed(lim, bs, service, used);
            var left := Level(lim, bs, service, used) - if granted then 1.0 else 0.0;
            var later := RunOf(lim, after, between);
            && Level(lim, later, service, now) == Regained(lim, left, now - used)
            && (Allowed(lim, later, service, now).1 <==> Regained(lim, left, now - used) >= 1.0)
            && (lim.rate * ((now - used) as real) / 1000000000.0 >= 1.0 ==> Allowed(lim, later, service, now).1)
  {
    var (after, granted) := Allowed(lim, bs, service, used);
    var left := Level(lim, bs, service, used) - if granted then 1.0 else 0.0;
    hide Allowed, Level, Sane, Earned, Regained, EventsOk, RunOf, ClockAfter;
    ClockRises(used, between);
    AllowedLevels(lim, bs, service, used, service, now);
    AllowedLevels(lim, bs, service, used, service, used);
    LevelCarries(lim, after, between, service, used, now);
    RunKeepsSane(lim, after, between, used, now);
    AllowedLevels(lim, RunOf(lim, after, between), service, now, service, now);
    LevelGrows(lim, bs, service, used, used);
    RateMadeOne(lim, left, now - used);
  }

  lemma RateMadeOne(lim: Limits, left: real, elapsed: int)
    requires lim.Valid() && left >= 0.0
    ensures lim.rate * (elapsed as real) / 1000000000.0 >= 1.0 ==> Regained(lim, left, elapsed) >= 1.0
  {
  }

  /** A service that was never used has its whole burst. */
  lemma FirstUses(lim: Limits, service: Text, t: int)
    ensures Level(lim, map[], service, t) == lim.burst as real
  {
  }

  lemma RunKeepsSane(lim: Limits, bs: Buckets, events: seq<Event>, clock: int, now: int)
    requires lim.Valid() && Sane(lim, bs, clock) && EventsOk(events, clock) && ClockAfter(clock, events) <= now
    ensures Sane(lim, RunOf(lim, bs, events), now)
  {
    hide Sane;
    RunIsSane(lim, bs, events, clock);
    SaneLater(lim, RunOf(lim, bs, events), ClockAfter(clock, events), now);
  }
}
