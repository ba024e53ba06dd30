/** The bounded memory of verdicts: a map that answers, and a queue that says
    what to forget next. An entry of the queue may be stale, because its trace
    was judged again since.

    The memory is compared with the log of all verdicts ever settled: it is
    always what a suffix of that log says. */
module Verdicts {
  import opened Trace

  datatype Decision = Decision(keep: bool, at: int)

  datatype Remembered = Remembered(id: TraceID, at: int)

  datatype Verdicts = Verdicts(decided: map<TraceID, Decision>, order: seq<Remembered>)

  /** One verdict as the log has it. */
  datatype Settled = Settled(id: TraceID, keep: bool, at: int)

  // -------------------------------------------------------------- the steps

  /** Drops the oldest entry, and its verdict unless the trace was judged again. */
  function ForgetOldest(v: Verdicts): Verdicts
    requires v.order != []
  {
    var oldest := v.order[0];
    Verdicts(
      if oldest.id in v.decided && v.decided[oldest.id].at == oldest.at then v.decided - {oldest.id} else v.decided,
      v.order[1..])
  }

  function Noted(v: Verdicts, id: TraceID, keep: bool, at: int): Verdicts {
    Verdicts(v.decided[id := Decision(keep, at)], v.order + [Remembered(id, at)])
  }

  /** Forgets the oldest while more than max verdicts are held. */
  function Trimmed(v: Verdicts, max: int): Verdicts
    decreases |v.order|
  {
    if |v.decided| <= max || v.order == [] then v else Trimmed(ForgetOldest(v), max)
  }

  /** Forgets the oldest while it is older than remember. */
  function Expired(v: Verdicts, now: int, remember: int): Verdicts
    decreases |v.order|
  {
    if v.order == [] || now - v.order[0].at < remember then v else Expired(ForgetOldest(v), now, remember)
  }

  // ------------------------------------------------- what the memory stands for

  ghost function Queue(log: seq<Settled>): seq<Remembered> {
    seq(|log|, i requires 0 <= i < |log| => Remembered(log[i].id, log[i].at))
  }

  /** The latest verdict of each trace in a stretch of the log. */
  ghost function Latest(log: seq<Settled>): map<TraceID, Decision> {
    if log == [] then map[]
    else
      var s := log[|log| - 1];
      Latest(log[..|log| - 1])[s.id := Decision(s.keep, s.at)]
  }

  /** Verdicts come in order of time, and those of one trace at different times. */
  ghost predicate InOrder(log: seq<Settled>) {
    forall i, j :: 0 <= i < j < |log| ==>
      log[i].at <= log[j].at && (log[i].id == log[j].id ==> log[i].at < log[j].at)
  }

  /** The memory is what this stretch of the log says. */
  ghost predicate Remembers(v: Verdicts, window: seq<Settled>) {
    InOrder(window) && v.order == Queue(window) && v.decided == Latest(window)
  }

  lemma {:induction false} LatestFirst(x: Settled, rest: seq<Settled>)
    ensures Latest([x] + rest) == map[x.id := Decision(x.keep, x.at)] + Latest(rest)
    decreases |rest|
  {
    var log := [x] + rest;
    if rest == [] {
      assert log[..0] == [];
    } else {
      assert log[..|log| - 1] == [x] + rest[..|rest| - 1];
      LatestFirst(x, rest[..|rest| - 1]);
    }
  }

  lemma {:induction false} LatestIsOneOf(log: seq<Settled>, id: TraceID) returns (i: nat)
    requires id in Latest(log)
    ensures i < |log| && log[i].id == id && Latest(log)[id] == Decision(log[i].keep, log[i].at)
  {
    var n := |log| - 1;
    if log[n].id == id {
      i := n;
    } else {
      i := LatestIsOneOf(log[..n], id);
    }
  }

  /** The latest verdict of a trace is the last one the log has. */
  lemma {:induction false} LatestIsTheLast(log: seq<Settled>, id: TraceID) returns (i: nat)
    requires id in Latest(log)
    ensures i < |log| && log[i].id == id && Latest(log)[id] == Decision(log[i].keep, log[i].at)
    ensures forall j :: i < j < |log| ==> log[j].id != id
  {
    var n := |log| - 1;
    if log[n].id == id {
      i := n;
    } else {
      i := LatestIsTheLast(log[..n], id);
    }
  }

  lemma {:induction false} LatestHolds(log: seq<Settled>, i: nat)
    requires i < |log|
    ensures log[i].id in Latest(log)
  {
    if i < |log| - 1 {
      LatestHolds(log[..|log| - 1], i);
    }
  }

  lemma {:induction false} LatestIsSmall(log: seq<Settled>)
    ensures |Latest(log)| <= |log|
    ensures log != [] ==> log[|log| - 1].id in Latest(log)
  {
    if log != [] {
      var before := log[..|log| - 1];
      LatestIsSmall(before);
      var id := log[|log| - 1].id;
      assert Latest(log).Keys == Latest(before).Keys + {id};
    }
  }

  /** Forgetting the oldest entry leaves what the rest of the stretch says: a
      stale entry never takes a newer verdict with it. */
  lemma ForgetOldestForgetsOldest(v: Verdicts, window: seq<Settled>)
    requires Remembers(v, window) && window != []
    ensures Remembers(ForgetOldest(v), window[1..])
  {
    var x, rest := window[0], window[1..];
    assert window == [x] + rest;
    LatestFirst(x, rest);
    assert Queue(window)[1..] == Queue(rest) && Queue(window)[0] == Remembered(x.id, x.at);
    assert InOrder(rest);
    StaleOrNot(x, rest);
    hide Latest, InOrder, Queue;
  }

  /** The first verdict of a stretch stands unless its trace has a later one. */
  lemma StaleOrNot(x: Settled, rest: seq<Settled>)
    requires InOrder([x] + rest)
    ensures var all := map[x.id := Decision(x.keep, x.at)] + Latest(rest);
            Latest(rest) == if all[x.id].at == x.at then all - {x.id} else all
  {
    var all := map[x.id := Decision(x.keep, x.at)] + Latest(rest);
    if x.id in Latest(rest) {
      var i := LatestIsOneOf(rest, x.id);
      assert ([x] + rest)[0] == x && ([x] + rest)[i + 1] == rest[i];
      hide Latest;
      assert all == Latest(rest);
    } else {
      hide Latest;
      assert all - {x.id} == Latest(rest);
    }
  }

  lemma NotedIsRemembered(v: Verdicts, window: seq<Settled>, s: Settled)
    requires Remembers(v, window)
    requires forall i :: 0 <= i < |window| ==> window[i].at <= s.at && (window[i].id == s.id ==> window[i].at < s.at)
    ensures Remembers(Noted(v, s.id, s.keep, s.at), window + [s])
  {
    assert (window + [s])[..|window|] == window;
    assert Queue(window + [s]) == Queue(window) + [Remembered(s.id, s.at)];
  }

  /** Trimming forgets a beginning of the stretch, brings the memory within its
      limit, and always keeps the verdict just settled. */
  lemma {:induction false} TrimmedIsRemembered(v: Verdicts, window: seq<Settled>, max: int) returns (k: nat)
    requires Remembers(v, window) && max >= 1
    ensures k <= |window| && Remembers(Trimmed(v, max), window[k..])
    ensures |Trimmed(v, max).decided| <= max
    ensures window != [] ==> k < |window|
    decreases |window|
  {
    LatestIsSmall(window);
    if |v.decided| <= max {
      k := 0;
      assert window[0..] == window;
    } else {
      ForgetOldestForgetsOldest(v, window);
      k := TrimmedIsRemembered(ForgetOldest(v), window[1..], max);
      assert window[1..][k..] == window[k + 1..];
      k := k + 1;
    }
  }

  /** Expiry forgets exactly the verdicts at least remember old. */
  lemma {:induction false} ExpiredIsRemembered(v: Verdicts, window: seq<Settled>, now: int, remember: int) returns (k: nat)
    requires Remembers(v, window)
    ensures k <= |window| && Remembers(Expired(v, now, remember), window[k..])
    ensures forall i :: 0 <= i < |window| ==> (i < k <==> now - window[i].at >= remember)
    decreases |window|
  {
    assert v.order != [] ==> v.order[0].at == window[0].at;
    if window == [] || now - window[0].at < remember {
      k := 0;
      assert window[0..] == window;
    } else {
      ForgetOldestForgetsOldest(v, window);
      k := ExpiredIsRemembered(ForgetOldest(v), window[1..], now, remember);
      assert window[1..][k..] == window[k + 1..];
      assert forall i :: 1 <= i < |window| ==> window[i] == window[1..][i - 1];
      k := k + 1;
    }
  }
}
