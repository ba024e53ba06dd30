/** Which span each moment of a trace is put down to, when its critical path is
    read backwards from the end. */
module Critical {
  import opened Sorting
  import opened Forest
  import opened Timing

  /** A stretch of the path spent in one span. */
  datatype Segment = Segment(node: Node, start: int, end: int)

  /** Nodes by start, then identifier. */
  predicate NodeBefore(a: Node, b: Node) {
    a.start < b.start || (a.start == b.start && LexLess(a.id, b.id))
  }

  /** What Build makes of validated spans: no span ends before it starts, and
      siblings are all different and in start order. */
  predicate Tidy(n: Node) {
    && n.start <= n.end
    && (forall i, j :: 0 <= i < j < |n.children| ==> NodeBefore(n.children[i], n.children[j]))
    && (forall c :: c in n.children ==> Tidy(c))
  }

  /** m is n or below it. */
  predicate Under(n: Node, m: Node) {
    m == n || exists c :: c in n.children && Under(c, m)
  }

  /** The stretch lies inside its span, where none of the span's children runs. */
  ghost predicate Own(s: Segment) {
    && s.node.start <= s.start < s.end <= s.node.end
    && forall t :: s.start <= t < s.end ==> !AnyRuns(s.node.children, t)
  }

  ghost predicate Charged(path: seq<Segment>, top: Node) {
    forall i :: 0 <= i < |path| ==> Own(path[i]) && Under(top, path[i].node)
  }

  /** Consecutive stretches from hi down to lo, no two neighbours of one span. */
  ghost predicate Backwards(path: seq<Segment>, lo: int, hi: int) {
    if path == [] then lo == hi
    else
      && path[0].end == hi && path[|path| - 1].start == lo
      && forall i :: 0 < i < |path| ==> path[i].end == path[i - 1].start && path[i].node != path[i - 1].node
  }

  /** The path with one more stretch below it: nothing if that is empty, and one
      longer stretch if the span at the end continues. */
  function Appended(path: seq<Segment>, n: Node, start: int, end: int): seq<Segment> {
    var last := |path| - 1;
    if end <= start then path
    else if path != [] && path[last].node == n && path[last].start == end
    then path[..last] + [Segment(n, start, path[last].end)]
    else path + [Segment(n, start, end)]
  }

  lemma AppendedIsOwn(path: seq<Segment>, n: Node, start: int, end: int, hi: int, top: Node)
    requires Backwards(path, end, hi) && Charged(path, top)
    requires start < end ==> Own(Segment(n, start, end)) && Under(top, n)
    ensures Backwards(Appended(path, n, start, end), Earlier(start, end), hi)
    ensures Charged(Appended(path, n, start, end), top)
  {
    hide Own, Under;
    var last := |path| - 1;
    if start < end {
      if path != [] && path[last].node == n {
        var r := Appended(path, n, start, end);
        var long := Segment(n, start, path[last].end);
        assert r == path[..last] + [long];
        assert Own(path[last]);
        OwnLonger(path[last], start);
        assert forall i :: 0 <= i < last ==> r[i] == path[i];
      } else {
        var r := path + [Segment(n, start, end)];
        assert forall i :: 0 <= i < |path| ==> r[i] == path[i];
      }
    }
  }

  /** Two stretches of a span that meet are one. */
  lemma OwnLonger(s: Segment, start: int)
    requires Own(s) && start < s.start && Own(Segment(s.node, start, s.start))
    ensures Own(Segment(s.node, start, s.end))
  {
  }

  /** appendSegment. */
  method AppendSegment(path: seq<Segment>, n: Node, start: int, end: int) returns (r: seq<Segment>)
    ensures r == Appended(path, n, start, end)
  {
    if end <= start {
      return path;
    }
    var last := |path| - 1;
    if last >= 0 && path[last].node == n && path[last].start == end {
      r := path[last := path[last].(start := start)];
      return;
    }
    r := path + [Segment(n, start, end)];
  }

  // ------------------------------------------------------- order of finishing

  /** Who finished later comes first, and of those who finished together who
      started later. */
  predicate FinishedLater(a: Node, b: Node) {
    a.end > b.end || (a.end == b.end && NodeBefore(b, a))
  }

  lemma FinishedLaterIsStrictWeak()
    ensures StrictWeak((a: Node, b: Node) => FinishedLater(a, b))
  {
    var less := (a: Node, b: Node) => FinishedLater(a, b);
    forall a: Node, b: Node | less(a, b)
      ensures !less(b, a)
    {
      LaterAsymmetric(a, b);
    }
    forall a: Node
      ensures NotBefore(less, a)
    {
      forall b: Node, c: Node | !less(a, b) && !less(b, c)
        ensures !less(a, c)
      {
        NotLaterChains(a, b, c);
      }
    }
  }

  lemma LaterAsymmetric(a: Node, b: Node)
    requires FinishedLater(a, b)
    ensures !FinishedLater(b, a)
  {
    if LexLess(b.id, a.id) {
      LexAsymmetric(b.id, a.id);
    }
  }

  lemma NotLaterChains(a: Node, b: Node, c: Node)
    requires !FinishedLater(a, b) && !FinishedLater(b, c)
    ensures !FinishedLater(a, c)
  {
    if a.end == c.end && a.start == c.start && LexLess(c.id, a.id) {
      if a.id != b.id {
        LexConnected(a.id, b.id);
      }
      if b.id != c.id {
        LexConnected(b.id, c.id);
      }
      if a.id != b.id && b.id != c.id {
        LexTransitive(a.id, b.id, c.id);
      }
      LexAsymmetric(c.id, a.id);
      assert false;
    }
  }

  /** kids in order of finishing, last first. */
  ghost predicate ByFinish(kids: seq<Node>, of: seq<Node>) {
    && (forall c :: c in kids <==> c in of)
    && (forall i, j :: 0 <= i < j < |kids| ==> FinishedLater(kids[i], kids[j]))
  }

  method SortByFinish(of: seq<Node>) returns (kids: seq<Node>)
    requires forall i, j :: 0 <= i < j < |of| ==> NodeBefore(of[i], of[j])
    ensures ByFinish(kids, of) && multiset(kids) == multiset(of)
    ensures forall i, j :: 0 <= i < j < |kids| ==> kids[i].end >= kids[j].end
    ensures forall i, j :: 0 <= i < j < |kids| && kids[i].end == kids[j].end ==> kids[i].start >= kids[j].start
    ensures forall i, j :: 0 <= i < j < |kids| && kids[i].end == kids[j].end && kids[i].start == kids[j].start ==>
              LexLess(kids[j].id, kids[i].id)
  {
    FinishedLaterIsStrictWeak();
    var less := (a: Node, b: Node) => FinishedLater(a, b);
    kids := SortFunc(of, less);
    forall c
      ensures c in kids <==> c in of
    {
      assert c in kids <==> c in multiset(kids);
    }
    forall i, j | 0 <= i < j < |kids|
      ensures FinishedLater(kids[i], kids[j])
    {
      assert !less(kids[j], kids[i]);
      StillDifferent(of, kids, i, j);
      OneIsLater(kids[i], kids[j]);
    }
  }

  lemma OneIsLater(a: Node, b: Node)
    requires NodeBefore(a, b) || NodeBefore(b, a)
    ensures FinishedLater(a, b) || FinishedLater(b, a)
  {
  }

  /** Sorting different siblings leaves them different. */
  lemma StillDifferent(of: seq<Node>, kids: seq<Node>, i: nat, j: nat)
    requires forall i, j :: 0 <= i < j < |of| ==> NodeBefore(of[i], of[j])
    requires multiset(of) == multiset(kids) && i < j < |kids|
    ensures NodeBefore(kids[i], kids[j]) || NodeBefore(kids[j], kids[i])
  {
    assert kids[i] in multiset(of) && kids[j] in multiset(of);
    var k :| 0 <= k < |of| && of[k] == kids[i];
    var l :| 0 <= l < |of| && of[l] == kids[j];
    if kids[i] == kids[j] {
      OccursTwice(kids, i, j);
      OnceOnly(of, k);
      assert false;
    }
  }

  lemma OnceOnly(of: seq<Node>, k: nat)
    requires forall i, j :: 0 <= i < j < |of| ==> NodeBefore(of[i], of[j])
    requires k < |of|
    ensures multiset(of)[of[k]] == 1
  {
    var x := of[k];
    assert of == of[..k] + [x] + of[k + 1..];
    forall i | 0 <= i < |of| && i != k
      ensures of[i] != x
    {
      if of[i] == x {
        LexIrreflexive(x.id);
        assert false;
      }
    }
    assert x !in of[..k] && x !in of[k + 1..];
  }

  lemma {:induction false} LexIrreflexive(a: seq<int>)
    ensures !LexLess(a, a)
  {
    if a != [] {
      LexIrreflexive(a[1..]);
    }
  }

  // -------------------------------------------------- what the path should be

  /** Of the children that had started by some moment, the last to finish. */
  ghost predicate IsLastFinisher(kids: seq<Node>, cursor: int, c: Node) {
    && c in kids && c.start < cursor
    && forall d :: d in kids && d.start < cursor && d != c ==> FinishedLater(c, d)
  }

  lemma LastFinisherUnique(kids: seq<Node>, cursor: int, c: Node, d: Node)
    requires IsLastFinisher(kids, cursor, c) && IsLastFinisher(kids, cursor, d)
    ensures c == d
  {
    if c != d {
      LaterAsymmetric(c, d);
      assert false;
    }
  }

  /** The path below what is there: at each moment the span waited on whichever
      child finished last of those that had started, and what is in between is
      its own. */
  ghost function Followed(n: Node, floor: int, cursor: int, path: seq<Segment>): seq<Segment>
    decreases n, if cursor > floor then cursor - floor else 0
  {
    if cursor <= floor then path
    else if exists c :: IsLastFinisher(n.children, cursor, c) && c.end > floor then
      var c :| IsLastFinisher(n.children, cursor, c) && c.end > floor;
      var end := Earlier(c.end, cursor);
      Followed(n, floor, Later(c.start, floor), Blamed(c, floor, end, Appended(path, n, end, cursor)))
    else Appended(path, n, floor, cursor)
  }

  /** The same for a span within a window. */
  ghost function Blamed(n: Node, floor: int, ceiling: int, path: seq<Segment>): seq<Segment>
    decreases n
  {
    Followed(n, Later(floor, n.start), Earlier(ceiling, n.end), path)
  }

  lemma FollowedNext(n: Node, floor: int, cursor: int, path: seq<Segment>, c: Node)
    requires floor < cursor && IsLastFinisher(n.children, cursor, c) && c.end > floor
    ensures var end := Earlier(c.end, cursor);
            Followed(n, floor, cursor, path)
            == Followed(n, floor, Later(c.start, floor), Blamed(c, floor, end, Appended(path, n, end, cursor)))
  {
    var d :| IsLastFinisher(n.children, cursor, d) && d.end > floor
      && (var end := Earlier(d.end, cursor);
          Followed(n, floor, cursor, path)
          == Followed(n, floor, Later(d.start, floor), Blamed(d, floor, end, Appended(path, n, end, cursor))));
    LastFinisherUnique(n.children, cursor, c, d);
  }

  lemma FollowedEnds(n: Node, floor: int, cursor: int, path: seq<Segment>)
    requires floor < cursor ==> !exists c :: IsLastFinisher(n.children, cursor, c) && c.end > floor
    ensures Followed(n, floor, cursor, path) == Appended(path, n, floor, cursor)
  {
  }

  // ------------------------------------------------------------- the descent

  /** Half way down the children in order of finishing: what was passed over had
      not started at the cursor. */
  ghost predicate Passed(kids: seq<Node>, i: nat, floor: int, cursor: int) {
    i <= |kids| && (floor < cursor ==> forall k :: 0 <= k < i ==> kids[k].start >= cursor)
  }

  lemma NextIsLast(kids: seq<Node>, of: seq<Node>, i: nat, floor: int, cursor: int)
    requires ByFinish(kids, of) && Passed(kids, i, floor, cursor) && floor < cursor
    requires i < |kids| && kids[i].start < cursor
    ensures IsLastFinisher(of, cursor, kids[i])
  {
    assert kids[i] in kids;
  }

  /** Once a child finished before the floor, so did all that are left. */
  lemma NoneLeft(kids: seq<Node>, of: seq<Node>, i: nat, floor: int, cursor: int)
    requires ByFinish(kids, of) && Passed(kids, i, floor, cursor) && floor < cursor
    requires i < |kids| ==> kids[i].end <= floor
    ensures !exists c :: IsLastFinisher(of, cursor, c) && c.end > floor
    ensures forall k :: 0 <= k < |kids| ==> kids[k].start >= cursor || kids[k].end <= floor
  {
    forall k | 0 <= k < |kids|
      ensures kids[k].start >= cursor || kids[k].end <= floor
    {
      assert i < k ==> FinishedLater(kids[i], kids[k]);
    }
  }

  /** criticalPath: one pass over the children in order of finishing follows the
      path that looks afresh at all of them each time. */
  method Descend(n: Node, floor: int, ceiling: int, path: seq<Segment>) returns (r: seq<Segment>)
    requires Tidy(n)
    ensures r == Blamed(n, floor, ceiling, path)
    decreases n
  {
    hide Appended, IsLastFinisher, ByFinish;
    var low, cursor := Later(floor, n.start), Earlier(ceiling, n.end);
    r := path;
    var kids := SortByFinish(n.children);
    var i := 0;
    while i < |kids|
      invariant Passed(kids, i, low, cursor)
      invariant Followed(n, low, cursor, r) == Blamed(n, floor, ceiling, path)
    {
      var c := kids[i];
      var end := Earlier(c.end, cursor);
      if end <= low {
        break;
      }
      if c.start < cursor {
        NextIsLast(kids, n.children, i, low, cursor);
        FollowedNext(n, low, cursor, r, c);
        IsAChild(kids, n.children, i);
        r := AppendSegment(r, n, end, cursor);
        r := Descend(c, low, end, r);
        cursor := Later(c.start, low);
      }
      i := i + 1;
    }
    if low < cursor {
      NoneLeft(kids, n.children, i, low, cursor);
    }
    FollowedEnds(n, low, cursor, r);
    r := AppendSegment(r, n, low, cursor);
  }

  lemma IsAChild(kids: seq<Node>, of: seq<Node>, i: nat)
    requires ByFinish(kids, of) && i < |kids|
    ensures kids[i] in of
  {
  }

  // ------------------------------------------------------ what the path means

  /** Of different siblings that had started, one finished last. */
  lemma {:induction false} HasLastFinisher(kids: seq<Node>, cursor: int, d: Node) returns (c: Node)
    requires forall i, j :: 0 <= i < j < |kids| ==> NodeBefore(kids[i], kids[j])
    requires d in kids && d.start < cursor
    ensures IsLastFinisher(kids, cursor, c) && (c == d || FinishedLater(c, d))
    decreases |kids|
  {
    var last := |kids| - 1;
    var x, rest := kids[last], kids[..last];
    assert kids == rest + [x];
    if e :| e in rest && e.start < cursor && (d == e || d == x) {
      var b := HasLastFinisher(rest, cursor, e);
      if x.start < cursor {
        Different(kids, b, x);
        OneIsLater(b, x);
        c := if FinishedLater(x, b) then x else b;
        forall y | y in kids && y.start < cursor && y != c
          ensures FinishedLater(c, y)
        {
          if y in rest && y != b && c == x {
            LaterTransitive(x, b, y);
          }
        }
      } else {
        c := b;
      }
    } else {
      c := x;
    }
  }

  lemma Different(kids: seq<Node>, b: Node, x: Node)
    requires forall i, j :: 0 <= i < j < |kids| ==> NodeBefore(kids[i], kids[j])
    requires kids != [] && x == kids[|kids| - 1] && b in kids[..|kids| - 1]
    ensures NodeBefore(b, x)
  {
  }

  lemma LaterTransitive(a: Node, b: Node, c: Node)
    requires FinishedLater(a, b) && FinishedLater(b, c)
    ensures FinishedLater(a, c)
  {
    if LexLess(b.id, a.id) && LexLess(c.id, b.id) {
      LexTransitive(c.id, b.id, a.id);
    }
  }

  /** A stretch that every child that had started finished before is the span's
      own. */
  lemma OwnStretch(n: Node, from: int, cursor: int)
    requires n.start <= from < cursor <= n.end
    requires forall d :: d in n.children && d.start < cursor ==> d.end <= from
    ensures Own(Segment(n, from, cursor))
  {
  }

  lemma {:induction false} UnderChild(top: Node, n: Node, c: Node)
    requires Under(top, n) && c in n.children
    ensures Under(top, c)
    decreases top
  {
    if n == top {
      assert Under(c, c);
    } else {
      var d :| d in top.children && Under(d, n);
      UnderChild(d, n, c);
    }
  }

  /** The path explains its window: consecutive stretches from top to bottom,
      each inside the span it is charged to, at moments when none of that span's
      children runs. */
  lemma {:induction false} FollowedIsOwn(n: Node, floor: int, cursor: int, path: seq<Segment>, hi: int, top: Node)
    requires Tidy(n) && Under(top, n) && n.start <= floor && cursor <= n.end
    requires Backwards(path, cursor, hi) && Charged(path, top)
    ensures Backwards(Followed(n, floor, cursor, path), Earlier(floor, cursor), hi)
    ensures Charged(Followed(n, floor, cursor, path), top)
    decreases n, if cursor > floor then cursor - floor else 0
  {
    hide Backwards, Charged, Under, Own, Appended;
    if floor < cursor {
      if c :| IsLastFinisher(n.children, cursor, c) && c.end > floor {
        var end := Earlier(c.end, cursor);
        FollowedNext(n, floor, cursor, path, c);
        hide Followed;
        if end < cursor {
          OwnStretch(n, end, cursor);
        }
        AppendedIsOwn(path, n, end, cursor, hi, top);
        UnderChild(top, n, c);
        assert Tidy(c);
        var above := Appended(path, n, end, cursor);
        FollowedIsOwn(c, Later(floor, c.start), end, above, hi, top);
        FollowedIsOwn(n, floor, Later(c.start, floor), Blamed(c, floor, end, above), hi, top);
      } else {
        if d :| d in n.children && d.start < cursor && d.end > floor {
          var c := HasLastFinisher(n.children, cursor, d);
          assert false;
        }
        OwnStretch(n, floor, cursor);
        FollowedEnds(n, floor, cursor, path);
        AppendedIsOwn(path, n, floor, cursor, hi, top);
      }
    }
  }

  // --------------------------------------------------- who is being waited on

  /** At moment t span n waits on its child c: of the children that have started by
      then none ends later, and c has not ended. Of those that end together it is the
      one that started last, and of those that started together the one with the
      largest identifier. */
  ghost predicate HeldUpBy(n: Node, t: int, c: Node) {
    && c in n.children && c.start <= t < c.end
    && forall d :: d in n.children && d.start <= t && d != c ==>
         || d.end < c.end
         || (d.end == c.end && d.start < c.start)
         || (d.end == c.end && d.start == c.start && LexLess(d.id, c.id))
  }

  /** At moment t the span that n waits on, child by child, is m. */
  ghost predicate WaitsOn(n: Node, t: int, m: Node) {
    if exists c :: HeldUpBy(n, t, c) then exists c :: c in n.children && HeldUpBy(n, t, c) && WaitsOn(c, t, m)
    else m == n
  }

  /** Some stretch of the path charges moment t to m. */
  ghost predicate ChargedAt(path: seq<Segment>, m: Node, t: int) {
    exists i :: 0 <= i < |path| && path[i].node == m && Within(path[i].start, t, path[i].end)
  }

  lemma HeldUpByOne(n: Node, t: int, c: Node, d: Node)
    requires HeldUpBy(n, t, c) && HeldUpBy(n, t, d)
    ensures c == d
  {
    if c != d {
      if c.id == d.id {
        LexIrreflexive(c.id);
      } else if LexLess(c.id, d.id) {
        LexAsymmetric(c.id, d.id);
      }
      assert false;
    }
  }

  /** There is exactly one such span at each moment. */
  lemma {:induction false} WaitsOnOne(n: Node, t: int) returns (m: Node)
    ensures WaitsOn(n, t, m) && forall k :: WaitsOn(n, t, k) ==> k == m
    decreases n
  {
    if c :| HeldUpBy(n, t, c) {
      m := WaitsOnOne(c, t);
      forall k | WaitsOn(n, t, k)
        ensures k == m
      {
        var d :| d in n.children && HeldUpBy(n, t, d) && WaitsOn(d, t, k);
        HeldUpByOne(n, t, c, d);
      }
    } else {
      m := n;
    }
  }

  lemma WaitsOnChild(n: Node, t: int, c: Node, m: Node)
    requires HeldUpBy(n, t, c) && WaitsOn(c, t, m)
    ensures WaitsOn(n, t, m)
  {
  }

  lemma WaitsOnNobody(n: Node, t: int)
    requires forall c :: c in n.children && c.start <= t ==> c.end <= t
    ensures WaitsOn(n, t, n)
  {
  }

  /** While the last to finish of those that had started runs, it is waited on; and
      after it has ended, nobody is. */
  lemma LastFinisherHoldsUp(n: Node, cursor: int, c: Node, t: int)
    requires IsLastFinisher(n.children, cursor, c) && t < cursor
    ensures c.start <= t < c.end ==> HeldUpBy(n, t, c)
    ensures c.end <= t ==> WaitsOn(n, t, n)
  {
    forall d | d in n.children && d.start <= t
      ensures d == c || FinishedLater(c, d)
    {
    }
  }

  lemma AppendedChargesAt(path: seq<Segment>, n: Node, start: int, end: int, m: Node, t: int)
    requires ChargedAt(Appended(path, n, start, end), m, t)
    ensures ChargedAt(path, m, t) || (m == n && Within(start, t, end))
  {
    var r := Appended(path, n, start, end);
    var i :| 0 <= i < |r| && r[i].node == m && Within(r[i].start, t, r[i].end);
    var last := |path| - 1;
    if i < last || r == path {
      assert path[i] == r[i];
    } else if i == last && r[i] != path[i] {
      assert Within(start, t, end) || Within(path[last].start, t, path[last].end);
    }
  }

  /** Whatever the descent adds to the path is charged, moment by moment, to the span
      that was being waited on. */
  lemma {:induction false} FollowedWaits(n: Node, floor: int, cursor: int, path: seq<Segment>, m: Node, t: int)
    requires Tidy(n) && ChargedAt(Followed(n, floor, cursor, path), m, t)
    ensures ChargedAt(path, m, t) || (Within(floor, t, cursor) && WaitsOn(n, t, m))
    decreases n, if cursor > floor then cursor - floor else 0
  {
    hide ChargedAt, WaitsOn, HeldUpBy, Appended;
    if floor < cursor {
      if c :| IsLastFinisher(n.children, cursor, c) && c.end > floor {
        var end := Earlier(c.end, cursor);
        var above := Appended(path, n, end, cursor);
        FollowedNext(n, floor, cursor, path, c);
        hide Followed;
        assert Tidy(c);
        FollowedWaits(n, floor, Later(c.start, floor), Blamed(c, floor, end, above), m, t);
        if t < cursor {
          LastFinisherHoldsUp(n, cursor, c, t);
        }
        if ChargedAt(Blamed(c, floor, end, above), m, t) {
          FollowedWaits(c, Later(floor, c.start), end, above, m, t);
          if Within(Later(floor, c.start), t, end) && WaitsOn(c, t, m) {
            WaitsOnChild(n, t, c, m);
          } else {
            AppendedChargesAt(path, n, end, cursor, m, t);
          }
        }
      } else {
        FollowedEnds(n, floor, cursor, path);
        hide Followed;
        AppendedChargesAt(path, n, floor, cursor, m, t);
        if d :| d in n.children && d.start < cursor && d.end > floor {
          var c := HasLastFinisher(n.children, cursor, d);
          assert false;
        }
        if Within(floor, t, cursor) {
          WaitsOnNobody(n, t);
        }
      }
    }
  }

  // -------------------------------------------------------- the whole span

  /** Consecutive non-empty stretches from lo up to hi, no two neighbours of one
      span. */
  ghost predicate Tiles(path: seq<Segment>, lo: int, hi: int) {
    && (path == [] ==> lo == hi)
    && (path != [] ==> path[0].start == lo && path[|path| - 1].end == hi)
    && (forall i :: 0 <= i < |path| ==> path[i].start < path[i].end)
    && (forall i :: 0 < i < |path| ==> path[i].start == path[i - 1].end && path[i].node != path[i - 1].node)
  }

  function Reversed(path: seq<Segment>): (r: seq<Segment>)
    ensures |r| == |path| && forall i :: 0 <= i < |path| ==> r[i] == path[|path| - 1 - i]
  {
    seq(|path|, i requires 0 <= i < |path| => path[|path| - 1 - i])
  }

  lemma ReversedTiles(path: seq<Segment>, lo: int, hi: int, top: Node)
    requires Backwards(path, lo, hi) && Charged(path, top)
    ensures Tiles(Reversed(path), lo, hi) && Charged(Reversed(path), top)
  {
    hide Under, AnyRuns;
    var r := Reversed(path);
    forall i | 0 <= i < |r|
      ensures Own(r[i]) && Under(top, r[i].node) && r[i].start < r[i].end
    {
      assert Own(path[|path| - 1 - i]);
    }
    forall i | 0 < i < |r|
      ensures r[i].start == r[i - 1].end && r[i].node != r[i - 1].node
    {
      assert path[|path| - i].end == path[|path| - i - 1].start;
    }
  }

  lemma TilesFront(path: seq<Segment>, lo: int, hi: int)
    requires Tiles(path, lo, hi) && path != []
    ensures Tiles(path[..|path| - 1], lo, path[|path| - 1].start)
    ensures lo <= path[|path| - 1].start < hi
    decreases |path|
  {
    var last := |path| - 1;
    if last > 0 {
      assert path[last].start == path[last - 1].end;
      TilesFront(path[..last], lo, path[last].start);
    }
  }

  lemma {:induction false} TilesCover(path: seq<Segment>, lo: int, hi: int, t: int) returns (i: nat)
    requires Tiles(path, lo, hi) && lo <= t < hi
    ensures i < |path| && path[i].start <= t < path[i].end
    decreases |path|
  {
    var last := |path| - 1;
    TilesFront(path, lo, hi);
    if path[last].start <= t {
      i := last;
    } else {
      i := TilesCover(path[..last], lo, path[last].start, t);
    }
  }

  lemma ReversedChargesAt(path: seq<Segment>, m: Node, t: int)
    ensures ChargedAt(Reversed(path), m, t) <==> ChargedAt(path, m, t)
  {
    var r := Reversed(path);
    if i :| 0 <= i < |r| && r[i].node == m && Within(r[i].start, t, r[i].end) {
      assert path[|path| - 1 - i] == r[i];
    }
    if i :| 0 <= i < |path| && path[i].node == m && Within(path[i].start, t, path[i].end) {
      assert r[|path| - 1 - i] == path[i];
    }
  }

  /** A path that tiles a span and charges nobody but who is waited on charges each
      moment to just that span. */
  lemma TilesWaits(path: seq<Segment>, n: Node, t: int, m: Node)
    requires Tiles(path, n.start, n.end)
    requires forall k :: ChargedAt(path, k, t) ==> Within(n.start, t, n.end) && WaitsOn(n, t, k)
    ensures ChargedAt(path, m, t) <==> Within(n.start, t, n.end) && WaitsOn(n, t, m)
  {
    if Within(n.start, t, n.end) && WaitsOn(n, t, m) {
      var i := TilesCover(path, n.start, n.end, t);
      assert Within(path[i].start, t, path[i].end);
      assert ChargedAt(path, path[i].node, t);
      var only := WaitsOnOne(n, t);
      assert path[i].node == only == m;
    }
  }

  /** CriticalPath: tiles the span exactly once, and charges each moment of it to the
      span that was being waited on, and to no other. */
  method CriticalPath(n: Node) returns (path: seq<Segment>)
    requires Tidy(n)
    ensures path == Reversed(Blamed(n, n.start, n.end, []))
    ensures Tiles(path, n.start, n.end) && Charged(path, n)
    ensures forall m, t :: ChargedAt(path, m, t) <==> n.start <= t < n.end && WaitsOn(n, t, m)
  {
    hide Backwards, Charged, Followed, Tidy, ChargedAt, WaitsOn;
    ghost var walked := Blamed(n, n.start, n.end, []);
    assert Backwards([], n.end, n.end) && Charged([], n) && Under(n, n) && n.start <= n.end by {
      NothingCharged(n);
    }
    FollowedIsOwn(n, n.start, n.end, [], n.end, n);
    ReversedTiles(walked, n.start, n.end, n);
    WalkedWaits(n, walked);
    path := Descend(n, n.start, n.end, []);
    var i, j := 0, |path| - 1;
    while i < j
      invariant 0 <= i && i + j == |walked| - 1 && |path| == |walked| && i <= j + 1
      invariant forall k :: 0 <= k < i ==> path[k] == walked[|walked| - 1 - k]
      invariant forall k :: j < k < |walked| ==> path[k] == walked[|walked| - 1 - k]
      invariant forall k :: i <= k <= j ==> path[k] == walked[k]
    {
      path := path[i := path[j]][j := path[i]];
      i, j := i + 1, j - 1;
    }
    assert path == Reversed(walked);
  }

  lemma WalkedWaits(n: Node, walked: seq<Segment>)
    requires Tidy(n) && walked == Blamed(n, n.start, n.end, []) && Tiles(Reversed(walked), n.start, n.end)
    ensures forall m, t :: ChargedAt(Reversed(walked), m, t) <==> n.start <= t < n.end && WaitsOn(n, t, m)
  {
    forall m, t
      ensures ChargedAt(Reversed(walked), m, t) <==> n.start <= t < n.end && WaitsOn(n, t, m)
    {
      forall k | ChargedAt(Reversed(walked), k, t)
        ensures Within(n.start, t, n.end) && WaitsOn(n, t, k)
      {
        ReversedChargesAt(walked, k, t);
        FollowedWaits(n, n.start, n.end, [], k, t);
        assert !ChargedAt([], k, t);
      }
      hide Followed, Tiles, Reversed, ChargedAt, WaitsOn;
      TilesWaits(Reversed(walked), n, t, m);
    }
  }

  lemma NothingCharged(n: Node)
    requires Tidy(n)
    ensures Backwards([], n.end, n.end) && Charged([], n) && Under(n, n) && n.start <= n.end
  {
  }
}
