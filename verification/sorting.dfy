/** The two library facilities everything here sorts with: the lexicographic
    comparison of byte strings and a sort by a caller's ordering. */
module Sorting {

  /** slices.Compare(a, b) < 0. */
  predicate LexLess(a: seq<int>, b: seq<int>) {
    if b == [] then false
    else if a == [] then true
    else if a[0] != b[0] then a[0] < b[0]
    else LexLess(a[1..], b[1..])
  }

  /** One byte string comes before another exactly if it is a strict beginning of
      it, or has the smaller byte where they first differ. */
  lemma {:induction false} LexLessIs(a: seq<int>, b: seq<int>)
    ensures LexLess(a, b) <==> exists k :: FirstDiffer(a, b, k) && (k == |a| || a[k] < b[k])
  {
    if a != [] && b != [] && a[0] == b[0] {
      LexLessIs(a[1..], b[1..]);
      if k :| FirstDiffer(a, b, k) && (k == |a| || a[k] < b[k]) {
        assert k > 0 && FirstDiffer(a[1..], b[1..], k - 1);
      }
      if k :| FirstDiffer(a[1..], b[1..], k) && (k == |a[1..]| || a[1..][k] < b[1..][k]) {
        assert FirstDiffer(a, b, k + 1);
      }
    } else if b != [] {
      assert FirstDiffer(a, b, 0);
    }
  }

  /** The two agree before position k, where the second goes on and the first ends
      or has another byte. */
  ghost predicate FirstDiffer(a: seq<int>, b: seq<int>, k: int) {
    && 0 <= k <= |a| && k < |b|
    && (forall i :: 0 <= i < k ==> a[i] == b[i])
    && (k < |a| ==> a[k] != b[k])
  }

  lemma {:induction false} LexAsymmetric(a: seq<int>, b: seq<int>)
    requires LexLess(a, b)
    ensures !LexLess(b, a)
  {
    if a != [] && a[0] == b[0] {
      LexAsymmetric(a[1..], b[1..]);
    }
  }

  lemma {:induction false} LexTransitive(a: seq<int>, b: seq<int>, c: seq<int>)
    requires LexLess(a, b) && LexLess(b, c)
    ensures LexLess(a, c)
  {
    if a != [] && a[0] == b[0] == c[0] {
      LexTransitive(a[1..], b[1..], c[1..]);
    }
  }

  lemma {:induction false} LexConnected(a: seq<int>, b: seq<int>)
    requires a != b
    ensures LexLess(a, b) || LexLess(b, a)
  {
    if a != [] && b != [] && a[0] == b[0] {
      assert a == [a[0]] + a[1..] && b == [b[0]] + b[1..];
      LexConnected(a[1..], b[1..]);
    }
  }

  /** The ordering a sort may be handed: asymmetric, and "not before" chains. */
  ghost predicate Asymmetric<T(!new)>(less: (T, T) -> bool) {
    forall x, y :: less(x, y) ==> !less(y, x)
  }

  ghost predicate NotBefore<T(!new)>(less: (T, T) -> bool, x: T) {
    forall y, z :: !less(x, y) && !less(y, z) ==> !less(x, z)
  }

  ghost predicate StrictWeak<T(!new)>(less: (T, T) -> bool) {
    Asymmetric(less) && forall x :: NotBefore(less, x)
  }

  ghost predicate SortedBy<T(!new)>(s: seq<T>, less: (T, T) -> bool) {
    forall i, j :: 0 <= i < j < |s| ==> !less(s[j], s[i])
  }

  lemma SortedWithInserted<T(!new)>(s: seq<T>, x: T, k: nat, less: (T, T) -> bool)
    requires k <= |s| && SortedBy(s, less) && Asymmetric(less) && NotBefore(less, x)
    requires k > 0 ==> !less(x, s[k - 1])
    requires forall j :: k <= j < |s| ==> less(x, s[j])
    ensures SortedBy(s[..k] + [x] + s[k..], less)
  {
    var r := s[..k] + [x] + s[k..];
    forall i, j | 0 <= i < j < |r|
      ensures !less(r[j], r[i])
    {
      if j == k {
        assert i < k - 1 ==> !less(s[k - 1], s[i]);
      } else if i == k {
        assert less(x, s[j - 1]);
      }
    }
  }

  /** The elements of s that the ordering does not tell from z, in the order they
      have there. */
  ghost function Alike<T>(s: seq<T>, less: (T, T) -> bool, z: T): seq<T> {
    if s == [] then []
    else
      var n := |s| - 1;
      Alike(s[..n], less, z) + if less(s[n], z) || less(z, s[n]) then [] else [s[n]]
  }

  lemma {:induction false} AlikeConcat<T>(s: seq<T>, t: seq<T>, less: (T, T) -> bool, z: T)
    ensures Alike(s + t, less, z) == Alike(s, less, z) + Alike(t, less, z)
    decreases |t|
  {
    if t == [] {
      assert s + t == s;
    } else {
      var n := |t| - 1;
      AlikeConcat(s, t[..n], less, z);
      assert (s + t)[..|s + t| - 1] == s + t[..n];
    }
  }

  lemma {:induction false} NoneAlike<T>(s: seq<T>, less: (T, T) -> bool, z: T)
    requires forall y :: y in s ==> less(y, z) || less(z, y)
    ensures Alike(s, less, z) == []
  {
    if s != [] {
      var n := |s| - 1;
      assert s[n] in s && forall y :: y in s[..n] ==> y in s;
      NoneAlike(s[..n], less, z);
    }
  }

  /** Inserting x before elements that it precedes reorders nothing alike. */
  lemma InsertedAlike<T(!new)>(front: seq<T>, x: T, back: seq<T>, less: (T, T) -> bool, z: T)
    requires StrictWeak(less) && forall y :: y in back ==> less(x, y)
    ensures Alike(front + [x] + back, less, z) == Alike(front + back + [x], less, z)
  {
    AlikeConcat(front + [x], back, less, z);
    AlikeConcat(front, [x], less, z);
    AlikeConcat(front + back, [x], less, z);
    AlikeConcat(front, back, less, z);
    if less(x, z) || less(z, x) {
      assert Alike([x], less, z) == [];
    } else {
      forall y | y in back
        ensures less(y, z) || less(z, y)
      {
        assert NotBefore(less, y) && NotBefore(less, x) && NotBefore(less, z);
        assert !less(x, z) && less(x, y);
      }
      NoneAlike(back, less, z);
    }
  }

  /** Puts x after every element it does not precede. */
  method InsertSorted<T(!new)>(s: seq<T>, x: T, less: (T, T) -> bool) returns (r: seq<T>)
    requires StrictWeak(less) && SortedBy(s, less)
    ensures SortedBy(r, less)
    ensures multiset(r) == multiset(s) + multiset{x}
    ensures forall z :: Alike(r, less, z) == Alike(s + [x], less, z)
  {
    var k := |s|;
    while k > 0 && less(x, s[k - 1])
      invariant 0 <= k <= |s|
      invariant forall j :: k <= j < |s| ==> less(x, s[j])
    {
      k := k - 1;
    }
    assert NotBefore(less, x);
    SortedWithInserted(s, x, k, less);
    r := s[..k] + [x] + s[k..];
    assert s == s[..k] + s[k..];
    forall z
      ensures Alike(r, less, z) == Alike(s + [x], less, z)
    {
      InsertedAlike(s[..k], x, s[k..], less, z);
    }
  }

  /** slices.SortStableFunc: elements the ordering does not tell apart keep the
      order they came in. */
  method SortStableFunc<T(!new)>(s: seq<T>, less: (T, T) -> bool) returns (r: seq<T>)
    requires StrictWeak(less)
    ensures SortedBy(r, less)
    ensures multiset(r) == multiset(s)
    ensures forall z :: Alike(r, less, z) == Alike(s, less, z)
  {
    hide StrictWeak, SortedBy, Alike;
    r := [];
    assert SortedBy(r, less) by { NothingToSort(less); }
    for i := 0 to |s|
      invariant SortedBy(r, less)
      invariant multiset(r) == multiset(s[..i])
      invariant forall z :: Alike(r, less, z) == Alike(s[..i], less, z)
    {
      ghost var was := r;
      r := InsertSorted(r, s[i], less);
      assert s[..i + 1] == s[..i] + [s[i]];
      forall z
        ensures Alike(r, less, z) == Alike(s[..i + 1], less, z)
      {
        AlikeConcat(was, [s[i]], less, z);
        AlikeConcat(s[..i], [s[i]], less, z);
      }
    }
    assert s[..|s|] == s;
  }

  lemma NothingToSort<T(!new)>(less: (T, T) -> bool)
    ensures SortedBy([], less)
  {
  }

  /** slices.SortFunc. */
  method SortFunc<T(!new)>(s: seq<T>, less: (T, T) -> bool) returns (r: seq<T>)
    requires StrictWeak(less)
    ensures SortedBy(r, less)
    ensures multiset(r) == multiset(s)
  {
    r := SortStableFunc(s, less);
  }

  ghost predicate NoDuplicates<T(!new)>(s: seq<T>) {
    forall i, j :: 0 <= i < j < |s| ==> s[i] != s[j]
  }

  /** s lists exactly the elements of xs, each once, in the given order. */
  ghost predicate Lists<T(!new)>(s: seq<T>, xs: set<T>, less: (T, T) -> bool) {
    && (forall x :: x in s <==> x in xs)
    && (forall i, j :: 0 <= i < j < |s| ==> less(s[i], s[j]))
  }

  lemma FirstIsLeast<T(!new)>(s: seq<T>, less: (T, T) -> bool, x: T)
    requires x in s
    requires forall i, j :: 0 <= i < j < |s| ==> less(s[i], s[j])
    ensures x == s[0] || less(s[0], x)
  {
  }

  /** An ordered list of a set is the only one. */
  lemma {:induction false} ListsUnique<T(!new)>(s: seq<T>, t: seq<T>, xs: set<T>, less: (T, T) -> bool)
    requires Asymmetric(less) && Lists(s, xs, less) && Lists(t, xs, less)
    ensures s == t
    decreases |s|
  {
    assert s != [] ==> s[0] in t;
    assert t != [] ==> t[0] in s;
    if s != [] && t != [] {
      FirstIsLeast(s, less, t[0]);
      FirstIsLeast(t, less, s[0]);
      RestLists(s, xs, less);
      RestLists(t, xs, less);
      ListsUnique(s[1..], t[1..], xs - {s[0]}, less);
    }
  }

  lemma RestLists<T(!new)>(s: seq<T>, xs: set<T>, less: (T, T) -> bool)
    requires Asymmetric(less) && Lists(s, xs, less) && s != []
    ensures Lists(s[1..], xs - {s[0]}, less)
  {
    forall x
      ensures x in s[1..] <==> x in xs - {s[0]}
    {
      if x in s[1..] {
        var i :| 0 <= i < |s[1..]| && s[1..][i] == x;
        assert less(s[0], s[i + 1]);
      }
      if x in xs && x != s[0] {
        var i :| 0 <= i < |s| && s[i] == x;
        assert s[1..][i - 1] == x;
      }
    }
  }

  lemma Member<T>(s: set<T>) returns (x: T)
    requires s != {}
    ensures x in s
  {
    x :| x in s;
  }

  /** A list with the elements of a set has each of them once. */
  lemma ListsASet<T(!new)>(s: seq<T>, xs: set<T>)
    requires multiset(s) == multiset(xs)
    ensures forall x :: x in s <==> x in xs
    ensures NoDuplicates(s)
  {
    forall x
      ensures x in s <==> x in xs
    {
      assert x in s <==> x in multiset(s);
    }
    forall i, j | 0 <= i < j < |s|
      ensures s[i] != s[j]
    {
      if s[i] == s[j] {
        OccursTwice(s, i, j);
        assert false;
      }
    }
  }

  lemma OccursTwice<T>(s: seq<T>, i: nat, j: nat)
    requires i < j < |s| && s[i] == s[j]
    ensures multiset(s)[s[i]] >= 2
  {
    assert s == s[..i] + [s[i]] + s[i + 1..j] + [s[j]] + s[j + 1..];
  }

  lemma {:induction false} SubsetSize<T>(x: set<T>, y: set<T>)
    requires x <= y
    ensures |x| <= |y|
  {
    if x != {} {
      var e :| e in x;
      SubsetSize(x - {e}, y - {e});
    }
  }
}
