/** What a stable sort leaves, whatever the algorithm, and what it does not change. */
module Sorting {

  /** less is a strict order, in which elements may also be alike. */
  ghost predicate IsOrder<T(!new)>(less: (T, T) -> bool) {
    && (forall a, b :: !(less(a, b) && less(b, a)))
    && (forall a, b, c :: !less(b, a) && !less(c, b) ==> !less(c, a))
  }

  predicate InOrder<T>(s: seq<T>, less: (T, T) -> bool) {
    (forall i, j :: 0 <= i < j < |s| ==> !less(s[j], s[i])) == true
  }

  /** e goes behind all that are not greater. */
  function Insert<T>(s: seq<T>, e: T, less: (T, T) -> bool): (r: seq<T>)
    ensures |r| == |s| + 1
  {
    if s == [] || !less(e, s[|s| - 1]) then s + [e]
    else Insert(s[..|s| - 1], e, less) + [s[|s| - 1]]
  }

  function StableSort<T>(s: seq<T>, less: (T, T) -> bool): (r: seq<T>)
    ensures |r| == |s|
  {
    if s == [] then [] else Insert(StableSort(s[..|s| - 1], less), s[|s| - 1], less)
  }

  lemma FrontAndLast<T>(s: seq<T>)
    requires s != []
    ensures s == s[..|s| - 1] + [s[|s| - 1]]
  {
  }

  lemma {:induction false} InsertPermutes<T>(s: seq<T>, e: T, less: (T, T) -> bool)
    ensures multiset(Insert(s, e, less)) == multiset(s) + multiset{e}
  {
    if s != [] && less(e, s[|s| - 1]) {
      InsertPermutes(s[..|s| - 1], e, less);
      FrontAndLast(s);
    }
  }

  /** Sorting loses and doubles nothing. */
  lemma {:induction false} SortPermutes<T>(s: seq<T>, less: (T, T) -> bool)
    ensures multiset(StableSort(s, less)) == multiset(s)
  {
    if s != [] {
      SortPermutes(s[..|s| - 1], less);
      InsertPermutes(StableSort(s[..|s| - 1], less), s[|s| - 1], less);
      FrontAndLast(s);
    }
  }

  lemma InsertHolds<T>(s: seq<T>, e: T, less: (T, T) -> bool, x: T)
    ensures x in Insert(s, e, less) <==> x in s || x == e
  {
    InsertPermutes(s, e, less);
    assert x in Insert(s, e, less) <==> x in multiset(Insert(s, e, less));
  }

  lemma SortHolds<T>(s: seq<T>, less: (T, T) -> bool, x: T)
    ensures x in StableSort(s, less) <==> x in s
  {
    SortPermutes(s, less);
    assert x in StableSort(s, less) <==> x in multiset(StableSort(s, less));
  }

  /** Behind elements in order none of which is greater the order goes on. */
  lemma OrderGoesOn<T>(s: seq<T>, e: T, less: (T, T) -> bool)
    requires InOrder(s, less) && forall x :: x in s ==> !less(e, x)
    ensures InOrder(s + [e], less)
  {
  }

  lemma FirstInOrder<T>(s: seq<T>, n: nat, less: (T, T) -> bool)
    requires InOrder(s, less) && n <= |s|
    ensures InOrder(s[..n], less)
  {
  }

  lemma LastIsGreatest<T(!new)>(s: seq<T>, e: T, less: (T, T) -> bool)
    requires IsOrder(less) && InOrder(s, less) && s != [] && !less(e, s[|s| - 1])
    ensures forall x :: x in s ==> !less(e, x)
  {
    forall i | 0 <= i < |s| ensures !less(e, s[i]) {
      assert i < |s| - 1 ==> !less(s[|s| - 1], s[i]);
    }
  }

  lemma {:induction false} InsertOrders<T(!new)>(s: seq<T>, e: T, less: (T, T) -> bool)
    requires IsOrder(less) && InOrder(s, less)
    ensures InOrder(Insert(s, e, less), less)
  {
    if s == [] {
    } else if less(e, s[|s| - 1]) {
      var front, last := s[..|s| - 1], s[|s| - 1];
      FirstInOrder(s, |s| - 1, less);
      InsertOrders(front, e, less);
      forall x | x in Insert(front, e, less) ensures !less(last, x) {
        InsertHolds(front, e, less, x);
        if x in front {
          var i :| 0 <= i < |front| && s[i] == x;
        }
      }
      OrderGoesOn(Insert(front, e, less), last, less);
    } else {
      LastIsGreatest(s, e, less);
      OrderGoesOn(s, e, less);
    }
  }

  lemma {:induction false} SortOrders<T(!new)>(s: seq<T>, less: (T, T) -> bool)
    requires IsOrder(less)
    ensures InOrder(StableSort(s, less), less)
  {
    if s != [] {
      SortOrders(s[..|s| - 1], less);
      InsertOrders(StableSort(s[..|s| - 1], less), s[|s| - 1], less);
    }
  }

  /** What is in order already stays as it is. */
  lemma {:induction false} SortedStays<T>(s: seq<T>, less: (T, T) -> bool)
    requires InOrder(s, less)
    ensures StableSort(s, less) == s
  {
    if s != [] {
      FirstInOrder(s, |s| - 1, less);
      SortedStays(s[..|s| - 1], less);
      FrontAndLast(s);
    }
  }

  lemma SortNext<T>(s: seq<T>, e: T, less: (T, T) -> bool)
    ensures StableSort(s + [e], less) == Insert(StableSort(s, less), e, less)
  {
    assert (s + [e])[..|s|] == s;
  }

  /** Sorting what is sorted with one more is sorting all at once. */
  lemma SortAgain<T(!new)>(s: seq<T>, e: T, less: (T, T) -> bool)
    requires IsOrder(less)
    ensures StableSort(StableSort(s, less) + [e], less) == StableSort(s + [e], less)
  {
    SortOrders(s, less);
    SortedStays(StableSort(s, less), less);
    SortNext(StableSort(s, less), e, less);
    SortNext(s, e, less);
  }

  // ------------------------------------------------------------- sums and kinds

  function Sum<T>(s: seq<T>, weight: T -> nat): nat {
    if s == [] then 0 else Sum(s[..|s| - 1], weight) + weight(s[|s| - 1])
  }

  lemma SumNext<T>(s: seq<T>, e: T, weight: T -> nat)
    ensures Sum(s + [e], weight) == Sum(s, weight) + weight(e)
  {
    assert (s + [e])[..|s|] == s;
  }

  lemma {:induction false} InsertSum<T>(s: seq<T>, e: T, less: (T, T) -> bool, weight: T -> nat)
    ensures Sum(Insert(s, e, less), weight) == Sum(s, weight) + weight(e)
  {
    if s == [] || !less(e, s[|s| - 1]) {
      SumNext(s, e, weight);
    } else {
      InsertSum(s[..|s| - 1], e, less, weight);
      SumNext(Insert(s[..|s| - 1], e, less), s[|s| - 1], weight);
    }
  }

  /** So sums over the elements stay the same. */
  lemma {:induction false} SortSum<T>(s: seq<T>, less: (T, T) -> bool, weight: T -> nat)
    ensures Sum(StableSort(s, less), weight) == Sum(s, weight)
  {
    if s != [] {
      SortSum(s[..|s| - 1], less, weight);
      InsertSum(StableSort(s[..|s| - 1], less), s[|s| - 1], less, weight);
    }
  }

  /** The elements of a kind, in their order. */
  function Among<T>(s: seq<T>, kind: T -> bool): seq<T> {
    if s == [] then []
    else Among(s[..|s| - 1], kind) + (if kind(s[|s| - 1]) then [s[|s| - 1]] else [])
  }

  lemma AmongNext<T>(s: seq<T>, e: T, kind: T -> bool)
    ensures Among(s + [e], kind) == if kind(e) then Among(s, kind) + [e] else Among(s, kind)
  {
    assert (s + [e])[..|s|] == s;
  }

  ghost predicate Alike<T(!new)>(kind: T -> bool, less: (T, T) -> bool) {
    forall x, y :: kind(x) && kind(y) ==> !less(x, y)
  }

  lemma {:induction false} InsertAmong<T(!new)>(s: seq<T>, e: T, less: (T, T) -> bool, kind: T -> bool)
    requires Alike(kind, less)
    ensures Among(Insert(s, e, less), kind) == if kind(e) then Among(s, kind) + [e] else Among(s, kind)
  {
    AmongNext(s, e, kind);
    if s != [] && less(e, s[|s| - 1]) {
      var front, last := s[..|s| - 1], s[|s| - 1];
      InsertAmong(front, e, less, kind);
      AmongNext(Insert(front, e, less), last, kind);
      AmongNext(front, last, kind);
      FrontAndLast(s);
    }
  }

  /** Elements of which none is less than another keep their order, and none is lost. */
  lemma {:induction false} SortIsStable<T(!new)>(s: seq<T>, less: (T, T) -> bool, kind: T -> bool)
    requires Alike(kind, less)
    ensures Among(StableSort(s, less), kind) == Among(s, kind)
  {
    if s != [] {
      SortIsStable(s[..|s| - 1], less, kind);
      InsertAmong(StableSort(s[..|s| - 1], less), s[|s| - 1], less, kind);
    }
  }

  // -------------------------------------------------------------- all different

  ghost predicate Symmetric<T(!new)>(ok: (T, T) -> bool) {
    forall a, b :: ok(a, b) == ok(b, a)
  }

  predicate Pairwise<T>(s: seq<T>, ok: (T, T) -> bool) {
    (forall i, j :: 0 <= i < j < |s| ==> ok(s[i], s[j])) == true
  }

  predicate AllOk<T>(s: seq<T>, e: T, ok: (T, T) -> bool) {
    (forall i :: 0 <= i < |s| ==> ok(s[i], e)) == true
  }

  lemma PairwiseNext<T>(s: seq<T>, e: T, ok: (T, T) -> bool)
    ensures Pairwise(s + [e], ok) <==> Pairwise(s, ok) && AllOk(s, e, ok)
  {
    var r := s + [e];
    assert r[|s|] == e && forall i :: 0 <= i < |s| ==> r[i] == s[i];
  }

  lemma InsertOk<T>(s: seq<T>, e: T, less: (T, T) -> bool, x: T, ok: (T, T) -> bool)
    requires AllOk(s, x, ok) && ok(e, x)
    ensures AllOk(Insert(s, e, less), x, ok)
  {
    var r := Insert(s, e, less);
    forall i | 0 <= i < |r| ensures ok(r[i], x) {
      InsertHolds(s, e, less, r[i]);
    }
  }

  lemma {:induction false} InsertPairwise<T(!new)>(s: seq<T>, e: T, less: (T, T) -> bool, ok: (T, T) -> bool)
    requires Symmetric(ok) && Pairwise(s, ok) && AllOk(s, e, ok)
    ensures Pairwise(Insert(s, e, less), ok)
  {
    if s == [] || !less(e, s[|s| - 1]) {
      PairwiseNext(s, e, ok);
    } else {
      var front, last := s[..|s| - 1], s[|s| - 1];
      FrontAndLast(s);
      PairwiseNext(front, last, ok);
      assert ok(last, e) && ok(e, last);
      InsertPairwise(front, e, less, ok);
      InsertOk(front, e, less, last, ok);
      PairwiseNext(Insert(front, e, less), last, ok);
    }
  }

  /** What every two elements satisfy they satisfy sorted. */
  lemma {:induction false} SortPairwise<T(!new)>(s: seq<T>, less: (T, T) -> bool, ok: (T, T) -> bool)
    requires Symmetric(ok) && Pairwise(s, ok)
    ensures Pairwise(StableSort(s, less), ok)
  {
    if s != [] {
      var front, last := s[..|s| - 1], s[|s| - 1];
      FrontAndLast(s);
      PairwiseNext(front, last, ok);
      SortPairwise(front, less, ok);
      var r := StableSort(front, less);
      forall i | 0 <= i < |r| ensures ok(r[i], last) {
        SortHolds(front, less, r[i]);
      }
      InsertPairwise(r, last, less, ok);
    }
  }
}
