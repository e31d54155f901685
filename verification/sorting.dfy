/** `Array.prototype.sort` with a comparator, as ECMAScript 2019 and later
    require it: a stable sort. `le(a, b)` holds when the comparator does not
    put `a` after `b`. The sort is insertion sort, each element placed before
    the first element it is not after, so earlier elements stay in front of
    tied later ones (`SortByStable`). */
module Sorting {
  import Seqs

  /** `le` is total and transitive, so it ranks every pair consistently. */
  ghost predicate TotalPreorder<T(!new)>(le: (T, T) -> bool) {
    && (forall x, y :: le(x, y) || le(y, x))
    && (forall x, y, z :: le(x, y) && le(y, z) ==> le(x, z))
  }

  /** Every element is ranked no later than every element after it. */
  ghost predicate Sorted<T>(le: (T, T) -> bool, s: seq<T>) {
    forall i, j :: 0 <= i < j < |s| ==> le(s[i], s[j])
  }

  /** Places `x` in front of the first element of `s` it may precede. */
  function Insert<T>(le: (T, T) -> bool, x: T, s: seq<T>): (r: seq<T>)
    ensures multiset(r) == multiset(s) + multiset{x}
    ensures |r| == |s| + 1
  {
    if |s| == 0 then [x]
    else if le(x, s[0]) then [x] + s
    else
      assert s == [s[0]] + s[1..];
      [s[0]] + Insert(le, x, s[1..])
  }

  lemma {:induction false} InsertSorted<T(!new)>(le: (T, T) -> bool, x: T, s: seq<T>)
    requires TotalPreorder(le)
    requires Sorted(le, s)
    ensures Sorted(le, Insert(le, x, s))
  {
    if |s| > 0 && !le(x, s[0]) {
      var rest := Insert(le, x, s[1..]);
      InsertSorted(le, x, s[1..]);
      assert le(s[0], x);
      forall y | y in multiset(rest)
        ensures le(s[0], y)
      {
        assert y in multiset(s[1..]) + multiset{x};
        if y in multiset(s[1..]) {
          assert y in s[1..];
        }
      }
      var r := [s[0]] + rest;
      forall i, j | 0 <= i < j < |r|
        ensures le(r[i], r[j])
      {
        if i == 0 {
          assert r[j] == rest[j - 1] && r[j] in multiset(rest);
        } else {
          assert r[i] == rest[i - 1] && r[j] == rest[j - 1];
        }
      }
    }
  }

  /** The sorted arrangement of `s`: a permutation of it. */
  function SortBy<T>(le: (T, T) -> bool, s: seq<T>): (r: seq<T>)
    ensures multiset(r) == multiset(s)
    ensures |r| == |s|
  {
    if |s| == 0 then []
    else
      assert s == [s[0]] + s[1..];
      Insert(le, s[0], SortBy(le, s[1..]))
  }

  /** Under a consistent comparator the result is in order. */
  lemma {:induction false} SortBySorted<T(!new)>(le: (T, T) -> bool, s: seq<T>)
    requires TotalPreorder(le)
    ensures Sorted(le, SortBy(le, s))
  {
    if |s| > 0 {
      SortBySorted(le, s[1..]);
      InsertSorted(le, s[0], SortBy(le, s[1..]));
    }
  }

  /** The elements ranked level with `k`: neither is after the other. */
  function TiedWith<T>(le: (T, T) -> bool, k: T): T -> bool {
    x => le(x, k) && le(k, x)
  }

  /** Inserting `x` puts it in front of every element it is tied with, and
      leaves the order of the others' ties alone. */
  lemma {:induction false} InsertTied<T(!new)>(le: (T, T) -> bool, k: T, x: T, s: seq<T>)
    requires TotalPreorder(le)
    ensures Seqs.Filter(TiedWith(le, k), Insert(le, x, s)) ==
      (if TiedWith(le, k)(x) then [x] else []) + Seqs.Filter(TiedWith(le, k), s)
  {
    var tied := TiedWith(le, k);
    if |s| == 0 {
      assert Insert(le, x, s) == [x];
      assert [x][1..] == [];
    } else if le(x, s[0]) {
      assert Insert(le, x, s) == [x] + s;
      assert ([x] + s)[1..] == s;
    } else {
      var r := Insert(le, x, s);
      assert r == [s[0]] + Insert(le, x, s[1..]);
      assert r[1..] == Insert(le, x, s[1..]);
      InsertTied(le, k, x, s[1..]);
      if tied(x) {
        assert !tied(s[0]);
      }
    }
  }

  /** Stability: the elements tied with any `k` come out in the order they
      went in. */
  lemma {:induction false} SortByStable<T(!new)>(le: (T, T) -> bool, s: seq<T>, k: T)
    requires TotalPreorder(le)
    ensures Seqs.Filter(TiedWith(le, k), SortBy(le, s)) == Seqs.Filter(TiedWith(le, k), s)
  {
    if |s| > 0 {
      SortByStable(le, s[1..], k);
      InsertTied(le, k, s[0], SortBy(le, s[1..]));
    }
  }

  /** The first `n` of the sorted arrangement take, among the elements tied
      with `k`, the earliest ones of `s`, in their order in `s`. */
  lemma TakeStable<T(!new)>(le: (T, T) -> bool, s: seq<T>, n: nat, k: T)
    requires TotalPreorder(le)
    ensures Seqs.Filter(TiedWith(le, k), Take(SortBy(le, s), n)) <= Seqs.Filter(TiedWith(le, k), s)
  {
    var sorted := SortBy(le, s);
    var r := Take(sorted, n);
    assert sorted == r + sorted[|r|..];
    Seqs.FilterAppend(TiedWith(le, k), r, sorted[|r|..]);
    SortByStable(le, s, k);
  }

  /** `xs.slice(0, n)`: the first `n` elements, or all of them if fewer. */
  function Take<T>(s: seq<T>, n: nat): (r: seq<T>)
    ensures |r| == if |s| < n then |s| else n
    ensures r <= s
  {
    if |s| <= n then s else s[..n]
  }

  /** A prefix of a sorted sequence ranks no later than anything left behind. */
  lemma SortedPrefixFirst<T(!new)>(le: (T, T) -> bool, s: seq<T>, n: nat)
    requires Sorted(le, s)
    requires n <= |s|
    ensures forall x, y :: x in s[..n] && y in multiset(s[n..]) ==> le(x, y)
  {
    forall x, y | x in s[..n] && y in multiset(s[n..])
      ensures le(x, y)
    {
      var i :| 0 <= i < n && s[..n][i] == x;
      assert y in s[n..];
      var j :| 0 <= j < |s| - n && s[n..][j] == y;
      assert s[i] == x && s[n + j] == y;
    }
  }

  /** The first `n` elements of the sorted arrangement: drawn from `s`, in
      order, and ranked no later than anything left behind. */
  lemma SortedTake<T(!new)>(le: (T, T) -> bool, s: seq<T>, n: nat)
    requires TotalPreorder(le)
    ensures var r := Take(SortBy(le, s), n);
      && multiset(r) <= multiset(s)
      && Sorted(le, r)
      && forall x, y :: x in r && y in multiset(s) - multiset(r) ==> le(x, y)
  {
    var sorted := SortBy(le, s);
    SortBySorted(le, s);
    var r := Take(sorted, n);
    var k := |r|;
    assert r == sorted[..k];
    assert sorted == sorted[..k] + sorted[k..];
    assert multiset(sorted) == multiset(sorted[..k]) + multiset(sorted[k..]);
    SortedPrefixFirst(le, sorted, k);
  }
}
