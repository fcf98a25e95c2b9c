/**
 * The buffer's ordering step: `list.sort(key=..., reverse=...)`, a stable sort
 * in which `reverse=True` flips the comparison but keeps equal keys in their
 * original order, followed by the slice `rows[:limit]`.
 *
 * Keys are exact reals (integers, the `-1` sentinel and the timestamps all
 * embed into them).
 */
module Sorting {
  import opened Wrappers

  /** `a` is placed strictly ahead of `b` in the requested direction. */
  predicate Ahead(desc: bool, a: real, b: real) {
    if desc then a > b else a < b
  }

  /** No element is strictly ahead of one that precedes it. */
  predicate SortedBy<T>(xs: seq<T>, key: T -> real, desc: bool) {
    forall i, j :: 0 <= i < j < |xs| ==> !Ahead(desc, key(xs[j]), key(xs[i]))
  }

  /** Place `x` after every element it is not strictly ahead of. */
  function Insert<T>(s: seq<T>, x: T, key: T -> real, desc: bool): (r: seq<T>)
    ensures multiset(r) == multiset(s) + multiset{x}
  {
    if s == [] then [x]
    else if Ahead(desc, key(x), key(s[0])) then [x] + s
    else
      assert s == [s[0]] + s[1..];
      [s[0]] + Insert(s[1..], x, key, desc)
  }

  /** Stable insertion sort, adding the elements from first to last. */
  function Sort<T>(xs: seq<T>, key: T -> real, desc: bool): seq<T> {
    if xs == [] then [] else Insert(Sort(xs[..|xs| - 1], key, desc), xs[|xs| - 1], key, desc)
  }

  /** The elements whose key is `k`, in their order. */
  function WithKey<T>(xs: seq<T>, key: T -> real, k: real): seq<T> {
    if xs == [] then []
    else (if key(xs[0]) == k then [xs[0]] else []) + WithKey(xs[1..], key, k)
  }

  /** The tail of a sorted sequence is sorted, and nothing in it is ahead of the head. */
  lemma SortedTail<T>(s: seq<T>, key: T -> real, desc: bool)
    requires SortedBy(s, key, desc) && s != []
    ensures SortedBy(s[1..], key, desc)
    ensures forall y :: y in s[1..] ==> !Ahead(desc, key(y), key(s[0]))
  {
    forall i, j | 0 <= i < j < |s[1..]| ensures !Ahead(desc, key(s[1..][j]), key(s[1..][i])) {
      assert s[1..][j] == s[j + 1] && s[1..][i] == s[i + 1];
    }
    forall y | y in s[1..] ensures !Ahead(desc, key(y), key(s[0])) {
      var m :| 0 <= m < |s[1..]| && s[1..][m] == y;
      assert y == s[m + 1];
    }
  }

  /** Inserting adds `x` and keeps every other element. */
  lemma InsertMember<T>(s: seq<T>, x: T, key: T -> real, desc: bool, y: T)
    ensures y in Insert(s, x, key, desc) <==> y == x || y in s
  {
    var r := Insert(s, x, key, desc);
    assert multiset(r) == multiset(s) + multiset{x};
    assert y in r <==> y in multiset(r);
    assert y in s <==> y in multiset(s);
  }

  /** A sorted head followed by a sorted tail that holds nothing ahead of it is sorted. */
  lemma SortedCons<T>(h: T, t: seq<T>, key: T -> real, desc: bool)
    requires SortedBy(t, key, desc)
    requires forall y :: y in t ==> !Ahead(desc, key(y), key(h))
    ensures SortedBy([h] + t, key, desc)
  {
    var r := [h] + t;
    forall i, j | 0 <= i < j < |r| ensures !Ahead(desc, key(r[j]), key(r[i])) {
      assert r[j] == t[j - 1];
      if i > 0 {
        assert r[i] == t[i - 1];
      } else {
        assert t[j - 1] in t;
      }
    }
  }

  lemma {:induction false} InsertSorted<T>(s: seq<T>, x: T, key: T -> real, desc: bool)
    requires SortedBy(s, key, desc)
    ensures SortedBy(Insert(s, x, key, desc), key, desc)
  {
    if s == [] {
    } else if Ahead(desc, key(x), key(s[0])) {
      SortedTail(s, key, desc);
      assert forall y :: y in s ==> y == s[0] || y in s[1..] by {
        assert s == [s[0]] + s[1..];
      }
      SortedCons(x, s, key, desc);
    } else {
      SortedTail(s, key, desc);
      InsertSorted(s[1..], x, key, desc);
      var rest := Insert(s[1..], x, key, desc);
      forall y | y in rest ensures !Ahead(desc, key(y), key(s[0])) {
        InsertMember(s[1..], x, key, desc, y);
      }
      SortedCons(s[0], Insert(s[1..], x, key, desc), key, desc);
    }
  }

  lemma {:induction false} SortSorted<T>(xs: seq<T>, key: T -> real, desc: bool)
    ensures SortedBy(Sort(xs, key, desc), key, desc)
  {
    if xs != [] {
      SortSorted(xs[..|xs| - 1], key, desc);
      InsertSorted(Sort(xs[..|xs| - 1], key, desc), xs[|xs| - 1], key, desc);
    }
  }

  lemma {:induction false} SortPermutes<T>(xs: seq<T>, key: T -> real, desc: bool)
    ensures multiset(Sort(xs, key, desc)) == multiset(xs)
  {
    if xs != [] {
      SortPermutes(xs[..|xs| - 1], key, desc);
      assert xs == xs[..|xs| - 1] + [xs[|xs| - 1]];
    }
  }

  lemma {:induction false} WithKeyAppend<T>(a: seq<T>, b: seq<T>, key: T -> real, k: real)
    ensures WithKey(a + b, key, k) == WithKey(a, key, k) + WithKey(b, key, k)
  {
    if a == [] {
      assert a + b == b;
    } else {
      var h := if key(a[0]) == k then [a[0]] else [];
      assert (a + b)[0] == a[0];
      assert (a + b)[1..] == a[1..] + b;
      assert WithKey(a + b, key, k) == h + WithKey(a[1..] + b, key, k);
      assert WithKey(a, key, k) == h + WithKey(a[1..], key, k);
      WithKeyAppend(a[1..], b, key, k);
      assert h + (WithKey(a[1..], key, k) + WithKey(b, key, k))
          == (h + WithKey(a[1..], key, k)) + WithKey(b, key, k);
    }
  }

  /** In a sorted sequence nothing after an element that `x` is ahead of has `x`'s key. */
  lemma {:induction false} NoneWithKeyBehind<T>(s: seq<T>, x: T, key: T -> real, desc: bool)
    requires SortedBy(s, key, desc) && s != [] && Ahead(desc, key(x), key(s[0]))
    ensures WithKey(s, key, key(x)) == []
  {
    if |s| > 1 {
      SortedTail(s, key, desc);
      assert s[1] in s[1..];
      NoneWithKeyBehind(s[1..], x, key, desc);
    }
  }

  lemma WithKeySingle<T>(x: T, key: T -> real, k: real)
    ensures WithKey([x], key, k) == (if key(x) == k then [x] else [])
  {
    assert [x][1..] == [];
  }

  /** Inserting into a sorted sequence adds `x` behind the elements that share its key. */
  lemma {:induction false} InsertWithKey<T>(s: seq<T>, x: T, key: T -> real, desc: bool, k: real)
    requires SortedBy(s, key, desc)
    ensures WithKey(Insert(s, x, key, desc), key, k) == WithKey(s, key, k) + WithKey([x], key, k)
  {
    WithKeySingle(x, key, k);
    if s == [] {
    } else if Ahead(desc, key(x), key(s[0])) {
      WithKeyAppend([x], s, key, k);
      if key(x) == k {
        NoneWithKeyBehind(s, x, key, desc);
      }
    } else {
      SortedTail(s, key, desc);
      InsertWithKey(s[1..], x, key, desc, k);
      var tl := Insert(s[1..], x, key, desc);
      assert Insert(s, x, key, desc) == [s[0]] + tl;
      WithKeyConsBoth(s[0], tl, s[1..], WithKey([x], key, k), key, k);
      assert [s[0]] + s[1..] == s;
    }
  }

  /** Putting one element in front of two sequences keeps an equation between their keyed parts. */
  lemma WithKeyConsBoth<T>(y: T, t: seq<T>, u: seq<T>, c: seq<T>, key: T -> real, k: real)
    requires WithKey(t, key, k) == WithKey(u, key, k) + c
    ensures WithKey([y] + t, key, k) == WithKey([y] + u, key, k) + c
  {
    WithKeyCons(y, t, key, k);
    WithKeyCons(y, u, key, k);
    var h := if key(y) == k then [y] else [];
    assert h + (WithKey(u, key, k) + c) == (h + WithKey(u, key, k)) + c;
  }

  lemma WithKeyCons<T>(y: T, t: seq<T>, key: T -> real, k: real)
    ensures WithKey([y] + t, key, k) == (if key(y) == k then [y] else []) + WithKey(t, key, k)
  {
    assert ([y] + t)[0] == y && ([y] + t)[1..] == t;
  }

  /** Stability: the elements sharing any one key keep their relative order. */
  lemma {:induction false} SortStable<T>(xs: seq<T>, key: T -> real, desc: bool, k: real)
    ensures WithKey(Sort(xs, key, desc), key, k) == WithKey(xs, key, k)
  {
    if xs != [] {
      var init := xs[..|xs| - 1];
      var x := xs[|xs| - 1];
      var sorted := Sort(init, key, desc);
      assert Sort(xs, key, desc) == Insert(sorted, x, key, desc);
      SortStable(init, key, desc, k);
      SortSorted(init, key, desc);
      InsertWithKey(sorted, x, key, desc, k);
      assert xs == init + [x];
      WithKeyAppend(init, [x], key, k);
    }
  }

  /** Two elements with equal keys keep their order, whichever the direction. */
  lemma TiedPair<T>(a: T, b: T, key: T -> real, desc: bool)
    requires key(a) == key(b)
    ensures Sort([a, b], key, desc) == [a, b]
  {
    assert [a, b][..1] == [a];
    assert [a][..0] == [];
    assert Sort([a], key, desc) == [a];
    assert Insert([a], b, key, desc) == [a] + Insert([], b, key, desc);
  }

  /** In a sorted sequence an element strictly ahead of another comes first. */
  lemma AheadComesFirst<T>(ys: seq<T>, key: T -> real, desc: bool, i: int, j: int)
    requires SortedBy(ys, key, desc)
    requires 0 <= i < |ys| && 0 <= j < |ys| && Ahead(desc, key(ys[i]), key(ys[j]))
    ensures i < j
  {
  }

  /** Python's `xs[:limit]`, where a negative limit counts from the end. */
  function Truncate<T>(xs: seq<T>, limit: Option<int>): (r: seq<T>)
    ensures r <= xs
    ensures limit.None? ==> r == xs
    ensures limit.Some? && limit.value >= 0 ==>
              |r| == (if limit.value < |xs| then limit.value else |xs|)
    ensures limit.Some? && limit.value < 0 ==>
              |r| == (if |xs| + limit.value > 0 then |xs| + limit.value else 0)
  {
    match limit
    case None => xs
    case Some(n) =>
      if n >= 0 then (if n < |xs| then xs[..n] else xs)
      else if |xs| + n > 0 then xs[..|xs| + n]
      else []
  }
}
