/**
 Generic sequence utilities shared by every stage of the pipeline: an
 order-preserving filter, a key-based insertion sort, first-appearance
 de-duplication, and the "pairwise distinct keys" predicate that stands in
 for a pandas index being unique.
 */
module Seqs {

  /** The elements of `s` satisfying `p`, in their original order (a boolean mask). */
  function Filter<T(!new)>(s: seq<T>, p: T -> bool): (r: seq<T>)
    ensures |r| <= |s|
    ensures forall x :: x in r <==> x in s && p(x)
    ensures multiset(r) <= multiset(s)
  {
    if |s| == 0 then []
    else
      assert s == [s[0]] + s[1..];
      if p(s[0]) then [s[0]] + Filter(s[1..], p) else Filter(s[1..], p)
  }

  lemma {:induction false} FilterConcat<T(!new)>(a: seq<T>, b: seq<T>, p: T -> bool)
    ensures Filter(a + b, p) == Filter(a, p) + Filter(b, p)
  {
    if |a| > 0 {
      assert (a + b)[1..] == a[1..] + b;
      FilterConcat(a[1..], b, p);
    } else {
      assert a + b == b;
    }
  }

  /** A filter keeps a sequence whose elements all pass. */
  lemma {:induction false} FilterKeepsAll<T(!new)>(s: seq<T>, p: T -> bool)
    requires forall x :: x in s ==> p(x)
    ensures Filter(s, p) == s
  {
    if |s| > 0 {
      FilterKeepsAll(s[1..], p);
    }
  }

  /** A filter no element passes is empty. */
  lemma {:induction false} FilterNone<T(!new)>(s: seq<T>, p: T -> bool)
    requires forall x :: x in s ==> !p(x)
    ensures Filter(s, p) == []
  {
    if |s| > 0 {
      assert s[0] in s;
      FilterNone(s[1..], p);
    }
  }

  /** Filtering twice with the same mask is filtering once. */
  lemma FilterIdempotent<T(!new)>(s: seq<T>, p: T -> bool)
    ensures Filter(Filter(s, p), p) == Filter(s, p)
  {
    FilterKeepsAll(Filter(s, p), p);
  }

  /** Two masks commute: the order in which row filters are applied does not matter. */
  lemma {:induction false} FilterCommutes<T(!new)>(s: seq<T>, p: T -> bool, q: T -> bool)
    ensures Filter(Filter(s, p), q) == Filter(Filter(s, q), p)
  {
    if |s| > 0 {
      FilterCommutes(s[1..], p, q);
    }
  }

  /** No element occurs twice in `s`: every row is written once. */
  predicate NoDuplicates<T(==)>(s: seq<T>)
  {
    forall i, j :: 0 <= i < j < |s| ==> s[i] != s[j]
  }

  /** Two duplicate-free sequences with no element in common concatenate to a duplicate-free one. */
  lemma NoDuplicatesConcat<T>(a: seq<T>, b: seq<T>)
    requires NoDuplicates(a) && NoDuplicates(b)
    requires forall x :: x in a ==> x !in b
    ensures NoDuplicates(a + b)
  {
    var r := a + b;
    forall i, j | 0 <= i < j < |r| ensures r[i] != r[j] {
      if j >= |a| && i < |a| {
        assert r[i] == a[i] && r[j] == b[j - |a|];
        assert a[i] in a && b[j - |a|] in b;
      } else if j >= |a| {
        assert r[i] == b[i - |a|] && r[j] == b[j - |a|];
      }
    }
  }

  /** A filter keeps every passing element as often as it occurs, and no other element. */
  lemma {:induction false} FilterCount<T(!new)>(s: seq<T>, p: T -> bool)
    ensures forall x :: multiset(Filter(s, p))[x] == if p(x) then multiset(s)[x] else 0
  {
    if |s| > 0 {
      assert s == [s[0]] + s[1..];
      FilterCount(s[1..], p);
    }
  }

  /** No two positions of `s` carry the same key (a unique index). */
  predicate DistinctBy<T, K(==)>(s: seq<T>, key: T -> K)
  {
    forall i, j :: 0 <= i < j < |s| ==> key(s[i]) != key(s[j])
  }

  /** The set of keys occurring in `s`. */
  ghost function KeysOf<T, K>(s: seq<T>, key: T -> K): (ks: set<K>)
    ensures forall x :: x in s ==> key(x) in ks
    ensures forall k :: k in ks ==> exists x :: x in s && key(x) == k
  {
    set x | x in s :: key(x)
  }

  lemma KeysOfCons<T, K>(x: T, s: seq<T>, key: T -> K)
    ensures KeysOf([x] + s, key) == {key(x)} + KeysOf(s, key)
  {
    var t := [x] + s;
    forall k | k in KeysOf(t, key) ensures k in {key(x)} + KeysOf(s, key) {
      var y :| y in t && key(y) == k;
      if y != x { assert y in s; }
    }
    forall k | k in KeysOf(s, key) ensures k in KeysOf(t, key) {
      var y :| y in s && key(y) == k;
      assert y in t;
    }
  }

  lemma KeysOfSnoc<T, K>(s: seq<T>, x: T, key: T -> K)
    ensures KeysOf(s + [x], key) == KeysOf(s, key) + {key(x)}
  {
    var t := s + [x];
    forall k | k in KeysOf(t, key) ensures k in KeysOf(s, key) + {key(x)} {
      var y :| y in t && key(y) == k;
      assert y in s || y == x;
    }
    forall k | k in KeysOf(s, key) ensures k in KeysOf(t, key) {
      var y :| y in s && key(y) == k;
      assert y in t;
    }
  }

  lemma DistinctTail<T, K>(s: seq<T>, key: T -> K)
    requires |s| > 0 && DistinctBy(s, key)
    ensures DistinctBy(s[1..], key)
    ensures key(s[0]) !in KeysOf(s[1..], key)
  {
    forall x | x in s[1..]
      ensures key(x) != key(s[0])
    {
      var k :| 0 <= k < |s[1..]| && s[1..][k] == x;
      assert s[k + 1] == x;
    }
  }

  lemma DistinctCons<T, K>(x: T, s: seq<T>, key: T -> K)
    requires DistinctBy(s, key)
    requires key(x) !in KeysOf(s, key)
    ensures DistinctBy([x] + s, key)
  {
    var t := [x] + s;
    forall i, j | 0 <= i < j < |t|
      ensures key(t[i]) != key(t[j])
    {
      if i == 0 {
        assert t[j] == s[j - 1];
        assert t[j] in s;
      } else {
        assert t[i] == s[i - 1] && t[j] == s[j - 1];
      }
    }
  }

  /** A filter of a uniquely-keyed sequence is uniquely keyed. */
  lemma {:induction false} FilterDistinct<T(!new), K>(s: seq<T>, p: T -> bool, key: T -> K)
    requires DistinctBy(s, key)
    ensures DistinctBy(Filter(s, p), key)
  {
    if |s| > 0 {
      DistinctTail(s, key);
      FilterDistinct(s[1..], p, key);
      if p(s[0]) {
        DistinctCons(s[0], Filter(s[1..], p), key);
      }
    }
  }

  lemma {:induction false} DistinctAtMostOnce<T, K>(a: seq<T>, key: T -> K, x: T)
    requires DistinctBy(a, key)
    ensures multiset(a)[x] <= 1
  {
    if |a| > 0 {
      assert a == [a[0]] + a[1..];
      DistinctTail(a, key);
      DistinctAtMostOnce(a[1..], key, x);
      if a[0] == x {
        assert x !in a[1..];
      }
    }
  }

  /** A sub-multiset of a uniquely-keyed sequence, in any order, is uniquely keyed. */
  lemma DistinctSub<T, K>(a: seq<T>, b: seq<T>, key: T -> K)
    requires DistinctBy(a, key)
    requires multiset(b) <= multiset(a)
    ensures DistinctBy(b, key)
  {
    forall i, j | 0 <= i < j < |b| ensures key(b[i]) != key(b[j]) {
      if b[i] == b[j] {
        var x := b[i];
        assert b == b[..i] + [x] + b[i + 1..j] + [x] + b[j + 1..];
        assert multiset(b)[x] >= 2;
        DistinctAtMostOnce(a, key, x);
        assert false;
      } else {
        assert b[i] in multiset(a) && b[j] in multiset(a);
        var p :| 0 <= p < |a| && a[p] == b[i];
        var q :| 0 <= q < |a| && a[q] == b[j];
        assert p != q;
      }
    }
  }

  /** Keys are non-decreasing along `s`. */
  predicate SortedBy<T>(s: seq<T>, key: T -> real)
  {
    forall i, j :: 0 <= i < j < |s| ==> key(s[i]) <= key(s[j])
  }

  /** Keys are strictly increasing along `s`. */
  predicate StrictlySortedBy<T>(s: seq<T>, key: T -> real)
  {
    forall i, j :: 0 <= i < j < |s| ==> key(s[i]) < key(s[j])
  }

  /** Putting a key no larger than any of a sorted sequence's keys in front keeps it sorted. */
  lemma ConsSorted<T>(h: T, t: seq<T>, key: T -> real)
    requires SortedBy(t, key)
    requires forall y :: y in t ==> key(h) <= key(y)
    ensures SortedBy([h] + t, key)
  {
    var r := [h] + t;
    forall i, j | 0 <= i < j < |r| ensures key(r[i]) <= key(r[j]) {
      assert r[j] == t[j - 1] && r[j] in t;
      if i > 0 {
        assert r[i] == t[i - 1];
      }
    }
  }

  /** The facts Insert promises, for `r` built from `x` and `s`. */
  ghost predicate Inserted<T>(x: T, s: seq<T>, r: seq<T>, key: T -> real)
  {
    && |r| == |s| + 1
    && multiset(r) == multiset(s) + multiset{x}
    && (forall y :: y in r ==> y == x || y in s)
    && SortedBy(r, key)
  }

  /** Front case of Insert: `x` goes before the smallest key. */
  lemma InsertFront<T>(x: T, s: seq<T>, key: T -> real)
    requires SortedBy(s, key)
    requires |s| == 0 || key(x) <= key(s[0])
    ensures Inserted(x, s, [x] + s, key)
  {
    forall y | y in s ensures key(x) <= key(y) {
      var k :| 0 <= k < |s| && s[k] == y;
      assert key(s[0]) <= key(s[k]) || k == 0;
    }
    ConsSorted(x, s, key);
  }

  /** Recursive case of Insert: `s[0]` stays in front of the insertion into the tail. */
  lemma InsertBehind<T>(x: T, s: seq<T>, t: seq<T>, key: T -> real)
    requires SortedBy(s, key) && |s| > 0 && key(s[0]) < key(x)
    requires Inserted(x, s[1..], t, key)
    ensures Inserted(x, s, [s[0]] + t, key)
  {
    assert s == [s[0]] + s[1..];
    forall y | y in t ensures key(s[0]) <= key(y) {
      if y != x {
        var k :| 0 <= k < |s[1..]| && s[1..][k] == y;
        assert s[k + 1] == y;
      }
    }
    ConsSorted(s[0], t, key);
  }

  function Insert<T>(x: T, s: seq<T>, key: T -> real): (r: seq<T>)
    requires SortedBy(s, key)
    ensures |r| == |s| + 1
    ensures multiset(r) == multiset(s) + multiset{x}
    ensures forall y :: y in r ==> y == x || y in s
    ensures SortedBy(r, key)
  {
    if |s| == 0 || key(x) <= key(s[0]) then
      InsertFront(x, s, key);
      [x] + s
    else
      var t := Insert(x, s[1..], key);
      InsertBehind(x, s, t, key);
      [s[0]] + t
  }

  /** Ascending sort by `key`; ties keep no promised order. */
  function SortBy<T>(s: seq<T>, key: T -> real): (r: seq<T>)
    ensures SortedBy(r, key)
    ensures multiset(r) == multiset(s)
    ensures |r| == |s|
  {
    if |s| == 0 then []
    else
      assert s == [s[0]] + s[1..];
      Insert(s[0], SortBy(s[1..], key), key)
  }

  lemma SortedByMembers<T>(s: seq<T>, t: seq<T>)
    requires multiset(s) == multiset(t)
    ensures forall x :: x in s <==> x in t
  {
    forall x ensures x in s <==> x in t {
      assert x in s <==> x in multiset(s);
      assert x in t <==> x in multiset(t);
    }
  }

  /** Cutting a permutation of `s` at `m`: the prefix is a sub-multiset of `s` and the suffix is what is left. */
  lemma PrefixRest<T>(ranked: seq<T>, s: seq<T>, m: nat)
    requires multiset(ranked) == multiset(s) && m <= |ranked|
    ensures multiset(ranked[..m]) <= multiset(s)
    ensures multiset(s) - multiset(ranked[..m]) == multiset(ranked[m..])
  {
    assert ranked == ranked[..m] + ranked[m..];
    assert multiset(s) == multiset(ranked[..m]) + multiset(ranked[m..]);
  }

  /**
   Cutting a sorted permutation of `s` at `m`: the prefix is a sub-multiset
   of `s`, and nothing in it has a larger key than anything left out.
   */
  lemma SortedSplit<T>(ranked: seq<T>, s: seq<T>, key: T -> real, m: nat)
    requires SortedBy(ranked, key) && multiset(ranked) == multiset(s) && m <= |ranked|
    ensures multiset(ranked[..m]) <= multiset(s)
    ensures forall x, y :: x in ranked[..m] && y in multiset(s) - multiset(ranked[..m]) ==> key(x) <= key(y)
  {
    PrefixRest(ranked, s, m);
    SortedCut(ranked, key, m);
    forall x, y | x in ranked[..m] && y in multiset(s) - multiset(ranked[..m]) ensures key(x) <= key(y) {
      assert y in multiset(ranked[m..]);
      assert y in ranked[m..];
    }
  }

  /** Along non-decreasing keys, everything before a cut has a key no larger than everything after it. */
  lemma SortedCut<T>(ranked: seq<T>, key: T -> real, m: nat)
    requires SortedBy(ranked, key) && m <= |ranked|
    ensures forall x, y :: x in ranked[..m] && y in ranked[m..] ==> key(x) <= key(y)
  {
    forall x, y | x in ranked[..m] && y in ranked[m..] ensures key(x) <= key(y) {
      var a :| 0 <= a < m && ranked[..m][a] == x;
      var b :| 0 <= b < |ranked| - m && ranked[m..][b] == y;
      assert ranked[a] == x && ranked[m + b] == y;
    }
  }

  /** Along strictly increasing keys, a smaller key sits at a smaller index. */
  lemma StrictIndexOrder<T>(s: seq<T>, key: T -> real, a: int, c: int)
    requires StrictlySortedBy(s, key)
    requires 0 <= a < |s| && 0 <= c < |s| && key(s[a]) < key(s[c])
    ensures a < c
  {
  }

  /** Along strictly increasing keys, equal keys sit at equal indices. */
  lemma StrictIndexUnique<T>(s: seq<T>, key: T -> real, a: int, c: int)
    requires StrictlySortedBy(s, key)
    requires 0 <= a < |s| && 0 <= c < |s| && key(s[a]) == key(s[c])
    ensures a == c
  {
  }

  /** Along strictly increasing keys, an index strictly between two others carries a key strictly between theirs. */
  lemma StrictBetween<T>(s: seq<T>, key: T -> real, a: int, c: int)
    requires StrictlySortedBy(s, key)
    requires 0 <= a < c < |s|
    ensures a + 1 < c ==> s[a + 1] in s && key(s[a]) < key(s[a + 1]) < key(s[c])
  {
  }

  /** Along strictly increasing keys no element's key lies strictly between two neighbours' keys. */
  lemma StrictNoneBetween<T>(s: seq<T>, key: T -> real, k: nat, c: nat)
    requires StrictlySortedBy(s, key)
    requires k + 1 < |s| && c < |s|
    ensures !(key(s[k]) < key(s[c]) < key(s[k + 1]))
  {
    if c <= k {
      assert key(s[c]) <= key(s[k]);
    } else {
      assert key(s[k + 1]) <= key(s[c]);
    }
  }

  lemma {:induction false} InsertDistinct<T>(x: T, s: seq<T>, key: T -> real)
    requires SortedBy(s, key) && DistinctBy(s, key)
    requires key(x) !in KeysOf(s, key)
    ensures DistinctBy(Insert(x, s, key), key)
  {
    if |s| > 0 && key(x) > key(s[0]) {
      DistinctTail(s, key);
      InsertDistinct(x, s[1..], key);
      var t := Insert(x, s[1..], key);
      forall y | y in t ensures key(y) != key(s[0]) {
        assert y in multiset(t);
      }
      DistinctCons(s[0], t, key);
    } else if |s| > 0 {
      DistinctCons(x, s, key);
    }
  }

  /** Sorting a uniquely-keyed sequence yields strictly increasing keys. */
  lemma {:induction false} SortStrict<T>(s: seq<T>, key: T -> real)
    requires DistinctBy(s, key)
    ensures DistinctBy(SortBy(s, key), key)
    ensures StrictlySortedBy(SortBy(s, key), key)
  {
    if |s| > 0 {
      DistinctTail(s, key);
      SortStrict(s[1..], key);
      var t := SortBy(s[1..], key);
      forall y | y in t ensures key(y) != key(s[0]) {
        assert y in multiset(t);
      }
      InsertDistinct(s[0], t, key);
    }
  }

  /** The elements of `s` without repeats, each at its first appearance. */
  function Distinct<T(==,!new)>(s: seq<T>): (r: seq<T>)
    ensures forall x :: x in r <==> x in s
    ensures NoDuplicates(r)
  {
    if |s| == 0 then []
    else
      var init := s[..|s| - 1];
      assert s == init + [s[|s| - 1]];
      var rest := Distinct(init);
      if s[|s| - 1] in rest then rest else rest + [s[|s| - 1]]
  }

  function Min(a: int, b: int): int { if a <= b then a else b }

  function MaxReal(a: real, b: real): real { if a >= b then a else b }

  function MinReal(a: real, b: real): real { if a <= b then a else b }
}
