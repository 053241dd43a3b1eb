/**
 The strike-index pairs a scan evaluates. Both scan modes draw their pairs
 from here: all pairs i < j in the nested-loop order of the source
 (lexicographic in (i, j)), and adjacent pairs (i, i + 1).
 */
module Pairs {
  import opened Seqs

  datatype Pair = Pair(i: nat, j: nat)

  predicate IsAdjacent(p: Pair) { p.j == p.i + 1 }

  /** Lexicographic order on (i, j). */
  predicate LexBefore(p: Pair, q: Pair) { p.i < q.i || (p.i == q.i && p.j < q.j) }

  /** Every pair is an increasing index pair below `n`. */
  predicate PairsBelow(ps: seq<Pair>, n: nat)
  {
    forall p :: p in ps ==> p.i < p.j < n
  }

  /** The inner loop: (i, j), (i, j + 1), ..., (i, n - 1). */
  function RowPairs(i: nat, j: nat, n: nat): (r: seq<Pair>)
    ensures |r| == if j <= n then n - j else 0
    ensures forall k :: 0 <= k < |r| ==> r[k] == Pair(i, j + k)
    decreases n - j
  {
    if j >= n then [] else [Pair(i, j)] + RowPairs(i, j + 1, n)
  }

  lemma RowMembers(i: nat, n: nat)
    ensures forall p :: p in RowPairs(i, i + 1, n) <==> p.i == i && i < p.j < n
  {
    var row := RowPairs(i, i + 1, n);
    forall p | p in row ensures p.i == i && i < p.j < n {
      var k :| 0 <= k < |row| && row[k] == p;
    }
    forall p: Pair | p.i == i && i < p.j < n ensures p in row {
      assert row[p.j - i - 1] == p;
    }
  }

  lemma TriangleStep(m: int)
    ensures m * (m - 1) == (m - 1) * (m - 2) + 2 * (m - 1)
  {
  }

  lemma ConcatLex(row: seq<Pair>, rest: seq<Pair>, i: nat)
    requires forall a, b :: 0 <= a < b < |row| ==> LexBefore(row[a], row[b])
    requires forall a, b :: 0 <= a < b < |rest| ==> LexBefore(rest[a], rest[b])
    requires forall p :: p in row ==> p.i == i
    requires forall p :: p in rest ==> p.i > i
    ensures forall a, b :: 0 <= a < b < |row + rest| ==> LexBefore((row + rest)[a], (row + rest)[b])
  {
    var r := row + rest;
    forall a, b | 0 <= a < b < |r| ensures LexBefore(r[a], r[b]) {
      if b < |row| {
        assert r[a] == row[a] && r[b] == row[b];
      } else if a < |row| {
        assert r[a] == row[a] && r[b] == rest[b - |row|];
        assert r[a] in row && r[b] in rest;
      } else {
        assert r[a] == rest[a - |row|] && r[b] == rest[b - |row|];
      }
    }
  }

  /** The outer loop from row `i` on. */
  function PairsFrom(i: nat, n: nat): (r: seq<Pair>)
    ensures forall p :: p in r <==> i <= p.i < p.j < n
    ensures forall a, b :: 0 <= a < b < |r| ==> LexBefore(r[a], r[b])
    ensures i <= n ==> 2 * |r| == (n - i) * (n - i - 1)
    decreases n - i
  {
    if i >= n then []
    else
      var row := RowPairs(i, i + 1, n);
      var rest := PairsFrom(i + 1, n);
      RowMembers(i, n);
      ConcatLex(row, rest, i);
      TriangleStep(n - i);
      row + rest
  }

  /** All pairs 0 <= i < j < n, in nested-loop order. */
  function AllPairs(n: nat): (r: seq<Pair>)
    ensures forall p :: p in r <==> p.i < p.j < n
    ensures forall a, b :: 0 <= a < b < |r| ==> LexBefore(r[a], r[b])
    ensures 2 * |r| == n * (n - 1)
    ensures PairsBelow(r, n)
  {
    PairsFrom(0, n)
  }

  /** Adjacent pairs (i, i + 1) from row `i` on. */
  function AdjacentFrom(i: nat, n: nat): (r: seq<Pair>)
    ensures |r| == if i + 1 <= n then n - i - 1 else 0
    ensures forall k :: 0 <= k < |r| ==> r[k] == Pair(i + k, i + k + 1)
    decreases n - i
  {
    if i + 1 >= n then [] else [Pair(i, i + 1)] + AdjacentFrom(i + 1, n)
  }

  /** The adjacent pairs (0, 1), ..., (n - 2, n - 1). */
  function AdjacentPairs(n: nat): (r: seq<Pair>)
    ensures |r| == if n == 0 then 0 else n - 1
    ensures forall k :: 0 <= k < |r| ==> r[k] == Pair(k, k + 1)
    ensures PairsBelow(r, n)
  {
    var r := AdjacentFrom(0, n);
    assert forall p :: p in r ==> exists k :: 0 <= k < |r| && r[k] == p;
    r
  }

  /** Neither loop visits a pair twice. */
  lemma PairsOnce(n: nat)
    ensures NoDuplicates(AllPairs(n))
    ensures NoDuplicates(AdjacentPairs(n))
  {
    var all, adj := AllPairs(n), AdjacentPairs(n);
    forall a, c | 0 <= a < c < |all| ensures all[a] != all[c] {
      assert LexBefore(all[a], all[c]);
    }
    forall a, c | 0 <= a < c < |adj| ensures adj[a] != adj[c] {
      assert adj[a] == Pair(a, a + 1);
    }
  }

  /** Past the first step of a row no pair is adjacent. */
  lemma RowAdjacent(i: nat, j: nat, n: nat)
    requires j > i + 1
    ensures Filter(RowPairs(i, j, n), IsAdjacent) == []
  {
    var r := RowPairs(i, j, n);
    forall p | p in r ensures !IsAdjacent(p) {
      var k :| 0 <= k < |r| && r[k] == p;
    }
    FilterNone(r, IsAdjacent);
  }

  lemma {:induction false} AdjacentFromFilter(i: nat, n: nat)
    ensures Filter(PairsFrom(i, n), IsAdjacent) == AdjacentFrom(i, n)
    decreases n - i
  {
    if i < n {
      var row := RowPairs(i, i + 1, n);
      FilterConcat(row, PairsFrom(i + 1, n), IsAdjacent);
      AdjacentFromFilter(i + 1, n);
      if i + 1 < n {
        assert row[1..] == RowPairs(i, i + 2, n);
        RowAdjacent(i, i + 2, n);
        assert Filter(row, IsAdjacent) == [Pair(i, i + 1)];
      } else {
        assert row == [];
        assert AdjacentFrom(i + 1, n) == [];
      }
    }
  }

  /** Adjacent mode scans exactly the all-pairs list restricted to j == i + 1, in the same order. */
  lemma AdjacentIsRestrictedAllPairs(n: nat)
    ensures AdjacentPairs(n) == Filter(AllPairs(n), IsAdjacent)
  {
    AdjacentFromFilter(0, n);
  }
}
