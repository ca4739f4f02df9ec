/** Sequences of unsigned values as the sorts produce them: sortedness, runs of equal
    values, and the run-length layout a counting sort writes out. */
module Seqs {

  /** Ascending order, the order every sort of the project promises. */
  predicate Sorted(s: seq<nat>)
  {
    forall i, j :: 0 <= i < j < |s| ==> s[i] <= s[j]
  }

  /** `n` copies of `v`: what a leaf with `valuesHere == n` and `actualValue == v` writes. */
  function Copies(v: nat, n: nat): seq<nat>
  {
    seq(n, _ => v)
  }

  /** The run holds `v` exactly n times and nothing else. */
  lemma {:induction false} CopiesCount(v: nat, n: nat, u: nat)
    ensures multiset(Copies(v, n))[u] == if u == v then n else 0
  {
    if n > 0 {
      CopiesCount(v, n - 1, u);
      assert Copies(v, n) == Copies(v, n - 1) + [v];
    }
  }

  lemma CopiesSorted(v: nat, n: nat)
    ensures Sorted(Copies(v, n))
  {
  }

  /** Concatenating two sorted sequences, the first lying wholly below the second, keeps
      the order. */
  lemma SortedConcat(a: seq<nat>, b: seq<nat>)
    requires Sorted(a) && Sorted(b)
    requires forall i, j :: 0 <= i < |a| && 0 <= j < |b| ==> a[i] <= b[j]
    ensures Sorted(a + b)
  {
  }

  /** The first element of a sorted sequence is at most each of its elements. */
  lemma SortedHead(a: seq<nat>, x: nat)
    requires Sorted(a) && x in multiset(a)
    ensures |a| > 0 && a[0] <= x
  {
    assert x in a;
    var k :| 0 <= k < |a| && a[k] == x;
  }

  /** Removing the first element removes one occurrence of it from the multiset. */
  lemma MultisetTail(a: seq<nat>)
    requires |a| > 0
    ensures multiset(a[1..]) == multiset(a) - multiset{a[0]}
  {
    assert a == [a[0]] + a[1..];
    assert multiset(a) == multiset{a[0]} + multiset(a[1..]);
  }

  /** Two sorted sequences holding the same multiset are equal: the result of a sort is
      determined by its input. */
  lemma {:induction false} SortedUnique(a: seq<nat>, b: seq<nat>)
    requires Sorted(a) && Sorted(b) && multiset(a) == multiset(b)
    ensures a == b
    decreases |a|
  {
    if a == [] {
      assert |multiset(b)| == 0;
    } else {
      SameHead(a, b);
      SortedUnique(a[1..], b[1..]);
      assert a == [a[0]] + a[1..];
      assert b == [b[0]] + b[1..];
    }
  }

  /** Two nonempty sorted sequences with the same multiset share their first element,
      and their tails are again sorted with equal multisets. */
  lemma SameHead(a: seq<nat>, b: seq<nat>)
    requires Sorted(a) && Sorted(b) && multiset(a) == multiset(b) && |a| > 0
    ensures |b| > 0 && a[0] == b[0]
    ensures Sorted(a[1..]) && Sorted(b[1..]) && multiset(a[1..]) == multiset(b[1..])
  {
    assert a[0] in multiset(b);
    SortedHead(b, a[0]);
    assert b[0] in multiset(a);
    SortedHead(a, b[0]);
    MultisetTail(a);
    MultisetTail(b);
  }

  /** The values 0 .. k-1 laid out in order, value j repeated `counts[j]` times: the
      output of a counting sort that has emitted its first k buckets. */
  function Spread(counts: seq<nat>, k: nat): seq<nat>
    requires k <= |counts|
  {
    if k == 0 then [] else Spread(counts, k - 1) + Copies(k - 1, counts[k - 1])
  }

  /** Every value in the layout of the first k buckets is below k. */
  lemma {:induction false} SpreadBelow(counts: seq<nat>, k: nat)
    requires k <= |counts|
    ensures forall i :: 0 <= i < |Spread(counts, k)| ==> Spread(counts, k)[i] < k
  {
    if k > 0 {
      SpreadBelow(counts, k - 1);
    }
  }

  lemma {:induction false} SpreadSorted(counts: seq<nat>, k: nat)
    requires k <= |counts|
    ensures Sorted(Spread(counts, k))
  {
    if k > 0 {
      SpreadSorted(counts, k - 1);
      SpreadBelow(counts, k - 1);
      SortedConcat(Spread(counts, k - 1), Copies(k - 1, counts[k - 1]));
    }
  }

  /** Each value below k occurs in the layout exactly as often as its bucket says. */
  lemma {:induction false} SpreadCount(counts: seq<nat>, k: nat, v: nat)
    requires k <= |counts|
    ensures multiset(Spread(counts, k))[v] == if v < k then counts[v] else 0
  {
    if k > 0 {
      SpreadCount(counts, k - 1, v);
      CopiesCount(k - 1, counts[k - 1], v);
      RunAppended(Spread(counts, k - 1), Copies(k - 1, counts[k - 1]), counts, k, v);
    }
  }

  /** The counting step of SpreadCount, on sequences whose counts are already known. */
  lemma RunAppended(front: seq<nat>, run: seq<nat>, counts: seq<nat>, k: nat, v: nat)
    requires 0 < k <= |counts|
    requires multiset(front)[v] == if v < k - 1 then counts[v] else 0
    requires multiset(run)[v] == if v == k - 1 then counts[k - 1] else 0
    ensures multiset(front + run)[v] == if v < k then counts[v] else 0
  {
  }

  /** A longer layout extends a shorter one. */
  lemma {:induction false} SpreadPrefix(counts: seq<nat>, j: nat, k: nat)
    requires j <= k <= |counts|
    ensures Spread(counts, j) <= Spread(counts, k)
    decreases k
  {
    if j < k {
      SpreadPrefix(counts, j, k - 1);
    }
  }

  /** Overwriting A from `index` with C, and then the result from `index + |C|` with E,
      overwrites A from `index` with C + E. */
  lemma Splice(A: seq<nat>, a1: seq<nat>, a2: seq<nat>, index: nat, C: seq<nat>, E: seq<nat>)
    requires index + |C| + |E| <= |A|
    requires a1 == A[..index] + C + A[index + |C|..]
    requires a2 == a1[..index + |C|] + E + a1[index + |C| + |E|..]
    ensures a2 == A[..index] + (C + E) + A[index + |C| + |E|..]
  {
    assert a1[..index + |C|] == A[..index] + C;
    assert a1[index + |C| + |E|..] == A[index + |C| + |E|..];
  }
}
