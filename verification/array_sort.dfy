/** The counting sort the benchmark compares the tree sorts against (`Program.arraySort`):
    find the maximum, count every value in an array of `max + 1` buckets, then write each
    bucket's value back into the input as often as it was counted. */
module CountingSort {
  import opened Seqs

  /** Laying out the histogram of a sequence whose values are all below the number of
      buckets gives back the sequence's values, as a multiset. */
  lemma HistogramSpread(input: seq<nat>, counts: seq<nat>)
    requires forall j :: 0 <= j < |input| ==> input[j] < |counts|
    requires forall v :: 0 <= v < |counts| ==> counts[v] == multiset(input)[v]
    ensures multiset(Spread(counts, |counts|)) == multiset(input)
    ensures |Spread(counts, |counts|)| == |input|
  {
    forall v: nat ensures multiset(Spread(counts, |counts|))[v] == multiset(input)[v] {
      SpreadCount(counts, |counts|, v);
      if v >= |counts| {
        assert v !in input;
      }
    }
    assert multiset(Spread(counts, |counts|)) == multiset(input);
    assert |multiset(Spread(counts, |counts|))| == |multiset(input)|;
  }

  /** Sorts `a` in place. The elements are 32-bit unsigned values; the largest one must
      stay below `uint.MaxValue`, because the bucket array has `max + 1` entries and that
      sum would wrap to 0. */
  method ArraySort(a: array<nat>)
    requires forall i :: 0 <= i < a.Length ==> a[i] < 0xFFFF_FFFF
    modifies a
    ensures Sorted(a[..])
    ensures multiset(a[..]) == multiset(old(a[..]))
  {
    var max := Largest(a);
    var sortArray := Histogram(a, max + 1);
    HistogramSpread(a[..], sortArray[..]);
    WriteBuckets(a, sortArray);
    SpreadSorted(sortArray[..], sortArray.Length);
  }

  /** The first loop: the largest element, or 0 for an empty array. */
  method Largest(a: array<nat>) returns (max: nat)
    ensures forall j :: 0 <= j < a.Length ==> a[j] <= max
    ensures a.Length == 0 ==> max == 0
    ensures a.Length > 0 ==> exists j :: 0 <= j < a.Length && a[j] == max
  {
    max := 0;
    for i := 0 to a.Length
      invariant forall j :: 0 <= j < i ==> a[j] <= max
      invariant i == 0 ==> max == 0
      invariant max == 0 || exists j :: 0 <= j < i && a[j] == max
    {
      if a[i] > max {
        max := a[i];
      }
    }
    if a.Length > 0 && max == 0 {
      assert a[0] == 0;
    }
  }

  /** The second loop: bucket v of the fresh `size`-entry array counts the occurrences of v. */
  method Histogram(a: array<nat>, size: nat) returns (sortArray: array<nat>)
    requires forall i :: 0 <= i < a.Length ==> a[i] < size
    ensures fresh(sortArray) && sortArray.Length == size
    ensures forall v :: 0 <= v < size ==> sortArray[v] == multiset(a[..])[v]
  {
    sortArray := new nat[size](_ => 0);
    for i := 0 to a.Length
      invariant forall v :: 0 <= v < size ==> sortArray[v] == multiset(a[..i])[v]
    {
      assert a[..i + 1] == a[..i] + [a[i]];
      sortArray[a[i]] := sortArray[a[i]] + 1;
    }
    assert a[..a.Length] == a[..];
  }

  /** The third loop: writes bucket after bucket back into `a`. */
  method WriteBuckets(a: array<nat>, sortArray: array<nat>)
    requires a != sortArray
    requires |Spread(sortArray[..], sortArray.Length)| == a.Length
    modifies a
    ensures a[..] == Spread(sortArray[..], sortArray.Length)
  {
    ghost var counts: seq<nat> := sortArray[..];
    var idx := 0;
    for i := 0 to sortArray.Length
      invariant idx == |Spread(counts, i)| <= a.Length
      invariant a[..idx] == Spread(counts, i)
    {
      SpreadPrefix(counts, i + 1, |counts|);
      for x := 0 to sortArray[i]
        invariant idx == |Spread(counts, i)| + x <= a.Length
        invariant a[..idx] == Spread(counts, i) + Copies(i, x)
      {
        a[idx] := i;
        idx := idx + 1;
      }
    }
    assert a[..] == a[..idx];
  }
}
