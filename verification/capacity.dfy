/** How TreeSortingProvider chooses the capacity C of a trie: a default of 65536, or a hint
    rounded up by trying 2^0, 2^1, ..., 2^31 until one exceeds it. */
module Capacity {
  import opened Radix

  /** `UInt16.MaxValue + 1`, the capacity used when the hint is 0. */
  const DEFAULT_CAPACITY: nat := 0x1_0000

  /** 2^31, the largest power the rounding loop tries: hints from here on stay unrounded. */
  const ROUNDING_LIMIT: nat := 0x8000_0000

  /** The first of 2^i, 2^(i+1), ... that exceeds h. */
  function PowerAbove(h: nat, i: nat): nat
    decreases h + 1 - i
  {
    if Pow(2, i) > h then Pow(2, i)
    else
      PowGrows(i);
      PowerAbove(h, i + 1)
  }

  /** The smallest power of two strictly greater than h. */
  function NextPowerOfTwo(h: nat): nat
  {
    PowerAbove(h, 0)
  }

  lemma {:induction false} PowGrows(i: nat)
    ensures i < Pow(2, i)
  {
    if i > 0 {
      PowGrows(i - 1);
    }
  }

  lemma {:induction false} PowIsPowerOfTwo(i: nat)
    ensures IsPowerOfTwo(Pow(2, i))
  {
    if i > 0 {
      PowIsPowerOfTwo(i - 1);
      assert Pow(2, i) / 2 == Pow(2, i - 1);
    }
  }

  lemma {:induction false} PowerAboveIs(h: nat, i: nat)
    ensures IsPowerOfTwo(PowerAbove(h, i)) && h < PowerAbove(h, i)
    decreases h + 1 - i
  {
    if Pow(2, i) > h {
      PowIsPowerOfTwo(i);
    } else {
      PowGrows(i);
      PowerAboveIs(h, i + 1);
    }
  }

  lemma {:induction false} PowerAboveAtMost(h: nat, i: nat, k: nat)
    requires i <= k && h < Pow(2, k)
    ensures PowerAbove(h, i) <= Pow(2, k)
    decreases k - i
  {
    if Pow(2, i) > h {
      if i < k {
        PowTwoBelow(i, k);
      }
    } else {
      if i == k {
        assert false;
      }
      PowerAboveAtMost(h, i + 1, k);
    }
  }

  /** NextPowerOfTwo(h) is a power of two above h, and no power of two above h is smaller. */
  lemma NextPowerOfTwoIsLeast(h: nat, p: nat)
    requires IsPowerOfTwo(p) && h < p
    ensures IsPowerOfTwo(NextPowerOfTwo(h)) && h < NextPowerOfTwo(h) <= p
  {
    PowerAboveIs(h, 0);
    PowerAboveAtMost(h, 0, Log2(p));
  }

  lemma PowLimit()
    ensures Pow(2, 31) == ROUNDING_LIMIT
  {
    assert Pow(2, 1) == 2 && Pow(2, 2) == 4 && Pow(2, 3) == 8 && Pow(2, 4) == 16;
    PowAdd(2, 4, 4);
    PowAdd(2, 8, 8);
    PowAdd(2, 16, 8);
    PowAdd(2, 24, 4);
    PowAdd(2, 28, 3);
  }

  /** The rounding loop of init and sort, with exact powers in place of `Math.Pow`: a hint
      below 2^31 becomes the next power of two above it, a larger one is left as it is. */
  method RoundUp(hint: nat) returns (r: nat)
    ensures hint < ROUNDING_LIMIT ==> r == NextPowerOfTwo(hint)
    ensures hint >= ROUNDING_LIMIT ==> r == hint
  {
    r := hint;
    for i := 0 to 32
      invariant r == hint
      invariant forall j :: 0 <= j < i ==> Pow(2, j) <= hint
      invariant PowerAbove(hint, 0) == PowerAbove(hint, i)
    {
      if Pow(2, i) > r {
        r := Pow(2, i);
        if hint >= ROUNDING_LIMIT {
          PowLimit();
          if i < 31 {
            PowTwoBelow(i, 31);
          }
          assert false;
        }
        break;
      }
      PowGrows(i);
    }
    PowLimit();
  }

  lemma PowSixteen()
    ensures Pow(2, 16) == DEFAULT_CAPACITY
  {
    assert Pow(2, 1) == 2 && Pow(2, 2) == 4 && Pow(2, 3) == 8 && Pow(2, 4) == 16;
    PowAdd(2, 4, 4);
    PowAdd(2, 8, 8);
  }

  /** The capacity init gives the static trie: the default for a hint of 0, the hint
      rounded up otherwise. Below 2^31 the result is a power of two above the hint. */
  method InitCapacity(hint: nat) returns (cap: nat)
    ensures hint == 0 ==> cap == DEFAULT_CAPACITY
    ensures 0 < hint < ROUNDING_LIMIT ==> cap == NextPowerOfTwo(hint)
    ensures hint >= ROUNDING_LIMIT ==> cap == hint
    ensures hint < ROUNDING_LIMIT ==> IsPowerOfTwo(cap) && hint < cap
  {
    if hint == 0 {
      cap := DEFAULT_CAPACITY;
      PowSixteen();
      PowIsPowerOfTwo(16);
    } else {
      cap := RoundUp(hint);
      PowerAboveIs(hint, 0);
    }
  }

  /** The largest of 1 and the elements of s: the `maxValue == 1` scan of sort. */
  function Peak(s: seq<nat>): nat
  {
    if s == [] then 1
    else
      var p := Peak(s[..|s| - 1]);
      if s[|s| - 1] > p then s[|s| - 1] else p
  }

  /** Peak(s) is at least 1 and every element of s, and it is 1 or one of them. */
  lemma {:induction false} PeakBounds(s: seq<nat>)
    ensures Peak(s) >= 1
    ensures forall i :: 0 <= i < |s| ==> s[i] <= Peak(s)
    ensures Peak(s) == 1 || Peak(s) in s
  {
    if s != [] {
      var t := s[..|s| - 1];
      PeakBounds(t);
      assert forall i :: 0 <= i < |t| ==> s[i] == t[i];
    }
  }

  /** The capacity sort gives its fresh trie: the default for 0, the scanned peak rounded
      up for 1, any other hint rounded up. */
  function SortCapacity(s: seq<nat>, hint: nat): nat
  {
    if hint == 0 then DEFAULT_CAPACITY
    else if hint == 1 then NextPowerOfTwo(Peak(s))
    else NextPowerOfTwo(hint)
  }

  /** The capacity is a power of two, above the hint, and for the hint 1 above every
      element, so that every element has its leaf. */
  lemma SortCapacityCovers(s: seq<nat>, hint: nat)
    ensures IsPowerOfTwo(SortCapacity(s, hint))
    ensures hint > 1 ==> hint < SortCapacity(s, hint)
    ensures hint == 1 ==> forall i :: 0 <= i < |s| ==> s[i] < SortCapacity(s, hint)
  {
    if hint == 0 {
      PowSixteen();
      PowIsPowerOfTwo(16);
    } else {
      PowerAboveIs(if hint == 1 then Peak(s) else hint, 0);
      PeakBounds(s);
    }
  }

  /** The capacity rules at the head of sort, computed as the source does: the scan for
      the largest element when the hint is 1, then the rounding loop. */
  method ChooseCapacity(a: array<nat>, hint: nat) returns (cap: nat)
    requires hint < ROUNDING_LIMIT
    requires hint == 1 ==> forall i :: 0 <= i < a.Length ==> a[i] < ROUNDING_LIMIT
    ensures cap == SortCapacity(a[..], hint)
  {
    if hint == 0 {
      cap := DEFAULT_CAPACITY;
    } else if hint == 1 {
      var peak := 1;
      for i := 0 to a.Length
        invariant peak == Peak(a[..i])
      {
        assert a[..i + 1][..i] == a[..i];
        if a[i] > peak {
          peak := a[i];
        }
      }
      assert a[..a.Length] == a[..];
      PeakBounds(a[..]);
      cap := RoundUp(peak);
    } else {
      cap := RoundUp(hint);
    }
  }
}
