/** Integer arithmetic of the fixed-radix trie: powers, per-depth divisors, the value
    interval a node at a given depth is responsible for, and the digit buckets that route
    a value down the trie. Everything here replaces the `Math.Pow` double arithmetic of the
    original by exact integer powers. */
module Radix {

  /** b to the power e (the exact counterpart of `Math.Pow(b, e)`). */
  function Pow(b: nat, e: nat): (r: nat)
    ensures b >= 1 ==> r >= 1
  {
    if e == 0 then 1 else b * Pow(b, e - 1)
  }

  predicate IsPowerOfTwo(x: nat)
    decreases x
  {
    x == 1 || (x >= 2 && x % 2 == 0 && IsPowerOfTwo(x / 2))
  }

  /** The exponent of a power of two. */
  ghost function Log2(x: nat): (k: nat)
    requires IsPowerOfTwo(x)
    ensures Pow(2, k) == x
    decreases x
  {
    if x == 1 then 0 else 1 + Log2(x / 2)
  }

  /** The trie's parameters as the sort needs them: a capacity C that is a power of two and
      a branch factor W = 2^w with w >= 1. */
  predicate ValidShape(cap: nat, width: nat)
  {
    IsPowerOfTwo(cap) && IsPowerOfTwo(width) && width >= 2
  }

  /** The per-level divisor `maxValue / W^depth` of addValue, initialise and getNodeAt. */
  function Divisor(cap: nat, width: nat, depth: nat): nat
    requires width >= 1
  {
    cap / Pow(width, depth)
  }

  /** How many consecutive values are routed through a node visited at `depth`
      (the root, at depth 1, sees all of [0, cap)). */
  function Span(cap: nat, width: nat, depth: nat): nat
    requires width >= 1 && depth >= 1
  {
    cap / Pow(width, depth - 1)
  }

  /** A branch node visited at `depth` that is responsible for [lo, lo + Span): the depth
      is reachable (the parent's divisor was at least 2) and the interval is aligned. */
  ghost predicate Geometry(cap: nat, width: nat, depth: nat, lo: nat)
  {
    ValidShape(cap, width) && depth >= 1 &&
    (depth == 1 || Divisor(cap, width, depth - 1) >= 2) &&
    Span(cap, width, depth) >= 1 &&
    lo % Span(cap, width, depth) == 0 && lo + Span(cap, width, depth) <= cap
  }

  /** The digit bucket of a branch level, `(value / divisor) % W`. */
  function Bucket(value: nat, divisor: nat, width: nat): nat
    requires divisor >= 1 && width >= 1
  {
    (value / divisor) % width
  }

  /** The value a leaf in slot `slot` of a last-level node responsible for [lo, lo + span)
      stands for, or -1 when no value of that interval is routed to the slot. */
  function LeafKey(lo: nat, span: nat, width: nat, slot: nat): int
    requires width >= 1
  {
    if lo % width <= slot < lo % width + span then lo - lo % width + slot else -1
  }

  // ---------------------------------------------------------------------------------
  // Helper facts about division and powers

  lemma DivModUnique(n: int, d: int, q: int, r: int)
    requires d > 0 && n == q * d + r && 0 <= r < d
    ensures n / d == q && n % d == r
  {
    var q', r' := n / d, n % d;
    assert n == q' * d + r';
    if q < q' {
      MulLeq(q + 1, q', d);
      assert false;
    } else if q > q' {
      MulLeq(q' + 1, q, d);
      assert false;
    }
  }

  lemma MulLeq(a: int, b: int, d: int)
    requires a <= b && d >= 0
    ensures a * d <= b * d
  {
    var e := b - a;
    assert e * d >= 0;
    assert b * d == a * d + e * d;
  }

  lemma {:induction false} PowAdd(b: nat, m: nat, n: nat)
    ensures Pow(b, m + n) == Pow(b, m) * Pow(b, n)
    decreases n
  {
    if n > 0 {
      PowAdd(b, m, n - 1);
      assert Pow(b, m + n) == b * Pow(b, m + n - 1);
      MulSwap(b, Pow(b, m), Pow(b, n - 1));
    }
  }

  lemma MulSwap(x: int, y: int, z: int)
    ensures x * (y * z) == y * (x * z)
  {
  }

  /** w * d, written as repeated addition so that exponent arithmetic stays linear. */
  ghost function Exp(w: nat, d: nat): nat
  {
    if d == 0 then 0 else w + Exp(w, d - 1)
  }

  lemma PowOfPowTwo(w: nat, d: nat)
    ensures Pow(Pow(2, w), d) == Pow(2, Exp(w, d))
    decreases d
  {
    if d > 0 {
      PowOfPowTwo(w, d - 1);
      PowAdd(2, w, Exp(w, d - 1));
    }
  }

  lemma PowTwoBelow(a: nat, b: nat)
    requires a < b
    ensures Pow(2, a) < Pow(2, b)
    decreases b
  {
    if a < b - 1 {
      PowTwoBelow(a, b - 1);
    }
  }

  /** 2^a / 2^b is 2^(a-b) when b <= a, and 0 otherwise. */
  lemma PowTwoDiv(a: nat, b: nat)
    ensures b <= a ==> Pow(2, a) / Pow(2, b) == Pow(2, a - b)
    ensures a < b ==> Pow(2, a) / Pow(2, b) == 0
  {
    if b <= a {
      PowAdd(2, a - b, b);
      DivModUnique(Pow(2, a), Pow(2, b), Pow(2, a - b), 0);
    } else {
      PowTwoBelow(a, b);
      DivModUnique(Pow(2, a), Pow(2, b), 0, Pow(2, a));
    }
  }

  lemma PowTwoAtLeastTwo(k: nat)
    requires k >= 1
    ensures Pow(2, k) >= 2
  {
    assert Pow(2, k - 1) >= 1;
  }

  /** The divisor at `depth`, written with the exponents of C = 2^c and W = 2^w. */
  lemma DivisorExp(cap: nat, width: nat, depth: nat)
    requires ValidShape(cap, width)
    ensures var c, w := Log2(cap), Log2(width);
      (Exp(w, depth) <= c ==> Divisor(cap, width, depth) == Pow(2, c - Exp(w, depth))) &&
      (c < Exp(w, depth) ==> Divisor(cap, width, depth) == 0)
  {
    var c, w := Log2(cap), Log2(width);
    PowOfPowTwo(w, depth);
    PowTwoDiv(c, Exp(w, depth));
  }

  /** A reachable depth's span is 2^s with s = c - w*(depth-1); the divisor is at least 2
      exactly when s exceeds w, and then the span is W times the divisor. */
  lemma SpanExp(cap: nat, width: nat, depth: nat)
    requires ValidShape(cap, width) && depth >= 1 && Span(cap, width, depth) >= 1
    ensures var c, w, e := Log2(cap), Log2(width), Exp(Log2(width), depth - 1);
      e <= c && Span(cap, width, depth) == Pow(2, c - e) &&
      (Divisor(cap, width, depth) < 2 ==> c - e <= w) &&
      (Divisor(cap, width, depth) >= 2 ==>
         Span(cap, width, depth) == width * Divisor(cap, width, depth))
  {
    var c, w := Log2(cap), Log2(width);
    var e := Exp(w, depth - 1);
    assert Exp(w, depth) == w + e;
    assert Span(cap, width, depth) == Divisor(cap, width, depth - 1);
    DivisorExp(cap, width, depth - 1);
    DivisorExp(cap, width, depth);
    assert Pow(2, 0) == 1;
    if c - e > w {
      PowTwoAtLeastTwo(c - e - w);
      PowAdd(2, w, c - e - w);
    }
  }

  /** Multiples of `d` in an interval aligned to W*d: the i-th sub-interval is aligned to d
      and lies inside the interval. */
  lemma AlignedSub(lo: nat, width: nat, d: nat, i: nat)
    requires d >= 1 && i < width && width * d >= 1 && lo % (width * d) == 0
    ensures (lo + i * d) % d == 0 && lo + i * d + d <= lo + width * d
    ensures (lo + i * d) / d == (lo / (width * d)) * width + i
  {
    var k := lo / (width * d);
    assert lo == k * (width * d);
    assert lo + i * d == (k * width + i) * d;
    DivModUnique(lo + i * d, d, k * width + i, 0);
    MulLeq(i + 1, width, d);
  }

  /** A value of the i-th sub-interval of an interval aligned to W*d has digit i. */
  lemma DigitOf(lo: nat, width: nat, d: nat, i: nat, v: nat)
    requires d >= 1 && i < width && width * d >= 1 && lo % (width * d) == 0
    requires lo + i * d <= v < lo + i * d + d
    ensures Bucket(v, d, width) == i
  {
    var k := lo / (width * d);
    AlignedSub(lo, width, d, i);
    DivModUnique(v, d, k * width + i, v - lo - i * d);
    DivModUnique(k * width + i, width, k, i);
  }

  /** Every value of an interval of W sub-intervals of length d lies in one of them. */
  lemma DigitRange(lo: nat, width: nat, d: nat, v: nat) returns (j: nat)
    requires d >= 1 && lo <= v < lo + width * d
    ensures j < width && lo + j * d <= v < lo + j * d + d
  {
    j := (v - lo) / d;
    assert v - lo == j * d + (v - lo) % d;
    if j >= width {
      MulLeq(width, j, d);
      assert false;
    }
  }

  // ---------------------------------------------------------------------------------
  // The facts the trie relies on

  /** The root is responsible for every value below the capacity. */
  lemma RootGeometry(cap: nat, width: nat)
    requires ValidShape(cap, width)
    ensures Geometry(cap, width, 1, 0) && Span(cap, width, 1) == cap
  {
    assert Pow(width, 0) == 1;
    assert cap >= 1;
  }

  /** At a branch level (divisor at least 2) the interval splits into W aligned
      sub-intervals of length `divisor`, one per child, each again a valid geometry. */
  lemma BranchGeometry(cap: nat, width: nat, depth: nat, lo: nat, i: nat)
    requires Geometry(cap, width, depth, lo) && Divisor(cap, width, depth) >= 2 && i < width
    ensures Span(cap, width, depth) == width * Divisor(cap, width, depth)
    ensures Span(cap, width, depth + 1) == Divisor(cap, width, depth)
    ensures Geometry(cap, width, depth + 1, lo + i * Divisor(cap, width, depth))
  {
    SpanExp(cap, width, depth);
    AlignedSub(lo, width, Divisor(cap, width, depth), i);
  }

  /** The interval a branch node builds for its child i is again one of the trie's intervals. */
  lemma ChildGeometry(cap: nat, width: nat, depth: nat, lo: nat, i: nat, sub: nat)
    requires Geometry(cap, width, depth, lo) && Divisor(cap, width, depth) >= 2 && i < width
    requires sub == lo + i * Divisor(cap, width, depth)
    ensures Geometry(cap, width, depth + 1, sub)
  {
    BranchGeometry(cap, width, depth, lo, i);
  }

  /** At a branch level, a value of the interval lying in the i-th sub-interval goes to bucket i. */
  lemma BucketIs(cap: nat, width: nat, depth: nat, lo: nat, v: nat, i: nat)
    requires Geometry(cap, width, depth, lo) && Divisor(cap, width, depth) >= 2 && i < width
    requires lo + i * Divisor(cap, width, depth) <= v
    requires v < lo + i * Divisor(cap, width, depth) + Divisor(cap, width, depth)
    ensures Bucket(v, Divisor(cap, width, depth), width) == i
  {
    SpanExp(cap, width, depth);
    DigitOf(lo, width, Divisor(cap, width, depth), i, v);
  }

  /** At a branch level, every value of the interval lies in the sub-interval of its bucket. */
  lemma BucketRange(cap: nat, width: nat, depth: nat, lo: nat, v: nat)
    requires Geometry(cap, width, depth, lo) && Divisor(cap, width, depth) >= 2
    requires lo <= v < lo + Span(cap, width, depth)
    ensures var d := Divisor(cap, width, depth); var b := Bucket(v, d, width);
      b < width && lo + b * d <= v < lo + b * d + d
  {
    var d := Divisor(cap, width, depth);
    SpanExp(cap, width, depth);
    var j := DigitRange(lo, width, d, v);
    DigitOf(lo, width, d, j, v);
  }

  /** At a branch level, values in lower buckets are smaller. */
  lemma BucketOrder(cap: nat, width: nat, depth: nat, lo: nat, u: nat, v: nat)
    requires Geometry(cap, width, depth, lo) && Divisor(cap, width, depth) >= 2
    requires lo <= u < lo + Span(cap, width, depth) && lo <= v < lo + Span(cap, width, depth)
    requires Bucket(u, Divisor(cap, width, depth), width) < Bucket(v, Divisor(cap, width, depth), width)
    ensures u < v
  {
    var d := Divisor(cap, width, depth);
    var bu, bv := Bucket(u, d, width), Bucket(v, d, width);
    BucketRange(cap, width, depth, lo, u);
    BucketRange(cap, width, depth, lo, v);
    SubIntervalOrder(lo, d, bu, bv, u, v);
  }

  lemma SubIntervalOrder(lo: nat, d: nat, i: nat, j: nat, u: nat, v: nat)
    requires i < j && u < lo + i * d + d && lo + j * d <= v
    ensures u < v
  {
    MulLeq(i + 1, j, d);
    assert (i + 1) * d == i * d + d;
  }

  /** At the last level (divisor below 2) the interval has at most W values and they occupy
      consecutive leaf slots `v % W`, in the order of the values. */
  lemma LeafSlot(cap: nat, width: nat, depth: nat, lo: nat, v: nat)
    requires Geometry(cap, width, depth, lo) && Divisor(cap, width, depth) < 2
    requires lo <= v < lo + Span(cap, width, depth)
    ensures lo % width + Span(cap, width, depth) <= width
    ensures v % width == lo % width + (v - lo)
  {
    var c, w := Log2(cap), Log2(width);
    var span := Span(cap, width, depth);
    SpanExp(cap, width, depth);
    var s := c - Exp(w, depth - 1);
    PowAdd(2, w - s, s);
    SlotOffset(lo, span, width, Pow(2, w - s), v);
  }

  /** At the last level, values in lower leaf slots are smaller. */
  lemma LeafOrder(cap: nat, width: nat, depth: nat, lo: nat, u: nat, v: nat)
    requires Geometry(cap, width, depth, lo) && Divisor(cap, width, depth) < 2
    requires lo <= u < lo + Span(cap, width, depth) && lo <= v < lo + Span(cap, width, depth)
    requires u % width < v % width
    ensures u < v
  {
    LeafSlot(cap, width, depth, lo, u);
    LeafSlot(cap, width, depth, lo, v);
  }

  lemma SlotOffset(lo: nat, span: nat, width: nat, m: nat, v: nat)
    requires span >= 1 && m >= 1 && width == m * span && lo % span == 0 && lo <= v < lo + span
    ensures lo % width + span <= width
    ensures v % width == lo % width + (v - lo)
  {
    var k := lo / span;
    var q, r := lo / width, lo % width;
    assert lo == k * span;
    assert lo == q * width + r;
    var j := k - q * m;
    assert r == j * span by {
      assert q * width == (q * m) * span;
    }
    if j < 0 {
      MulLeq(j, -1, span);
      assert false;
    }
    if j >= m {
      MulLeq(m, j, span);
      assert false;
    }
    MulLeq(j + 1, m, span);
    DivModUnique(v, width, q, r + (v - lo));
  }

  /** At the last level, the leaf slot of a value of the interval has that value as its key. */
  lemma LeafKeyOfSlot(cap: nat, width: nat, depth: nat, lo: nat, v: nat)
    requires Geometry(cap, width, depth, lo) && Divisor(cap, width, depth) < 2
    requires lo <= v < lo + Span(cap, width, depth)
    ensures v % width < width
    ensures LeafKey(lo, Span(cap, width, depth), width, v % width) == v
  {
    LeafSlot(cap, width, depth, lo, v);
  }

  /** At the last level, a slot whose key is a value has that value in the interval, and the
      value's own slot is this slot. */
  lemma SlotOfLeafKey(cap: nat, width: nat, depth: nat, lo: nat, slot: nat)
    requires Geometry(cap, width, depth, lo) && Divisor(cap, width, depth) < 2
    requires LeafKey(lo, Span(cap, width, depth), width, slot) >= 0
    ensures var k := LeafKey(lo, Span(cap, width, depth), width, slot);
      lo <= k < lo + Span(cap, width, depth) && k % width == slot
  {
    var k := LeafKey(lo, Span(cap, width, depth), width, slot);
    LeafSlot(cap, width, depth, lo, k);
  }

  // ---------------------------------------------------------------------------------
  // The routing of addValue and getNodeAt for any width

  /** The slots addValue and getNodeAt pick for `value` from `depth` down, computed as the
      source does for any width of at least 2: `(value / divisor) % W` while the divisor
      `maxValue / W^depth` is at least 2, then the leaf slot `value % W`. Two values with
      the same route end at the same leaf. */
  function Route(cap: nat, width: nat, depth: nat, value: nat): (r: seq<nat>)
    requires width >= 2
    ensures |r| >= 1 && forall k :: 0 <= k < |r| ==> r[k] < width
    decreases Divisor(cap, width, depth)
  {
    var divisor := Divisor(cap, width, depth);
    if divisor < 2 then [value % width]
    else
      DivisorShrinks(cap, width, depth);
      [Bucket(value, divisor, width)] + Route(cap, width, depth + 1, value)
  }

  /** One level down the divisor shrinks, so a route is finite. */
  lemma DivisorShrinks(cap: nat, width: nat, depth: nat)
    requires width >= 2 && Divisor(cap, width, depth) >= 2
    ensures Divisor(cap, width, depth + 1) < Divisor(cap, width, depth)
  {
    var p := Pow(width, depth);
    assert Pow(width, depth + 1) == width * p;
    DivDiv(cap, p, width);
  }

  /** With the width 1 the divisor never shrinks: `maxValue / 1^depth` is `maxValue` at
      every depth, so for a capacity of 2 or more the `divisor < 2` test that ends the
      recursion of addValue, getNodeAt and initialise is never met. */
  lemma {:induction false} WidthOneStays(cap: nat, depth: nat)
    ensures Divisor(cap, 1, depth) == cap
  {
    PowOfOne(depth);
  }

  lemma {:induction false} PowOfOne(e: nat)
    ensures Pow(1, e) == 1
  {
    if e > 0 {
      PowOfOne(e - 1);
    }
  }

  /** Dividing by w * p is dividing by p and then by w. */
  lemma DivDiv(n: nat, p: nat, w: nat)
    requires p >= 1 && w >= 1
    ensures n / (w * p) == (n / p) / w
  {
    var q, r := n / p, n % p;
    var q2, r2 := q / w, q % w;
    assert n == p * (w * q2 + r2) + r;
    assert p * (w * q2 + r2) == (w * p) * q2 + p * r2;
    MulLeq(r2, w - 1, p);
    assert (w - 1) * p == w * p - p;
    DivModUnique(n, w * p, q2, p * r2 + r);
  }

  /** With a power-of-two capacity and width, two distinct values of a node's interval take
      different routes from that node down. */
  lemma {:induction false} RouteDistinct(cap: nat, width: nat, depth: nat, lo: nat, u: nat, v: nat)
    requires Geometry(cap, width, depth, lo) && u != v
    requires lo <= u < lo + Span(cap, width, depth) && lo <= v < lo + Span(cap, width, depth)
    ensures Route(cap, width, depth, u) != Route(cap, width, depth, v)
    decreases Divisor(cap, width, depth)
  {
    var d := Divisor(cap, width, depth);
    if d < 2 {
      LeafSlot(cap, width, depth, lo, u);
      LeafSlot(cap, width, depth, lo, v);
      assert Route(cap, width, depth, u)[0] != Route(cap, width, depth, v)[0];
    } else {
      BucketRange(cap, width, depth, lo, u);
      BucketRange(cap, width, depth, lo, v);
      var b := Bucket(u, d, width);
      if b != Bucket(v, d, width) {
        assert Route(cap, width, depth, u)[0] != Route(cap, width, depth, v)[0];
      } else {
        BranchGeometry(cap, width, depth, lo, b);
        DivisorShrinks(cap, width, depth);
        RouteDistinct(cap, width, depth + 1, lo + b * d, u, v);
        assert Route(cap, width, depth, u)[1..] == Route(cap, width, depth + 1, u);
        assert Route(cap, width, depth, v)[1..] == Route(cap, width, depth + 1, v);
      }
    }
  }

  /** With a power-of-two capacity and width, distinct values below the capacity are routed
      to distinct leaves. */
  lemma RouteInjective(cap: nat, width: nat, u: nat, v: nat)
    requires ValidShape(cap, width) && u < cap && v < cap && u != v
    ensures Route(cap, width, 1, u) != Route(cap, width, 1, v)
  {
    RootGeometry(cap, width);
    RouteDistinct(cap, width, 1, 0, u, v);
  }

  /** With the width 3 (not a power of two) and the capacity 16, the values 0 and 15 take
      the same route: root bucket 0 (divisor 16 / 3 = 5), then leaf slot 0 (divisor
      16 / 9 = 1), so they are counted at one leaf and one of them is lost. */
  lemma WidthThreeCollides()
    ensures !IsPowerOfTwo(3) && IsPowerOfTwo(16)
    ensures Route(16, 3, 1, 0) == Route(16, 3, 1, 15) == [0, 0]
  {
    assert Pow(3, 1) == 3 && Pow(3, 2) == 9;
    assert Divisor(16, 3, 1) == 5 && Divisor(16, 3, 2) == 1;
    assert Route(16, 3, 2, 0) == [0] && Route(16, 3, 2, 15) == [0];
    assert IsPowerOfTwo(2) && IsPowerOfTwo(4) && IsPowerOfTwo(8);
  }
}
