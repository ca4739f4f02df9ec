/** The fixed-radix search trie of TreeSort.cs. A branch node visited at depth d splits the
    value interval it is responsible for into W sub-intervals by the digit
    `(value / (C / W^d)) % W`; once that divisor drops below 2 the node's children are
    leaves, one per value, indexed by `value % W`. A leaf counts how often its value was
    added (`valuesHere`) and remembers the value (`actualValue`). */
module SearchTrees {
  import opened Radix
  import opened Seqs
  import opened Words

  class SearchTree {
    const branches: array<SearchTree?>
    var valuesHere: nat
    var actualValue: nat
    const maxValue: nat
    var valuesBelow: uint32

    /** The depth at which the node is visited: the `depth` argument of its calls. */
    ghost const Level: nat
    /** For a branch node, the first value of its interval; for a leaf, the value it
        counts (-1 for a slot that no value of the interval reaches). */
    ghost const Lo: int
    /** The nodes of the subtree, and their child arrays. */
    ghost var Nodes: set<SearchTree>
    ghost var Arrays: set<array<SearchTree?>>

    /** The constructor of the source, with the node's place in the trie as ghost
        arguments (the parent pointer, never read, is left out). */
    constructor (treeWidth: nat, max: nat, ghost level: nat, ghost lo: int)
      ensures branches.Length == treeWidth && fresh(branches)
      ensures forall i :: 0 <= i < treeWidth ==> branches[i] == null
      ensures valuesHere == 0 && actualValue == 0 && valuesBelow == 0
      ensures maxValue == max && Level == level && Lo == lo
      ensures Nodes == {this} && Arrays == {branches}
    {
      branches := new SearchTree?[treeWidth](_ => null);
      maxValue := max;
      Level := level;
      Lo := lo;
      valuesHere := 0;
      actualValue := 0;
      valuesBelow := 0;
      Nodes := {this};
      Arrays := {branches};
    }

    /** Leaves are the nodes built with a single (always empty) branch slot. */
    predicate IsLeaf()
    {
      branches.Length == 1
    }

    /** A branch node whose interval is one the trie's arithmetic can produce. */
    ghost predicate IsBranch()
    {
      branches.Length != 1 && Lo >= 0 && Geometry(maxValue, branches.Length, Level, Lo)
    }

    ghost function Div(): nat
      requires IsBranch()
    {
      Divisor(maxValue, branches.Length, Level)
    }

    ghost function Extent(): nat
      requires IsBranch()
    {
      Span(maxValue, branches.Length, Level)
    }

    ghost predicate Covers(v: int)
      requires IsBranch()
    {
      Lo <= v < Lo + Extent()
    }

    /** The child slot a value is routed to: its digit, or `v % W` at the last level. */
    ghost function Slot(v: nat): (s: nat)
      requires IsBranch()
      ensures s < branches.Length
    {
      if Div() >= 2 then Bucket(v, Div(), branches.Length) else v % branches.Length
    }

    /** What child i must look like: a branch node one level down responsible for the i-th
        sub-interval, or a leaf for the value of slot i. */
    ghost predicate Fits(i: nat, c: SearchTree)
      requires IsBranch()
    {
      c.maxValue == maxValue &&
      if Div() >= 2 then
        c.branches.Length == branches.Length && c.Level == Level + 1 && c.Lo == Lo + i * Div()
      else
        c.IsLeaf() && c.Lo == LeafKey(Lo, Extent(), branches.Length, i)
    }

    /** The subtree is a trie: every present child fits its slot and owns a footprint
        disjoint from its siblings'. Counters are not read, so changing them keeps it. */
    ghost predicate Shape()
      reads this`Nodes, this`Arrays, Nodes`Nodes, Nodes`Arrays, Arrays
      decreases Nodes
    {
      this in Nodes && branches in Arrays &&
      (IsLeaf() ==> branches[0] == null) &&
      (!IsLeaf() ==>
         IsBranch() &&
         (forall i :: 0 <= i < branches.Length && branches[i] != null ==>
            Owns(i) && branches[i].Shape()) &&
         (forall i, j :: 0 <= i < j < branches.Length && branches[i] != null && branches[j] != null ==>
            Apart(branches[i], branches[j])))
    }

    /** Child i is present, fits its slot, and its footprint lies inside this one's. */
    ghost predicate Owns(i: nat)
      requires IsBranch() && i < branches.Length && this in Nodes && branches in Arrays
      reads this`Nodes, this`Arrays, Arrays, Nodes`Nodes, Nodes`Arrays
    {
      var c := branches[i];
      c != null && c in Nodes && c.Nodes <= Nodes && c.Arrays <= Arrays &&
      this !in c.Nodes && branches !in c.Arrays && Fits(i, c)
    }

    static ghost predicate Apart(c: SearchTree, d: SearchTree)
      reads c`Nodes, c`Arrays, d`Nodes, d`Arrays
    {
      c.Nodes !! d.Nodes && c.Arrays !! d.Arrays
    }

    /** Only leaves count values, and a leaf that counts something holds its own value. */
    ghost predicate Consistent()
      reads this`Nodes, Nodes`valuesHere, Nodes`actualValue
    {
      forall m :: m in Nodes ==>
        (m.IsLeaf() && m.valuesHere > 0 ==> m.actualValue == m.Lo) &&
        (!m.IsLeaf() ==> m.valuesHere == 0)
    }

    ghost predicate Valid()
      reads this`Nodes, this`Arrays, Nodes`Nodes, Nodes`Arrays, Arrays,
        Nodes`valuesHere, Nodes`actualValue
    {
      Shape() && Consistent()
    }

    /** The leaf standing for `v` in this subtree, or null when the path to it is not built
        (or `v` lies outside the subtree's interval). */
    ghost function Locate(v: nat): (r: SearchTree?)
      requires Shape()
      reads this`Nodes, this`Arrays, Nodes`Nodes, Nodes`Arrays, Arrays
      ensures r != null ==> r in Nodes && r.IsLeaf() && r.Lo == v
      decreases Nodes
    {
      if IsLeaf() then
        if v == Lo then this else null
      else if !Covers(v) then null
      else
        var c := branches[Slot(v)];
        if c == null then null else c.Locate(v)
    }

    /** How many times `v` is currently counted in this subtree. */
    ghost function Count(v: nat): nat
      requires Shape()
      reads this`Nodes, this`Arrays, Nodes`Nodes, Nodes`Arrays, Arrays, Nodes`valuesHere
    {
      var l := Locate(v);
      if l == null then 0 else l.valuesHere
    }

    /** The values a depth-first drain of the subtree writes, in order: the node's own
        copies, then each child's from slot 0 upwards. */
    ghost function Emit(): seq<nat>
      requires Shape()
      reads this`Nodes, this`Arrays, Nodes`Nodes, Nodes`Arrays, Arrays, Nodes`valuesHere, Nodes`actualValue
      decreases Nodes, 1
    {
      Copies(actualValue, valuesHere) + EmitFrom(0)
    }

    ghost function EmitFrom(i: nat): seq<nat>
      requires Shape() && i <= branches.Length
      reads this`Nodes, this`Arrays, Nodes`Nodes, Nodes`Arrays, Arrays, Nodes`valuesHere, Nodes`actualValue
      decreases Nodes, 0, branches.Length - i
    {
      if i == branches.Length then []
      else
        var c := branches[i];
        (if c == null then [] else c.Emit()) + EmitFrom(i + 1)
    }

    /** Every value the subtree can hold is located: the trie is fully built. */
    ghost predicate Complete()
      requires Shape() && !IsLeaf()
      reads this`Nodes, this`Arrays, Nodes`Nodes, Nodes`Arrays, Arrays
    {
      forall v: nat :: Covers(v) ==> Locate(v) != null
    }

    /** Every branch node of the subtree holds in `valuesBelow` the number of values
        counted below it, modulo 2^32: what the `valuesBelow++` of addValue maintains. */
    ghost predicate Tallied()
      requires Shape()
      reads this`Nodes, this`Arrays, Nodes`Nodes, Nodes`Arrays, Arrays,
        Nodes`valuesHere, Nodes`actualValue, Nodes`valuesBelow
      decreases Nodes, 3
    {
      IsLeaf() || (valuesBelow as int == |Emit()| % WORD && BelowTallied())
    }

    /** Every present child is Tallied. */
    ghost predicate BelowTallied()
      requires Shape() && !IsLeaf()
      reads this`Nodes, this`Arrays, Nodes`Nodes, Nodes`Arrays, Arrays,
        Nodes`valuesHere, Nodes`actualValue, Nodes`valuesBelow
      decreases Nodes, 2
    {
      forall i :: 0 <= i < branches.Length && branches[i] != null ==> branches[i].Tallied()
    }

    // -------------------------------------------------------------------------------
    // Lemmas about one state of the trie

    lemma ChildValid(i: nat)
      requires Valid() && !IsLeaf() && i < branches.Length && branches[i] != null
      ensures Owns(i) && branches[i].Valid()
    {
    }

    /** Above the last level, a present child is a valid branch node one level down,
        responsible for a strictly smaller interval holding every value routed to it. */
    lemma ChildBelow(i: nat)
      requires Valid() && !IsLeaf() && Div() >= 2 && i < branches.Length && branches[i] != null
      ensures Owns(i) && branches[i].Valid() && !branches[i].IsLeaf()
      ensures branches[i].Level == Level + 1 && branches[i].Extent() < Extent()
      ensures forall v: nat :: Covers(v) && Slot(v) == i ==> branches[i].Covers(v)
    {
      var W := branches.Length;
      ChildValid(i);
      BranchGeometry(maxValue, W, Level, Lo, i);
      MulLeq(2, W, Div());
      forall v: nat | Covers(v) && Slot(v) == i
        ensures branches[i].Covers(v)
      {
        BucketRange(maxValue, W, Level, Lo, v);
      }
    }

    /** At the last level, a present child is the leaf of every value routed to it. */
    lemma LeafOf(v: nat)
      requires Shape() && !IsLeaf() && Div() < 2 && Covers(v) && branches[Slot(v)] != null
      ensures Locate(v) == branches[Slot(v)]
    {
      assert Owns(Slot(v));
      LeafKeyOfSlot(maxValue, branches.Length, Level, Lo, v);
    }

    /** Two values routed to different slots are ordered as their slots. */
    lemma SlotOrder(u: nat, v: nat)
      requires IsBranch() && Covers(u) && Covers(v) && Slot(u) < Slot(v)
      ensures u < v
    {
      if Div() >= 2 {
        BucketOrder(maxValue, branches.Length, Level, Lo, u, v);
      } else {
        LeafOrder(maxValue, branches.Length, Level, Lo, u, v);
      }
    }

    /** A child holds no leaf for a value that is not routed to its slot. */
    lemma ChildMiss(j: nat, v: nat)
      requires Shape() && !IsLeaf() && j < branches.Length && branches[j] != null
      requires !Covers(v) || Slot(v) != j
      ensures branches[j].Locate(v) == null
    {
      var c := branches[j];
      var W := branches.Length;
      assert Owns(j);
      if Div() >= 2 {
        var d := Div();
        BranchGeometry(maxValue, W, Level, Lo, j);
        if c.Covers(v) {
          MulLeq(j + 1, W, d);
          assert (j + 1) * d == j * d + d;
          BucketIs(maxValue, W, Level, Lo, v, j);
          assert false;
        }
      } else if c.Locate(v) != null {
        SlotOfLeafKey(maxValue, W, Level, Lo, j);
        assert false;
      }
    }

    /** The drain writes each value exactly as often as the trie counts it. */
    lemma {:induction false} EmitCount(v: nat)
      requires Valid()
      ensures multiset(Emit())[v] == Count(v)
      decreases Nodes, 2
    {
      CopiesCount(actualValue, valuesHere, v);
      if IsLeaf() {
        assert EmitFrom(1) == [];
      } else {
        EmitFromCount(0, v);
      }
    }

    lemma {:induction false} EmitFromCount(i: nat, v: nat)
      requires Valid() && !IsLeaf() && i <= branches.Length
      ensures multiset(EmitFrom(i))[v] == if Covers(v) && i <= Slot(v) then Count(v) else 0
      decreases Nodes, 1, branches.Length - i
    {
      if i < branches.Length {
        EmitFromCount(i + 1, v);
        ChildCount(i, v);
      }
    }

    lemma {:induction false} ChildCount(i: nat, v: nat)
      requires Valid() && !IsLeaf() && i < branches.Length
      ensures var c := branches[i];
        multiset(if c == null then [] else c.Emit())[v] ==
        if Covers(v) && Slot(v) == i then Count(v) else 0
      decreases Nodes, 0
    {
      var c := branches[i];
      if c != null {
        ChildValid(i);
        c.EmitCount(v);
        if !Covers(v) || Slot(v) != i {
          ChildMiss(i, v);
        }
      }
    }

    /** What a child emits lies in this subtree's interval and is routed to that child. */
    lemma ChildEmits(i: nat, x: nat)
      requires Valid() && !IsLeaf() && i < branches.Length && branches[i] != null
      requires x in branches[i].Emit()
      ensures Covers(x) && Slot(x) == i
    {
      var c := branches[i];
      ChildValid(i);
      c.EmitCount(x);
      assert x in multiset(c.Emit());
      if !Covers(x) || Slot(x) != i {
        ChildMiss(i, x);
      }
    }

    /** The drain writes the subtree's values in ascending order. */
    lemma {:induction false} EmitSorted()
      requires Valid()
      ensures Sorted(Emit())
      decreases Nodes, 1
    {
      CopiesSorted(actualValue, valuesHere);
      if IsLeaf() {
        assert EmitFrom(1) == [];
        assert Emit() == Copies(actualValue, valuesHere);
      } else {
        EmitFromSorted(0);
        assert Emit() == EmitFrom(0);
      }
    }

    lemma {:induction false} EmitFromSorted(i: nat)
      requires Valid() && !IsLeaf() && i <= branches.Length
      ensures Sorted(EmitFrom(i))
      ensures forall x :: x in EmitFrom(i) ==> Covers(x) && i <= Slot(x)
      decreases Nodes, 0, branches.Length - i
    {
      if i < branches.Length {
        EmitFromSorted(i + 1);
        var c := branches[i];
        var head := if c == null then [] else c.Emit();
        var rest := EmitFrom(i + 1);
        assert EmitFrom(i) == head + rest;
        if c != null {
          ChildValid(i);
          c.EmitSorted();
          forall x | x in head
            ensures Covers(x) && Slot(x) == i
          {
            ChildEmits(i, x);
          }
          forall p, q | 0 <= p < |head| && 0 <= q < |rest|
            ensures head[p] <= rest[q]
          {
            assert head[p] in head && rest[q] in rest;
            SlotOrder(head[p], rest[q]);
          }
          SortedConcat(head, rest);
        }
      }
    }

    /** Distinct values have distinct leaves. */
    lemma LocateInjective(u: nat, v: nat)
      requires Shape() && u != v
      ensures Locate(u) == null || Locate(u) != Locate(v)
    {
    }

    /** The node reached from this one by taking, level by level, the slots of `route`;
        null where that path is not built. */
    ghost function Walk(route: seq<nat>): SearchTree?
      requires Shape()
      reads this`Nodes, this`Arrays, Nodes`Nodes, Nodes`Arrays, Arrays
      decreases Nodes
    {
      if route == [] then this
      else if IsLeaf() || route[0] >= branches.Length || branches[route[0]] == null then null
      else
        assert Owns(route[0]);
        branches[route[0]].Walk(route[1..])
    }

    /** The leaf of `v` is the node reached along the slots addValue and getNodeAt compute
        for `v` from this node's depth down (`Radix.Route`): the trie is laid out by that
        routing, so two values with one route would share one leaf. */
    lemma {:induction false} LocateWalksRoute(v: nat)
      requires Shape() && !IsLeaf() && Locate(v) != null
      ensures Walk(Route(maxValue, branches.Length, Level, v)) == Locate(v)
      decreases Nodes
    {
      var W := branches.Length;
      var r := Route(maxValue, W, Level, v);
      var b := Slot(v);
      assert Owns(b);
      var c := branches[b];
      if Div() >= 2 {
        DivisorShrinks(maxValue, W, Level);
        assert r == [b] + Route(maxValue, W, Level + 1, v);
        assert r[1..] == Route(c.maxValue, c.branches.Length, c.Level, v);
        c.LocateWalksRoute(v);
      } else {
        assert r == [b];
        assert r[1..] == [];
      }
    }

    /** Every value the drain writes has its leaf in the trie. */
    lemma EmitLocated(x: nat)
      requires Valid() && x in Emit()
      ensures Locate(x) != null
    {
      EmitCount(x);
      assert x in multiset(Emit());
    }

    /** Children that emit nothing leave nothing to emit from slot k on. */
    lemma {:induction false} EmitFromEmpty(k: nat)
      requires Shape() && k <= branches.Length
      requires forall j :: k <= j < branches.Length && branches[j] != null ==> branches[j].Emit() == []
      ensures EmitFrom(k) == []
      decreases branches.Length - k
    {
      if k < branches.Length {
        EmitFromEmpty(k + 1);
      }
    }

    /** A trie that counts nothing drains to nothing. */
    lemma EmitNone()
      requires Valid() && forall v: nat :: Count(v) == 0
      ensures Emit() == []
    {
      forall x: nat
        ensures multiset(Emit())[x] == 0
      {
        EmitCount(x);
      }
      assert multiset(Emit()) == multiset{};
      assert |Emit()| == |multiset(Emit())|;
    }

    /** A node with no children, nothing counted and `valuesBelow` 0 is Tallied. */
    lemma EmptyTallied()
      requires Shape() && valuesHere == 0 && valuesBelow == 0
      requires forall j :: 0 <= j < branches.Length ==> branches[j] == null
      ensures Tallied()
    {
      EmitFromEmpty(0);
    }

    /** At the last level every child is a leaf, and leaves are Tallied. */
    lemma LeavesTallied()
      requires Shape() && !IsLeaf() && Div() < 2
      ensures BelowTallied()
    {
      forall i | 0 <= i < branches.Length && branches[i] != null
        ensures branches[i].IsLeaf()
      {
        assert Owns(i);
      }
    }

    /** The counts of every value, as a multiset, are what the drain writes. */
    lemma EmitCounts()
      requires Valid()
      ensures forall v: nat :: multiset(Emit())[v] == Count(v)
    {
      forall v: nat
        ensures multiset(Emit())[v] == Count(v)
      {
        EmitCount(v);
      }
    }

    /** When exactly one value's count grows by one, the drain writes one value more. */
    lemma EmitGrows(before: multiset<nat>, value: nat)
      requires Valid()
      requires forall v: nat :: Count(v) == before[v] + (if v == value then 1 else 0)
      ensures |Emit()| == |before| + 1
    {
      EmitCounts();
      assert multiset(Emit()) == before + multiset{value};
      assert |Emit()| == |multiset(Emit())|;
    }

    /** The root step of addValue: children Tallied, one value more below, and `valuesBelow`
        one higher make the subtree Tallied again. */
    lemma Retallied(below: uint32, size: nat)
      requires Shape() && !IsLeaf() && BelowTallied()
      requires below as int == size % WORD
      requires valuesBelow == WrapAdd(below, 1) && |Emit()| == size + 1
      ensures Tallied()
    {
      WrapAddMod(below, 1);
    }

    // -------------------------------------------------------------------------------
    // The operations of the trie

    /** Counts one more occurrence of `value` at this leaf. */
    method IncrementValue(value: nat)
      modifies this`valuesHere, this`actualValue
      ensures valuesHere == old(valuesHere) + 1 && actualValue == value
    {
      valuesHere := valuesHere + 1;
      actualValue := value;
    }

    /** The `if (branches[bucket] == null) branches[bucket] = new SearchTree(...)` step
        shared by addValue and getNodeAt: a leaf below the last level, a branch node
        above it. Nothing is counted differently afterwards. */
    method EnsureChild(bucket: nat, divisor: nat)
      requires Valid() && !IsLeaf() && bucket < branches.Length && divisor == Div()
      modifies this`Nodes, this`Arrays, branches
      ensures Valid() && Owns(bucket)
      ensures old(Nodes) <= Nodes && old(Arrays) <= Arrays
      ensures forall o :: o in Nodes ==> o in old(Nodes) || fresh(o)
      ensures forall a :: a in Arrays ==> a in old(Arrays) || fresh(a)
      ensures forall i :: 0 <= i < branches.Length && i != bucket ==> branches[i] == old(branches[i])
      ensures old(branches[bucket]) != null ==>
        branches[bucket] == old(branches[bucket]) && Nodes == old(Nodes) && Arrays == old(Arrays)
      ensures old(branches[bucket]) == null ==>
        fresh(branches[bucket]) && fresh(branches[bucket].branches) &&
        Nodes == old(Nodes) + {branches[bucket]} && Arrays == old(Arrays) + {branches[bucket].branches} &&
        branches[bucket].Nodes == {branches[bucket]} &&
        branches[bucket].Arrays == {branches[bucket].branches} &&
        forall j :: 0 <= j < branches[bucket].branches.Length ==> branches[bucket].branches[j] == null
      ensures forall v: nat :: old(Locate(v)) != null ==> Locate(v) == old(Locate(v))
      ensures forall v: nat :: Count(v) == old(Count(v))
      ensures old(BelowTallied()) ==> BelowTallied()
    {
      if branches[bucket] == null {
        var child := NewChild(bucket, divisor);
        branches[bucket] := child;
        Nodes := Nodes + {child};
        Arrays := Arrays + {child.branches};
        assert child.Shape();
        Replaced(bucket);
        forall v: nat | Covers(v) && Slot(v) == bucket
          ensures Count(v) == old(Count(v))
        {
          assert child.Locate(v) == null || child.Locate(v) == child;
        }
        if old(BelowTallied()) {
          forall i | 0 <= i < branches.Length && branches[i] != null
            ensures branches[i].Tallied()
          {
            if i != bucket {
              assert old(branches[i].Tallied());
            }
          }
        }
      }
    }

    /** The node the source builds for an empty slot: a leaf (one branch slot) at the last
        level, otherwise a branch node as wide as this one. */
    method NewChild(bucket: nat, divisor: nat) returns (child: SearchTree)
      requires IsBranch() && !IsLeaf() && bucket < branches.Length && divisor == Div()
      ensures fresh(child) && fresh(child.branches)
      ensures child.Nodes == {child} && child.Arrays == {child.branches}
      ensures forall j :: 0 <= j < child.branches.Length ==> child.branches[j] == null
      ensures child.valuesHere == 0 && Fits(bucket, child) && child.Valid() && child.Tallied()
    {
      if divisor < 2 {
        child := new SearchTree(1, maxValue, Level + 1, LeafKey(Lo, Extent(), branches.Length, bucket));
        child.EmptyValid();
      } else {
        child := NewBranch(bucket, divisor);
      }
    }

    /** The branch node for slot `bucket`: as wide as this one, one level down, responsible
        for the bucket-th sub-interval. */
    method NewBranch(bucket: nat, divisor: nat) returns (child: SearchTree)
      requires IsBranch() && !IsLeaf() && bucket < branches.Length && divisor == Div() >= 2
      ensures fresh(child) && fresh(child.branches)
      ensures child.Nodes == {child} && child.Arrays == {child.branches}
      ensures forall j :: 0 <= j < child.branches.Length ==> child.branches[j] == null
      ensures child.valuesHere == 0 && Fits(bucket, child) && child.Valid() && child.Tallied()
    {
      child := new SearchTree(branches.Length, maxValue, Level + 1, Lo + bucket * divisor);
      BranchFits(bucket, child);
      child.EmptyValid();
      child.EmptyTallied();
    }

    /** A fresh, empty branch node built for slot `bucket` fits the slot and is valid. */
    lemma BranchFits(bucket: nat, child: SearchTree)
      requires IsBranch() && !IsLeaf() && bucket < branches.Length && Div() >= 2
      requires child.branches.Length == branches.Length && child.maxValue == maxValue
      requires child.Level == Level + 1 && child.Lo == Lo + bucket * Div()
      requires child.Nodes == {child} && child.Arrays == {child.branches} && child.valuesHere == 0
      requires forall j :: 0 <= j < child.branches.Length ==> child.branches[j] == null
      ensures Fits(bucket, child) && child.IsBranch()
    {
      ChildGeometry(maxValue, branches.Length, Level, Lo, bucket, child.Lo);
    }

    /** A node just built, with no children and nothing counted, is a valid trie. */
    lemma EmptyValid()
      requires Nodes == {this} && Arrays == {branches} && valuesHere == 0
      requires IsLeaf() || IsBranch()
      requires forall j :: 0 <= j < branches.Length ==> branches[j] == null
      ensures Valid()
    {
    }

    /** Adds `value` below this branch node, building the missing nodes of its path on
        the way: the value's count goes up by one and every other count stays. */
    method AddValue(value: nat, depth: nat)
      requires Valid() && !IsLeaf() && depth == Level && Covers(value)
      modifies Nodes, Arrays
      ensures Valid()
      ensures old(Nodes) <= Nodes && old(Arrays) <= Arrays
      ensures forall o :: o in Nodes ==> o in old(Nodes) || fresh(o)
      ensures forall a :: a in Arrays ==> a in old(Arrays) || fresh(a)
      ensures forall v: nat :: old(Locate(v)) != null ==> Locate(v) == old(Locate(v))
      ensures forall v: nat :: Count(v) == old(Count(v)) + (if v == value then 1 else 0)
      ensures valuesBelow == WrapAdd(old(valuesBelow), 1)
      ensures old(Tallied()) ==> Tallied()
      decreases Extent(), 1
    {
      ghost var tallied, below, before := Tallied(), valuesBelow, multiset(Emit());
      EmitCounts();
      var W := branches.Length;
      var divisor := maxValue / Pow(W, depth);
      if divisor < 2 {
        AddLeaf(value % W, value, divisor);
      } else {
        var bucket := (value / divisor) % W;
        EnsureChild(bucket, divisor);
        AddBelow(bucket, value, depth);
      }
      if tallied {
        EmitGrows(before, value);
        Retallied(below, |before|);
      }
    }

    /** The last-level half of addValue: the value's leaf is built if missing and counts
        one more occurrence. */
    method AddLeaf(bucket: nat, value: nat, divisor: nat)
      requires Valid() && !IsLeaf() && divisor == Div() < 2 && Covers(value) && bucket == Slot(value)
      modifies Nodes, Arrays
      ensures Valid()
      ensures old(Nodes) <= Nodes && old(Arrays) <= Arrays
      ensures forall o :: o in Nodes ==> o in old(Nodes) || fresh(o)
      ensures forall a :: a in Arrays ==> a in old(Arrays) || fresh(a)
      ensures forall v: nat :: old(Locate(v)) != null ==> Locate(v) == old(Locate(v))
      ensures forall v: nat :: Count(v) == old(Count(v)) + (if v == value then 1 else 0)
      ensures valuesBelow == WrapAdd(old(valuesBelow), 1)
      ensures BelowTallied()
    {
      EnsureChild(bucket, divisor);
      var leaf := branches[bucket];
      LeafOf(value);
      Bump(leaf, value);
      valuesBelow := WrapAdd(valuesBelow, 1);
      LeavesTallied();
    }

    /** `incrementValue` on the leaf `value` is located at, seen from the subtree: the
        subtree stays valid, keeps its leaves, and only that value's count grows. */
    method Bump(leaf: SearchTree, value: nat)
      requires Valid() && Locate(value) == leaf
      modifies leaf`valuesHere, leaf`actualValue
      ensures Valid()
      ensures forall v: nat :: Locate(v) == old(Locate(v))
      ensures forall v: nat :: Count(v) == old(Count(v)) + (if v == value then 1 else 0)
    {
      leaf.IncrementValue(value);
      assert Shape();
      forall v: nat
        ensures Locate(v) == old(Locate(v))
        ensures Count(v) == old(Count(v)) + (if v == value then 1 else 0)
      {
      }
    }

    /** The upper-level half of addValue, once the child exists: the child absorbs the
        value one level down and the subtree accounts for the nodes it grew. */
    method AddBelow(bucket: nat, value: nat, depth: nat)
      requires Valid() && !IsLeaf() && depth == Level && Div() >= 2
      requires Covers(value) && bucket < branches.Length && Slot(value) == bucket && branches[bucket] != null
      modifies Nodes, Arrays
      ensures Valid()
      ensures old(Nodes) <= Nodes && old(Arrays) <= Arrays
      ensures forall o :: o in Nodes ==> o in old(Nodes) || fresh(o)
      ensures forall a :: a in Arrays ==> a in old(Arrays) || fresh(a)
      ensures forall v: nat :: old(Locate(v)) != null ==> Locate(v) == old(Locate(v))
      ensures forall v: nat :: Count(v) == old(Count(v)) + (if v == value then 1 else 0)
      ensures valuesBelow == WrapAdd(old(valuesBelow), 1)
      ensures old(BelowTallied()) ==> BelowTallied()
      decreases Extent(), 0
    {
      var c := branches[bucket];
      ChildBelow(bucket);
      var below := valuesBelow;
      c.AddValue(value, depth + 1);
      label Grown:
      Nodes := Nodes + c.Nodes;
      Arrays := Arrays + c.Arrays;
      valuesBelow := WrapAdd(below, 1);
      Kept@Grown(c);
      Regrown(bucket);
    }

    /** Builds the whole trie below a node that has no children yet: afterwards every
        value of the node's interval has its leaf, and nothing is counted. */
    method Initialise(withWidth: nat, depth: nat)
      requires Valid() && !IsLeaf() && depth == Level && withWidth == branches.Length
      requires forall i :: 0 <= i < branches.Length ==> branches[i] == null
      modifies this`Nodes, this`Arrays, branches
      ensures Valid() && Complete()
      ensures old(Nodes) <= Nodes && old(Arrays) <= Arrays
      ensures forall o :: o in Nodes ==> o in old(Nodes) || fresh(o)
      ensures forall a :: a in Arrays ==> a in old(Arrays) || fresh(a)
      ensures forall v: nat :: Count(v) == 0
      decreases Extent(), 3
    {
      var W := branches.Length;
      var divisor := maxValue / Pow(W, depth);
      for i := 0 to W
        invariant Valid() && !IsLeaf()
        invariant old(Nodes) <= Nodes && old(Arrays) <= Arrays
        invariant forall o :: o in Nodes ==> o in old(Nodes) || fresh(o)
        invariant forall a :: a in Arrays ==> a in old(Arrays) || fresh(a)
        invariant Filled(i)
      {
        InitialiseSlot(i, divisor, withWidth, depth);
      }
    }

    /** One turn of initialise's loops: slot i gets its leaf, or its subtree built in full. */
    method InitialiseSlot(i: nat, divisor: nat, withWidth: nat, depth: nat)
      requires Valid() && !IsLeaf() && depth == Level && withWidth == branches.Length
      requires divisor == maxValue / Pow(branches.Length, depth) && i < branches.Length
      requires Filled(i)
      modifies this`Nodes, this`Arrays, branches
      ensures Valid()
      ensures old(Nodes) <= Nodes && old(Arrays) <= Arrays
      ensures forall o :: o in Nodes ==> o in old(Nodes) || fresh(o)
      ensures forall a :: a in Arrays ==> a in old(Arrays) || fresh(a)
      ensures Filled(i + 1)
      decreases Extent(), 2
    {
      if divisor < 2 {
        InitialiseLeaf(i, divisor);
      } else {
        InitialiseBranch(i, divisor, withWidth, depth);
      }
    }

    /** Initialise's progress: the slots from i on are still empty, the values routed
        below i have their leaves, and nothing is counted. */
    ghost predicate Filled(i: nat)
      requires Shape() && !IsLeaf()
      reads this`Nodes, this`Arrays, Nodes`Nodes, Nodes`Arrays, Arrays, Nodes`valuesHere
    {
      (forall j :: i <= j < branches.Length ==> branches[j] == null) &&
      (forall v: nat :: Covers(v) && Slot(v) < i ==> Locate(v) != null) &&
      (forall v: nat :: Count(v) == 0)
    }

    /** One slot of initialise at the last level: a fresh leaf, which every value routed
        to the slot then finds. */
    method InitialiseLeaf(i: nat, divisor: nat)
      requires Valid() && !IsLeaf() && divisor == Div() < 2 && i < branches.Length
      requires Filled(i)
      modifies this`Nodes, this`Arrays, branches
      ensures Valid()
      ensures old(Nodes) <= Nodes && old(Arrays) <= Arrays
      ensures forall o :: o in Nodes ==> o in old(Nodes) || fresh(o)
      ensures forall a :: a in Arrays ==> a in old(Arrays) || fresh(a)
      ensures Filled(i + 1)
    {
      EnsureChild(i, divisor);
      forall v: nat | Covers(v) && Slot(v) == i
        ensures Locate(v) != null
      {
        LeafOf(v);
      }
    }

    /** One slot of initialise above the last level: a fresh branch node whose own subtree
        is built in turn. */
    method InitialiseBranch(i: nat, divisor: nat, withWidth: nat, depth: nat)
      requires Valid() && !IsLeaf() && depth == Level && withWidth == branches.Length
      requires divisor == Div() >= 2 && i < branches.Length
      requires Filled(i)
      modifies this`Nodes, this`Arrays, branches
      ensures Valid()
      ensures old(Nodes) <= Nodes && old(Arrays) <= Arrays
      ensures forall o :: o in Nodes ==> o in old(Nodes) || fresh(o)
      ensures forall a :: a in Arrays ==> a in old(Arrays) || fresh(a)
      ensures Filled(i + 1)
      decreases Extent(), 1
    {
      EnsureChild(i, divisor);
      InitialiseBelow(i, branches[i], withWidth, depth);
    }

    /** One slot of initialise above the last level: the fresh child builds its own
        subtree, which then belongs to this one. */
    method InitialiseBelow(i: nat, c: SearchTree, withWidth: nat, depth: nat)
      requires Valid() && !IsLeaf() && depth == Level && withWidth == branches.Length && Div() >= 2
      requires i < branches.Length && branches[i] == c
      requires c.Nodes == {c} && c.Arrays == {c.branches}
      requires forall j :: 0 <= j < c.branches.Length ==> c.branches[j] == null
      modifies this`Nodes, this`Arrays, c`Nodes, c`Arrays, c.branches
      ensures Valid()
      ensures old(Nodes) <= Nodes && old(Arrays) <= Arrays
      ensures forall o :: o in Nodes ==> o in old(Nodes) || fresh(o)
      ensures forall a :: a in Arrays ==> a in old(Arrays) || fresh(a)
      ensures forall v: nat :: Covers(v) && Slot(v) == i ==> Locate(v) != null
      ensures forall v: nat :: !(Covers(v) && Slot(v) == i) ==> Locate(v) == old(Locate(v))
      ensures forall v: nat :: Count(v) == old(Count(v))
      decreases Extent(), 0
    {
      ChildBelow(i);
      assert forall v: nat :: c.Count(v) == 0;
      c.Initialise(withWidth, depth + 1);
      label Grown:
      Nodes := Nodes + c.Nodes;
      Arrays := Arrays + c.Arrays;
      Kept@Grown(c);
      Regrown(i);
    }

    /** The leaf for `value`, built (with the missing nodes of its path) when absent.
        Leaves that existed stay where they were and no count changes. */
    method GetNodeAt(value: nat, depth: nat) returns (r: SearchTree)
      requires Valid() && !IsLeaf() && depth == Level && Covers(value)
      modifies Nodes`Nodes, Nodes`Arrays, Arrays
      ensures Valid()
      ensures old(Nodes) <= Nodes && old(Arrays) <= Arrays
      ensures forall o :: o in Nodes ==> o in old(Nodes) || fresh(o)
      ensures forall a :: a in Arrays ==> a in old(Arrays) || fresh(a)
      ensures r == Locate(value)
      ensures forall v: nat :: old(Locate(v)) != null ==> Locate(v) == old(Locate(v))
      ensures forall v: nat :: Count(v) == old(Count(v))
      decreases Extent(), 1
    {
      var W := branches.Length;
      var divisor := maxValue / Pow(W, depth);
      if divisor < 2 {
        r := GetLeaf(value % W, value, divisor);
      } else {
        var bucket := (value / divisor) % W;
        EnsureChild(bucket, divisor);
        r := GetBelow(bucket, value, depth);
      }
    }

    /** The last-level half of getNodeAt: the value's leaf, built if missing. */
    method GetLeaf(bucket: nat, value: nat, divisor: nat) returns (r: SearchTree)
      requires Valid() && !IsLeaf() && divisor == Div() < 2 && Covers(value) && bucket == Slot(value)
      modifies this`Nodes, this`Arrays, branches
      ensures Valid()
      ensures old(Nodes) <= Nodes && old(Arrays) <= Arrays
      ensures forall o :: o in Nodes ==> o in old(Nodes) || fresh(o)
      ensures forall a :: a in Arrays ==> a in old(Arrays) || fresh(a)
      ensures r == Locate(value)
      ensures forall v: nat :: old(Locate(v)) != null ==> Locate(v) == old(Locate(v))
      ensures forall v: nat :: Count(v) == old(Count(v))
    {
      EnsureChild(bucket, divisor);
      r := branches[bucket];
      LeafOf(value);
    }

    /** The upper-level half of getNodeAt, once the child exists. */
    method GetBelow(bucket: nat, value: nat, depth: nat) returns (r: SearchTree)
      requires Valid() && !IsLeaf() && depth == Level && Div() >= 2
      requires Covers(value) && bucket < branches.Length && Slot(value) == bucket && branches[bucket] != null
      modifies Nodes`Nodes, Nodes`Arrays, Arrays
      ensures Valid()
      ensures old(Nodes) <= Nodes && old(Arrays) <= Arrays
      ensures forall o :: o in Nodes ==> o in old(Nodes) || fresh(o)
      ensures forall a :: a in Arrays ==> a in old(Arrays) || fresh(a)
      ensures r == Locate(value)
      ensures forall v: nat :: old(Locate(v)) != null ==> Locate(v) == old(Locate(v))
      ensures forall v: nat :: Count(v) == old(Count(v))
      decreases Extent(), 0
    {
      var c := branches[bucket];
      ChildBelow(bucket);
      r := c.GetNodeAt(value, depth + 1);
      label Grown:
      Nodes := Nodes + c.Nodes;
      Arrays := Arrays + c.Arrays;
      Kept@Grown(c);
      Regrown(bucket);
    }

    /** A subtree none of whose nodes or arrays changed keeps its shape, leaves and counts. */
    twostate lemma Kept(k: SearchTree)
      requires old(k.Shape())
      requires forall o :: o in old(k.Nodes) ==> unchanged(o)
      requires forall a :: a in old(k.Arrays) ==> unchanged(a)
      ensures k.Shape() && k.Nodes == old(k.Nodes) && k.Arrays == old(k.Arrays)
      ensures old(k.Consistent()) ==> k.Consistent()
      ensures forall v: nat :: k.Locate(v) == old(k.Locate(v)) && k.Count(v) == old(k.Count(v))
      ensures k.Tallied() == old(k.Tallied())
    {
    }

    /** Such a subtree also drains to what it did. */
    twostate lemma KeptEmit(k: SearchTree)
      requires old(k.Shape())
      requires forall o :: o in old(k.Nodes) ==> unchanged(o)
      requires forall a :: a in old(k.Arrays) ==> unchanged(a)
      ensures k.Shape() && k.Emit() == old(k.Emit())
    {
    }

    /** Child b was replaced (created, or grown in place) while the rest of the subtree was
        left alone: the subtree keeps its shape, and every value not routed to b keeps its
        leaf and its count. */
    twostate lemma Replaced(b: nat)
      requires old(Shape()) && !IsLeaf() && b < branches.Length
      requires forall i :: 0 <= i < branches.Length && i != b ==> branches[i] == old(branches[i])
      requires branches[b] != null && branches[b].Shape() && Fits(b, branches[b])
      requires this !in branches[b].Nodes && branches !in branches[b].Arrays
      requires forall o :: o in branches[b].Nodes ==>
        fresh(o) || (old(branches[b]) != null && o in old(branches[b].Nodes))
      requires forall a :: a in branches[b].Arrays ==>
        fresh(a) || (old(branches[b]) != null && a in old(branches[b].Arrays))
      requires Nodes == old(Nodes) + branches[b].Nodes && Arrays == old(Arrays) + branches[b].Arrays
      requires forall o :: (o in old(Nodes) && o != this &&
        !(old(branches[b]) != null && o in old(branches[b].Nodes))) ==> unchanged(o)
      requires forall a :: (a in old(Arrays) && a != branches &&
        !(old(branches[b]) != null && a in old(branches[b].Arrays))) ==> unchanged(a)
      ensures Shape()
      ensures forall v: nat :: !(Covers(v) && Slot(v) == b) ==>
        Locate(v) == old(Locate(v)) && Count(v) == old(Count(v))
      ensures forall i :: 0 <= i < branches.Length && i != b && branches[i] != null ==>
        branches[i].Tallied() == old(branches[i].Tallied())
    {
      var W := branches.Length;
      var c := branches[b];
      forall i | 0 <= i < W && i != b && branches[i] != null
        ensures Owns(i) && branches[i].Shape()
        ensures branches[i].Tallied() == old(branches[i].Tallied())
      {
        assert old(Owns(i));
        if old(branches[b]) != null {
          assert old(Owns(b));
          assert old(if i < b then Apart(branches[i], branches[b]) else Apart(branches[b], branches[i]));
        }
        Kept(branches[i]);
      }
      forall i, j | 0 <= i < j < W && branches[i] != null && branches[j] != null
        ensures Apart(branches[i], branches[j])
      {
        if i != b && j != b {
          assert old(Apart(branches[i], branches[j]));
        } else {
          var s := if i == b then j else i;
          assert old(Owns(s));
          if old(branches[b]) != null {
            assert old(Owns(b));
            assert old(Apart(branches[i], branches[j]));
          }
        }
      }
      assert Shape();
      forall v: nat | !(Covers(v) && Slot(v) == b)
        ensures Locate(v) == old(Locate(v)) && Count(v) == old(Count(v))
      {
        if Covers(v) && branches[Slot(v)] != null {
          var i := Slot(v);
          assert old(Owns(i));
          if old(branches[b]) != null {
            assert old(Owns(b));
            assert old(if i < b then Apart(branches[i], branches[b]) else Apart(branches[b], branches[i]));
          }
          Kept(branches[i]);
        }
      }
    }

    /** Child b was rebuilt in place (by AddValue, GetNodeAt or Initialise one level
        down), while the rest of the subtree was left alone: the subtree is valid again,
        values of slot b have the child's leaves and counts, and the others keep theirs. */
    twostate lemma Regrown(b: nat)
      requires old(Valid()) && !IsLeaf() && b < branches.Length
      requires forall i :: 0 <= i < branches.Length ==> branches[i] == old(branches[i])
      requires branches[b] != null && old(Owns(b)) && branches[b].Valid()
      requires old(branches[b].Nodes) <= branches[b].Nodes && old(branches[b].Arrays) <= branches[b].Arrays
      requires forall o :: o in branches[b].Nodes ==> o in old(branches[b].Nodes) || fresh(o)
      requires forall a :: a in branches[b].Arrays ==> a in old(branches[b].Arrays) || fresh(a)
      requires Nodes == old(Nodes) + branches[b].Nodes && Arrays == old(Arrays) + branches[b].Arrays
      requires valuesHere == old(valuesHere)
      requires forall o :: (o in old(Nodes) && o != this && o !in old(branches[b].Nodes)) ==> unchanged(o)
      requires forall a ::
        (a in old(Arrays) && a != branches && a !in old(branches[b].Arrays)) ==> unchanged(a)
      ensures Valid()
      ensures old(Nodes) <= Nodes && old(Arrays) <= Arrays
      ensures forall o :: o in Nodes ==> o in old(Nodes) || fresh(o)
      ensures forall a :: a in Arrays ==> a in old(Arrays) || fresh(a)
      ensures forall v: nat :: Covers(v) && Slot(v) == b ==>
        Locate(v) == branches[b].Locate(v) && old(Locate(v)) == old(branches[b].Locate(v))
      ensures forall v: nat :: Covers(v) && Slot(v) == b ==>
        Count(v) == branches[b].Count(v) && old(Count(v)) == old(branches[b].Count(v))
      ensures forall v: nat :: !(Covers(v) && Slot(v) == b) ==>
        Locate(v) == old(Locate(v)) && Count(v) == old(Count(v))
      ensures forall i :: 0 <= i < branches.Length && i != b && branches[i] != null ==>
        branches[i].Tallied() == old(branches[i].Tallied())
    {
      var c := branches[b];
      assert this !in c.Nodes && branches !in c.Arrays;
      Replaced(b);
      forall v: nat | Covers(v) && Slot(v) == b
        ensures Locate(v) == c.Locate(v) && old(Locate(v)) == old(c.Locate(v))
        ensures Count(v) == c.Count(v) && old(Count(v)) == old(c.Count(v))
      {
      }
      forall m | m in Nodes
        ensures (m.IsLeaf() && m.valuesHere > 0 ==> m.actualValue == m.Lo) &&
          (!m.IsLeaf() ==> m.valuesHere == 0)
      {
        if m in c.Nodes {
          assert c.Consistent();
        } else if m != this {
          assert m in old(Nodes) && m !in old(c.Nodes);
          assert unchanged(m);
        }
      }
    }

    /** The children from slot k on emit what they did, so the tail of the drain from k on
        is what it was, whatever else changed. */
    twostate lemma {:induction false} EmitFromKept(k: nat)
      requires old(Shape()) && Shape() && k <= branches.Length
      requires forall j :: k <= j < branches.Length ==> branches[j] == old(branches[j])
      requires forall j :: k <= j < branches.Length && branches[j] != null ==>
        branches[j].Emit() == old(branches[j].Emit())
      ensures EmitFrom(k) == old(EmitFrom(k))
      decreases branches.Length - k
    {
      if k < branches.Length {
        EmitFromKept(k + 1);
      }
    }

    /** Only this node's own count changed, to 0 (the drain's while loop): the subtree stays
        valid and the drain of its children is what it was. */
    twostate lemma CopiesWritten()
      requires old(Valid()) && valuesHere == 0
      requires Nodes == old(Nodes) && Arrays == old(Arrays)
      requires forall o :: o in old(Nodes) && o != this ==> unchanged(o)
      requires forall a :: a in old(Arrays) ==> unchanged(a)
      ensures Valid() && EmitFrom(0) == old(EmitFrom(0))
    {
      forall j | 0 <= j < branches.Length && branches[j] != null
        ensures branches[j].Emit() == old(branches[j].Emit())
      {
        assert old(Owns(j));
        KeptEmit(branches[j]);
      }
      assert Shape();
      EmitFromKept(0);
    }

    /** Child i was drained, its counters zeroed, and nothing else of the subtree was
        touched: the subtree stays valid and every other child emits what it did. */
    twostate lemma Drained(i: nat)
      requires old(Valid()) && !IsLeaf() && i < branches.Length && old(branches[i]) != null
      requires forall a :: a in old(Arrays) ==> unchanged(a)
      requires forall o :: o in old(Nodes) ==> o.Nodes == old(o.Nodes) && o.Arrays == old(o.Arrays)
      requires forall o :: o in old(Nodes) && o !in old(branches[i].Nodes) ==> unchanged(o)
      requires branches[i] != null && branches[i].Valid() && branches[i].Emit() == []
      ensures Valid()
      ensures forall j :: 0 <= j < branches.Length && j != i && branches[j] != null ==>
        branches[j].Emit() == old(branches[j].Emit())
    {
      var c := branches[i];
      assert old(Owns(i));
      assert Shape();
      forall m | m in Nodes
        ensures (m.IsLeaf() && m.valuesHere > 0 ==> m.actualValue == m.Lo) &&
          (!m.IsLeaf() ==> m.valuesHere == 0)
      {
        if m in c.Nodes {
          assert c.Consistent();
        } else {
          assert unchanged(m);
        }
      }
      forall j | 0 <= j < branches.Length && j != i && branches[j] != null
        ensures branches[j].Emit() == old(branches[j].Emit())
      {
        assert old(Owns(j));
        assert old(if i < j then Apart(branches[i], branches[j]) else Apart(branches[j], branches[i]));
        KeptEmit(branches[j]);
      }
    }
  }
}
