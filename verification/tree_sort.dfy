/** TreeSortingProvider of TreeSort.cs: the two sort entry points over the trie of
    SearchTrees, and the depth-first drains they end with. A drain visits a node, writes
    its own count of copies of its value into the array at the running index, zeroes that
    count, and then drains the children from slot 0 upwards; it stops at once when the
    index has reached the end of the array. */
module TreeSort {
  import opened Radix
  import opened Seqs
  import opened Words
  import opened SearchTrees
  import opened Capacity

  /** The while loop of both nested `searchTree` functions: the node's own copies of its
      value go to `a[index..]`, and its count drops to 0; what is left to drain is its
      children's part. */
  method WriteCopies(node: SearchTree, a: array<nat>, index: nat) returns (next: nat)
    requires node.Valid() && index + node.valuesHere <= a.Length
    modifies a, node`valuesHere
    ensures node.Valid() && node.valuesHere == 0 && node.Emit() == old(node.EmitFrom(0))
    ensures next == index + old(node.valuesHere)
    ensures a[..] == old(a[..index]) + Copies(node.actualValue, old(node.valuesHere)) + old(a[next..])
  {
    next := index;
    while 0 < node.valuesHere
      invariant next + node.valuesHere == index + old(node.valuesHere) <= a.Length
      invariant a[..] == old(a[..index]) + Copies(node.actualValue, next - index) + old(a[next..])
      decreases node.valuesHere
    {
      a[next] := node.actualValue;
      assert Copies(node.actualValue, next + 1 - index) ==
        Copies(node.actualValue, next - index) + [node.actualValue];
      next := next + 1;
      node.valuesHere := node.valuesHere - 1;
    }
    node.CopiesWritten();
  }

  /** The nested `searchTree` functions of both entry points: drains the subtree into `a`
      from `index` on. The subtree's values land there in drain order, nothing else of the
      array changes, and the subtree counts nothing afterwards; `op` is how many values
      were written. With `tally` (sortWithInPlaceTree's version) the node's `valuesBelow`
      also drops by `op`; without it (sort's version) no `valuesBelow` is written. A
      subtree reached once the array is full has nothing left to write, because the
      callers never count more values than the array holds. */
  method Drain(node: SearchTree, a: array<nat>, index: nat, tally: bool) returns (op: uint32, next: nat)
    requires node.Valid() && index + |node.Emit()| <= a.Length < WORD
    modifies a, node.Nodes`valuesHere, (if tally then node.Nodes else {})`valuesBelow
    ensures node.Valid() && node.Emit() == []
    ensures op as int == |old(node.Emit())| && next == index + op as int
    ensures a[..] == old(a[..index]) + old(node.Emit()) + old(a[next..])
    ensures tally ==> node.valuesBelow == WrapSub(old(node.valuesBelow), op)
    decreases node.Nodes, 3
  {
    if index + 1 > a.Length {
      return 0, index;
    }
    ghost var original, copies, rest := a[..], Copies(node.actualValue, node.valuesHere), node.EmitFrom(0);
    op := node.valuesHere as uint32;
    var below := node.valuesBelow;
    var mid := WriteCopies(node, a, index);
    ghost var written := a[..];
    op, next := DrainChildren(node, a, mid, op, tally);
    DrainJoin(original, written, a[..], copies, rest, index, mid, next);
    if tally {
      node.valuesBelow := WrapSub(below, op);
    }
  }

  /** The bookkeeping of a node's drain: its own copies, then its children's values. */
  lemma DrainJoin(original: seq<nat>, written: seq<nat>, after: seq<nat>, copies: seq<nat>,
                  rest: seq<nat>, index: nat, mid: nat, next: nat)
    requires index + |copies + rest| <= |original|
    requires mid == index + |copies| && next == mid + |rest|
    requires written == original[..index] + copies + original[mid..]
    requires after == written[..mid] + rest + written[next..]
    ensures next == index + |copies + rest|
    ensures after == original[..index] + (copies + rest) + original[next..]
  {
    Splice(original, written, after, index, copies, rest);
  }

  /** The `foreach (var child in node.branches)` loop, once the node's own count is 0:
      each present child is drained in slot order, and `op` grows by what each wrote. */
  method DrainChildren(node: SearchTree, a: array<nat>, index: nat, op: uint32, tally: bool)
    returns (op': uint32, next: nat)
    requires node.Valid() && node.valuesHere == 0
    requires op as int <= index && index + |node.Emit()| <= a.Length < WORD
    modifies a, node.Nodes`valuesHere, (if tally then node.Nodes else {})`valuesBelow
    ensures node.Valid() && node.Emit() == []
    ensures op' as int == op as int + |old(node.Emit())|
    ensures next == index + |old(node.Emit())|
    ensures a[..] == old(a[..index]) + old(node.Emit()) + old(a[next..])
    decreases node.Nodes, 2
  {
    op', next := op, index;
    ghost var done: seq<nat> := [];
    ghost var drained := node.Emit();
    ghost var original := a[..];
    for i := 0 to node.branches.Length
      invariant Progress(node, a, i, index, next, original, drained, done)
      invariant op' as int == op as int + |done|
    {
      op', next, done := DrainSlot(node, a, i, index, next, original, drained, done, op', tally);
    }
    assert done == drained;
    node.EmitFromEmpty(0);
  }

  /** The loop's state after the first i slots: the node still counts nothing itself, the
      children before slot i are drained, what they emitted (`done`) sits in the array
      right after `index`, and the rest of the drain order is still to come. */
  ghost predicate Progress(node: SearchTree, a: array<nat>, i: nat, index: nat, next: nat,
                           original: seq<nat>, drained: seq<nat>, done: seq<nat>)
    reads node, node.Nodes, node.Arrays, a
  {
    node.Valid() && node.valuesHere == 0 && i <= node.branches.Length &&
    index + |drained| <= a.Length == |original| && a.Length < WORD &&
    drained == done + node.EmitFrom(i) &&
    next == index + |done| &&
    a[..] == original[..index] + done + original[next..] &&
    forall j :: 0 <= j < i && node.branches[j] != null ==> node.branches[j].Emit() == []
  }

  /** One turn of the loop: slot i, drained if it holds a child, whose count is added to
      `op` (as a 32-bit sum, which cannot wrap since it never exceeds the array length). */
  method DrainSlot(node: SearchTree, a: array<nat>, i: nat, ghost index: nat, start: nat,
                   ghost original: seq<nat>, ghost drained: seq<nat>, ghost done: seq<nat>,
                   op: uint32, tally: bool)
    returns (op': uint32, next: nat, ghost done': seq<nat>)
    requires Progress(node, a, i, index, start, original, drained, done)
    requires i < node.branches.Length && op as int <= start
    modifies a, node.Nodes`valuesHere, (if tally then node.Nodes else {})`valuesBelow
    ensures Progress(node, a, i + 1, index, next, original, drained, done')
    ensures op' as int == op as int + |done'| - |done|
    decreases node.Nodes, 1
  {
    var child := node.branches[i];
    if child != null {
      ghost var before, emitted, rest := a[..], child.Emit(), node.EmitFrom(i);
      var childOp;
      childOp, next := DrainChild(node, i, a, start, tally);
      DrainStep(original, before, a[..], drained, done, emitted, rest, node.EmitFrom(i + 1),
                index, start, next);
      done' := done + emitted;
      op' := WrapAdd(op, childOp);
    } else {
      op', next, done' := op, start, done;
      assert node.EmitFrom(i) == node.EmitFrom(i + 1);
    }
  }

  /** Child i is drained into `a[start..]`, and the later children are left as they were. */
  method DrainChild(node: SearchTree, i: nat, a: array<nat>, start: nat, tally: bool)
    returns (op: uint32, next: nat)
    requires node.Valid() && node.valuesHere == 0 && !node.IsLeaf()
    requires i < node.branches.Length && node.branches[i] != null
    requires start + |node.EmitFrom(i)| <= a.Length < WORD
    requires forall j :: 0 <= j < i && node.branches[j] != null ==> node.branches[j].Emit() == []
    modifies a, node.Nodes`valuesHere, (if tally then node.Nodes else {})`valuesBelow
    ensures node.Valid() && node.valuesHere == 0
    ensures old(node.EmitFrom(i)) == old(node.branches[i].Emit()) + node.EmitFrom(i + 1)
    ensures op as int == |old(node.branches[i].Emit())| && next == start + op as int
    ensures a[..] == old(a[..start]) + old(node.branches[i].Emit()) + old(a[next..])
    ensures forall j :: 0 <= j < i + 1 && node.branches[j] != null ==> node.branches[j].Emit() == []
    decreases node.Nodes, 0
  {
    var child := node.branches[i];
    node.ChildValid(i);
    assert node in node.Nodes && node !in child.Nodes;
    op, next := Drain(child, a, start, tally);
    node.Drained(i);
    node.EmitFromKept(i + 1);
  }

  /** The bookkeeping of one turn: what child i wrote extends what the loop has written. */
  lemma DrainStep(original: seq<nat>, before: seq<nat>, after: seq<nat>, drained: seq<nat>,
                  done: seq<nat>, emitted: seq<nat>, rest: seq<nat>, rest': seq<nat>,
                  index: nat, start: nat, next: nat)
    requires index + |drained| <= |original|
    requires drained == done + rest && rest == emitted + rest'
    requires start == index + |done| && next == start + |emitted|
    requires before == original[..index] + done + original[start..]
    requires after == before[..start] + emitted + before[next..]
    ensures drained == (done + emitted) + rest'
    ensures next == index + |done + emitted|
    ensures after == original[..index] + (done + emitted) + original[next..]
  {
    Splice(original, before, after, index, done, emitted);
  }

  /** The trie is valid and counts each value as often as `m` holds it. */
  ghost predicate Tallies(tree: SearchTree, m: multiset<nat>)
    reads tree, tree.Nodes, tree.Arrays
  {
    tree.Valid() && forall v: nat :: tree.Count(v) == m[v]
  }

  /** A valid trie counting each value as often as `m` holds it drains to a sorted
      sequence holding exactly `m`. */
  lemma EmitHolds(tree: SearchTree, m: multiset<nat>)
    requires Tallies(tree, m)
    ensures Sorted(tree.Emit()) && multiset(tree.Emit()) == m && |tree.Emit()| == |m|
  {
    forall v: nat
      ensures multiset(tree.Emit())[v] == m[v]
    {
      tree.EmitCount(v);
    }
    assert multiset(tree.Emit()) == m;
    tree.EmitSorted();
  }

  /** A drained trie counts nothing. */
  lemma DrainedNothing(tree: SearchTree)
    requires tree.Valid() && tree.Emit() == []
    ensures forall v: nat :: tree.Count(v) == 0
  {
    forall v: nat
      ensures tree.Count(v) == 0
    {
      tree.EmitCount(v);
    }
  }

  /** The provider's static state: one trie built in full once, and the table of its
      leaves by value, so that the in-place sort can count a value without a descent. */
  class TreeSortingProvider {
    var staticTree: SearchTree
    var endNodes: array<SearchTree?>

    /** The static trie is a fully built root over [0, endNodes.Length), `endNodes[v]` is
        the leaf of v, and every value is counted as often as `m` holds it. */
    ghost predicate Loaded(m: multiset<nat>)
      reads this, staticTree, staticTree.Nodes, staticTree.Arrays, endNodes
    {
      Indexed(staticTree, endNodes, m)
    }

    /** `tree` is a fully built root over [0, nodes.Length), `nodes` is its table of
        leaves, and every value is counted as often as `m` holds it. */
    static ghost predicate Indexed(tree: SearchTree, nodes: array<SearchTree?>, m: multiset<nat>)
      reads tree, tree.Nodes, tree.Arrays, nodes
    {
      Tallies(tree, m) && !tree.IsLeaf() &&
      tree.Level == 1 && tree.Lo == 0 && tree.Extent() == nodes.Length &&
      Recorded(tree, nodes, nodes.Length)
    }

    /** The state init leaves and sortWithInPlaceTree restores: nothing is counted. */
    ghost predicate Ready()
      reads this, staticTree, staticTree.Nodes, staticTree.Arrays, endNodes
    {
      Loaded(multiset{})
    }

    /** init: chooses the capacity from the hint, builds the whole trie, and records the
        leaf of every value below the capacity. */
    constructor Init(maxValue: nat, treeWidth: nat)
      requires IsPowerOfTwo(treeWidth) && treeWidth >= 2 && maxValue < ROUNDING_LIMIT
      ensures Ready()
      ensures maxValue == 0 ==> endNodes.Length == DEFAULT_CAPACITY
      ensures maxValue > 0 ==> endNodes.Length == NextPowerOfTwo(maxValue)
      ensures staticTree.branches.Length == treeWidth
      ensures fresh(staticTree) && fresh(endNodes)
      ensures forall o :: o in staticTree.Nodes ==> fresh(o)
      ensures forall x :: x in staticTree.Arrays ==> fresh(x)
    {
      var cap := InitCapacity(maxValue);
      var tree, nodes := Prebuild(cap, treeWidth);
      staticTree := tree;
      endNodes := nodes;
    }

    /** The static state for capacity `cap`: the trie built in full, and its leaf table. */
    static method Prebuild(cap: nat, treeWidth: nat) returns (tree: SearchTree, nodes: array<SearchTree?>)
      requires ValidShape(cap, treeWidth)
      ensures fresh(tree) && fresh(nodes) && tree.branches.Length == treeWidth && nodes.Length == cap
      ensures forall o :: o in tree.Nodes ==> fresh(o)
      ensures forall x :: x in tree.Arrays ==> fresh(x)
      ensures Indexed(tree, nodes, multiset{})
    {
      tree := BuildFull(cap, treeWidth);
      nodes := LeafTable(tree, cap);
    }

    /** The first half of init: a fresh root of the given capacity, built in full. */
    static method BuildFull(cap: nat, treeWidth: nat) returns (tree: SearchTree)
      requires ValidShape(cap, treeWidth)
      ensures fresh(tree) && forall o :: o in tree.Nodes ==> fresh(o)
      ensures forall x :: x in tree.Arrays ==> fresh(x)
      ensures Tallies(tree, multiset{}) && !tree.IsLeaf() && tree.Complete()
      ensures tree.branches.Length == treeWidth
      ensures tree.Level == 1 && tree.Lo == 0 && tree.Extent() == cap
    {
      tree := NewRoot(cap, treeWidth);
      tree.Initialise(treeWidth, 1);
    }

    /** `new SearchTree(treeWidth, max: maxValue)`: an empty root at depth 1 responsible
        for every value below the capacity. */
    static method NewRoot(cap: nat, treeWidth: nat) returns (tree: SearchTree)
      requires ValidShape(cap, treeWidth)
      ensures fresh(tree) && fresh(tree.branches)
      ensures tree.Nodes == {tree} && tree.Arrays == {tree.branches}
      ensures forall i :: 0 <= i < tree.branches.Length ==> tree.branches[i] == null
      ensures Tallies(tree, multiset{}) && !tree.IsLeaf() && tree.branches.Length == treeWidth
      ensures tree.Level == 1 && tree.Lo == 0 && tree.Extent() == cap && tree.valuesBelow == 0
      ensures tree.Tallied()
    {
      RootGeometry(cap, treeWidth);
      tree := new SearchTree(treeWidth, cap, 1, 0);
      tree.EmptyValid();
      tree.EmptyTallied();
    }

    /** The second half of init: `endNodes[v]` is looked up for every v below the
        capacity; the lookups find the trie complete and change nothing in it. */
    static method LeafTable(tree: SearchTree, cap: nat) returns (nodes: array<SearchTree?>)
      requires Tallies(tree, multiset{}) && !tree.IsLeaf() && tree.Complete()
      requires tree.Level == 1 && tree.Lo == 0 && tree.Extent() == cap
      modifies tree.Nodes, tree.Arrays
      ensures fresh(nodes) && nodes.Length == cap
      ensures forall o :: o in tree.Nodes ==> o in old(tree.Nodes) || fresh(o)
      ensures forall x :: x in tree.Arrays ==> x in old(tree.Arrays) || fresh(x)
      ensures Indexed(tree, nodes, multiset{})
    {
      nodes := new SearchTree?[cap](_ => null);
      for i := 0 to cap
        invariant Tallies(tree, multiset{}) && !tree.IsLeaf() && tree.Complete() && nodes.Length == cap
        invariant forall o :: o in tree.Nodes ==> o in old(tree.Nodes) || fresh(o)
        invariant forall x :: x in tree.Arrays ==> x in old(tree.Arrays) || fresh(x)
        invariant nodes !in tree.Arrays && Recorded(tree, nodes, i)
      {
        Record(tree, nodes, i);
      }
    }

    /** One turn of init's second loop: `endNodes[i] = staticTree.getNodeAt(i)`. */
    static method Record(tree: SearchTree, nodes: array<SearchTree?>, i: nat)
      requires Tallies(tree, multiset{}) && !tree.IsLeaf() && tree.Complete()
      requires tree.Level == 1 && tree.Lo == 0 && tree.Extent() == nodes.Length && i < nodes.Length
      requires nodes !in tree.Arrays && Recorded(tree, nodes, i)
      modifies tree.Nodes, tree.Arrays, nodes
      ensures Tallies(tree, multiset{}) && !tree.IsLeaf() && tree.Complete()
      ensures forall o :: o in tree.Nodes ==> o in old(tree.Nodes) || fresh(o)
      ensures forall x :: x in tree.Arrays ==> x in old(tree.Arrays) || fresh(x)
      ensures nodes !in tree.Arrays && Recorded(tree, nodes, i + 1)
    {
      var leaf := tree.GetNodeAt(i, 1);
      forall v | 0 <= v < i
        ensures nodes[v] != null && nodes[v] == tree.Locate(v)
      {
        assert old(tree.Locate(v)) != null;
      }
      Store(tree, nodes, i, leaf);
    }

    /** The table write of that turn: `endNodes[i]` becomes the leaf of i. */
    static method Store(tree: SearchTree, nodes: array<SearchTree?>, i: nat, leaf: SearchTree)
      requires tree.Shape() && i < nodes.Length && nodes !in tree.Arrays
      requires Recorded(tree, nodes, i) && leaf == tree.Locate(i)
      modifies nodes
      ensures nodes[..] == old(nodes[..])[i := leaf]
      ensures Recorded(tree, nodes, i + 1)
    {
      nodes[i] := leaf;
    }

    /** The first i entries of the table are the leaves of their values. */
    static ghost predicate Recorded(tree: SearchTree, nodes: array<SearchTree?>, i: nat)
      requires tree.Shape() && i <= nodes.Length
      reads tree`Nodes, tree`Arrays, tree.Nodes, tree.Arrays, nodes
    {
      forall v :: 0 <= v < i ==> nodes[v] != null && nodes[v] == tree.Locate(v)
    }

    /** sortWithInPlaceTree: counts every element at its recorded leaf, then drains the
        static trie back into the array, which ends sorted and holding the same elements,
        while the trie is left counting nothing, ready for the next call. */
    method SortWithInPlaceTree(a: array<nat>, treeWidth: nat) returns (r: array<nat>)
      requires Ready() && a.Length < WORD
      requires forall i :: 0 <= i < a.Length ==> a[i] < endNodes.Length
      modifies a, staticTree.Nodes`valuesHere, staticTree.Nodes`actualValue, staticTree.Nodes`valuesBelow
      ensures r == a && Ready()
      ensures Sorted(a[..]) && multiset(a[..]) == multiset(old(a[..]))
      ensures staticTree.valuesBelow == WrapSub(old(staticTree.valuesBelow), a.Length as uint32)
    {
      Tally(a);
      EmitHolds(staticTree, multiset(a[..]));
      Unload(a);
      r := a;
    }

    /** The drain of sortWithInPlaceTree, `searchTree(tree)`: the array receives the static
        trie's drain order and the trie ends counting nothing. */
    method Unload(a: array<nat>)
      requires Loaded(multiset(a[..])) && |staticTree.Emit()| == a.Length < WORD
      modifies a, staticTree.Nodes`valuesHere, staticTree.Nodes`valuesBelow
      ensures Ready() && a[..] == old(staticTree.Emit())
      ensures staticTree.valuesBelow == WrapSub(old(staticTree.valuesBelow), a.Length as uint32)
    {
      var tree := staticTree;
      label Counted:
      var op, next := Drain(tree, a, 0, true);
      assert a[..] == old(tree.Emit());
      Emptied@Counted();
    }

    /** The static trie was drained and nothing but its counters changed: it is ready
        for the next call. */
    twostate lemma Emptied()
      requires old(staticTree.Shape()) && old(!staticTree.IsLeaf())
      requires old(staticTree.Level == 1 && staticTree.Lo == 0 && staticTree.Extent() == endNodes.Length)
      requires old(forall v :: 0 <= v < endNodes.Length ==>
                     endNodes[v] != null && endNodes[v] == staticTree.Locate(v))
      requires unchanged(this) && unchanged(endNodes)
      requires forall o :: o in old(staticTree.Nodes) ==> o.Nodes == old(o.Nodes) && o.Arrays == old(o.Arrays)
      requires forall x :: x in old(staticTree.Arrays) ==> unchanged(x)
      requires staticTree.Valid() && staticTree.Emit() == []
      ensures Ready()
    {
      DrainedNothing(staticTree);
    }

    /** The first loop of sortWithInPlaceTree: each element is counted at its leaf. */
    method Tally(a: array<nat>)
      requires Ready()
      requires forall i :: 0 <= i < a.Length ==> a[i] < endNodes.Length
      modifies staticTree.Nodes`valuesHere, staticTree.Nodes`actualValue
      ensures Loaded(multiset(a[..]))
    {
      for i := 0 to a.Length
        invariant Loaded(multiset(a[..i]))
      {
        Increment(a, i);
      }
      assert a[..a.Length] == a[..];
    }

    /** One turn of that loop, `endNodes[i].incrementValue(i)`. */
    method Increment(a: array<nat>, i: nat)
      requires i < a.Length && a[i] < endNodes.Length && Loaded(multiset(a[..i]))
      modifies staticTree.Nodes`valuesHere, staticTree.Nodes`actualValue
      ensures Loaded(multiset(a[..i + 1]))
    {
      assert a[..i + 1] == a[..i] + [a[i]];
      var leaf := endNodes[a[i]];
      staticTree.Bump(leaf, a[i]);
    }

    /** sort: builds a fresh trie sized by the capacity rules, adds every element, and
        drains it into the array, which ends sorted and holding the same elements. */
    static method Sort(a: array<nat>, treeWidth: nat, maxValue: nat) returns (r: array<nat>)
      requires IsPowerOfTwo(treeWidth) && treeWidth >= 2 && maxValue < ROUNDING_LIMIT
      requires maxValue == 1 ==> forall i :: 0 <= i < a.Length ==> a[i] < ROUNDING_LIMIT
      requires forall i :: 0 <= i < a.Length ==> a[i] < SortCapacity(a[..], maxValue)
      requires a.Length < WORD
      modifies a
      ensures r == a
      ensures Sorted(a[..]) && multiset(a[..]) == multiset(old(a[..]))
    {
      var cap := ChooseCapacity(a, maxValue);
      SortCapacityCovers(a[..], maxValue);
      var tree := Build(a, treeWidth, cap);
      EmitHolds(tree, multiset(a[..]));
      Flush(tree, a);
      r := a;
    }

    /** The drain of sort, `searchTree(tree)`: the array receives the trie's drain order,
        which holds exactly the elements the trie counts, in ascending order. */
    static method Flush(tree: SearchTree, a: array<nat>)
      requires tree.Valid() && Sorted(tree.Emit()) && multiset(tree.Emit()) == multiset(a[..])
      requires |tree.Emit()| == a.Length < WORD
      modifies a, tree.Nodes`valuesHere, tree.Nodes`valuesBelow
      ensures Sorted(a[..]) && multiset(a[..]) == multiset(old(a[..]))
    {
      ghost var drained := tree.Emit();
      var _, _ := Drain(tree, a, 0, false);
      assert a[..] == drained;
    }

    /** The trie of sort: a fresh root of the given capacity, to which every element of
        `a` is added in turn. */
    static method Build(a: array<nat>, treeWidth: nat, cap: nat) returns (tree: SearchTree)
      requires ValidShape(cap, treeWidth)
      requires forall i :: 0 <= i < a.Length ==> a[i] < cap
      requires a.Length < WORD
      ensures fresh(tree) && forall o :: o in tree.Nodes ==> fresh(o)
      ensures Tallies(tree, multiset(a[..])) && tree.Tallied()
      ensures tree.valuesBelow as int == a.Length
    {
      tree := NewRoot(cap, treeWidth);
      for i := 0 to a.Length
        invariant Rooted(tree, cap, multiset(a[..i]))
        invariant tree.valuesBelow as int == i
        invariant forall o :: o in tree.Nodes ==> fresh(o)
        invariant forall x :: x in tree.Arrays ==> fresh(x)
      {
        Insert(tree, a, i, cap);
      }
      assert a[..a.Length] == a[..];
    }

    /** `tree` is a root at depth 1 responsible for every value below `cap`, counting
        each value as often as `m` holds it, with every `valuesBelow` up to date. */
    static ghost predicate Rooted(tree: SearchTree, cap: nat, m: multiset<nat>)
      reads tree, tree.Nodes, tree.Arrays
    {
      Tallies(tree, m) && !tree.IsLeaf() && tree.Level == 1 && tree.Lo == 0 && tree.Extent() == cap &&
      tree.Tallied()
    }

    /** One turn of sort's first loop, `tree.addValue(i)`: the trie counts one more
        element of `a`, and the rest as before. */
    static method Insert(tree: SearchTree, a: array<nat>, i: nat, ghost cap: nat)
      requires i < a.Length && a[i] < cap && Rooted(tree, cap, multiset(a[..i]))
      modifies tree.Nodes, tree.Arrays
      ensures Rooted(tree, cap, multiset(a[..i + 1]))
      ensures tree.valuesBelow == WrapAdd(old(tree.valuesBelow), 1)
      ensures forall o :: o in tree.Nodes ==> o in old(tree.Nodes) || fresh(o)
      ensures forall x :: x in tree.Arrays ==> x in old(tree.Arrays) || fresh(x)
    {
      assert a[..i + 1] == a[..i] + [a[i]];
      tree.AddValue(a[i], 1);
    }
  }

  /** The benchmark's use of the provider: `init(max, 128)`, then `sortWithInPlaceTree`
      on an array of values up to `max`. The array ends sorted and a permutation of its
      input, and the provider is ready for the next array. */
  method InitThenSort(a: array<nat>, max: nat) returns (p: TreeSortingProvider)
    requires 0 < max < ROUNDING_LIMIT && a.Length < WORD
    requires forall i :: 0 <= i < a.Length ==> a[i] <= max
    modifies a
    ensures fresh(p) && p.Ready()
    ensures Sorted(a[..]) && multiset(a[..]) == multiset(old(a[..]))
  {
    assert IsPowerOfTwo(128) by {
      assert IsPowerOfTwo(2) && IsPowerOfTwo(4) && IsPowerOfTwo(8) && IsPowerOfTwo(16);
      assert IsPowerOfTwo(32) && IsPowerOfTwo(64);
    }
    p := new TreeSortingProvider.Init(max, 128);
    PowerAboveIs(max, 0);
    var sorted := p.SortWithInPlaceTree(a, 128);
  }
}
