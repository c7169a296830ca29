/**
 * Runs of the radix tree of src/util/rtree.rs, up to where the count of a node overflows.
 * Inner nodes count the children hung under them and never the ones collected, so the
 * count of a node can pass its eight bits however few children it has.
 */
module RadixRuns {
  import opened Common
  import opened RadixKeys
  import opened RadixShapes
  import opened RadixUpdates
  import opened RadixTrees

  // ---------------------------------------------------------------- which node is full

  lemma {:induction false} CountWithin<V>(data: seq<Option<V>>)
    ensures Count(data) <= |data|
  {
    if data != [] {
      CountWithin(data[..|data| - 1]);
    }
  }

  /**
   * With digits of fewer than eight bits no leaf is full: an insertion overflows if and only
   * if the key's leaf is missing and the last node on its way has counted to the limit.
   */
  lemma FullIff<V>(tree: RadixTree<V>, key: nat)
    requires tree.Valid() && tree.Radix() < OCCUPANCY_MAX
    ensures tree.Full(key) <==>
              tree.Reaches(key) && tree.LeafMissing(key) && tree.nodes[tree.Last(key)].occupancy == OCCUPANCY_MAX
  {
    var b := tree.Radix();
    if tree.Reaches(key) {
      ShapeBounds(tree.root, tree.nodes, tree.shape, b);
      if !tree.LeafMissing(key) {
        assert NodeOk(tree.nodes, tree.shape, tree.nodes[tree.root].height, b, 0, Shift(key, 1, b));
        CountWithin(tree.nodes[tree.Last(key)].data);
      }
    }
  }

  // ---------------------------------------------------------------- runs

  datatype Op<V> = Put(key: nat, value: V) | Take(key: nat)

  /** The map a run leaves. */
  function After<V>(ops: seq<Op<V>>): map<nat, V> {
    if ops == [] then map[] else Applied(After(ops[..|ops| - 1]), ops[|ops| - 1])
  }

  function Puts<V>(ops: seq<Op<V>>): nat {
    if ops == [] then 0 else Puts(ops[..|ops| - 1]) + if ops[|ops| - 1].Put? then 1 else 0
  }

  function Applied<V>(m: map<nat, V>, op: Op<V>): map<nat, V> {
    match op
    case Put(k, v) => m[k := v]
    case Take(k) => m - {k}
  }

  lemma FullNeeds<V>(tree: RadixTree<V>, key: nat)
    requires tree.Valid() && tree.Full(key)
    ensures key !in tree.Model() && tree.inserts >= OCCUPANCY_MAX
  {
    InModel(tree, key);
  }

  /** One operation, unless it is the removal of an absent key. */
  method Apply<V>(tree: RadixTree<V>, op: Op<V>) returns (ok: bool)
    requires tree.Valid() && (op.Put? ==> op.key < Pow2(tree.width))
    modifies tree
    ensures ok ==> tree.Valid() && tree.Model() == Applied(old(tree.Model()), op)
    ensures ok ==> tree.inserts == old(tree.inserts) + if op.Put? then 1 else 0
    ensures !ok ==> op.key !in old(tree.Model()) && (op.Put? ==> old(tree.inserts) >= OCCUPANCY_MAX)
  {
    match op
    case Put(key, value) =>
      if tree.Full(key) {
        FullNeeds(tree, key);
      }
      var r := tree.Insert(key, value);
      return r.Inserted?;
    case Take(key) =>
      InModel(tree, key);
      var found := tree.Get(key);
      if found.None? {
        return false;
      }
      var r := tree.Remove(key);
      return true;
  }

  /**
   * A run on a new tree, up to the removal of an absent key or an insertion that panics.
   * Until then the tree is the map.  An insertion panics only for an absent key, and only
   * after 255 insertions.
   */
  method Play<V>(bits: nat, width: nat, ops: seq<Op<V>>) returns (tree: RadixTree<V>, n: nat)
    requires bits > 0 && width > 0 && forall i | 0 <= i < |ops| :: ops[i].Put? ==> ops[i].key < Pow2(width)
    ensures fresh(tree) && tree.bits == bits && tree.width == width && n <= |ops|
    ensures n == |ops| ==> tree.Valid() && tree.Model() == After(ops) && tree.inserts == Puts(ops)
    ensures n == |ops| ==> forall p | p in tree.nodes && tree.nodes[p].height > 0 ::
              tree.nodes[p].occupancy == 1 + tree.hung[p]
    ensures n < |ops| ==> ops[n].key !in After(ops[..n]) && (ops[n].Put? ==> Puts(ops[..n]) >= OCCUPANCY_MAX)
  {
    tree := new RadixTree<V>(bits, width);
    n := 0;
    while n < |ops|
      invariant n <= |ops| && fresh(tree) && tree.bits == bits && tree.width == width
      invariant tree.Valid() && tree.Model() == After(ops[..n]) && tree.inserts == Puts(ops[..n])
    {
      assert ops[..n + 1][..n] == ops[..n];
      var ok := Apply(tree, ops[n]);
      if !ok {
        return;
      }
      n := n + 1;
    }
    assert ops[..n] == ops;
  }

  // ---------------------------------------------------------------- the overflow

  /** Keys 0 and 16 of a tree with digits of four bits. */
  lemma Sixteen()
    ensures Pow2(4) == 16 && Shift(16, 1, 16) == 1 && Shift(16, 2, 16) == 0
    ensures KeyHeight(0, 4) == 1 && KeyHeight(16, 4) == 2
  {
    assert Pow2(4) == 16;
    assert KeyBits(16) == 5;
  }

  lemma SecondLeaf(k: nat)
    ensures Shift(k, 1, 16) == 1 ==> 16 <= k < 32
    ensures 32 <= Pow2(64)
  {
    assert Shift(k, 1, 16) == k / 16;
    assert Pow2(5) == 32;
    Pow2Add(5, 59);
  }

  /** A tree of two levels whose only key is 0. */
  ghost predicate OnlyKeyZero<V>(tree: RadixTree<V>)
    reads tree
  {
    && tree.Valid() && tree.bits == 4 && tree.width == 64 && tree.Model().Keys == {0}
    && tree.root != NULL && tree.nodes[tree.root].height == 1
  }

  lemma SecondLeafEmpty<V>(tree: RadixTree<V>, k: nat)
    requires tree.width == 64 && tree.Model().Keys == {0} && Shift(k, 1, 16) == 1
    ensures tree.Lookup(k) == None
  {
    SecondLeaf(k);
    InModel(tree, k);
  }

  /** Without values of keys 16 to 31 their leaf is missing, and an insertion of 16 comes to the root. */
  lemma OnlyFirstLeaf<V>(tree: RadixTree<V>)
    requires OnlyKeyZero(tree)
    ensures tree.Reaches(16) && tree.LeafMissing(16) && tree.Last(16) == tree.root && tree.Lookup(16) == None
  {
    Sixteen();
    ShapeBounds(tree.root, tree.nodes, tree.shape, 16);
    SecondLeafEmpty(tree, 16);
    if !tree.LeafMissing(16) {
      var k := LeafHolds(tree.root, tree.nodes, tree.shape, 16, 1);
      SecondLeafEmpty(tree, k);
    }
    LowestFrom(tree.root, tree.nodes, tree.shape, 16, 16, 0, 1);
  }

  /** Key 16 taken out again: its leaf is collected, and the root keeps its count. */
  method TakeSixteen<V>(tree: RadixTree<V>)
    requires tree.Valid() && tree.bits == 4 && tree.width == 64 && tree.Model().Keys == {0, 16}
    requires tree.root != NULL && tree.nodes[tree.root].height == 1
    modifies tree
    ensures OnlyKeyZero(tree) && tree.root == old(tree.root) && tree.hung == old(tree.hung)
  {
    Sixteen();
    RemovedRoot(tree.root, tree.nodes, tree.shape, 16, 16);
    InModel(tree, 16);
    var removed := tree.Remove(16);
  }

  /** One insertion and removal of key 16 under the root. */
  method Round<V>(tree: RadixTree<V>, value: V)
    requires OnlyKeyZero(tree) && tree.hung[tree.root] + 1 < OCCUPANCY_MAX
    modifies tree
    ensures OnlyKeyZero(tree) && tree.hung[tree.root] == old(tree.hung[tree.root]) + 1
  {
    OnlyFirstLeaf(tree);
    SecondLeaf(16);
    var r := tree.Insert(16, value);
    TakeSixteen(tree);
  }

  /**
   * Key 0 stored, key 16 stored and removed 254 times, and stored once more: the root, which
   * has one child by then, has counted to its limit, and the insertion panics.
   */
  method OverflowRun<V>(value: V) returns (tree: RadixTree<V>, r: Insertion<V>)
    ensures r == Panicked
  {
    tree := FirstRound(value);
    for i := 1 to 254
      invariant OnlyKeyZero(tree) && fresh(tree) && tree.hung[tree.root] == i
    {
      Round(tree, value);
    }
    OnlyFirstLeaf(tree);
    SecondLeaf(16);
    r := tree.Insert(16, value);
  }

  method FirstRound<V>(value: V) returns (tree: RadixTree<V>)
    ensures fresh(tree) && OnlyKeyZero(tree) && tree.hung[tree.root] == 1
  {
    Sixteen();
    SecondLeaf(16);
    tree := new RadixTree<V>(4, 64);
    var first := tree.Insert(0, value);
    assert tree.nodes[tree.root].height == 0;
    var second := tree.Insert(16, value);
    TakeSixteen(tree);
  }

  // ---------------------------------------------------------------- counts that wrap around

  /** Turns of the loop that collects: it clears the child, ends at a positive count, and stays at its node. */
  ghost function Collect<V>(nodes: Heap<V>, node: Ptr, i: nat, turns: nat): (r: (Heap<V>, bool))
    requires node in nodes && i < |nodes[node].child|
    ensures node in r.0 && |r.0[node].child| == |nodes[node].child| && r.0[node].occupancy == nodes[node].occupancy
  {
    if turns == 0 then (nodes, false)
    else
      var (now, ended) := Collect(nodes, node, i, turns - 1);
      if ended then (now, true)
      else (now[node := now[node].(child := now[node].child[i := NULL])], now[node].occupancy > 0)
  }

  /** A count raised in a build that does not check. */
  function Raised(occupancy: nat): nat { (occupancy + 1) % (OCCUPANCY_MAX + 1) }

  lemma {:induction false} CollectEnds<V>(nodes: Heap<V>, node: Ptr, i: nat, turns: nat)
    requires node in nodes && i < |nodes[node].child|
    ensures Collect(nodes, node, i, turns).1 <==> turns > 0 && nodes[node].occupancy > 0
  {
    if turns > 0 {
      CollectEnds(nodes, node, i, turns - 1);
    }
  }

  /** Collection under a node whose count was raised so never ends if and only if the count was at its limit. */
  lemma CollectStuckIff<V>(nodes: Heap<V>, node: Ptr, i: nat)
    requires node in nodes && i < |nodes[node].child| && nodes[node].occupancy <= OCCUPANCY_MAX
    ensures var after := nodes[node := nodes[node].(occupancy := Raised(nodes[node].occupancy))];
            (forall turns: nat :: !Collect(after, node, i, turns).1) <==> nodes[node].occupancy == OCCUPANCY_MAX
  {
    var after := nodes[node := nodes[node].(occupancy := Raised(nodes[node].occupancy))];
    CollectEnds(after, node, i, 1);
    forall turns: nat
      ensures Collect(after, node, i, turns).1 <==> turns > 0 && after[node].occupancy > 0
    {
      CollectEnds(after, node, i, turns);
    }
  }
}
