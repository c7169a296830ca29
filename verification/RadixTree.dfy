/** The radix tree of src/util/rtree.rs. */
module RadixTrees {
  import opened Common
  import opened RadixKeys
  import opened RadixShapes
  import opened RadixUpdates

  /** Extending a path by one node at the top. */
  lemma UpdateMerged<V>(before: Heap<V>, path: Heap<V>, p: Ptr, x: Node<V>)
    ensures (before + path)[p := x] == before + path[p := x]
  {
  }

  lemma PathHeapExtend<V>(key: nat, value: V, base: Ptr, n: nat, b: nat)
    requires b > 0
    ensures n > 0 ==> base + n - 1 in PathHeap(key, value, base, n, NULL, b)
    ensures var node: Node<V> := PathNode(key, value, base, n + 1, NULL, b, n);
            var path := PathHeap(key, value, base, n, NULL, b)[base + n := node];
            PathHeap(key, value, base, n + 1, NULL, b)
            == if n == 0 then path else path[base + n - 1 := path[base + n - 1].(parent := base + n)]
  {
    if n > 0 {
      assert base + n - 1 in PathPtrs(base, n);
      PathTopParent(key, value, base, n, b);
    }
  }

  /** One more node on top of a detached path. */
  lemma PathExtend<V>(before: Heap<V>, key: nat, value: V, base: Ptr, n: nat, b: nat)
    requires b > 0 && forall p | p in before :: p < base
    ensures n > 0 ==> base + n - 1 in before + PathHeap(key, value, base, n, NULL, b)
    ensures var nodes := (before + PathHeap(key, value, base, n, NULL, b))
                         [base + n := PathNode(key, value, base, n + 1, NULL, b, n)];
            before + PathHeap(key, value, base, n + 1, NULL, b)
            == if n == 0 then nodes
               else nodes[base + n - 1 := nodes[base + n - 1].(parent := base + n)]
  {
    var path: Heap<V> := PathHeap(key, value, base, n, NULL, b);
    var node: Node<V> := PathNode(key, value, base, n + 1, NULL, b, n);
    PathHeapExtend(key, value, base, n, b);
    UpdateMerged(before, path, base + n, node);
    if n > 0 {
      var longer: Heap<V> := path[base + n := node];
      UpdateMerged(before, longer, base + n - 1, longer[base + n - 1].(parent := base + n));
    }
  }

  /** The top node of a path, once there is one more above it. */
  lemma PathTopParent<V>(key: nat, value: V, base: Ptr, n: nat, b: nat)
    requires b > 0 && n > 0
    ensures PathNode(key, value, base, n + 1, NULL, b, n - 1)
         == PathNode(key, value, base, n, NULL, b, n - 1).(parent := base + n)
    ensures forall j: nat | j < n - 1 ::
              PathNode(key, value, base, n + 1, NULL, b, j) == PathNode(key, value, base, n, NULL, b, j)
  {
  }

  /**
   * What nodes count.  No count exceeds its eight bits, or the number of insertions.  A node
   * above height 0 is made with one child and counts those hung under it since, `hung` times;
   * children that are collected are not taken off.
   */
  ghost predicate Counted<V>(nodes: Heap<V>, hung: multiset<Ptr>, unused: Ptr, inserts: nat) {
    && (forall p | p in nodes :: p < unused && nodes[p].occupancy <= OCCUPANCY_MAX && nodes[p].occupancy <= inserts)
    && (forall p | p in nodes && nodes[p].height > 0 :: nodes[p].occupancy == 1 + hung[p])
    && (forall p | p in hung :: p < unused)
  }

  /** The keys of `width` bits that a tree holds, with their values. */
  ghost function Contents<V>(nodes: Heap<V>, s: Shape, b: nat, width: nat): map<nat, V>
    requires b > 0
  {
    map k: nat | k < Pow2(width) && Find(nodes, s, b, k).Some? :: Find(nodes, s, b, k).value
  }

  /** The value of one key has changed to `x`. */
  ghost predicate Changed<V>(nodes: Heap<V>, s: Shape, after: Heap<V>, t: Shape, b: nat, key: nat, x: Option<V>)
    requires b > 0
  {
    forall k: nat :: Find(after, t, b, k) == if k == key then x else Find(nodes, s, b, k)
  }

  ghost predicate Same<V>(nodes: Heap<V>, s: Shape, after: Heap<V>, t: Shape, b: nat)
    requires b > 0
  {
    forall k: nat :: Find(after, t, b, k) == Find(nodes, s, b, k)
  }

  lemma SameThenChanged<V>(nodes: Heap<V>, s: Shape, between: Heap<V>, u: Shape, after: Heap<V>, t: Shape,
                           b: nat, key: nat, x: Option<V>)
    requires b > 0 && Same(nodes, s, between, u, b) && Changed(between, u, after, t, b, key, x)
    ensures Changed(nodes, s, after, t, b, key, x)
  {
  }

  lemma SlotChanged<V>(root: Ptr, nodes: Heap<V>, s: Shape, b: nat, key: nat, x: Option<V>, occupancy: nat,
                       after: Heap<V>)
    requires b > 0 && WellFormed(root, nodes, s, b) && root != NULL && (0, Shift(key, 1, b)) in s.place
    requires var p := s.place[(0, Shift(key, 1, b))];
             && p in nodes && key % b < |nodes[p].data| && after == WithSlot(nodes, p, key % b, x, occupancy)
    ensures Changed(nodes, s, after, s, b, key, x)
  {
    forall k: nat
      ensures Find(after, s, b, k) == if k == key then x else Find(nodes, s, b, k)
    {
      SlotFind(root, nodes, s, b, key, x, occupancy, k);
    }
  }

  lemma ContentsWith<V>(nodes: Heap<V>, s: Shape, after: Heap<V>, t: Shape, b: nat, width: nat, key: nat, value: V)
    requires b > 0 && key < Pow2(width)
    requires Changed(nodes, s, after, t, b, key, Some(value))
    ensures Contents(after, t, b, width) == Contents(nodes, s, b, width)[key := value]
  {
  }

  lemma ContentsWithout<V>(nodes: Heap<V>, s: Shape, after: Heap<V>, t: Shape, b: nat, width: nat, key: nat)
    requires b > 0
    requires Changed(nodes, s, after, t, b, key, None)
    ensures Contents(after, t, b, width) == Contents(nodes, s, b, width) - {key}
  {
  }

  /** How an insertion ends; the count of a node can overflow. */
  datatype Insertion<V> = Inserted(previous: Option<V>) | Panicked

  class RadixTree<V> {
    /** Bits per digit. */
    const bits: nat
    /** Bits per key. */
    const width: nat
    var root: Ptr
    var nodes: Heap<V>
    /** The lowest address never used for a node. */
    var unused: Ptr
    ghost var shape: Shape
    /** The nodes under which subtrees were hung, once for each. */
    ghost var hung: multiset<Ptr>
    /** The number of insertions. */
    ghost var inserts: nat

    function Radix(): nat { Pow2(bits) }

    ghost predicate Valid()
      reads this
    {
      && bits > 0 && width > 0 && unused != NULL
      && WellFormed(root, nodes, shape, Radix()) && Counted(nodes, hung, unused, inserts)
      && (root != NULL ==> nodes[root].height * bits < width)
    }

    /** Whether the tree is high enough for a key. */
    ghost predicate Reaches(key: nat)
      requires Valid()
      reads this
    {
      root != NULL && Shift(key, nodes[root].height + 1, Radix()) == 0
    }

    /** The lowest node on the way to a key. */
    ghost function Last(key: nat): (p: Ptr)
      requires Valid() && Reaches(key)
      reads this
      ensures p in nodes
    {
      var h := Lowest(shape, Radix(), key, 0, nodes[root].height);
      LowestPlaced(root, nodes, shape, Radix(), key, 0);
      shape.place[(h, Shift(key, h + 1, Radix()))]
    }

    ghost predicate LeafMissing(key: nat)
      reads this
    {
      (0, Shift(key, 1, Radix())) !in shape.place
    }

    /** Storing a value under this key would count one too many. */
    ghost predicate Full(key: nat)
      requires Valid()
      reads this
    {
      Reaches(key) && Lookup(key).None? && nodes[Last(key)].occupancy == OCCUPANCY_MAX
    }

    /** The value stored under a key. */
    ghost function Lookup(key: nat): Option<V>
      reads this
    {
      Find(nodes, shape, Radix(), key)
    }

    ghost predicate Stored(key: nat)
      reads this
    {
      key < Pow2(width) && Lookup(key).Some?
    }

    /** The tree as a map. */
    ghost function Model(): map<nat, V>
      reads this
    {
      Contents(nodes, shape, Radix(), width)
    }

    constructor (bits: nat, width: nat)
      requires bits > 0 && width > 0
      ensures Valid() && Model() == map[] && this.bits == bits && this.width == width
      ensures root == NULL && hung == multiset{} && inserts == 0
    {
      this.bits, this.width := bits, width;
      root, nodes, unused, shape := NULL, map[], 1, Shape(map[], map[]);
      hung, inserts := multiset{}, 0;
    }

    /** The leaf that serves a key, if there is one. */
    method FindLeaf(key: nat) returns (leaf: Ptr)
      requires Valid()
      ensures leaf == PtrAt(shape, 0, Shift(key, 1, Radix()))
      ensures leaf != NULL ==> leaf in nodes && shape.pos[leaf] == (0, Shift(key, 1, Radix()))
      ensures leaf == NULL ==> Lookup(key) == None && (0, Shift(key, 1, Radix())) !in shape.place
    {
      if root == NULL {
        return NULL;
      }
      var b := Radix();
      ghost var top := nodes[root].height;
      ShapeBounds(root, nodes, shape, b);
      TooLargeShift(key, nodes[root].height + 1, bits);
      if IsTooLarge(key, nodes[root].height + 1, bits) {
        TooLargeAbsent(root, nodes, shape, b, key);
        return NULL;
      }
      leaf := root;
      ghost var h := top;
      while leaf != NULL && nodes[leaf].height != 0
        invariant h <= top && leaf == PtrAt(shape, h, Shift(key, h + 1, b))
        invariant leaf != NULL ==> leaf in nodes && nodes[leaf].height == h
        decreases if leaf == NULL then 0 else h + 1
      {
        StepDown(root, nodes, shape, b, key, h);
        var subkey := Subkey(key, nodes[leaf].height, bits);
        leaf := nodes[leaf].child[subkey];
        h := h - 1;
        assert leaf != NULL ==> NodeOk(nodes, shape, top, b, h, Shift(key, h + 1, b));
      }
      if leaf == NULL {
        PathGap(root, nodes, shape, b, key, h);
      }
    }

    method Get(key: nat) returns (r: Option<V>)
      requires Valid()
      ensures r == Lookup(key)
    {
      var leaf := FindLeaf(key);
      if leaf == NULL {
        return None;
      }
      assert NodeOk(nodes, shape, nodes[root].height, Radix(), 0, Shift(key, 1, Radix()));
      return nodes[leaf].data[Subkey(key, 0, bits)];
    }

    /** A node with one slot filled: a value at height 0, a child above. */
    method SingleNode(height: nat, key: nat, value: V, below: Ptr, ghost base: Ptr) returns (n: Node<V>)
      requires bits > 0 && (height > 0 ==> below == base + height - 1)
      ensures n == PathNode(key, value, base, height + 1, NULL, Radix(), height)
    {
      var b, subkey := Radix(), Subkey(key, height, bits);
      n := if height == 0 then Node(NULL, height, 1, [], seq(b, i => if i == subkey then Some(value) else None))
           else Node(NULL, height, 1, seq(b, i => if i == subkey then below else NULL), []);
    }

    /** New nodes for a key from height 0 up, one above the other. */
    method CreateSubtree(height: nat, key: nat, value: V) returns (p: Ptr)
      requires bits > 0 && height >= 1 && unused != NULL && forall q | q in nodes :: q < unused
      modifies this`nodes, this`unused
      ensures p == old(unused) + height - 1 && unused == old(unused) + height
      ensures nodes == old(nodes) + PathHeap(key, value, old(unused), height, NULL, Radix())
    {
      var base := unused;
      ghost var b, before := Radix(), nodes;
      p := NULL;
      for h := 0 to height
        invariant unused == base + h
        invariant h > 0 ==> p == base + h - 1
        invariant nodes == before + PathHeap(key, value, base, h, NULL, b)
      {
        PutOnTop(h, key, value, p, base, before);
        p := unused - 1;
      }
    }

    /** Put a new node of height `h` above the node `below`. */
    method PutOnTop(h: nat, key: nat, value: V, below: Ptr, ghost base: Ptr, ghost before: Heap<V>)
      requires bits > 0 && unused == base + h && (h > 0 ==> below == base + h - 1) && forall q | q in before :: q < base
      requires nodes == before + PathHeap(key, value, base, h, NULL, Radix())
      modifies this`nodes, this`unused
      ensures unused == old(unused) + 1 && nodes == before + PathHeap(key, value, base, h + 1, NULL, Radix())
    {
      PathExtend(before, key, value, base, h, Radix());
      var node := SingleNode(h, key, value, below, base);
      nodes := nodes[unused := node];
      if h > 0 {
        nodes := nodes[below := nodes[below].(parent := unused)];
      }
      unused := unused + 1;
    }

    /** Put new roots above the old one until the tree is `height` levels high. */
    method GrowTo(height: nat)
      requires Valid() && root != NULL && nodes[root].height + 1 < height && (height - 1) * bits < width
      modifies this`root, this`nodes, this`unused, this`shape
      ensures Valid() && root != NULL && nodes[root].height == height - 1 && nodes[root].occupancy == 1
      ensures FirstOnly(shape, height - 2)
      ensures Same(old(nodes), old(shape), nodes, shape, Radix())
    {
      ghost var b, before, s0 := Radix(), nodes, shape;
      PutRoot();
      while nodes[root].height + 1 < height
        invariant Valid() && root != NULL && 0 < nodes[root].height < height && nodes[root].occupancy == 1
        invariant FirstOnly(shape, nodes[root].height - 1)
        invariant Same(before, s0, nodes, shape, b)
        decreases height - nodes[root].height
      {
        HeightStep(nodes[root].height + 1, height - 1, bits, width);
        PutRoot();
      }
    }

    /** Put a new root above the old one. */
    method PutRoot()
      requires Valid() && root != NULL && (nodes[root].height + 1) * bits < width
      modifies this`root, this`nodes, this`unused, this`shape
      ensures Valid() && root != NULL && nodes[root].height == old(nodes)[old(root)].height + 1
      ensures nodes[root].occupancy == 1
      ensures FirstOnly(shape, nodes[root].height - 1)
      ensures Same(old(nodes), old(shape), nodes, shape, Radix())
    {
      var b, oldRoot, grown := Radix(), root, unused;
      ghost var before, s0 := nodes, shape;
      Pow2Above(bits);
      var above := Node(NULL, nodes[root].height + 1, 1, seq(b, i => if i == 0 then oldRoot else NULL), []);
      shape := RootShape(shape, grown, nodes[root].height + 1);
      nodes := nodes[grown := above];
      nodes := nodes[root := nodes[root].(parent := grown)];
      root, unused := grown, unused + 1;
      RootGrown(oldRoot, before, s0, b, hung, grown, inserts, nodes, shape);
    }

    /** Create the missing nodes for a key and link them under `parent`, or make them the tree. */
    method LinkSubtree(parent: Ptr, n: nat, key: nat, value: V)
      requires bits > 0 && n >= 1 && unused != NULL && forall q | q in nodes :: q < unused
      requires parent != NULL ==> parent in nodes && |nodes[parent].child| == Radix()
      modifies this`root, this`nodes, this`unused
      ensures nodes == WithPath(old(nodes), key, value, old(unused), n, parent, Radix())
      ensures unused == old(unused) + n && root == if parent == NULL then old(unused) + n - 1 else old(root)
    {
      PathReparent(nodes, key, value, unused, n, parent, Radix());
      var subtree := CreateSubtree(n, key, value);
      if parent == NULL {
        root := subtree;
      } else {
        nodes := nodes[subtree := nodes[subtree].(parent := parent)];
        var subkey := Subkey(key, n, bits);
        nodes := nodes[parent := nodes[parent].(child := nodes[parent].child[subkey := subtree],
                                                occupancy := nodes[parent].occupancy + 1)];
      }
    }

    /** Hang the missing nodes for a key, unless the parent's count overflows. */
    method HangPath(parent: Ptr, n: nat, key: nat, value: V) returns (ok: bool)
      requires Valid() && PathFits(root, nodes, shape, Radix(), key, unused, n, parent)
      requires if parent == NULL then (n - 1) * bits < width else parent in nodes
      modifies this
      ensures ok <==> !(parent != NULL && old(nodes)[parent].occupancy == OCCUPANCY_MAX)
      ensures !ok ==> unchanged(this)
      ensures ok ==> Valid() && inserts == old(inserts) + 1
      ensures ok ==> hung == old(hung) + if parent == NULL then multiset{} else multiset{parent}
      ensures ok ==> root != NULL && if parent == NULL then nodes[root].height == n - 1
                                     else root == old(root) && nodes[root].height == old(nodes)[root].height
      ensures ok ==> Changed(old(nodes), old(shape), nodes, shape, Radix(), key, Some(value))
    {
      ghost var base, root0, before, s0, hung0 := unused, root, nodes, shape, hung;
      PathParent(root, nodes, shape, Radix(), key, base, n, parent);
      if parent != NULL && nodes[parent].occupancy == OCCUPANCY_MAX {
        return false;
      }
      LinkSubtree(parent, n, key, value);
      shape := PathShape(shape, key, base, n, Radix());
      hung := hung + if parent == NULL then multiset{} else multiset{parent};
      inserts := inserts + 1;
      PathAll(root0, before, s0, Radix(), key, value, base, n, parent, root, nodes, shape, hung0, hung, inserts - 1);
      return true;
    }

    /**
     * Store a value under a key.  A node whose count is at its limit when a value or a
     * subtree comes under it stops the insertion.
     */
    method Insert(key: nat, value: V) returns (r: Insertion<V>)
      requires Valid() && key < Pow2(width)
      modifies this
      ensures r.Panicked? <==> old(Full(key))
      ensures r.Panicked? ==> forall k | k != key :: Lookup(k) == old(Lookup(k))
      ensures r.Inserted? ==> Valid() && r.previous == old(Lookup(key)) && Model() == old(Model())[key := value]
      ensures r.Inserted? ==> inserts == old(inserts) + 1 && root in nodes
      ensures r.Inserted? && old(Reaches(key)) ==>
        && root == old(root) && nodes[root].height == old(nodes)[root].height
        && hung == old(hung) + if old(LeafMissing(key)) then multiset{old(Last(key))} else multiset{}
      ensures r.Inserted? && !old(Reaches(key)) ==>
        && nodes[root].height == KeyHeight(key, bits) - 1
        && hung == old(hung) + if old(root) == NULL then multiset{} else multiset{root}
    {
      ghost var before, s0 := nodes, shape;
      r := Place(key, value);
      if r.Inserted? {
        ContentsWith(before, s0, nodes, shape, Radix(), width, key, value);
      }
    }

    method Place(key: nat, value: V) returns (r: Insertion<V>)
      requires Valid() && key < Pow2(width)
      modifies this
      ensures r.Panicked? <==> old(Full(key))
      ensures r.Panicked? ==> forall k | k != key :: Lookup(k) == old(Lookup(k))
      ensures r.Inserted? ==> Valid() && r.previous == old(Lookup(key)) && inserts == old(inserts) + 1 && root in nodes
      ensures r.Inserted? ==> Changed(old(nodes), old(shape), nodes, shape, Radix(), key, Some(value))
      ensures r.Inserted? && old(Reaches(key)) ==>
        && root == old(root) && nodes[root].height == old(nodes)[root].height
        && hung == old(hung) + if old(LeafMissing(key)) then multiset{old(Last(key))} else multiset{}
      ensures r.Inserted? && !old(Reaches(key)) ==>
        && nodes[root].height == KeyHeight(key, bits) - 1
        && hung == old(hung) + if old(root) == NULL then multiset{} else multiset{root}
    {
      if root == NULL {
        InsertFirst(key, value);
        return Inserted(None);
      }
      TooLargeShift(key, nodes[root].height + 1, bits);
      if IsTooLarge(key, nodes[root].height + 1, bits) {
        InsertAbove(key, value);
        return Inserted(None);
      }
      r := InsertBelow(key, value);
    }

    /** Make the tree for its first key. */
    method InsertFirst(key: nat, value: V)
      requires Valid() && key < Pow2(width) && root == NULL
      modifies this
      ensures Valid() && inserts == old(inserts) + 1 && root in nodes
      ensures nodes[root].height == KeyHeight(key, bits) - 1 && hung == old(hung)
      ensures Changed(old(nodes), old(shape), nodes, shape, Radix(), key, Some(value))
    {
      KeyHeightFits(key, bits, width);
      KeyHeightEnough(key, bits);
      var ok := HangPath(NULL, KeyHeight(key, bits), key, value);
    }

    /** Grow the tree for a key that needs more levels; the new root has room for it. */
    method InsertAbove(key: nat, value: V)
      requires Valid() && key < Pow2(width) && root != NULL && IsTooLarge(key, nodes[root].height + 1, bits)
      modifies this
      ensures Valid() && old(Lookup(key)) == None && inserts == old(inserts) + 1 && root in nodes
      ensures nodes[root].height == KeyHeight(key, bits) - 1 && hung == old(hung) + multiset{root}
      ensures Changed(old(nodes), old(shape), nodes, shape, Radix(), key, Some(value))
    {
      KeyHeightFits(key, bits, width);
      KeyHeightEnough(key, bits);
      KeyHeightLeast(key, bits, nodes[root].height + 1);
      TooLargeShift(key, nodes[root].height + 1, bits);
      TooLargeAbsent(root, nodes, shape, Radix(), key);
      ghost var before, s0 := nodes, shape;
      GrowTo(KeyHeight(key, bits));
      KeyHeightTight(key, bits);
      GapBelowRoot(root, nodes, shape, Radix(), key);
      ghost var between, u := nodes, shape;
      var r := InsertBelow(key, value);
      SameThenChanged(before, s0, between, u, nodes, shape, Radix(), key, Some(value));
    }

    /** Descend to the key's leaf, creating what is missing. */
    method InsertBelow(key: nat, value: V) returns (r: Insertion<V>)
      requires Valid() && Reaches(key)
      modifies this
      ensures r.Panicked? <==> old(Full(key))
      ensures r.Panicked? ==> forall k | k != key :: Lookup(k) == old(Lookup(k))
      ensures r.Inserted? ==> Valid() && r.previous == old(Lookup(key)) && inserts == old(inserts) + 1
      ensures r.Inserted? ==> root == old(root) && root in nodes && nodes[root].height == old(nodes)[root].height
      ensures r.Inserted? ==> hung == old(hung) + if old(LeafMissing(key)) then multiset{old(Last(key))} else multiset{}
      ensures r.Inserted? ==> Changed(old(nodes), old(shape), nodes, shape, Radix(), key, Some(value))
    {
      ghost var b, top := Radix(), nodes[root].height;
      var node := root;
      while nodes[node].height != 0
        invariant unchanged(this)
        invariant node in nodes && shape.pos[node] == (nodes[node].height, Shift(key, nodes[node].height + 1, b))
        decreases nodes[node].height
      {
        ghost var h := nodes[node].height;
        StepDown(root, nodes, shape, b, key, h);
        ShapeBounds(root, nodes, shape, b);
        var subkey := Subkey(key, nodes[node].height, bits);
        var next := nodes[node].child[subkey];
        if next == NULL {
          PathGap(root, nodes, shape, b, key, h - 1);
          LowestFrom(root, nodes, shape, b, key, 0, h);
          var ok := HangPath(node, nodes[node].height, key, value);
          return if ok then Inserted(None) else Panicked;
        }
        assert NodeOk(nodes, shape, top, b, h - 1, Shift(key, h, b));
        node := next;
      }
      r := SetSlot(node, key, value);
    }

    /** Store a value in its leaf, and count it if the slot was empty. */
    method SetSlot(node: Ptr, key: nat, value: V) returns (r: Insertion<V>)
      requires Valid() && node in nodes && shape.pos[node] == (0, Shift(key, 1, Radix()))
      modifies this`nodes, this`inserts
      ensures r.Panicked? <==> old(Lookup(key)).None? && old(nodes)[node].occupancy == OCCUPANCY_MAX
      ensures r.Inserted? ==> Valid() && r.previous == old(Lookup(key)) && inserts == old(inserts) + 1
      ensures r.Inserted? ==> root in nodes && nodes[root].height == old(nodes)[root].height
      ensures Changed(old(nodes), old(shape), nodes, shape, Radix(), key, Some(value))
    {
      ghost var b, before := Radix(), nodes;
      assert NodeOk(nodes, shape, nodes[root].height, b, 0, Shift(key, 1, b));
      var subkey := Subkey(key, 0, bits);
      var previous := nodes[node].data[subkey];
      nodes := nodes[node := nodes[node].(data := nodes[node].data[subkey := Some(value)])];
      var occupancy := nodes[node].occupancy + if previous.None? then 1 else 0;
      if occupancy > OCCUPANCY_MAX {
        SlotChanged(root, before, shape, b, key, Some(value), before[node].occupancy, nodes);
        return Panicked;
      }
      nodes := nodes[node := nodes[node].(occupancy := occupancy)];
      SlotStored(root, before, shape, b, key, value, occupancy, hung, unused, inserts, nodes);
      inserts := inserts + 1;
      return Inserted(previous);
    }

    /**
     * Take the value under a key out of the tree.  For a present key this is removal
     * from the map; `RemovalSoundIff` says exactly what becomes of an absent one.
     */
    method Remove(key: nat) returns (r: Option<V>)
      requires Valid()
      modifies this
      ensures r == old(Lookup(key))
      ensures (root, nodes, shape) == Removed(old(root), old(nodes), old(shape), Radix(), key)
      ensures r.Some? ==> Valid() && Model() == old(Model()) - {key}
      ensures hung == old(hung) && inserts == old(inserts)
    {
      ghost var b, before, s0 := Radix(), nodes, shape;
      if Lookup(key).Some? {
        RemovePresent(root, nodes, shape, b, key);
        RemovedCounted(root, nodes, shape, b, key, hung, unused, inserts);
      }
      var leaf := FindLeaf(key);
      if leaf == NULL {
        return None;
      }
      r := RemoveFromLeaf(leaf, key);
      if r.Some? {
        ContentsWithout(before, s0, nodes, shape, b, width, key);
      }
    }

    /**
     * Clear a key's slot, and free the leaf if that empties it.  The parent keeps its
     * own occupancy, so the source's loop over parents ends at the first one.
     */
    method RemoveFromLeaf(leaf: Ptr, key: nat) returns (r: Option<V>)
      requires Valid() && leaf in nodes && shape.pos[leaf] == (0, Shift(key, 1, Radix()))
      modifies this`root, this`nodes, this`shape
      ensures r == old(Lookup(key))
      ensures (root, nodes, shape) == Removed(old(root), old(nodes), old(shape), Radix(), key)
    {
      ghost var b, before := Radix(), nodes;
      assert NodeOk(nodes, shape, nodes[root].height, b, 0, Shift(key, 1, b));
      DropWellFormed(root, nodes, shape, b, key);
      var subkey := Subkey(key, 0, bits);
      r := nodes[leaf].data[subkey];
      nodes := nodes[leaf := nodes[leaf].(data := nodes[leaf].data[subkey := None],
                                          occupancy := nodes[leaf].occupancy - 1)];
      if nodes[leaf].occupancy > 0 {
        return;
      }
      var parent := nodes[leaf].parent;
      if parent == NULL {
        root, nodes, shape := NULL, map[], Shape(map[], map[]);
      } else {
        assert NodeOk(before, shape, before[root].height, b, 1, Shift(key, 2, b));
        var slot := Subkey(key, nodes[parent].height, bits);
        nodes := nodes[parent := nodes[parent].(child := nodes[parent].child[slot := NULL])] - {leaf};
        shape := LeaflessShape(shape, Shift(key, 1, b), leaf);
        assert nodes == WithoutLeaf(before, leaf, parent, slot);
      }
    }
  }

  lemma {:induction false} LowestPlaced<V>(root: Ptr, nodes: Heap<V>, s: Shape, b: nat, key: nat, h: nat)
    requires b > 0 && WellFormed(root, nodes, s, b) && root != NULL && h <= nodes[root].height
    requires Shift(key, nodes[root].height + 1, b) == 0
    ensures var l := Lowest(s, b, key, h, nodes[root].height);
            && l <= nodes[root].height && (l, Shift(key, l + 1, b)) in s.place
            && s.place[(l, Shift(key, l + 1, b))] in nodes
    decreases nodes[root].height - h
  {
    var top := nodes[root].height;
    ShapeBounds(root, nodes, s, b);
    assert (top, 0) in s.place;
    if h < top && (h, Shift(key, h + 1, b)) !in s.place {
      LowestPlaced(root, nodes, s, b, key, h + 1);
    }
  }

  /** A root with one child, for the digit 0, is the last node on the way to a key that needs all its height. */
  lemma GapBelowRoot<V>(root: Ptr, nodes: Heap<V>, s: Shape, b: nat, key: nat)
    requires b > 0 && WellFormed(root, nodes, s, b) && root != NULL && nodes[root].height > 0
    requires Shift(key, nodes[root].height + 1, b) == 0 && Shift(key, nodes[root].height, b) != 0
    requires FirstOnly(s, nodes[root].height - 1)
    ensures Lowest(s, b, key, 0, nodes[root].height) == nodes[root].height
    ensures s.place[(nodes[root].height, 0)] == root && (0, Shift(key, 1, b)) !in s.place
  {
    var top := nodes[root].height;
    ShapeBounds(root, nodes, s, b);
    LowestFrom(root, nodes, s, b, key, 0, top);
    PathGap(root, nodes, s, b, key, top - 1);
  }

  lemma SlotCounted<V>(nodes: Heap<V>, p: Ptr, i: nat, x: Option<V>, occupancy: nat,
                       hung: multiset<Ptr>, unused: Ptr, inserts: nat)
    requires p in nodes && i < |nodes[p].data| && nodes[p].height == 0 && Counted(nodes, hung, unused, inserts)
    requires occupancy <= OCCUPANCY_MAX && occupancy <= nodes[p].occupancy + 1
    ensures Counted(WithSlot(nodes, p, i, x, occupancy), hung, unused, inserts + 1)
  {
  }

  /** A leaf with a value more or replaced. */
  lemma SlotStored<V>(root: Ptr, nodes: Heap<V>, s: Shape, b: nat, key: nat, value: V, occupancy: nat,
                      hung: multiset<Ptr>, unused: Ptr, inserts: nat, after: Heap<V>)
    requires b > 0 && WellFormed(root, nodes, s, b) && root != NULL && Counted(nodes, hung, unused, inserts)
    requires (0, Shift(key, 1, b)) in s.place && s.place[(0, Shift(key, 1, b))] in nodes && occupancy <= OCCUPANCY_MAX
    requires var n := nodes[s.place[(0, Shift(key, 1, b))]];
             key % b < |n.data| && occupancy == n.occupancy + if n.data[key % b].None? then 1 else 0
    requires after == WithSlot(nodes, s.place[(0, Shift(key, 1, b))], key % b, Some(value), occupancy)
    ensures WellFormed(root, after, s, b) && Counted(after, hung, unused, inserts + 1)
    ensures root in after && after[root].height == nodes[root].height
    ensures Changed(nodes, s, after, s, b, key, Some(value))
  {
    var q := Shift(key, 1, b);
    var p := s.place[(0, q)];
    assert NodeOk(nodes, s, nodes[root].height, b, 0, q);
    CountUpdate(nodes[p].data, key % b, Some(value));
    SlotWellFormed(root, nodes, s, b, q, key % b, Some(value), occupancy);
    SlotCounted(nodes, p, key % b, Some(value), occupancy, hung, unused, inserts);
    SlotChanged(root, nodes, s, b, key, Some(value), occupancy, after);
  }

  /** A new root above the old one. */
  lemma RootGrown<V>(root: Ptr, nodes: Heap<V>, s: Shape, b: nat, hung: multiset<Ptr>, grown: Ptr, inserts: nat,
                     after: Heap<V>, t: Shape)
    requires b > 1 && WellFormed(root, nodes, s, b) && root != NULL && grown != NULL
    requires Counted(nodes, hung, grown, inserts)
    requires after == WithRoot(root, nodes, grown, b) && t == RootShape(s, grown, nodes[root].height + 1)
    ensures WellFormed(grown, after, t, b) && Counted(after, hung, grown + 1, inserts)
    ensures after[grown].height == nodes[root].height + 1 && after[grown].occupancy == 1
    ensures FirstOnly(t, nodes[root].height) && Same(nodes, s, after, t, b)
  {
    ShapeBounds(root, nodes, s, b);
    assert NodeOk(nodes, s, nodes[root].height, b, nodes[root].height, 0);
    GrowWellFormed(root, nodes, s, b, grown);
  }

  /** A path hung under a node counts there, and its own nodes have one child or value each. */
  lemma PathCounted<V>(root: Ptr, nodes: Heap<V>, s: Shape, b: nat, key: nat, value: V, base: Ptr, n: nat, parent: Ptr,
                       hung: multiset<Ptr>, inserts: nat)
    requires b > 0 && PathFits(root, nodes, s, b, key, base, n, parent)
    requires parent != NULL ==> parent in nodes && |nodes[parent].child| == b && nodes[parent].height > 0
    requires parent != NULL ==> nodes[parent].occupancy < OCCUPANCY_MAX
    requires Counted(nodes, hung, base, inserts)
    ensures Counted(WithPath(nodes, key, value, base, n, parent, b),
                    hung + if parent == NULL then multiset{} else multiset{parent}, base + n, inserts + 1)
  {
    var after := WithPath(nodes, key, value, base, n, parent, b);
    var now := hung + if parent == NULL then multiset{} else multiset{parent};
    forall p | p in after
      ensures p < base + n && after[p].occupancy <= OCCUPANCY_MAX && after[p].occupancy <= inserts + 1
      ensures after[p].height > 0 ==> after[p].occupancy == 1 + now[p]
    {
      if p in PathPtrs(base, n) {
        PathNodeStored(nodes, b, key, value, base, n, parent, p - base);
      }
    }
  }

  lemma RemovedCounted<V>(root: Ptr, nodes: Heap<V>, s: Shape, b: nat, key: nat,
                          hung: multiset<Ptr>, unused: Ptr, inserts: nat)
    requires b > 0 && WellFormed(root, nodes, s, b) && Counted(nodes, hung, unused, inserts)
    ensures Counted(Removed(root, nodes, s, b, key).1, hung, unused, inserts)
  {
    if (0, Shift(key, 1, b)) in s.place {
      assert NodeOk(nodes, s, nodes[root].height, b, 0, Shift(key, 1, b));
      DropWellFormed(root, nodes, s, b, key);
      var after := Removed(root, nodes, s, b, key).1;
      forall p | p in after
        ensures p in nodes && after[p].height == nodes[p].height && after[p].occupancy <= nodes[p].occupancy
        ensures after[p].height > 0 ==> after[p].occupancy == nodes[p].occupancy
      {
      }
    }
  }

  /** Removal keeps a root that is no leaf. */
  lemma RemovedRoot<V>(root: Ptr, nodes: Heap<V>, s: Shape, b: nat, key: nat)
    requires b > 0 && WellFormed(root, nodes, s, b) && root != NULL && nodes[root].height > 0
    ensures var (root', nodes', _) := Removed(root, nodes, s, b, key);
            root' == root && root in nodes' && nodes'[root].height == nodes[root].height
  {
    if (0, Shift(key, 1, b)) in s.place {
      assert NodeOk(nodes, s, nodes[root].height, b, 0, Shift(key, 1, b));
      assert NodeOk(nodes, s, nodes[root].height, b, 1, Shift(key, 2, b));
      DropWellFormed(root, nodes, s, b, key);
    }
  }

  /** A key's height fits its type. */
  lemma KeyHeightFits(key: nat, bits: nat, width: nat)
    requires bits > 0 && width > 0 && key < Pow2(width)
    ensures (KeyHeight(key, bits) - 1) * bits < width
  {
    var h := KeyHeight(key, bits);
    KeyBitsBound(key, width);
    CeilDivCovers(KeyBits(key), bits);
    MulAdd(h - 1, 1, bits);
  }

  lemma Pow2Above(n: nat)
    requires n > 0
    ensures Pow2(n) > 1
  {
  }

  lemma HeightStep(low: nat, high: nat, bits: nat, width: nat)
    requires low <= high && high * bits < width
    ensures low * bits < width
  {
    MulNonNeg(high - low, bits);
    assert (high - low) * bits == high * bits - low * bits;
  }

  lemma PathTop<V>(key: nat, value: V, base: Ptr, n: nat, parent: Ptr, b: nat)
    requires b > 0 && n > 0
    ensures base + n - 1 in PathHeap(key, value, base, n, NULL, b)
    ensures var path := PathHeap(key, value, base, n, NULL, b);
            PathHeap(key, value, base, n, parent, b)
            == path[base + n - 1 := path[base + n - 1].(parent := parent)]
  {
    assert base + n - 1 in PathPtrs(base, n);
    var path, path' := PathHeap(key, value, base, n, NULL, b), PathHeap(key, value, base, n, parent, b);
    forall p | p in PathPtrs(base, n)
      ensures path'[p] == if p == base + n - 1 then path[p].(parent := parent) else path[p]
    {
    }
  }

  /** Linking a finished path to its parent. */
  lemma PathReparent<V>(nodes: Heap<V>, key: nat, value: V, base: Ptr, n: nat, parent: Ptr, b: nat)
    requires b > 0 && n > 0 && (parent != NULL ==> parent in nodes && |nodes[parent].child| == b)
    requires forall p | p in nodes :: p < base
    ensures base + n - 1 in nodes + PathHeap(key, value, base, n, NULL, b)
    ensures parent == NULL ==>
      WithPath(nodes, key, value, base, n, parent, b) == nodes + PathHeap(key, value, base, n, NULL, b)
    ensures parent != NULL ==>
      var made := nodes + PathHeap(key, value, base, n, NULL, b);
      WithPath(nodes, key, value, base, n, parent, b)
      == made[base + n - 1 := made[base + n - 1].(parent := parent)]
             [parent := nodes[parent].(child := nodes[parent].child[Shift(key, n, b) % b := base + n - 1],
                                       occupancy := nodes[parent].occupancy + 1)]
  {
    PathTop(key, value, base, n, parent, b);
    if parent != NULL {
      Relink(nodes, PathHeap(key, value, base, n, NULL, b), parent, base + n - 1,
             nodes[parent].(child := nodes[parent].child[Shift(key, n, b) % b := base + n - 1],
                            occupancy := nodes[parent].occupancy + 1), parent);
    }
  }

  lemma Relink<V>(nodes: Heap<V>, path: Heap<V>, p: Ptr, top: Ptr, x: Node<V>, parent: Ptr)
    requires p in nodes && p !in path && top in path && top !in nodes
    ensures nodes[p := x] + path[top := path[top].(parent := parent)]
         == (nodes + path)[top := (nodes + path)[top].(parent := parent)][p := x]
  {
  }

  /** A new path stays within the tree's height, and its addresses below the next unused one. */
  lemma PathParent<V>(root: Ptr, nodes: Heap<V>, s: Shape, b: nat, key: nat, base: Ptr, n: nat, parent: Ptr)
    requires b > 0 && PathFits(root, nodes, s, b, key, base, n, parent)
    ensures parent == NULL <==> root == NULL
    ensures parent != NULL ==> parent in nodes && |nodes[parent].child| == b && nodes[parent].height == n
  {
    PathIsNew(root, nodes, s, b, key, base, n, parent, 0);
  }

  /** A new path: the tree stays well formed, one key changes, and the parent counts it. */
  lemma PathAll<V>(root: Ptr, nodes: Heap<V>, s: Shape, b: nat, key: nat, value: V, base: Ptr, n: nat, parent: Ptr,
                   root': Ptr, after: Heap<V>, t: Shape, hung: multiset<Ptr>, hung': multiset<Ptr>, inserts: nat)
    requires b > 0 && PathFits(root, nodes, s, b, key, base, n, parent) && Counted(nodes, hung, base, inserts)
    requires parent != NULL ==> parent in nodes && |nodes[parent].child| == b && nodes[parent].occupancy < OCCUPANCY_MAX
    requires root' == (if parent == NULL then base + n - 1 else root)
    requires after == WithPath(nodes, key, value, base, n, parent, b) && t == PathShape(s, key, base, n, b)
    requires hung' == hung + if parent == NULL then multiset{} else multiset{parent}
    ensures WellFormed(root', after, t, b) && Counted(after, hung', base + n, inserts + 1)
    ensures root' in after && after[root'].height == (if root == NULL then n - 1 else nodes[root].height)
    ensures Changed(nodes, s, after, t, b, key, Some(value))
  {
    PathParent(root, nodes, s, b, key, base, n, parent);
    PathWellFormed(root, nodes, s, b, key, value, base, n, parent);
    PathCounted(root, nodes, s, b, key, value, base, n, parent, hung, inserts);
    PathHeights(root, nodes, s, b, key, value, base, n, parent);
    forall k: nat
      ensures Find(after, t, b, k) == if k == key then Some(value) else Find(nodes, s, b, k)
    {
      PathFind(root, nodes, s, b, key, value, base, n, parent, k);
    }
  }

  lemma PathHeights<V>(root: Ptr, nodes: Heap<V>, s: Shape, b: nat, key: nat, value: V, base: Ptr, n: nat, parent: Ptr)
    requires b > 0 && PathFits(root, nodes, s, b, key, base, n, parent)
    requires parent != NULL ==> parent in nodes && |nodes[parent].child| == b
    ensures var after := WithPath(nodes, key, value, base, n, parent, b);
            var root' := if root == NULL then base + n - 1 else root;
            && (forall p | p in after :: p < base + n)
            && root' in after && after[root'].height == if root == NULL then n - 1 else nodes[root].height
  {
    PathRoot(root, nodes, s, b, key, value, base, n, parent);
  }

  lemma InModel<V>(tree: RadixTree<V>, k: nat)
    ensures k in tree.Model() <==> tree.Stored(k)
    ensures tree.Stored(k) ==> tree.Lookup(k) == Some(tree.Model()[k])
  {
  }

  lemma OnlyZero<V>(tree: RadixTree<V>, j: nat)
    requires 16 <= Pow2(tree.width) && tree.Model().Keys == {0}
    requires j < 16 && tree.Lookup(j).Some?
    ensures j == 0
  {
    InModel(tree, j);
  }

  /** The keys of the first leaf. */
  lemma FirstLeaf(j: nat)
    ensures Shift(j, 1, 16) == 0 <==> j < 16
  {
    assert Shift(j, 1, 16) == j / 16;
  }

  lemma WideEnough()
    ensures Pow2(4) == 16 <= Pow2(64)
  {
    assert Pow2(4) == 16;
    Pow2Add(4, 60);
  }

  /** A fresh tree, one value stored, and another key of its leaf removed: the value is gone. */
  method RemoveNeighbour<V>(value: V) returns (tree: RadixTree<V>, stored: Option<V>, removed: Option<V>)
    ensures stored == Some(value) && removed == None && tree.Lookup(0) == None
  {
    WideEnough();
    tree := new RadixTree<V>(4, 64);
    var previous := tree.Insert(0, value);
    assert tree.Model().Keys == {0} && 0 in tree.Model();
    stored := tree.Get(0);
    FirstLeaf(0);
    FirstLeaf(1);
    forall j: nat | Shift(j, 1, 16) == 0 && tree.Lookup(j).Some?
      ensures j == 0
    {
      FirstLeaf(j);
      OnlyZero(tree, j);
    }
    LoneValueLost(tree.root, tree.nodes, tree.shape, 16, 1, 0);
    removed := tree.Remove(1);
  }
}
