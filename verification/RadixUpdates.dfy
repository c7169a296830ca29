/** The updates a radix tree undergoes, each shown to keep it well formed and to change one key. */
module RadixUpdates {
  import opened Common
  import opened RadixKeys
  import opened RadixShapes

  // ---------------------------------------------------------------- a slot of a leaf

  ghost function WithSlot<V>(nodes: Heap<V>, p: Ptr, i: nat, x: Option<V>, occupancy: nat): Heap<V>
    requires p in nodes && i < |nodes[p].data|
  {
    nodes[p := nodes[p].(data := nodes[p].data[i := x], occupancy := occupancy)]
  }

  /** Overwriting a slot keeps the tree well formed exactly when the new occupancy counts the leaf's values. */
  lemma SlotWellFormed<V>(root: Ptr, nodes: Heap<V>, s: Shape, b: nat, q: nat, i: nat, x: Option<V>, occupancy: nat)
    requires b > 0 && WellFormed(root, nodes, s, b) && root != NULL && (0, q) in s.place && i < b
    ensures s.place[(0, q)] in nodes && |nodes[s.place[(0, q)]].data| == b
    ensures WellFormed(root, WithSlot(nodes, s.place[(0, q)], i, x, occupancy), s, b)
       <==> occupancy > 0 && occupancy == Count(nodes[s.place[(0, q)]].data[i := x])
  {
    var top := nodes[root].height;
    assert NodeOk(nodes, s, top, b, 0, q);
    var p := s.place[(0, q)];
    var after := WithSlot(nodes, p, i, x, occupancy);
    if WellFormed(root, after, s, b) {
      assert NodeOk(after, s, top, b, 0, q);
    }
    if occupancy > 0 && occupancy == Count(nodes[p].data[i := x]) {
      forall h, r | (h, r) in s.place
        ensures NodeOk(after, s, top, b, h, r)
      {
        assert NodeOk(nodes, s, top, b, h, r);
      }
    }
  }

  lemma SlotFind<V>(root: Ptr, nodes: Heap<V>, s: Shape, b: nat, key: nat, x: Option<V>, occupancy: nat, k: nat)
    requires b > 0 && WellFormed(root, nodes, s, b) && root != NULL && (0, Shift(key, 1, b)) in s.place
    ensures s.place[(0, Shift(key, 1, b))] in nodes && key % b < |nodes[s.place[(0, Shift(key, 1, b))]].data|
    ensures Find(WithSlot(nodes, s.place[(0, Shift(key, 1, b))], key % b, x, occupancy), s, b, k)
         == if k == key then x else Find(nodes, s, b, k)
  {
    var top := nodes[root].height;
    assert NodeOk(nodes, s, top, b, 0, Shift(key, 1, b));
    assert (0, Shift(k, 1, b)) in s.place ==> NodeOk(nodes, s, top, b, 0, Shift(k, 1, b));
    ShapeBounds(root, nodes, s, b);
    assert key == Shift(key, 1, b) * b + key % b && k == Shift(k, 1, b) * b + k % b by {
      ShiftJoin(key, 0, b);
      ShiftJoin(k, 0, b);
    }
  }

  // ---------------------------------------------------------------- a taller root

  ghost function WithRoot<V>(root: Ptr, nodes: Heap<V>, grown: Ptr, b: nat): Heap<V>
    requires root in nodes && b > 0
  {
    nodes[grown := Node(NULL, nodes[root].height + 1, 1, seq(b, i => if i == 0 then root else NULL), [])]
         [root := nodes[root].(parent := grown)]
  }

  ghost function RootShape(s: Shape, grown: Ptr, height: nat): Shape {
    Shape(s.place[(height, 0) := grown], s.pos[grown := (height, 0)])
  }

  lemma GrowWellFormed<V>(root: Ptr, nodes: Heap<V>, s: Shape, b: nat, grown: Ptr)
    requires b > 1 && WellFormed(root, nodes, s, b) && root != NULL
    requires grown != NULL && grown !in nodes
    ensures WellFormed(grown, WithRoot(root, nodes, grown, b), RootShape(s, grown, nodes[root].height + 1), b)
    ensures forall k :: Find(WithRoot(root, nodes, grown, b), RootShape(s, grown, nodes[root].height + 1), b, k)
                     == Find(nodes, s, b, k)
  {
    var top := nodes[root].height;
    var after, t := WithRoot(root, nodes, grown, b), RootShape(s, grown, top + 1);
    assert NodeOk(nodes, s, top, b, top, 0);
    ShapeBounds(root, nodes, s, b);
    forall h, q | (h, q) in t.place
      ensures NodeOk(after, t, top + 1, b, h, q)
    {
      if (h, q) != (top + 1, 0) {
        assert NodeOk(nodes, s, top, b, h, q);
        GrowKeepsNode(root, nodes, s, b, grown, h, q);
      } else {
        GrowRootLinks(root, nodes, s, b, grown);
      }
    }
    forall k
      ensures Find(after, t, b, k) == Find(nodes, s, b, k)
    {
      assert (0, Shift(k, 1, b)) in s.place ==> NodeOk(nodes, s, top, b, 0, Shift(k, 1, b));
    }
  }

  lemma GrowKeepsNode<V>(root: Ptr, nodes: Heap<V>, s: Shape, b: nat, grown: Ptr, h: nat, q: nat)
    requires b > 1 && WellFormed(root, nodes, s, b) && root != NULL
    requires grown != NULL && grown !in nodes && (h, q) in s.place
    ensures NodeOk(WithRoot(root, nodes, grown, b), RootShape(s, grown, nodes[root].height + 1),
                   nodes[root].height + 1, b, h, q)
  {
    var top := nodes[root].height;
    var after, t := WithRoot(root, nodes, grown, b), RootShape(s, grown, top + 1);
    assert NodeOk(nodes, s, top, b, h, q);
    var p := s.place[(h, q)];
    ShapeBounds(root, nodes, s, b);
    if h == top {
      assert p == root;
      DivZero(0, b);
    }
    assert ParentOk(after[p], t, h, q, top + 1, b);
    assert LinksOk(after[p], t, h, q, b);
  }

  lemma GrowRootLinks<V>(root: Ptr, nodes: Heap<V>, s: Shape, b: nat, grown: Ptr)
    requires b > 1 && WellFormed(root, nodes, s, b) && root != NULL
    requires grown != NULL && grown !in nodes
    ensures var top := nodes[root].height;
            LinksOk(WithRoot(root, nodes, grown, b)[grown], RootShape(s, grown, top + 1), top + 1, 0, b)
  {
    var top := nodes[root].height;
    var t := RootShape(s, grown, top + 1);
    ShapeBounds(root, nodes, s, b);
    assert forall i: nat | i < b :: PtrAt(t, top, i) == if i == 0 then root else NULL;
  }

  // ---------------------------------------------------------------- a new path

  /** Node `j` of a path of `n` new nodes from height 0 up, at consecutive addresses from `base`. */
  ghost function PathNode<V>(key: nat, value: V, base: Ptr, n: nat, parent: Ptr, b: nat, j: nat): Node<V>
    requires b > 0 && j < n
  {
    Node(if j == n - 1 then parent else base + j + 1, j, 1,
         if j == 0 then [] else seq(b, i => if i == Shift(key, j, b) % b then base + j - 1 else NULL),
         if j == 0 then seq(b, i => if i == key % b then Some(value) else None) else [])
  }

  /** The addresses of such a path. */
  ghost function PathPtrs(base: Ptr, n: nat): (r: set<Ptr>)
    ensures forall p: Ptr :: p in r <==> base <= p < base + n
  {
    if n == 0 then {} else PathPtrs(base, n - 1) + {base + n - 1}
  }

  /** The nodes by height and prefix with those of the path put in. */
  ghost function PathPlace(place: map<(nat, nat), Ptr>, key: nat, base: Ptr, n: nat, b: nat): map<(nat, nat), Ptr>
    requires b > 0
  {
    if n == 0 then place else PathPlace(place, key, base, n - 1, b)[(n - 1, Shift(key, n, b)) := base + n - 1]
  }

  lemma {:induction false} PathPlaceAt(place: map<(nat, nat), Ptr>, key: nat, base: Ptr, n: nat, b: nat, h: nat, q: nat)
    requires b > 0
    ensures var added, t := h < n && q == Shift(key, h + 1, b), PathPlace(place, key, base, n, b);
            && ((h, q) in t <==> added || (h, q) in place)
            && ((h, q) in t ==> t[(h, q)] == if added then base + h else place[(h, q)])
  {
    if n > 0 {
      PathPlaceAt(place, key, base, n - 1, b, h, q);
    }
  }

  /** The heights and prefixes by node with those of the path put in. */
  ghost function PathPos(pos: map<Ptr, (nat, nat)>, key: nat, base: Ptr, n: nat, b: nat): map<Ptr, (nat, nat)>
    requires b > 0
  {
    if n == 0 then pos else PathPos(pos, key, base, n - 1, b)[base + n - 1 := (n - 1, Shift(key, n, b))]
  }

  lemma {:induction false} PathPosAt(pos: map<Ptr, (nat, nat)>, key: nat, base: Ptr, n: nat, b: nat, p: Ptr)
    requires b > 0
    ensures var added, t := base <= p < base + n, PathPos(pos, key, base, n, b);
            && (p in t <==> added || p in pos)
            && (p in t ==> t[p] == if added then (p - base, Shift(key, p - base + 1, b)) else pos[p])
  {
    if n > 0 {
      PathPosAt(pos, key, base, n - 1, b, p);
    }
  }

  ghost function PathHeap<V>(key: nat, value: V, base: Ptr, n: nat, parent: Ptr, b: nat): (r: Heap<V>)
    requires b > 0
  {
    map p | p in PathPtrs(base, n) :: PathNode(key, value, base, n, parent, b, p - base)
  }

  ghost function PathShape(s: Shape, key: nat, base: Ptr, n: nat, b: nat): Shape
    requires b > 0
  {
    Shape(PathPlace(s.place, key, base, n, b), PathPos(s.pos, key, base, n, b))
  }

  lemma {:induction false} CountSingle<V>(data: seq<Option<V>>, i: nat)
    requires i < |data|
    requires forall j | 0 <= j < |data| :: data[j].Some? <==> j == i
    ensures Count(data) == 1
  {
    var n := |data| - 1;
    if i == n {
      CountNone(data[..n]);
    } else {
      CountSingle(data[..n], i);
    }
  }

  /** The heap with a new path hung under the node that should have a child for `key` and has none. */
  ghost function WithPath<V>(nodes: Heap<V>, key: nat, value: V, base: Ptr, n: nat, parent: Ptr, b: nat): Heap<V>
    requires b > 0 && n > 0 && (parent != NULL ==> parent in nodes && |nodes[parent].child| == b)
  {
    (if parent == NULL then nodes
     else nodes[parent := nodes[parent].(child := nodes[parent].child[Shift(key, n, b) % b := base + n - 1],
                                         occupancy := nodes[parent].occupancy + 1)])
    + PathHeap(key, value, base, n, parent, b)
  }

  /** A path of `n` new nodes fits: below the root where the next child is missing, or as the whole tree. */
  ghost predicate PathFits<V>(root: Ptr, nodes: Heap<V>, s: Shape, b: nat, key: nat, base: Ptr, n: nat, parent: Ptr)
    requires b > 0
  {
    && WellFormed(root, nodes, s, b) && n > 0 && base != NULL
    && (forall p | p in nodes :: p < base)
    && (root == NULL ==> parent == NULL && Shift(key, n, b) == 0)
    && (root != NULL ==>
          && parent != NULL && parent == PtrAt(s, n, Shift(key, n + 1, b))
          && (n - 1, Shift(key, n, b)) !in s.place)
  }

  lemma PathIsNew<V>(root: Ptr, nodes: Heap<V>, s: Shape, b: nat, key: nat, base: Ptr, n: nat, parent: Ptr, h: nat)
    requires b > 0 && PathFits(root, nodes, s, b, key, base, n, parent) && h < n
    ensures (h, Shift(key, h + 1, b)) !in s.place
    ensures root != NULL ==> n <= nodes[root].height && parent in nodes
    ensures root != NULL ==> nodes[parent].height == n && |nodes[parent].child| == b
  {
    if root != NULL {
      assert NodeOk(nodes, s, nodes[root].height, b, n, Shift(key, n + 1, b));
      if (h, Shift(key, h + 1, b)) in s.place {
        AncestorPlaced(root, nodes, s, b, key, h, n - 1);
      }
    }
  }

  /** The child of a placed node lies on the new path only under the path's parent. */
  lemma PathChildAt<V>(root: Ptr, nodes: Heap<V>, s: Shape, b: nat, key: nat, base: Ptr, n: nat, parent: Ptr,
                       h: nat, q: nat, i: nat)
    requires b > 0 && PathFits(root, nodes, s, b, key, base, n, parent)
    requires (h, q) in s.place && h > 0 && i < b
    ensures PtrAt(PathShape(s, key, base, n, b), h - 1, q * b + i)
         == if h == n && q == Shift(key, n + 1, b) && i == Shift(key, n, b) % b then base + n - 1
            else PtrAt(s, h - 1, q * b + i)
  {
    PathPlaceAt(s.place, key, base, n, b, h - 1, q * b + i);
    ShiftJoin(key, h, b);
    if q * b + i == Shift(key, h, b) {
      DivModUnique(Shift(key, h, b), b, q, i);
      if h < n {
        PathIsNew(root, nodes, s, b, key, base, n, parent, h);
      }
    }
  }

  lemma PathKept<V>(nodes: Heap<V>, key: nat, value: V, base: Ptr, n: nat, parent: Ptr, b: nat, p: Ptr)
    requires b > 0 && n > 0 && parent != NULL && parent in nodes && |nodes[parent].child| == b
    requires p in nodes && p < base
    ensures var after := WithPath(nodes, key, value, base, n, parent, b);
            && p in after && after[p].data == nodes[p].data
            && after[p].occupancy == nodes[p].occupancy + (if p == parent then 1 else 0)
            && after[p].child == if p != parent then nodes[p].child
                                 else nodes[p].child[Shift(key, n, b) % b := base + n - 1]
  {
  }

  /** The node a path hangs from is the one for the key above the path, and no other. */
  lemma PathParentIs<V>(root: Ptr, nodes: Heap<V>, s: Shape, b: nat, key: nat, base: Ptr, n: nat, parent: Ptr,
                        h: nat, q: nat)
    requires b > 0 && PathFits(root, nodes, s, b, key, base, n, parent) && root != NULL && (h, q) in s.place
    ensures s.place[(h, q)] == parent <==> h == n && q == Shift(key, n + 1, b)
  {
    assert NodeOk(nodes, s, nodes[root].height, b, n, Shift(key, n + 1, b));
    assert NodeOk(nodes, s, nodes[root].height, b, h, q);
  }

  /** The children of a placed node, with the path's top put in if the path hangs from it. */
  lemma PathChildren<V>(root: Ptr, nodes: Heap<V>, s: Shape, b: nat, key: nat, base: Ptr, n: nat, parent: Ptr,
                        h: nat, q: nat, child: seq<Ptr>, now: seq<Ptr>)
    requires b > 0 && PathFits(root, nodes, s, b, key, base, n, parent)
    requires (h, q) in s.place && h > 0 && |child| == b && Shift(key, n, b) % b < b
    requires forall i | 0 <= i < b :: child[i] == PtrAt(s, h - 1, q * b + i)
    requires now == if h == n && q == Shift(key, n + 1, b) then child[Shift(key, n, b) % b := base + n - 1] else child
    ensures forall i | 0 <= i < b :: now[i] == PtrAt(PathShape(s, key, base, n, b), h - 1, q * b + i)
  {
    forall i | 0 <= i < b
      ensures now[i] == PtrAt(PathShape(s, key, base, n, b), h - 1, q * b + i)
    {
      assert child[i] == PtrAt(s, h - 1, q * b + i);
      PathChildAt(root, nodes, s, b, key, base, n, parent, h, q, i);
    }
  }

  lemma PathKeepsLinks<V>(root: Ptr, nodes: Heap<V>, s: Shape, b: nat, key: nat, value: V, base: Ptr, n: nat,
                          parent: Ptr, h: nat, q: nat)
    requires b > 0 && PathFits(root, nodes, s, b, key, base, n, parent) && root != NULL && (h, q) in s.place
    requires parent in nodes && |nodes[parent].child| == b
    requires NodeOk(nodes, s, nodes[root].height, b, h, q)
    ensures s.place[(h, q)] in WithPath(nodes, key, value, base, n, parent, b)
    ensures LinksOk(WithPath(nodes, key, value, base, n, parent, b)[s.place[(h, q)]],
                    PathShape(s, key, base, n, b), h, q, b)
  {
    var p := s.place[(h, q)];
    PathKept(nodes, key, value, base, n, parent, b, p);
    PathParentIs(root, nodes, s, b, key, base, n, parent, h, q);
    if h > 0 {
      PathChildren(root, nodes, s, b, key, base, n, parent, h, q, nodes[p].child,
                   WithPath(nodes, key, value, base, n, parent, b)[p].child);
    }
  }

  lemma PathKeepsNode<V>(root: Ptr, nodes: Heap<V>, s: Shape, b: nat, key: nat, value: V, base: Ptr, n: nat,
                         parent: Ptr, h: nat, q: nat)
    requires b > 0 && PathFits(root, nodes, s, b, key, base, n, parent) && root != NULL && (h, q) in s.place
    ensures parent in nodes && |nodes[parent].child| == b
    ensures (h, q) in PathShape(s, key, base, n, b).place
    ensures NodeOk(WithPath(nodes, key, value, base, n, parent, b), PathShape(s, key, base, n, b),
                   nodes[root].height, b, h, q)
  {
    var top := nodes[root].height;
    PathIsNew(root, nodes, s, b, key, base, n, parent, 0);
    assert NodeOk(nodes, s, top, b, h, q);
    PathKeepsLinks(root, nodes, s, b, key, value, base, n, parent, h, q);
    PathPlaces(root, nodes, s, b, key, base, n, parent, h, q);
    PathPosAt(s.pos, key, base, n, b, s.place[(h, q)]);
    if h < top {
      PathPlaces(root, nodes, s, b, key, base, n, parent, h + 1, q / b);
    }
  }

  /** The new path leaves placed nodes where they are. */
  lemma PathPlaces<V>(root: Ptr, nodes: Heap<V>, s: Shape, b: nat, key: nat, base: Ptr, n: nat, parent: Ptr,
                      h: nat, q: nat)
    requires b > 0 && PathFits(root, nodes, s, b, key, base, n, parent) && (h, q) in s.place
    ensures var t := PathShape(s, key, base, n, b);
            (h, q) in t.place && t.place[(h, q)] == s.place[(h, q)]
  {
    PathPlaceAt(s.place, key, base, n, b, h, q);
    if h < n {
      PathIsNew(root, nodes, s, b, key, base, n, parent, h);
    }
  }

  lemma PathNodeLinks<V>(root: Ptr, nodes: Heap<V>, s: Shape, b: nat, key: nat, value: V, base: Ptr, n: nat,
                         parent: Ptr, h: nat)
    requires b > 0 && PathFits(root, nodes, s, b, key, base, n, parent) && h < n
    ensures LinksOk(PathNode(key, value, base, n, parent, b, h), PathShape(s, key, base, n, b),
                    h, Shift(key, h + 1, b), b)
  {
    var node, t := PathNode(key, value, base, n, parent, b, h), PathShape(s, key, base, n, b);
    if h == 0 {
      CountSingle(node.data, key % b);
    } else {
      ShiftJoin(key, h, b);
      forall i | 0 <= i < b
        ensures node.child[i] == PtrAt(t, h - 1, Shift(key, h + 1, b) * b + i)
      {
        if i != Shift(key, h, b) % b {
          UnderNewPath(root, nodes, s, b, key, base, n, parent, h, i);
        } else {
          PathNodePlaced(s, b, key, base, n, h - 1);
        }
      }
    }
  }

  lemma PathNodeParent<V>(root: Ptr, nodes: Heap<V>, s: Shape, b: nat, key: nat, value: V, base: Ptr, n: nat,
                          parent: Ptr, h: nat)
    requires b > 0 && PathFits(root, nodes, s, b, key, base, n, parent) && h < n
    ensures ParentOk(PathNode(key, value, base, n, parent, b, h), PathShape(s, key, base, n, b),
                     h, Shift(key, h + 1, b), if root == NULL then n - 1 else nodes[root].height, b)
    ensures root != NULL ==> n <= nodes[root].height
  {
    PathIsNew(root, nodes, s, b, key, base, n, parent, h);
    assert Shift(key, h + 1, b) / b == Shift(key, h + 2, b);
    if h < n - 1 {
      PathNodePlaced(s, b, key, base, n, h + 1);
    } else if root != NULL {
      PathPlaces(root, nodes, s, b, key, base, n, parent, n, Shift(key, n + 1, b));
    }
  }

  lemma PathNodeStored<V>(nodes: Heap<V>, b: nat, key: nat, value: V, base: Ptr, n: nat, parent: Ptr, h: nat)
    requires b > 0 && h < n && (parent != NULL ==> parent in nodes && |nodes[parent].child| == b)
    ensures base + h in WithPath(nodes, key, value, base, n, parent, b)
    ensures WithPath(nodes, key, value, base, n, parent, b)[base + h] == PathNode(key, value, base, n, parent, b, h)
  {
    assert base + h in PathPtrs(base, n);
  }

  lemma PathNodePlaced(s: Shape, b: nat, key: nat, base: Ptr, n: nat, h: nat)
    requires b > 0 && h < n
    ensures var t := PathShape(s, key, base, n, b);
            && (h, Shift(key, h + 1, b)) in t.place && t.place[(h, Shift(key, h + 1, b))] == base + h
            && base + h in t.pos && t.pos[base + h] == (h, Shift(key, h + 1, b))
  {
    PathPlaceAt(s.place, key, base, n, b, h, Shift(key, h + 1, b));
    PathPosAt(s.pos, key, base, n, b, base + h);
  }

  lemma PathNodeOk<V>(root: Ptr, nodes: Heap<V>, s: Shape, b: nat, key: nat, value: V, base: Ptr, n: nat,
                      parent: Ptr, h: nat)
    requires b > 0 && PathFits(root, nodes, s, b, key, base, n, parent) && h < n
    requires parent != NULL ==> parent in nodes && |nodes[parent].child| == b
    ensures (h, Shift(key, h + 1, b)) in PathShape(s, key, base, n, b).place
    ensures NodeOk(WithPath(nodes, key, value, base, n, parent, b), PathShape(s, key, base, n, b),
                   if root == NULL then n - 1 else nodes[root].height, b, h, Shift(key, h + 1, b))
  {
    PathNodeStored(nodes, b, key, value, base, n, parent, h);
    PathNodePlaced(s, b, key, base, n, h);
    PathNodeLinks(root, nodes, s, b, key, value, base, n, parent, h);
    PathNodeParent(root, nodes, s, b, key, value, base, n, parent, h);
    NodeOkIntro(WithPath(nodes, key, value, base, n, parent, b), PathShape(s, key, base, n, b),
                if root == NULL then n - 1 else nodes[root].height, b, h, Shift(key, h + 1, b),
                PathNode(key, value, base, n, parent, b, h));
  }

  /** Below a new node there is only the next new node. */
  lemma UnderNewPath<V>(root: Ptr, nodes: Heap<V>, s: Shape, b: nat, key: nat, base: Ptr, n: nat, parent: Ptr,
                        h: nat, i: nat)
    requires b > 0 && PathFits(root, nodes, s, b, key, base, n, parent) && 0 < h < n
    requires i < b && i != Shift(key, h, b) % b
    ensures (h - 1, Shift(key, h + 1, b) * b + i) !in PathShape(s, key, base, n, b).place
  {
    var q := Shift(key, h + 1, b);
    DivModUnique(q * b + i, b, q, i);
    PathPlaceAt(s.place, key, base, n, b, h - 1, q * b + i);
    PathIsNew(root, nodes, s, b, key, base, n, parent, h);
    if (h - 1, q * b + i) in s.place {
      ParentPlaced(root, nodes, s, b, h - 1, q * b + i);
    }
  }

  /** Hanging a new path keeps the tree well formed. */
  lemma PathWellFormed<V>(root: Ptr, nodes: Heap<V>, s: Shape, b: nat, key: nat, value: V, base: Ptr, n: nat,
                          parent: Ptr)
    requires b > 0 && PathFits(root, nodes, s, b, key, base, n, parent)
    ensures parent != NULL ==> parent in nodes && |nodes[parent].child| == b
    ensures WellFormed(if root == NULL then base + n - 1 else root,
                       WithPath(nodes, key, value, base, n, parent, b), PathShape(s, key, base, n, b), b)
  {
    PathIsNew(root, nodes, s, b, key, base, n, parent, 0);
    var after, t := WithPath(nodes, key, value, base, n, parent, b), PathShape(s, key, base, n, b);
    var root' := if root == NULL then base + n - 1 else root;
    PathPositions(root, nodes, s, b, key, value, base, n, parent);
    PathRoot(root, nodes, s, b, key, value, base, n, parent);
    forall h: nat, q: nat | (h, q) in t.place
      ensures NodeOk(after, t, after[root'].height, b, h, q)
    {
      PathPlaceAt(s.place, key, base, n, b, h, q);
      if (h, q) in s.place {
        PathKeepsNode(root, nodes, s, b, key, value, base, n, parent, h, q);
      } else {
        PathNodeOk(root, nodes, s, b, key, value, base, n, parent, h);
      }
    }
  }

  lemma PathPositions<V>(root: Ptr, nodes: Heap<V>, s: Shape, b: nat, key: nat, value: V, base: Ptr, n: nat,
                         parent: Ptr)
    requires b > 0 && PathFits(root, nodes, s, b, key, base, n, parent)
    requires parent != NULL ==> parent in nodes && |nodes[parent].child| == b
    ensures var after, t := WithPath(nodes, key, value, base, n, parent, b), PathShape(s, key, base, n, b);
            && t.pos.Keys == after.Keys
            && (forall p | p in t.pos :: t.pos[p] in t.place && t.place[t.pos[p]] == p)
  {
    var after, t := WithPath(nodes, key, value, base, n, parent, b), PathShape(s, key, base, n, b);
    forall p: Ptr
      ensures p in t.pos <==> p in after
    {
      PathPosAt(s.pos, key, base, n, b, p);
    }
    forall p | p in t.pos
      ensures t.pos[p] in t.place && t.place[t.pos[p]] == p
    {
      PathPosAt(s.pos, key, base, n, b, p);
      if base <= p < base + n {
        PathNodePlaced(s, b, key, base, n, p - base);
      } else {
        var (h, q) := s.pos[p];
        PathPlaces(root, nodes, s, b, key, base, n, parent, h, q);
      }
    }
  }

  lemma PathRoot<V>(root: Ptr, nodes: Heap<V>, s: Shape, b: nat, key: nat, value: V, base: Ptr, n: nat, parent: Ptr)
    requires b > 0 && PathFits(root, nodes, s, b, key, base, n, parent)
    requires parent != NULL ==> parent in nodes && |nodes[parent].child| == b
    ensures var after, t := WithPath(nodes, key, value, base, n, parent, b), PathShape(s, key, base, n, b);
            var root' := if root == NULL then base + n - 1 else root;
            && root' in after && root' in t.pos && t.pos[root'] == (after[root'].height, 0)
            && after[root'].height == if root == NULL then n - 1 else nodes[root].height
  {
    if root == NULL {
      PathNodeStored(nodes, b, key, value, base, n, parent, n - 1);
      PathNodePlaced(s, b, key, base, n, n - 1);
    } else {
      PathPosAt(s.pos, key, base, n, b, root);
    }
  }

  /** Hanging a new path stores its key and nothing else. */
  lemma PathFind<V>(root: Ptr, nodes: Heap<V>, s: Shape, b: nat, key: nat, value: V, base: Ptr, n: nat,
                    parent: Ptr, k: nat)
    requires b > 0 && PathFits(root, nodes, s, b, key, base, n, parent)
    ensures parent != NULL ==> parent in nodes && |nodes[parent].child| == b
    ensures Find(nodes, s, b, key) == None
    ensures Find(WithPath(nodes, key, value, base, n, parent, b), PathShape(s, key, base, n, b), b, k)
         == if k == key then Some(value) else Find(nodes, s, b, k)
  {
    PathIsNew(root, nodes, s, b, key, base, n, parent, 0);
    if root != NULL {
      ShapeBounds(root, nodes, s, b);
    }
    if Shift(k, 1, b) == Shift(key, 1, b) {
      PathFindLeaf(nodes, s, b, key, value, base, n, parent, k);
    } else {
      PathFindElsewhere(root, nodes, s, b, key, value, base, n, parent, k);
    }
  }

  /** Keys of one leaf differ in their last digit. */
  lemma LastDigit(k: nat, key: nat, b: nat)
    requires b > 0 && Shift(k, 1, b) == Shift(key, 1, b)
    ensures k == key <==> k % b == key % b
  {
    ShiftJoin(key, 0, b);
    ShiftJoin(k, 0, b);
  }

  lemma FindAt<V>(nodes: Heap<V>, s: Shape, b: nat, k: nat, node: Node<V>)
    requires b > 0 && |node.data| == b
    requires var p := PtrAt(s, 0, Shift(k, 1, b)); p in nodes && nodes[p] == node
    ensures Find(nodes, s, b, k) == node.data[k % b]
  {
  }

  lemma PathFindLeaf<V>(nodes: Heap<V>, s: Shape, b: nat, key: nat, value: V, base: Ptr, n: nat, parent: Ptr, k: nat)
    requires b > 0 && n > 0 && Shift(k, 1, b) == Shift(key, 1, b)
    requires parent != NULL ==> parent in nodes && |nodes[parent].child| == b
    ensures Find(WithPath(nodes, key, value, base, n, parent, b), PathShape(s, key, base, n, b), b, k)
         == if k == key then Some(value) else None
  {
    var after, t := WithPath(nodes, key, value, base, n, parent, b), PathShape(s, key, base, n, b);
    PathNodePlaced(s, b, key, base, n, 0);
    PathNodeStored(nodes, b, key, value, base, n, parent, 0);
    FindAt(after, t, b, k, PathNode(key, value, base, n, parent, b, 0));
    LastDigit(k, key, b);
  }

  lemma PathFindElsewhere<V>(root: Ptr, nodes: Heap<V>, s: Shape, b: nat, key: nat, value: V, base: Ptr, n: nat,
                             parent: Ptr, k: nat)
    requires b > 0 && PathFits(root, nodes, s, b, key, base, n, parent) && Shift(k, 1, b) != Shift(key, 1, b)
    requires parent != NULL ==> parent in nodes && |nodes[parent].child| == b
    ensures Find(WithPath(nodes, key, value, base, n, parent, b), PathShape(s, key, base, n, b), b, k)
         == Find(nodes, s, b, k)
  {
    var after, t := WithPath(nodes, key, value, base, n, parent, b), PathShape(s, key, base, n, b);
    PathPlaceAt(s.place, key, base, n, b, 0, Shift(k, 1, b));
    if root != NULL {
      ShapeBounds(root, nodes, s, b);
    }
    var p := PtrAt(s, 0, Shift(k, 1, b));
    assert p !in PathHeap(key, value, base, n, parent, b);
    assert p in nodes ==> after[p].data == nodes[p].data;
  }

  // ---------------------------------------------------------------- an emptied leaf

  /** The heap without leaf `p`, its parent's link cleared. */
  ghost function WithoutLeaf<V>(nodes: Heap<V>, p: Ptr, parent: Ptr, i: nat): Heap<V>
    requires parent != NULL ==> parent in nodes && i < |nodes[parent].child|
  {
    (if parent == NULL then nodes
     else nodes[parent := nodes[parent].(child := nodes[parent].child[i := NULL])]) - {p}
  }

  ghost function LeaflessShape(s: Shape, q: nat, p: Ptr): Shape {
    Shape(s.place - {(0, q)}, s.pos - {p})
  }

  /** Unlinking a leaf keeps the tree well formed. */
  lemma DropWellFormed<V>(root: Ptr, nodes: Heap<V>, s: Shape, b: nat, key: nat)
    requires b > 0 && WellFormed(root, nodes, s, b) && root != NULL && (0, Shift(key, 1, b)) in s.place
    ensures var p := s.place[(0, Shift(key, 1, b))];
            var parent := if p == root then NULL else PtrAt(s, 1, Shift(key, 2, b));
            && p in nodes && nodes[p].parent == parent
            && (parent != NULL ==> parent in nodes && Shift(key, 1, b) % b < |nodes[parent].child|)
            && WellFormed(if p == root then NULL else root, WithoutLeaf(nodes, p, parent, Shift(key, 1, b) % b),
                          LeaflessShape(s, Shift(key, 1, b), p), b)
  {
    var top := nodes[root].height;
    var q := Shift(key, 1, b);
    var p := s.place[(0, q)];
    assert NodeOk(nodes, s, top, b, 0, q);
    if top == 0 {
      DropLast(root, nodes, s, b, q);
    } else {
      var parent := s.place[(1, Shift(key, 2, b))];
      assert NodeOk(nodes, s, top, b, 1, Shift(key, 2, b));
      ShiftJoin(key, 1, b);
      var after, t := WithoutLeaf(nodes, p, parent, q % b), LeaflessShape(s, q, p);
      forall h: nat, r: nat | (h, r) in t.place
        ensures NodeOk(after, t, top, b, h, r)
      {
        DropKeepsNode(root, nodes, s, b, key, h, r);
      }
    }
  }

  /** A root of height 0 is alone. */
  lemma DropLast<V>(root: Ptr, nodes: Heap<V>, s: Shape, b: nat, q: nat)
    requires b > 0 && WellFormed(root, nodes, s, b) && root != NULL && nodes[root].height == 0 && (0, q) in s.place
    ensures s.place[(0, q)] == root && nodes - {root} == map[]
    ensures s.place - {(0, q)} == map[]
  {
    ShapeBounds(root, nodes, s, b);
    assert (0, q) in s.place && q == 0;
    forall h: nat, r: nat | (h, r) in s.place
      ensures (h, r) == (0, q)
    {
    }
    forall x | x in s.place
      ensures x == (0, q)
    {
      assert (x.0, x.1) in s.place;
    }
    forall p | p in nodes
      ensures p == root
    {
      assert s.pos[p] == (0, q) && s.pos[root] == (0, q);
    }
    assert s.place[(0, q)] in nodes;
  }

  lemma DropKeepsNode<V>(root: Ptr, nodes: Heap<V>, s: Shape, b: nat, key: nat, h: nat, r: nat)
    requires b > 0 && WellFormed(root, nodes, s, b) && root != NULL && nodes[root].height > 0
    requires (0, Shift(key, 1, b)) in s.place && (h, r) in s.place && (h, r) != (0, Shift(key, 1, b))
    ensures var p, parent := s.place[(0, Shift(key, 1, b))], PtrAt(s, 1, Shift(key, 2, b));
            && parent in nodes && Shift(key, 1, b) % b < |nodes[parent].child|
            && NodeOk(WithoutLeaf(nodes, p, parent, Shift(key, 1, b) % b), LeaflessShape(s, Shift(key, 1, b), p),
                      nodes[root].height, b, h, r)
  {
    var top := nodes[root].height;
    var q := Shift(key, 1, b);
    var p, parent := s.place[(0, q)], PtrAt(s, 1, Shift(key, 2, b));
    assert NodeOk(nodes, s, top, b, 0, q);
    assert NodeOk(nodes, s, top, b, 1, Shift(key, 2, b));
    assert NodeOk(nodes, s, top, b, h, r);
    ShiftJoin(key, 1, b);
    var after, t := WithoutLeaf(nodes, p, parent, q % b), LeaflessShape(s, q, p);
    var x := s.place[(h, r)];
    if h > 0 {
      forall i | 0 <= i < b
        ensures after[x].child[i] == PtrAt(t, h - 1, r * b + i)
      {
        if h == 1 && r * b + i == q {
          DivModUnique(q, b, r, i);
        }
      }
    }
    NodeOkIntro(after, t, top, b, h, r, after[x]);
  }

  lemma DropFind<V>(root: Ptr, nodes: Heap<V>, s: Shape, b: nat, key: nat, parent: Ptr, k: nat)
    requires b > 0 && WellFormed(root, nodes, s, b) && root != NULL && (0, Shift(key, 1, b)) in s.place
    requires parent != NULL ==> parent in nodes && Shift(key, 1, b) % b < |nodes[parent].child|
    ensures var p := s.place[(0, Shift(key, 1, b))];
            Find(WithoutLeaf(nodes, p, parent, Shift(key, 1, b) % b), LeaflessShape(s, Shift(key, 1, b), p), b, k)
            == if Shift(k, 1, b) == Shift(key, 1, b) then None else Find(nodes, s, b, k)
  {
    ShapeBounds(root, nodes, s, b);
  }

  // ---------------------------------------------------------------- removal

  /** The tree that removal leaves: the key's slot cleared, and its leaf freed if the occupancy drops to 0. */
  ghost function Removed<V>(root: Ptr, nodes: Heap<V>, s: Shape, b: nat, key: nat): (Ptr, Heap<V>, Shape)
    requires b > 0 && WellFormed(root, nodes, s, b)
  {
    var q := Shift(key, 1, b);
    if (0, q) !in s.place then (root, nodes, s)
    else
      assert NodeOk(nodes, s, nodes[root].height, b, 0, q);
      DropWellFormed(root, nodes, s, b, key);
      var p := s.place[(0, q)];
      var n := nodes[p];
      if n.occupancy > 1 then (root, WithSlot(nodes, p, key % b, None, n.occupancy - 1), s)
      else if n.parent == NULL then (NULL, map[], Shape(map[], map[]))
      else (root, WithoutLeaf(nodes, p, n.parent, q % b), LeaflessShape(s, q, p))
  }

  /** Removal does its job: a well-formed tree that has lost this key and no other. */
  ghost predicate RemovalSound<V>(root: Ptr, nodes: Heap<V>, s: Shape, b: nat, key: nat)
    requires b > 0 && WellFormed(root, nodes, s, b)
  {
    var (root', nodes', s') := Removed(root, nodes, s, b, key);
    && WellFormed(root', nodes', s', b)
    && forall k: nat :: Find(nodes', s', b, k) == if k == key then None else Find(nodes, s, b, k)
  }

  /** A placed leaf holds some value. */
  lemma LeafHolds<V>(root: Ptr, nodes: Heap<V>, s: Shape, b: nat, q: nat) returns (k: nat)
    requires b > 0 && WellFormed(root, nodes, s, b) && (0, q) in s.place
    ensures Shift(k, 1, b) == q && Find(nodes, s, b, k).Some?
  {
    assert NodeOk(nodes, s, nodes[root].height, b, 0, q);
    var n := nodes[s.place[(0, q)]];
    CountNone(n.data);
    var i :| 0 <= i < |n.data| && n.data[i].Some?;
    DivModUnique(q * b + i, b, q, i);
    MulNonNeg(q, b);
    k := q * b + i;
  }

  lemma RemovePresent<V>(root: Ptr, nodes: Heap<V>, s: Shape, b: nat, key: nat)
    requires b > 0 && WellFormed(root, nodes, s, b) && Find(nodes, s, b, key).Some?
    ensures RemovalSound(root, nodes, s, b, key)
  {
    var q := Shift(key, 1, b);
    var (root', nodes', s') := Removed(root, nodes, s, b, key);
    if root == NULL {
      assert false;
    }
    ShapeBounds(root, nodes, s, b);
    assert NodeOk(nodes, s, nodes[root].height, b, 0, q);
    var p := s.place[(0, q)];
    var n := nodes[p];
    CountUpdate(n.data, key % b, None);
    if n.occupancy > 1 {
      SlotWellFormed(root, nodes, s, b, q, key % b, None, n.occupancy - 1);
      forall k: nat
        ensures Find(nodes', s', b, k) == if k == key then None else Find(nodes, s, b, k)
      {
        SlotFind(root, nodes, s, b, key, None, n.occupancy - 1, k);
      }
    } else {
      RemoveLast(root, nodes, s, b, key);
    }
  }

  lemma RemoveLast<V>(root: Ptr, nodes: Heap<V>, s: Shape, b: nat, key: nat)
    requires b > 0 && WellFormed(root, nodes, s, b) && root != NULL && Find(nodes, s, b, key).Some?
    requires (0, Shift(key, 1, b)) in s.place && s.place[(0, Shift(key, 1, b))] in nodes
    requires nodes[s.place[(0, Shift(key, 1, b))]].occupancy == 1
    ensures RemovalSound(root, nodes, s, b, key)
  {
    var q := Shift(key, 1, b);
    var (root', nodes', s') := Removed(root, nodes, s, b, key);
    assert NodeOk(nodes, s, nodes[root].height, b, 0, q);
    var p := s.place[(0, q)];
    DropWellFormed(root, nodes, s, b, key);
    if p == root {
      DropLast(root, nodes, s, b, q);
      assert s.pos - {p} == map[];
    }
    forall k: nat
      ensures Find(nodes', s', b, k) == if k == key then None else Find(nodes, s, b, k)
    {
      RemovedLeafFind(root, nodes, s, b, key, k);
      if Shift(k, 1, b) == q && k != key {
        assert k % b != key % b by {
          ShiftJoin(key, 0, b);
          ShiftJoin(k, 0, b);
        }
        OnlyValue(nodes[p].data, key % b, k % b);
      }
    }
  }

  /** Freeing a leaf forgets the keys it served and no others. */
  lemma RemovedLeafFind<V>(root: Ptr, nodes: Heap<V>, s: Shape, b: nat, key: nat, k: nat)
    requires b > 0 && WellFormed(root, nodes, s, b) && root != NULL
    requires (0, Shift(key, 1, b)) in s.place && s.place[(0, Shift(key, 1, b))] in nodes
    requires nodes[s.place[(0, Shift(key, 1, b))]].occupancy == 1
    ensures var (_, nodes', s') := Removed(root, nodes, s, b, key);
            Find(nodes', s', b, k) == if Shift(k, 1, b) == Shift(key, 1, b) then None else Find(nodes, s, b, k)
  {
    var q := Shift(key, 1, b);
    assert NodeOk(nodes, s, nodes[root].height, b, 0, q);
    var p := s.place[(0, q)];
    ShapeBounds(root, nodes, s, b);
    DropWellFormed(root, nodes, s, b, key);
    if p == root {
      DropLast(root, nodes, s, b, q);
    } else {
      DropFind(root, nodes, s, b, key, nodes[p].parent, k);
    }
  }

  lemma {:induction false} OnlyValue<V>(data: seq<Option<V>>, i: nat, j: nat)
    requires i < |data| && j < |data| && data[i].Some? && Count(data) == 1 && i != j
    ensures data[j] == None
  {
    CountUpdate(data, i, None);
    CountNone(data[i := None]);
    assert data[i := None][j] == data[j];
  }

  /** Removing an absent key spoils the tree whenever a present key shares its leaf. */
  lemma RemoveAbsent<V>(root: Ptr, nodes: Heap<V>, s: Shape, b: nat, key: nat)
    requires b > 0 && WellFormed(root, nodes, s, b) && Find(nodes, s, b, key).None?
    requires (0, Shift(key, 1, b)) in s.place
    ensures !RemovalSound(root, nodes, s, b, key)
  {
    var q := Shift(key, 1, b);
    var (root', nodes', s') := Removed(root, nodes, s, b, key);
    assert NodeOk(nodes, s, nodes[root].height, b, 0, q);
    var n := nodes[s.place[(0, q)]];
    CountUpdate(n.data, key % b, None);
    if n.occupancy > 1 {
      SlotWellFormed(root, nodes, s, b, q, key % b, None, n.occupancy - 1);
    } else {
      var k := LeafHolds(root, nodes, s, b, q);
      RemovedLeafFind(root, nodes, s, b, key, k);
    }
  }

  /** Removal is sound exactly for a key that is present or has no present key in its leaf. */
  lemma RemovalSoundIff<V>(root: Ptr, nodes: Heap<V>, s: Shape, b: nat, key: nat)
    requires b > 0 && WellFormed(root, nodes, s, b)
    ensures RemovalSound(root, nodes, s, b, key)
       <==> || Find(nodes, s, b, key).Some?
            || forall k: nat | Shift(k, 1, b) == Shift(key, 1, b) :: Find(nodes, s, b, k) == None
  {
    if (0, Shift(key, 1, b)) !in s.place {
      if root != NULL {
        ShapeBounds(root, nodes, s, b);
      }
    } else {
      var k := LeafHolds(root, nodes, s, b, Shift(key, 1, b));
      if Find(nodes, s, b, key).Some? {
        RemovePresent(root, nodes, s, b, key);
      } else {
        RemoveAbsent(root, nodes, s, b, key);
      }
    }
  }

  /** The key of slot `i` of a leaf, and when it is `k`. */
  lemma SlotKey(k: nat, i: nat, q: nat, b: nat)
    requires i < b && Shift(k, 1, b) == q
    ensures q * b + i >= 0 && Shift(q * b + i, 1, b) == q && (q * b + i) % b == i
    ensures q * b + i == k <==> i == k % b
  {
    MulNonNeg(q, b);
    DivModUnique(q * b + i, b, q, i);
    DivMod(k, b);
    assert Shift(k, 1, b) == k / b && Shift(q * b + i, 1, b) == (q * b + i) / b;
  }

  /** Removing an absent key from a leaf with one value loses that value. */
  lemma LoneValueLost<V>(root: Ptr, nodes: Heap<V>, s: Shape, b: nat, key: nat, k: nat)
    requires b > 0 && WellFormed(root, nodes, s, b) && Shift(k, 1, b) == Shift(key, 1, b)
    requires Find(nodes, s, b, k).Some?
    requires forall j: nat | Shift(j, 1, b) == Shift(key, 1, b) && Find(nodes, s, b, j).Some? :: j == k
    ensures var (_, nodes', s') := Removed(root, nodes, s, b, key); Find(nodes', s', b, k) == None
  {
    var q := Shift(key, 1, b);
    assert (0, q) in s.place by {
      if root != NULL { ShapeBounds(root, nodes, s, b); }
    }
    assert NodeOk(nodes, s, nodes[root].height, b, 0, q);
    var data := nodes[s.place[(0, q)]].data;
    forall i | 0 <= i < b
      ensures data[i].Some? <==> i == k % b
    {
      SlotKey(k, i, q, b);
      assert Find(nodes, s, b, q * b + i) == data[i];
    }
    CountSingle(data, k % b);
    RemovedLeafFind(root, nodes, s, b, key, k);
  }
}
