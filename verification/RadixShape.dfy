/**
 * What a heap of radix tree nodes means, and when it is well formed.
 *
 * Nodes are linked both ways by pointers into the heap.  A node of height `h`
 * serves the keys that agree on all digits above digit `h`; those digits are its
 * prefix.  A `Shape` records which node serves which height and prefix, and back.
 */
module RadixShapes {
  import opened Common
  import opened RadixKeys

  type Ptr = nat

  const NULL: Ptr := 0

  /** The largest value of the eight bits in which a node counts. */
  const OCCUPANCY_MAX: nat := 255

  /** A node: `child` is in use above height 0, `data` at height 0. */
  datatype Node<V> = Node(parent: Ptr, height: nat, occupancy: nat, child: seq<Ptr>, data: seq<Option<V>>)

  type Heap<V> = map<Ptr, Node<V>>

  datatype Shape = Shape(place: map<(nat, nat), Ptr>, pos: map<Ptr, (nat, nat)>)

  function PtrAt(s: Shape, h: nat, q: nat): Ptr {
    if (h, q) in s.place then s.place[(h, q)] else NULL
  }

  function Count<V>(data: seq<Option<V>>): nat {
    if data == [] then 0 else (if data[|data| - 1].Some? then 1 else 0) + Count(data[..|data| - 1])
  }

  /** Overwriting a slot moves the count by what the slot gains or loses. */
  lemma {:induction false} CountUpdate<V>(data: seq<Option<V>>, i: nat, x: Option<V>)
    requires i < |data|
    ensures Count(data[i := x]) + (if data[i].Some? then 1 else 0) == Count(data) + (if x.Some? then 1 else 0)
  {
    var n := |data| - 1;
    if i < n {
      CountUpdate(data[..n], i, x);
      assert data[i := x][..n] == data[..n][i := x];
    } else {
      assert data[i := x][..n] == data[..n];
    }
  }

  lemma {:induction false} CountNone<V>(data: seq<Option<V>>)
    ensures Count(data) == 0 <==> forall i | 0 <= i < |data| :: data[i].None?
  {
    if data != [] {
      CountNone(data[..|data| - 1]);
      assert forall i | 0 <= i < |data| - 1 :: data[i] == data[..|data| - 1][i];
    }
  }

  ghost predicate LinksOk<V>(n: Node<V>, s: Shape, h: nat, q: nat, b: nat)
    requires b > 0
  {
    n.occupancy > 0 &&
    if h == 0 then |n.data| == b && n.occupancy == Count(n.data)
    else |n.child| == b && forall i | 0 <= i < b :: n.child[i] == PtrAt(s, h - 1, q * b + i)
  }

  ghost predicate ParentOk<V>(n: Node<V>, s: Shape, h: nat, q: nat, top: nat, b: nat)
    requires b > 0
  {
    if h == top then q == 0 && n.parent == NULL
    else (h + 1, q / b) in s.place && n.parent == s.place[(h + 1, q / b)]
  }

  ghost predicate NodeOk<V>(nodes: Heap<V>, s: Shape, top: nat, b: nat, h: nat, q: nat)
    requires b > 0 && (h, q) in s.place
  {
    var p := s.place[(h, q)];
    && p != NULL && p in nodes && p in s.pos && s.pos[p] == (h, q)
    && nodes[p].height == h && h <= top
    && ParentOk(nodes[p], s, h, q, top, b)
    && LinksOk(nodes[p], s, h, q, b)
  }

  lemma NodeOkIntro<V>(nodes: Heap<V>, s: Shape, top: nat, b: nat, h: nat, q: nat, n: Node<V>)
    requires b > 0 && (h, q) in s.place
    requires var p := s.place[(h, q)];
             p != NULL && p in nodes && p in s.pos && s.pos[p] == (h, q) && nodes[p] == n
    requires n.height == h && h <= top && ParentOk(n, s, h, q, top, b) && LinksOk(n, s, h, q, b)
    ensures NodeOk(nodes, s, top, b, h, q)
  {
  }

  /** Every node is placed once, linked to its parent and children, and reachable from the root. */
  ghost predicate WellFormed<V>(root: Ptr, nodes: Heap<V>, s: Shape, b: nat)
    requires b > 0
  {
    && (root == NULL <==> nodes == map[])
    && s.pos.Keys == nodes.Keys
    && (forall p | p in s.pos :: s.pos[p] in s.place && s.place[s.pos[p]] == p)
    && (root == NULL ==> s.place == map[])
    && (root != NULL ==>
          && root in nodes && s.pos[root] == (nodes[root].height, 0)
          && forall h: nat, q: nat {:trigger NodeOk(nodes, s, nodes[root].height, b, h, q)} |
               (h, q) in s.place :: NodeOk(nodes, s, nodes[root].height, b, h, q))
  }

  /** The value stored under a key. */
  ghost function Find<V>(nodes: Heap<V>, s: Shape, b: nat, key: nat): Option<V>
    requires b > 0
  {
    var p := PtrAt(s, 0, Shift(key, 1, b));
    if p in nodes && key % b < |nodes[p].data| then nodes[p].data[key % b] else None
  }

  /** Nothing is placed above the root or beside it, and no node is null. */
  lemma ShapeBounds<V>(root: Ptr, nodes: Heap<V>, s: Shape, b: nat)
    requires b > 0 && WellFormed(root, nodes, s, b) && root != NULL
    ensures NULL !in nodes
    ensures forall h, q | (h, q) in s.place :: h <= nodes[root].height && (h == nodes[root].height ==> q == 0)
    ensures forall h, q | (h, q) in s.place :: s.place[(h, q)] in nodes && s.pos[s.place[(h, q)]] == (h, q)
  {
    forall h, q | (h, q) in s.place
      ensures NodeOk(nodes, s, nodes[root].height, b, h, q)
    {
    }
    forall p | p in nodes
      ensures p != NULL
    {
      var (h, q) := s.pos[p];
      assert NodeOk(nodes, s, nodes[root].height, b, h, q);
    }
  }

  lemma ParentPlaced<V>(root: Ptr, nodes: Heap<V>, s: Shape, b: nat, h: nat, q: nat)
    requires b > 0 && WellFormed(root, nodes, s, b) && root != NULL
    requires (h, q) in s.place && h < nodes[root].height
    ensures (h + 1, q / b) in s.place
  {
    assert NodeOk(nodes, s, nodes[root].height, b, h, q);
  }

  /** A placed node has all its ancestors placed. */
  lemma {:induction false} AncestorPlaced<V>(root: Ptr, nodes: Heap<V>, s: Shape, b: nat, key: nat, low: nat, h: nat)
    requires b > 0 && WellFormed(root, nodes, s, b) && root != NULL
    requires (low, Shift(key, low + 1, b)) in s.place && low <= h <= nodes[root].height
    ensures (h, Shift(key, h + 1, b)) in s.place
  {
    if h > low {
      AncestorPlaced(root, nodes, s, b, key, low, h - 1);
      assert NodeOk(nodes, s, nodes[root].height, b, h - 1, Shift(key, h, b));
    }
  }

  /** A gap in the path to a key means that the key is absent. */
  lemma PathGap<V>(root: Ptr, nodes: Heap<V>, s: Shape, b: nat, key: nat, h: nat)
    requires b > 0 && WellFormed(root, nodes, s, b) && root != NULL
    requires h <= nodes[root].height && (h, Shift(key, h + 1, b)) !in s.place
    ensures (0, Shift(key, 1, b)) !in s.place && Find(nodes, s, b, key) == None
  {
    if (0, Shift(key, 1, b)) in s.place {
      AncestorPlaced(root, nodes, s, b, key, 0, h);
    }
    ShapeBounds(root, nodes, s, b);
  }

  /** A key with digits above the root is absent. */
  lemma TooLargeAbsent<V>(root: Ptr, nodes: Heap<V>, s: Shape, b: nat, key: nat)
    requires b > 0 && WellFormed(root, nodes, s, b) && root != NULL
    requires Shift(key, nodes[root].height + 1, b) != 0
    ensures (0, Shift(key, 1, b)) !in s.place && Find(nodes, s, b, key) == None
  {
    var top := nodes[root].height;
    ShapeBounds(root, nodes, s, b);
    PathGap(root, nodes, s, b, key, top);
  }

  /** The height of the lowest node on the way to a key, looked for from `h` up. */
  ghost function Lowest(s: Shape, b: nat, key: nat, h: nat, top: nat): nat
    requires b > 0 && h <= top
    decreases top - h
  {
    if h == top || (h, Shift(key, h + 1, b)) in s.place then h else Lowest(s, b, key, h + 1, top)
  }

  /** A level of the tree has no node but the first. */
  ghost predicate FirstOnly(s: Shape, h: nat) { forall q | (h, q) in s.place :: q == 0 }

  lemma {:induction false} LowestFrom<V>(root: Ptr, nodes: Heap<V>, s: Shape, b: nat, key: nat, low: nat, h: nat)
    requires b > 0 && WellFormed(root, nodes, s, b) && root != NULL
    requires low <= h <= nodes[root].height && (h, Shift(key, h + 1, b)) in s.place
    requires h > 0 ==> (h - 1, Shift(key, h, b)) !in s.place
    ensures Lowest(s, b, key, low, nodes[root].height) == h
    decreases h - low
  {
    if low < h {
      if (low, Shift(key, low + 1, b)) in s.place {
        AncestorPlaced(root, nodes, s, b, key, low, h - 1);
      }
      LowestFrom(root, nodes, s, b, key, low + 1, h);
    }
  }

  /** One step down: the child for a key's next digit serves the key. */
  lemma StepDown<V>(root: Ptr, nodes: Heap<V>, s: Shape, b: nat, key: nat, h: nat)
    requires b > 0 && WellFormed(root, nodes, s, b) && root != NULL
    requires h > 0 && (h, Shift(key, h + 1, b)) in s.place
    ensures s.place[(h, Shift(key, h + 1, b))] in nodes
    ensures var n := nodes[s.place[(h, Shift(key, h + 1, b))]];
            && n.height == h && h <= nodes[root].height
            && Shift(key, h, b) % b < |n.child|
            && n.child[Shift(key, h, b) % b] == PtrAt(s, h - 1, Shift(key, h, b))
  {
    assert NodeOk(nodes, s, nodes[root].height, b, h, Shift(key, h + 1, b));
    ShiftJoin(key, h, b);
  }
}
