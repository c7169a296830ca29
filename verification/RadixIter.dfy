/**
 * The iterator of src/util/rtree.rs.  It holds the next key to try and a node on
 * that key's path; `down` follows the key to its value or to a gap, and `advance`
 * climbs by parent pointers to where the key can be raised past what was tried.
 */
module RadixIters {
  import opened Common
  import opened RadixKeys
  import opened RadixShapes
  import opened RadixTrees

  // ---------------------------------------------------------------- raising a key

  /** The aligned successor of `n` starts the next block of `d`. */
  lemma AlignUp(n: nat, d: nat, j: nat)
    requires d > 0
    ensures n - n % d + d > n
    ensures (n - n % d + d) / d == n / d + 1
    ensures j >= n - n % d + d <==> j / d > n / d
  {
    var q, next := n / d, n - n % d + d;
    assert next == (q + 1) * d;
    DivModUnique(next, d, q + 1, 0);
    assert next - 1 == q * d + (d - 1);
    DivModUnique(next - 1, d, q, d - 1);
    if j >= next {
      DivMonotone(next, j, d);
    } else {
      DivMonotone(j, next - 1, d);
    }
  }

  /** Keys at or past the aligned successor of `key` are those with larger digits above. */
  lemma NextAligned(key: nat, h: nat, bits: nat, align: nat, next: nat, j: nat)
    requires 0 <= h * bits && align == Pow2(h * bits) && next == key - key % align + align
    ensures next > key
    ensures Shift(next, h, Pow2(bits)) == Shift(key, h, Pow2(bits)) + 1
    ensures j >= next <==> Shift(j, h, Pow2(bits)) > Shift(key, h, Pow2(bits))
  {
    AlignUp(key, align, j);
    ShiftIsDiv(key, h, bits);
    ShiftIsDiv(next, h, bits);
    ShiftIsDiv(j, h, bits);
  }

  /** Past a run of largest digits, the comparison moves up a digit. */
  lemma Carry(key: nat, h: nat, b: nat, j: nat)
    requires b > 0 && Shift(key, h, b) % b == b - 1
    ensures Shift(j, h, b) > Shift(key, h, b) <==> Shift(j, h + 1, b) > Shift(key, h + 1, b)
  {
    var x, y := Shift(j, h, b), Shift(key, h, b);
    ShiftJoin(key, h, b);
    ShiftJoin(j, h, b);
    assert y + 1 == (y / b + 1) * b;
    DivModUnique(y + 1, b, y / b + 1, 0);
    if x > y {
      DivMonotone(y + 1, x, b);
    } else {
      DivMonotone(x, y, b);
    }
  }

  /** Raising a digit that is not the largest leaves the digits above alone. */
  lemma NoCarry(key: nat, next: nat, h: nat, b: nat)
    requires b > 0 && Shift(key, h, b) % b != b - 1 && Shift(next, h, b) == Shift(key, h, b) + 1
    ensures Shift(next, h + 1, b) == Shift(key, h + 1, b)
  {
    ShiftJoin(key, h, b);
    DivModUnique(Shift(next, h, b), b, Shift(key, h + 1, b), Shift(key, h, b) % b + 1);
  }

  /** Nothing is stored beyond the digits the root covers. */
  lemma BeyondTop<V>(root: Ptr, nodes: Heap<V>, s: Shape, b: nat, j: nat)
    requires b > 0 && WellFormed(root, nodes, s, b) && root != NULL && Find(nodes, s, b, j).Some?
    ensures Shift(j, nodes[root].height + 1, b) == 0
  {
    if Shift(j, nodes[root].height + 1, b) != 0 {
      TooLargeAbsent(root, nodes, s, b, j);
    }
  }

  class RadixIter<V> {
    const tree: RadixTree<V>
    var key: Option<nat>
    var node: Ptr

    /** The node lies on the path of the key. */
    ghost predicate Valid()
      reads this, tree
    {
      && tree.Valid()
      && (key.Some? ==>
            && tree.root != NULL && node in tree.nodes && key.value < Pow2(tree.width)
            && tree.shape.pos[node] == (tree.nodes[node].height,
                                        Shift(key.value, tree.nodes[node].height + 1, tree.Radix())))
    }

    /** Whether key `j`, if stored, is still to come. */
    ghost predicate Pending(j: nat)
      reads this
    {
      key.Some? && j >= key.value
    }

    constructor (tree: RadixTree<V>)
      requires tree.Valid()
      ensures Valid() && this.tree == tree
      ensures forall j | tree.Stored(j) :: Pending(j)
    {
      this.tree := tree;
      node := tree.root;
      key := if tree.root == NULL then None else Some(0);
      new;
      if tree.root != NULL {
        ShiftZeroUp(0, 0, tree.nodes[tree.root].height + 1, tree.Radix());
      } else {
        assert forall j: nat :: tree.Lookup(j) == None;
      }
    }

    /** Follow the key down to its value, or to the node where its path ends. */
    method Down() returns (r: Option<V>)
      requires Valid() && key.Some?
      modifies this`node
      ensures Valid()
      ensures r.Some? ==> tree.Lookup(key.value) == r && tree.nodes[node].height == 0
      ensures r.None? ==> forall j: nat |
                Shift(j, tree.nodes[node].height, tree.Radix())
                == Shift(key.value, tree.nodes[node].height, tree.Radix()) ::
                tree.Lookup(j) == None
    {
      ghost var b, top := tree.Radix(), tree.nodes[tree.root].height;
      ghost var nodes, s := tree.nodes, tree.shape;
      ShapeBounds(tree.root, nodes, s, b);
      while tree.nodes[node].height > 0
        invariant Valid()
        decreases tree.nodes[node].height
      {
        ghost var h := tree.nodes[node].height;
        assert NodeOk(nodes, s, top, b, h, Shift(key.value, h + 1, b));
        StepDown(tree.root, nodes, s, b, key.value, h);
        var child := tree.nodes[node].child[Subkey(key.value, tree.nodes[node].height, tree.bits)];
        if child == NULL {
          forall j: nat | Shift(j, h, b) == Shift(key.value, h, b)
            ensures tree.Lookup(j) == None
          {
            PathGap(tree.root, nodes, s, b, j, h - 1);
          }
          return None;
        }
        assert NodeOk(nodes, s, top, b, h - 1, Shift(key.value, h, b));
        node := child;
      }
      assert NodeOk(nodes, s, top, b, 0, Shift(key.value, 1, b));
      return tree.nodes[node].data[Subkey(key.value, 0, tree.bits)];
    }

    /** Raise the key past everything under the digit just tried. */
    method Advance()
      requires Valid() && key.Some?
      modifies this
      ensures Valid()
      ensures key.Some? ==> key.value > old(key).value
      ensures forall j | tree.Stored(j) ::
        Pending(j) <==>
          Shift(j, old(tree.nodes[node].height), tree.Radix())
          > Shift(old(key).value, old(tree.nodes[node].height), tree.Radix())
    {
      var k := key.value;
      ghost var b, low, top := tree.Radix(), tree.nodes[node].height, tree.nodes[tree.root].height;
      ghost var nodes, s := tree.nodes, tree.shape;
      ghost var h := low;
      ShapeBounds(tree.root, nodes, s, b);
      assert NodeOk(nodes, s, top, b, low, Shift(k, low + 1, b));
      while node != NULL
        invariant key == Some(k) && low <= h <= top + 1
        invariant node != NULL ==> h <= top && node in nodes && s.pos[node] == (h, Shift(k, h + 1, b))
        invariant node == NULL ==> h == top + 1
        invariant node != NULL ==> nodes[node].height == h
        invariant forall j: nat :: Shift(j, low, b) > Shift(k, low, b) <==> Shift(j, h, b) > Shift(k, h, b)
        decreases top + 1 - h
      {
        if Subkey(k, tree.nodes[node].height, tree.bits) != Pow2(tree.bits) - 1 {
          RaiseKey(h);
          return;
        }
        assert NodeOk(nodes, s, top, b, h, Shift(k, h + 1, b));
        forall j: nat
          ensures Shift(j, h, b) > Shift(k, h, b) <==> Shift(j, h + 1, b) > Shift(k, h + 1, b)
        {
          Carry(k, h, b, j);
        }
        node := tree.nodes[node].parent;
        if h < top {
          assert NodeOk(nodes, s, top, b, h + 1, Shift(k, h + 2, b));
        }
        h := h + 1;
      }
      forall j | tree.Stored(j)
        ensures Shift(j, low, b) <= Shift(k, low, b)
      {
        BeyondTop(tree.root, nodes, s, b, j);
      }
      key := None;
    }

    /** The last step of `Advance`, at a node whose digit can be raised. */
    method RaiseKey(ghost h: nat)
      requires Valid() && key.Some? && tree.nodes[node].height == h
      requires Shift(key.value, h, tree.Radix()) % tree.Radix() != tree.Radix() - 1
      modifies this`key
      ensures Valid()
      ensures key.Some? ==> key.value > old(key).value
      ensures forall j | tree.Stored(j) ::
                Pending(j) <==> Shift(j, h, tree.Radix()) > Shift(old(key).value, h, tree.Radix())
    {
      var k := key.value;
      MulNonNeg(tree.nodes[node].height, tree.bits);
      var align := Pow2(tree.nodes[node].height * tree.bits);
      var next := k - k % align + align;
      forall j: nat
        ensures next > k && Shift(next, h, tree.Radix()) == Shift(k, h, tree.Radix()) + 1
        ensures j >= next <==> Shift(j, h, tree.Radix()) > Shift(k, h, tree.Radix())
      {
        NextAligned(k, h, tree.bits, align, next, j);
      }
      NoCarry(k, next, h, tree.Radix());
      key := if next < Pow2(tree.width) then Some(next) else None;
    }

    /** Try the current key and move on. */
    method TryKey() returns (r: Option<V>)
      requires Valid() && key.Some?
      modifies this
      ensures Valid() && (key.Some? ==> key.value > old(key).value)
      ensures r == tree.Lookup(old(key).value)
      ensures forall j | tree.Stored(j) :: Pending(j) <==> old(Pending(j)) && j != old(key).value
    {
      var k := key.value;
      r := Down();
      ghost var h, b := tree.nodes[node].height, tree.Radix();
      Advance();
      forall j | tree.Stored(j)
        ensures Pending(j) <==> j > k
      {
        if j > k {
          ShiftMonotone(k, j, h, b);
          assert Shift(j, h, b) > Shift(k, h, b);
        } else {
          ShiftMonotone(j, k, h, b);
        }
      }
    }

    /** The least pending key and its value. */
    method Next() returns (r: Option<(nat, V)>)
      requires Valid()
      modifies this
      ensures Valid() && (r.Some? && key.Some? ==> key.value > r.value.0)
      ensures r.None? ==> key.None? && forall j | tree.Stored(j) :: !old(Pending(j))
      ensures r.Some? ==>
        && tree.Stored(r.value.0) && tree.Lookup(r.value.0) == Some(r.value.1) && old(Pending(r.value.0))
        && (forall j | tree.Stored(j) && old(Pending(j)) :: r.value.0 <= j)
        && (forall j | tree.Stored(j) :: Pending(j) <==> r.value.0 < j)
    {
      while key.Some?
        invariant Valid() && (old(key).None? ==> key.None?)
        invariant key.Some? ==> old(key).value <= key.value
        invariant forall j | tree.Stored(j) :: Pending(j) <==> old(Pending(j))
        decreases if key.Some? then Pow2(tree.width) - key.value else 0
      {
        var k := key.value;
        var res := TryKey();
        if res.Some? {
          return Some((k, res.value));
        }
      }
      return None;
    }
  }

  lemma {:induction false} ShiftMonotone(j: nat, k: nat, h: nat, b: nat)
    requires b > 0 && j <= k
    ensures Shift(j, h, b) <= Shift(k, h, b)
  {
    if h > 0 {
      ShiftMonotone(j, k, h - 1, b);
      DivMonotone(Shift(j, h - 1, b), Shift(k, h - 1, b), b);
    }
  }

  /** What has been taken from an iterator: pairs in increasing order, and the rest is still to come. */
  ghost predicate Taken<V>(it: RadixIter<V>, pairs: seq<(nat, V)>)
    reads it, it.tree
  {
    && it.Valid() && Increasing(pairs)
    && (forall i | 0 <= i < |pairs| :: it.tree.Stored(pairs[i].0) && it.tree.Lookup(pairs[i].0) == Some(pairs[i].1))
    && (forall k | it.tree.Stored(k) :: it.Pending(k) || Yields(pairs, k))
    && (pairs != [] && it.key.Some? ==> pairs[|pairs| - 1].0 < it.key.value)
  }

  /** Take one more pair. */
  method TakeOne<V>(it: RadixIter<V>, pairs: seq<(nat, V)>) returns (more: bool, after: seq<(nat, V)>)
    requires Taken(it, pairs)
    modifies it
    ensures Taken(it, after) && (!more ==> it.key.None?)
    ensures more ==> old(it.key).Some? && (it.key.Some? ==> old(it.key).value < it.key.value)
  {
    var item := it.Next();
    if item.None? {
      return false, pairs;
    }
    more, after := true, pairs + [item.value];
    forall k | it.tree.Stored(k)
      ensures it.Pending(k) || Yields(after, k)
    {
      YieldsMore(pairs, item.value, k);
    }
  }

  /** Run the iterator to its end. */
  method Drain<V>(tree: RadixTree<V>) returns (pairs: seq<(nat, V)>)
    requires tree.Valid()
    ensures Increasing(pairs)
    ensures forall i | 0 <= i < |pairs| :: tree.Stored(pairs[i].0) && tree.Lookup(pairs[i].0) == Some(pairs[i].1)
    ensures forall k | tree.Stored(k) :: Yields(pairs, k)
  {
    var it := new RadixIter(tree);
    pairs := [];
    var more := true;
    while more
      invariant Taken(it, pairs) && it.tree == tree && fresh(it)
      invariant !more ==> it.key.None?
      decreases more, if it.key.Some? then Pow2(tree.width) - it.key.value + 1 else 0
    {
      more, pairs := TakeOne(it, pairs);
    }
  }

  /** Running the iterator to its end yields the stored pairs, once each, in increasing key order. */
  method CollectAll<V>(tree: RadixTree<V>) returns (pairs: seq<(nat, V)>)
    requires tree.Valid()
    ensures forall i, j | 0 <= i < j < |pairs| :: pairs[i].0 < pairs[j].0
    ensures forall i | 0 <= i < |pairs| :: pairs[i].0 in tree.Model() && tree.Model()[pairs[i].0] == pairs[i].1
    ensures forall k | k in tree.Model() :: exists i | 0 <= i < |pairs| :: pairs[i].0 == k
  {
    pairs := Drain(tree);
    forall i | 0 <= i < |pairs|
      ensures pairs[i].0 in tree.Model() && tree.Model()[pairs[i].0] == pairs[i].1
    {
      InModel(tree, pairs[i].0);
    }
    forall k | k in tree.Model()
      ensures Yields(pairs, k)
    {
      InModel(tree, k);
    }
  }

  lemma YieldsMore<V>(pairs: seq<(nat, V)>, item: (nat, V), k: nat)
    ensures Yields(pairs, k) || k == item.0 ==> Yields(pairs + [item], k)
  {
    var more := pairs + [item];
    if Yields(pairs, k) {
      var i :| 0 <= i < |pairs| && pairs[i].0 == k;
      assert more[i].0 == k;
    } else if k == item.0 {
      assert more[|pairs|].0 == k;
    }
  }

  ghost predicate Increasing<V>(pairs: seq<(nat, V)>) {
    forall i, j | 0 <= i < j < |pairs| :: pairs[i].0 < pairs[j].0
  }

  ghost predicate Yields<V>(pairs: seq<(nat, V)>, k: nat) {
    exists i | 0 <= i < |pairs| :: pairs[i].0 == k
  }
}
