/**
 * The intrusive doubly linked list of src/util/list.rs.  Nodes live in memory shared
 * by all lists, here a map from addresses to nodes.  The address 1 marks the ends of a
 * list, and null links mark a node that is in no list.
 */
module IntrusiveLists {
  import opened Common

  type Ptr = nat

  const NULL: Ptr := 0
  const END: Ptr := 1

  datatype ListNode = ListNode(prev: Ptr, next: Ptr)

  type Nodes = map<Ptr, ListNode>

  const DETACHED := ListNode(NULL, NULL)

  // ---------------------------------------------------------------- chains of nodes

  function Before(items: seq<Ptr>, i: int): Ptr
    requires 0 <= i <= |items|
  {
    if i == 0 then END else items[i - 1]
  }

  function After(items: seq<Ptr>, i: int): Ptr
    requires -1 <= i < |items|
  {
    if i == |items| - 1 then END else items[i + 1]
  }

  /** Item `i` of a list is linked to its neighbours, or to the end marker. */
  ghost predicate LinkOk(nodes: Nodes, items: seq<Ptr>, i: int)
    requires 0 <= i < |items|
  {
    items[i] > END && items[i] in nodes && nodes[items[i]] == ListNode(Before(items, i), After(items, i))
  }

  ghost predicate Linked(nodes: Nodes, items: seq<Ptr>) {
    && (forall i {:trigger LinkOk(nodes, items, i)} | 0 <= i < |items| :: LinkOk(nodes, items, i))
    && (forall i, j | 0 <= i < j < |items| :: items[i] != items[j])
  }

  /** Memory with `p` linked in at place `k`. */
  function Inserted(nodes: Nodes, items: seq<Ptr>, k: int, p: Ptr): Nodes
    requires 0 <= k <= |items| && forall q | q in items :: q in nodes
  {
    var prev, next := Before(items, k), After(items, k - 1);
    var n1 := if k < |items| then nodes[next := nodes[next].(prev := p)] else nodes;
    var n2 := if k > 0 then n1[prev := n1[prev].(next := p)] else n1;
    n2[p := ListNode(prev, next)]
  }

  /** Memory with item `k` taken out. */
  function Removed(nodes: Nodes, items: seq<Ptr>, k: int): Nodes
    requires 0 <= k < |items| && forall q | q in items :: q in nodes
  {
    var prev, next := Before(items, k), After(items, k);
    var n1 := if k < |items| - 1 then nodes[next := nodes[next].(prev := prev)] else nodes;
    var n2 := if k > 0 then n1[prev := n1[prev].(next := next)] else n1;
    n2[items[k] := DETACHED]
  }

  lemma LinkedIn(nodes: Nodes, items: seq<Ptr>)
    requires Linked(nodes, items)
    ensures forall q | q in items :: q in nodes && q > END && nodes[q].next != NULL && nodes[q].prev != NULL
  {
    forall q | q in items
      ensures q in nodes && q > END && nodes[q].next != NULL && nodes[q].prev != NULL
    {
      var i :| 0 <= i < |items| && items[i] == q;
      assert LinkOk(nodes, items, i);
      assert i + 1 < |items| ==> LinkOk(nodes, items, i + 1);
      assert i > 0 ==> LinkOk(nodes, items, i - 1);
    }
  }

  function WithItem(items: seq<Ptr>, k: int, p: Ptr): seq<Ptr>
    requires 0 <= k <= |items|
  {
    items[..k] + [p] + items[k..]
  }

  function WithoutItem(items: seq<Ptr>, k: int): seq<Ptr>
    requires 0 <= k < |items|
  {
    items[..k] + items[k + 1..]
  }

  lemma InsertedAt(nodes: Nodes, items: seq<Ptr>, k: int, p: Ptr, i: int)
    requires Linked(nodes, items) && 0 <= k <= |items| && p > END && p !in items && 0 <= i < |items| + 1
    ensures forall q | q in items :: q in nodes
    ensures LinkOk(Inserted(nodes, items, k, p), WithItem(items, k, p), i)
  {
    LinkedIn(nodes, items);
    var after := WithItem(items, k, p);
    assert after[i] == if i < k then items[i] else if i == k then p else items[i - 1];
    if i < k {
      assert LinkOk(nodes, items, i);
    } else if i > k {
      assert LinkOk(nodes, items, i - 1);
    }
  }

  lemma InsertLinked(nodes: Nodes, items: seq<Ptr>, k: int, p: Ptr)
    requires Linked(nodes, items) && 0 <= k <= |items| && p > END && p !in items
    ensures forall q | q in items :: q in nodes
    ensures Linked(Inserted(nodes, items, k, p), WithItem(items, k, p))
    ensures forall q | q in nodes && q !in items && q != p ::
              q in Inserted(nodes, items, k, p) && Inserted(nodes, items, k, p)[q] == nodes[q]
  {
    LinkedIn(nodes, items);
    var after := WithItem(items, k, p);
    forall i {:trigger LinkOk(Inserted(nodes, items, k, p), after, i)} | 0 <= i < |after|
      ensures LinkOk(Inserted(nodes, items, k, p), after, i)
    {
      InsertedAt(nodes, items, k, p, i);
    }
  }

  lemma RemovedAt(nodes: Nodes, items: seq<Ptr>, k: int, i: int)
    requires Linked(nodes, items) && 0 <= k < |items| && 0 <= i < |items| - 1
    ensures forall q | q in items :: q in nodes
    ensures LinkOk(Removed(nodes, items, k), WithoutItem(items, k), i)
  {
    LinkedIn(nodes, items);
    var after := WithoutItem(items, k);
    assert after[i] == if i < k then items[i] else items[i + 1];
    assert LinkOk(nodes, items, if i < k then i else i + 1);
  }

  lemma RemoveLinked(nodes: Nodes, items: seq<Ptr>, k: int)
    requires Linked(nodes, items) && 0 <= k < |items|
    ensures forall q | q in items :: q in nodes
    ensures Linked(Removed(nodes, items, k), WithoutItem(items, k))
    ensures items[k] in Removed(nodes, items, k) && Removed(nodes, items, k)[items[k]] == DETACHED
    ensures forall q | q in nodes && q !in items ::
              q in Removed(nodes, items, k) && Removed(nodes, items, k)[q] == nodes[q]
  {
    LinkedIn(nodes, items);
    var after := WithoutItem(items, k);
    forall i {:trigger LinkOk(Removed(nodes, items, k), after, i)} | 0 <= i < |after|
      ensures LinkOk(Removed(nodes, items, k), after, i)
    {
      RemovedAt(nodes, items, k, i);
    }
  }

  // ---------------------------------------------------------------- lists

  /** The memory that holds the nodes of all lists. */
  class NodeMemory {
    var nodes: Nodes

    constructor (nodes: Nodes)
      ensures this.nodes == nodes
    {
      this.nodes := nodes;
    }

    method Set(p: Ptr, node: ListNode)
      requires p in nodes
      modifies this
      ensures nodes == old(nodes)[p := node]
    {
      nodes := nodes[p := node];
    }

    method SetPrev(p: Ptr, prev: Ptr)
      requires p in nodes
      modifies this
      ensures nodes == old(nodes)[p := old(nodes)[p].(prev := prev)]
    {
      nodes := nodes[p := nodes[p].(prev := prev)];
    }

    method SetNext(p: Ptr, next: Ptr)
      requires p in nodes
      modifies this
      ensures nodes == old(nodes)[p := old(nodes)[p].(next := next)]
    {
      nodes := nodes[p := nodes[p].(next := next)];
    }
  }

  class IntrusiveList {
    const memory: NodeMemory
    var first: Ptr
    var last: Ptr
    var len: nat
    ghost var items: seq<Ptr>

    ghost predicate Shaped()
      reads this, memory
    {
      && Linked(memory.nodes, items)
      && first == (if items == [] then NULL else items[0])
      && last == (if items == [] then NULL else items[|items| - 1])
    }

    ghost predicate Valid()
      reads this, memory
    {
      Shaped() && len == |items|
    }

    /** What holds after an insertion: the sequence has one more item, and no node outside the list has changed. */
    twostate predicate InsertedItem(k: int, p: Ptr)
      requires 0 <= k <= |old(items)|
      reads this, memory
    {
      && Valid() && items == WithItem(old(items), k, p)
      && forall q | q in old(memory.nodes) && q !in old(items) && q != p ::
           q in memory.nodes && memory.nodes[q] == old(memory.nodes)[q]
    }

    twostate predicate RemovedItem(k: int)
      requires 0 <= k < |old(items)|
      reads this, memory
    {
      && Valid() && items == WithoutItem(old(items), k)
      && old(items)[k] in memory.nodes && memory.nodes[old(items)[k]] == DETACHED
      && forall q | q in old(memory.nodes) && q !in old(items) ::
           q in memory.nodes && memory.nodes[q] == old(memory.nodes)[q]
    }

    constructor (memory: NodeMemory)
      ensures Valid() && this.memory == memory && items == []
    {
      this.memory := memory;
      first, last, len, items := NULL, NULL, 0, [];
    }

    /** Count an item that has been linked in at place `k` of what were the nodes of the list. */
    method CountIn(item: Ptr, ghost k: nat, ghost was: Nodes)
      requires Linked(was, items) && len == |items| && k <= |items| && item > END && item !in items
      requires (forall q | q in items :: q in was) && memory.nodes == Inserted(was, items, k, item)
      requires first == if k == 0 then item else items[0]
      requires last == if k == |items| then item else items[|items| - 1]
      modifies this`len, this`items
      ensures Valid() && items == WithItem(old(items), k, item)
      ensures forall q | q in was && q !in old(items) && q != item :: q in memory.nodes && memory.nodes[q] == was[q]
    {
      InsertLinked(was, items, k, item);
      len := len + 1;
      items := WithItem(items, k, item);
    }

    /** Count item `k` out, which has been taken out of what were the nodes of the list. */
    method CountOut(ghost k: nat, ghost was: Nodes)
      requires Linked(was, items) && len == |items| && k < |items|
      requires (forall q | q in items :: q in was) && memory.nodes == Removed(was, items, k)
      requires first == if |items| == 1 then NULL else if k == 0 then items[1] else items[0]
      requires last == if |items| == 1 then NULL else if k == |items| - 1 then items[k - 1] else items[|items| - 1]
      modifies this`len, this`items
      ensures Valid() && items == WithoutItem(old(items), k)
      ensures old(items)[k] in memory.nodes && memory.nodes[old(items)[k]] == DETACHED
      ensures forall q | q in was && q !in old(items) :: q in memory.nodes && memory.nodes[q] == was[q]
    {
      RemoveLinked(was, items, k);
      len := len - 1;
      items := WithoutItem(items, k);
    }

    method PushFront(item: Ptr) returns (ok: bool)
      requires Valid() && item > END && item in memory.nodes
      modifies this, memory
      ensures ok <==> old(memory.nodes)[item].next == NULL
      ensures if ok then InsertedItem(0, item) else unchanged(this) && unchanged(memory)
    {
      LinkedIn(memory.nodes, items);
      if memory.nodes[item].next != NULL {
        return false;
      }
      ghost var was := memory.nodes;
      memory.Set(item, ListNode(END, Max(first, END)));
      if first != NULL {
        memory.SetPrev(first, item);
      } else {
        last := item;
      }
      first := item;
      CountIn(item, 0, was);
      return true;
    }

    method PushBack(item: Ptr) returns (ok: bool)
      requires Valid() && item > END && item in memory.nodes
      modifies this, memory
      ensures ok <==> old(memory.nodes)[item].next == NULL
      ensures if ok then InsertedItem(|old(items)|, item) else unchanged(this) && unchanged(memory)
    {
      LinkedIn(memory.nodes, items);
      if memory.nodes[item].next != NULL {
        return false;
      }
      ghost var was := memory.nodes;
      memory.Set(item, ListNode(Max(last, END), END));
      if last != NULL {
        memory.SetNext(last, item);
      } else {
        first := item;
      }
      last := item;
      CountIn(item, |items|, was);
      return true;
    }

    method InsertAfter(at: Ptr, item: Ptr, ghost k: nat)
      requires Valid() && k < |items| && items[k] == at && item > END && item in memory.nodes && item !in items
      modifies this, memory
      ensures InsertedItem(k + 1, item)
    {
      LinkedIn(memory.nodes, items);
      assert LinkOk(memory.nodes, items, k);
      ghost var was := memory.nodes;
      var next := memory.nodes[at].next;
      if next > END {
        memory.SetPrev(next, item);
      } else {
        last := item;
      }
      memory.Set(item, ListNode(at, next));
      memory.SetNext(at, item);
      CountIn(item, k + 1, was);
    }

    method InsertBefore(at: Ptr, item: Ptr, ghost k: nat)
      requires Valid() && k < |items| && items[k] == at && item > END && item in memory.nodes && item !in items
      modifies this, memory
      ensures InsertedItem(k, item)
    {
      LinkedIn(memory.nodes, items);
      assert LinkOk(memory.nodes, items, k);
      ghost var was := memory.nodes;
      var prev := memory.nodes[at].prev;
      if prev > END {
        memory.SetNext(prev, item);
      } else {
        first := item;
      }
      memory.Set(item, ListNode(prev, at));
      memory.SetPrev(at, item);
      CountIn(item, k, was);
    }

    method PopFront() returns (r: Option<Ptr>)
      requires Valid()
      modifies this, memory
      ensures old(items) == [] ==> r == None && unchanged(this) && unchanged(memory)
      ensures old(items) != [] ==> r == Some(old(items)[0]) && RemovedItem(0)
    {
      LinkedIn(memory.nodes, items);
      assert items != [] ==> LinkOk(memory.nodes, items, 0);
      if first == NULL {
        return None;
      }
      var node := first;
      assert LinkOk(memory.nodes, items, 0);
      ghost var was := memory.nodes;
      if memory.nodes[node].next > END {
        memory.SetPrev(memory.nodes[node].next, END);
        first := memory.nodes[node].next;
      } else {
        first, last := NULL, NULL;
      }
      memory.Set(node, DETACHED);
      CountOut(0, was);
      return Some(node);
    }

    method PopBack() returns (r: Option<Ptr>)
      requires Valid()
      modifies this, memory
      ensures old(items) == [] ==> r == None && unchanged(this) && unchanged(memory)
      ensures old(items) != [] ==> r == Some(old(items)[|old(items)| - 1]) && RemovedItem(|old(items)| - 1)
    {
      LinkedIn(memory.nodes, items);
      assert items != [] ==> LinkOk(memory.nodes, items, |items| - 1);
      if last == NULL {
        return None;
      }
      var node := last;
      assert LinkOk(memory.nodes, items, |items| - 1);
      ghost var was := memory.nodes;
      if memory.nodes[node].prev > END {
        memory.SetNext(memory.nodes[node].prev, END);
        last := memory.nodes[node].prev;
      } else {
        first, last := NULL, NULL;
      }
      memory.Set(node, DETACHED);
      CountOut(|items| - 1, was);
      return Some(node);
    }

    method Remove(item: Ptr, ghost k: nat)
      requires Valid() && k < |items| && items[k] == item
      modifies this, memory
      ensures RemovedItem(k)
    {
      LinkedIn(memory.nodes, items);
      assert LinkOk(memory.nodes, items, k);
      ghost var was := memory.nodes;
      var node := memory.nodes[item];
      if node.next > END {
        memory.SetPrev(node.next, node.prev);
      } else if node.prev == END {
        last := NULL;
      } else {
        last := node.prev;
      }
      if node.prev > END {
        memory.SetNext(node.prev, node.next);
      } else if node.next == END {
        first := NULL;
      } else {
        first := node.next;
      }
      memory.Set(item, DETACHED);
      CountOut(k, was);
    }

    /** Iteration yields the items in order. */
    method Iterate() returns (r: seq<Ptr>)
      requires Shaped()
      ensures r == items
    {
      LinkedIn(memory.nodes, items);
      r := [];
      var cur := first;
      while cur > END
        invariant |r| <= |items| && r == items[..|r|]
        invariant if |r| < |items| then cur == items[|r|] else cur <= END
        decreases |items| - |r|
      {
        assert LinkOk(memory.nodes, items, |r|);
        r := r + [cur];
        cur := memory.nodes[cur].next;
      }
      assert |r| < |items| ==> LinkOk(memory.nodes, items, |r|);
    }

    method Contains(item: Ptr) returns (r: bool)
      requires Valid() && item in memory.nodes
      ensures r <==> item in items
    {
      LinkedIn(memory.nodes, items);
      if memory.nodes[item].next == NULL {
        return false;
      }
      ghost var n := 0;
      var cur := first;
      while cur > END
        invariant 0 <= n <= |items| && item !in items[..n]
        invariant if n < |items| then cur == items[n] else cur <= END
        decreases |items| - n
      {
        if cur == item {
          return true;
        }
        assert LinkOk(memory.nodes, items, n);
        n := n + 1;
        cur := memory.nodes[cur].next;
      }
      assert n < |items| ==> LinkOk(memory.nodes, items, n);
      return false;
    }

    /** Detach every node.  The length is not reset, so the list is left valid only if it was empty. */
    method Clear()
      requires Valid()
      modifies this, memory
      ensures Shaped() && items == [] && len == old(len)
      ensures Valid() <==> old(items) == []
      ensures forall q | q in old(items) :: q in memory.nodes && memory.nodes[q] == DETACHED
      ensures forall q | q in old(memory.nodes) && q !in old(items) ::
                q in memory.nodes && memory.nodes[q] == old(memory.nodes)[q]
    {
      LinkedIn(memory.nodes, items);
      ghost var all, before, n := items, memory.nodes, 0;
      var cur := first;
      first, last, items := NULL, NULL, [];
      while cur > END
        invariant 0 <= n <= |all| && (if n < |all| then cur == all[n] else cur <= END)
        invariant first == NULL && last == NULL && items == [] && len == old(len)
        invariant memory.nodes.Keys == before.Keys
        invariant forall i | 0 <= i < n :: memory.nodes[all[i]] == DETACHED
        invariant forall i | n <= i < |all| :: memory.nodes[all[i]] == before[all[i]]
        invariant forall q | q in before && q !in all :: memory.nodes[q] == before[q]
        decreases |all| - n
      {
        assert LinkOk(before, all, n);
        var next := memory.nodes[cur].next;
        memory.Set(cur, DETACHED);
        cur := next;
        n := n + 1;
      }
    }
  }

  /** A list of one node, cleared: it is empty and has length one. */
  method ClearedLength() returns (length: nat, found: seq<Ptr>)
    ensures length == 1 && found == []
  {
    var memory := new NodeMemory(map[2 := DETACHED]);
    var list := new IntrusiveList(memory);
    var pushed := list.PushBack(2);
    list.Clear();
    length := list.len;
    found := list.Iterate();
  }
}
