/**
 * The ID allocator of src/util/id_alloc.rs: the free IDs as a sorted vector of
 * inclusive ranges.
 */
module IdAllocs {
  import opened Common

  const MAX: nat := 0xFFFF_FFFF

  datatype Entry = Entry(first: nat, last: nat)

  /** The ranges are sorted, with at least one ID in use between any two. */
  ghost predicate WellFormed(avail: seq<Entry>) {
    && (forall i | 0 <= i < |avail| :: 1 <= avail[i].first <= avail[i].last <= MAX)
    && (forall i, j | 0 <= i < j < |avail| :: avail[i].last + 1 < avail[j].first)
  }

  ghost predicate Free(avail: seq<Entry>, id: nat) {
    exists i | 0 <= i < |avail| :: avail[i].first <= id <= avail[i].last
  }

  /** How many ranges start below `id`: where a search for a range starting at `id` ends. */
  function Position(avail: seq<Entry>, id: nat): (index: nat)
    ensures index <= |avail|
    ensures forall i | 0 <= i < index :: avail[i].first < id
    ensures index < |avail| ==> avail[index].first >= id
  {
    if avail == [] || avail[0].first >= id then 0 else 1 + Position(avail[1..], id)
  }

  lemma FreeConcat(x: seq<Entry>, y: seq<Entry>, id: nat)
    ensures Free(x + y, id) <==> Free(x, id) || Free(y, id)
  {
    if Free(x, id) {
      var i :| 0 <= i < |x| && x[i].first <= id <= x[i].last;
      assert (x + y)[i] == x[i];
    }
    if Free(y, id) {
      var i :| 0 <= i < |y| && y[i].first <= id <= y[i].last;
      assert (x + y)[|x| + i] == y[i];
    }
    if Free(x + y, id) {
      var i :| 0 <= i < |x + y| && (x + y)[i].first <= id <= (x + y)[i].last;
      assert if i < |x| then (x + y)[i] == x[i] else (x + y)[i] == y[i - |x|];
    }
  }

  /** Ranges `a` up to `b` replaced by `mid`. */
  function Replaced(avail: seq<Entry>, a: nat, b: nat, mid: seq<Entry>): seq<Entry>
    requires a <= b <= |avail|
  {
    avail[..a] + mid + avail[b..]
  }

  lemma ReplacedAt(avail: seq<Entry>, a: nat, b: nat, e: Entry, i: nat)
    requires a <= b <= |avail| && i < a + 1 + |avail| - b
    ensures Replaced(avail, a, b, [e])[i] == if i < a then avail[i] else if i == a then e else avail[i - a - 1 + b]
  {
  }

  lemma ReplacedWellFormed(avail: seq<Entry>, a: nat, b: nat, e: Entry)
    requires WellFormed(avail) && a <= b <= |avail| && 1 <= e.first <= e.last <= MAX
    requires a > 0 ==> avail[a - 1].last + 1 < e.first
    requires b < |avail| ==> e.last + 1 < avail[b].first
    ensures WellFormed(Replaced(avail, a, b, [e]))
  {
    var after := Replaced(avail, a, b, [e]);
    forall i | 0 <= i < |after|
      ensures 1 <= after[i].first <= after[i].last <= MAX
    {
      ReplacedAt(avail, a, b, e, i);
    }
    forall i, j | 0 <= i < j < |after|
      ensures after[i].last + 1 < after[j].first
    {
      ReplacedAt(avail, a, b, e, i);
      ReplacedAt(avail, a, b, e, j);
    }
  }

  /** What a replacement leaves free: outside the replaced ranges the same, inside what `mid` says. */
  lemma ReplacedFree(avail: seq<Entry>, a: nat, b: nat, mid: seq<Entry>, id: nat)
    requires a <= b <= |avail|
    ensures Free(Replaced(avail, a, b, mid), id) <==> Free(avail[..a], id) || Free(mid, id) || Free(avail[b..], id)
    ensures Free(avail, id) <==> Free(avail[..a], id) || Free(avail[a..b], id) || Free(avail[b..], id)
  {
    FreeConcat(avail[..a] + mid, avail[b..], id);
    FreeConcat(avail[..a], mid, id);
    FreeConcat(avail[..a] + avail[a..b], avail[b..], id);
    FreeConcat(avail[..a], avail[a..b], id);
    assert avail == avail[..a] + avail[a..b] + avail[b..];
  }

  // ---------------------------------------------------------------- deallocation

  /** The vector after `id` is returned to it: one range takes in `id` and the ranges it touches. */
  function Dealloced(avail: seq<Entry>, id: nat): seq<Entry> {
    var index := Position(avail, id);
    if index < |avail| && avail[index].first == id then avail
    else
      var left := index > 0 && avail[index - 1].last + 1 == id;
      var right := index < |avail| && id + 1 == avail[index].first;
      Replaced(avail, if left then index - 1 else index, if right then index + 1 else index,
               [Entry(if left then avail[index - 1].first else id, if right then avail[index].last else id)])
  }

  lemma SetAt(avail: seq<Entry>, i: nat, e: Entry)
    requires i < |avail|
    ensures avail[i := e] == Replaced(avail, i, i + 1, [e])
  {
  }

  lemma MergedAt(avail: seq<Entry>, i: nat, e: Entry)
    requires i + 1 < |avail|
    ensures avail[i := e][..i + 1] + avail[i := e][i + 2..] == Replaced(avail, i, i + 2, [e])
  {
  }

  ghost predicate FreesExactly(avail: seq<Entry>, after: seq<Entry>, id: nat) {
    WellFormed(after) && forall k: nat :: Free(after, k) <==> Free(avail, k) || k == id
  }

  /** The ranges around an ID in use do not reach it. */
  lemma LiveBetween(avail: seq<Entry>, id: nat)
    requires WellFormed(avail) && !Free(avail, id)
    ensures var index := Position(avail, id);
            && (index > 0 ==> avail[index - 1].last < id)
            && (index < |avail| ==> avail[index].first > id)
  {
    var index := Position(avail, id);
    assert index > 0 ==> !(avail[index - 1].first <= id <= avail[index - 1].last);
    assert index < |avail| ==> !(id <= avail[index].last && avail[index].first <= id);
  }

  /** Returning an ID that is in use makes it free and nothing else. */
  lemma DeallocLive(avail: seq<Entry>, id: nat)
    requires WellFormed(avail) && 1 <= id <= MAX && !Free(avail, id)
    ensures FreesExactly(avail, Dealloced(avail, id), id)
  {
    var index := Position(avail, id);
    LiveBetween(avail, id);
    var left := index > 0 && avail[index - 1].last + 1 == id;
    var right := index < |avail| && id + 1 == avail[index].first;
    var a, b := if left then index - 1 else index, if right then index + 1 else index;
    var e := Entry(if left then avail[index - 1].first else id, if right then avail[index].last else id);
    ReplacedWellFormed(avail, a, b, e);
    forall k: nat
      ensures Free(Dealloced(avail, id), k) <==> Free(avail, k) || k == id
    {
      ReplacedFree(avail, a, b, [e], k);
      MergedFree(avail, a, b, index, e, id, k);
    }
  }

  lemma MergedFree(avail: seq<Entry>, a: nat, b: nat, index: nat, e: Entry, id: nat, k: nat)
    requires WellFormed(avail) && a <= index <= b <= |avail| && b <= index + 1 && index <= a + 1
    requires a < index ==> avail[a].last + 1 == id && e.first == avail[a].first
    requires index < b ==> id + 1 == avail[index].first && e.last == avail[index].last
    requires a == index ==> e.first == id
    requires index == b ==> e.last == id
    ensures Free([e], k) <==> Free(avail[a..b], k) || k == id
  {
    var mid := avail[a..b];
    assert a < index ==> mid[0] == avail[a];
    assert index < b ==> mid[index - a] == avail[index];
    RangeFree(e, k);
  }

  /** Returning a free ID is harmless exactly when the ID starts a range: then it is noticed. */
  lemma DeallocIff(avail: seq<Entry>, id: nat)
    requires WellFormed(avail) && 1 <= id <= MAX
    ensures FreesExactly(avail, Dealloced(avail, id), id)
       <==> !Free(avail, id) || exists i | 0 <= i < |avail| :: avail[i].first == id
  {
    var index, after := Position(avail, id), Dealloced(avail, id);
    if !Free(avail, id) {
      DeallocLive(avail, id);
    } else if i :| 0 <= i < |avail| && avail[i].first == id {
      assert i == index;
    } else {
      var i :| 0 <= i < |avail| && avail[i].first <= id <= avail[i].last;
      assert i == index - 1;
      assert after == Replaced(avail, index, index, [Entry(id, id)]);
      ReplacedAt(avail, index, index, Entry(id, id), i);
      ReplacedAt(avail, index, index, Entry(id, id), index);
    }
  }

  // ---------------------------------------------------------------- allocation

  /** The range the next ID comes from: the first that starts at or after `next`, or else the first of all. */
  function Chosen(avail: seq<Entry>, next: nat): (index: nat)
    requires avail != []
    ensures index < |avail|
  {
    var p := Position(avail, next);
    if p < |avail| then p else 0
  }

  /** The vector after the first ID of range `index` is taken. */
  function Alloced(avail: seq<Entry>, index: nat): seq<Entry>
    requires index < |avail|
  {
    var e := avail[index];
    Replaced(avail, index, index + 1, if e.first == e.last then [] else [Entry(e.first + 1, e.last)])
  }

  lemma AllocWellFormed(avail: seq<Entry>, index: nat)
    requires WellFormed(avail) && index < |avail|
    ensures WellFormed(Alloced(avail, index))
  {
    var e := avail[index];
    if e.first != e.last {
      assert Alloced(avail, index) == Replaced(avail, index, index + 1, [Entry(e.first + 1, e.last)]);
      ReplacedWellFormed(avail, index, index + 1, Entry(e.first + 1, e.last));
    } else {
      assert Alloced(avail, index) == Replaced(avail, index, index + 1, []);
      SkipWellFormed(avail, index);
    }
  }

  lemma SkipAt(avail: seq<Entry>, index: nat, i: nat)
    requires index < |avail| && i < |avail| - 1
    ensures Replaced(avail, index, index + 1, [])[i] == if i < index then avail[i] else avail[i + 1]
  {
  }

  lemma SkipWellFormed(avail: seq<Entry>, index: nat)
    requires WellFormed(avail) && index < |avail|
    ensures WellFormed(Replaced(avail, index, index + 1, []))
  {
    var after := Replaced(avail, index, index + 1, []);
    forall i | 0 <= i < |after|
      ensures 1 <= after[i].first <= after[i].last <= MAX
    {
      SkipAt(avail, index, i);
    }
    forall i, j | 0 <= i < j < |after|
      ensures after[i].last + 1 < after[j].first
    {
      SkipAt(avail, index, i);
      SkipAt(avail, index, j);
    }
  }

  lemma RangeFree(e: Entry, k: nat)
    ensures Free([e], k) <==> e.first <= k <= e.last
  {
    assert [e][0] == e;
  }

  /** Allocation takes one free ID and no other. */
  lemma AllocTakes(avail: seq<Entry>, index: nat)
    requires WellFormed(avail) && index < |avail|
    ensures Free(avail, avail[index].first) && WellFormed(Alloced(avail, index))
    ensures forall k: nat :: Free(Alloced(avail, index), k) <==> Free(avail, k) && k != avail[index].first
  {
    AllocWellFormed(avail, index);
    var e := avail[index];
    var mid := if e.first == e.last then [] else [Entry(e.first + 1, e.last)];
    forall k: nat
      ensures Free(Alloced(avail, index), k) <==> Free(avail, k) && k != e.first
    {
      ReplacedFree(avail, index, index + 1, mid, k);
      assert avail[index..index + 1] == [e];
      RangeFree(e, k);
      if e.first != e.last {
        RangeFree(Entry(e.first + 1, e.last), k);
      }
      assert !Free(avail[..index], e.first) && !Free(avail[index + 1..], e.first);
    }
  }

  /**
   * A new allocator, given back ID 2, which it never handed out.  It hands out 1, and then 2
   * from either of the ranges that now start there; 2 is still free afterwards, and if it
   * came from the second range, the next ID is 2 again.
   */
  lemma FreedTwice(i: nat)
    requires i < 2
    ensures var freed := Dealloced([Entry(1, MAX)], 2);
            var first := Alloced(freed, Chosen(freed, 1));
            && freed == [Entry(1, MAX), Entry(2, 2)] && freed[Chosen(freed, 1)].first == 1
            && first == [Entry(2, MAX), Entry(2, 2)] && first[i].first == 2
            && Free(Alloced(first, i), 2)
            && var second := Alloced(first, 1);
               second == [Entry(2, MAX)] && second[Chosen(second, 3)].first == 2
  {
    var freed := [Entry(1, MAX), Entry(2, 2)];
    var first := [Entry(2, MAX), Entry(2, 2)];
    assert Position([Entry(1, MAX)], 2) == 1;
    assert Dealloced([Entry(1, MAX)], 2) == freed;
    assert Chosen(freed, 1) == 0;
    assert Alloced(freed, 0) == first;
    assert Alloced(first, 0) == [Entry(3, MAX), Entry(2, 2)];
    assert Alloced(first, 1) == [Entry(2, MAX)];
    assert [Entry(3, MAX), Entry(2, 2)][1] == Entry(2, 2) && [Entry(2, MAX)][0] == Entry(2, MAX);
    assert Position([Entry(2, MAX)], 3) == 1;
  }

  // ---------------------------------------------------------------- one vector for one set

  lemma FirstIsLeast(avail: seq<Entry>, k: nat)
    requires WellFormed(avail) && Free(avail, k)
    ensures avail != [] && avail[0].first <= k
  {
  }

  lemma AfterFirst(avail: seq<Entry>)
    requires WellFormed(avail) && avail != []
    ensures !Free(avail, avail[0].last + 1)
    ensures forall k | avail[0].first <= k <= avail[0].last :: Free(avail, k)
    ensures WellFormed(avail[1..])
    ensures forall k: nat :: Free(avail[1..], k) <==> Free(avail, k) && k > avail[0].last
  {
    forall k: nat
      ensures Free(avail[1..], k) <==> Free(avail, k) && k > avail[0].last
    {
      ReplacedFree(avail, 0, 1, [], k);
      assert avail[0..1] == [avail[0]] && avail[..0] == [];
      RangeFree(avail[0], k);
    }
  }

  lemma SameFirst(x: seq<Entry>, y: seq<Entry>)
    requires WellFormed(x) && WellFormed(y) && x != [] && forall k: nat :: Free(x, k) <==> Free(y, k)
    ensures y != [] && x[0] == y[0]
  {
    assert Free(x, x[0].first);
    FirstIsLeast(y, x[0].first);
    assert Free(y, y[0].first);
    FirstIsLeast(x, y[0].first);
    AfterFirst(x);
    AfterFirst(y);
  }

  /** Two well-formed vectors with the same free IDs are the same vector. */
  lemma {:induction false} Canonical(x: seq<Entry>, y: seq<Entry>)
    requires WellFormed(x) && WellFormed(y) && forall k: nat :: Free(x, k) <==> Free(y, k)
    ensures x == y
  {
    if x == [] {
      assert y != [] ==> Free(y, y[0].first);
      assert y != [] ==> !Free(x, y[0].first);
    } else {
      SameFirst(x, y);
      AfterFirst(x);
      AfterFirst(y);
      Canonical(x[1..], y[1..]);
    }
  }

  /** When everything is free there is one range, whatever came before. */
  lemma AllFree(avail: seq<Entry>)
    requires WellFormed(avail) && forall k | 1 <= k <= MAX :: Free(avail, k)
    ensures avail == [Entry(1, MAX)]
  {
    var whole := [Entry(1, MAX)];
    forall k: nat
      ensures Free(avail, k) <==> Free(whole, k)
    {
      RangeFree(Entry(1, MAX), k);
    }
    Canonical(avail, whole);
  }

  // ---------------------------------------------------------------- whole runs

  /** An allocator together with the IDs handed out and not yet returned. */
  datatype Pool = Pool(avail: seq<Entry>, next: nat, live: set<nat>)

  datatype Request = Take | Return(id: nat)

  function UpdateNext(id: nat): nat { if id == MAX then 1 else id + 1 }

  /** A request, ignored when there is nothing to take or the ID is not out. */
  function Serve(p: Pool, r: Request): Pool {
    match r
    case Take =>
      if p.avail == [] then p
      else
        var index := Chosen(p.avail, p.next);
        var id := p.avail[index].first;
        Pool(Alloced(p.avail, index), UpdateNext(id), p.live + {id})
    case Return(id) =>
      if id !in p.live then p else Pool(Dealloced(p.avail, id), p.next, p.live - {id})
  }

  function ServeAll(requests: seq<Request>): Pool {
    if requests == [] then Pool([Entry(1, MAX)], 1, {})
    else Serve(ServeAll(requests[..|requests| - 1]), requests[|requests| - 1])
  }

  ghost predicate PoolOk(p: Pool) {
    && WellFormed(p.avail) && 1 <= p.next <= MAX && (forall id | id in p.live :: 1 <= id <= MAX)
    && forall k | 1 <= k <= MAX :: Free(p.avail, k) <==> k !in p.live
  }

  lemma ServeKeepsOk(p: Pool, r: Request)
    requires PoolOk(p)
    ensures PoolOk(Serve(p, r))
    ensures r.Take? && p.avail != [] ==> p.avail[Chosen(p.avail, p.next)].first !in p.live
  {
    match r
    case Take =>
      if p.avail != [] {
        AllocTakes(p.avail, Chosen(p.avail, p.next));
      }
    case Return(id) =>
      if id in p.live {
        DeallocLive(p.avail, id);
      }
  }

  /** In every run the free IDs are exactly those not handed out; with all returned, one range is left. */
  lemma {:induction false} RunOk(requests: seq<Request>)
    ensures PoolOk(ServeAll(requests))
    ensures ServeAll(requests).live == {} ==> ServeAll(requests).avail == [Entry(1, MAX)]
  {
    if requests == [] {
      forall k: nat { RangeFree(Entry(1, MAX), k); }
    } else {
      RunOk(requests[..|requests| - 1]);
      ServeKeepsOk(ServeAll(requests[..|requests| - 1]), requests[|requests| - 1]);
    }
    if ServeAll(requests).live == {} {
      AllFree(ServeAll(requests).avail);
    }
  }

  // ---------------------------------------------------------------- the allocator

  class IdAlloc {
    var next: nat
    var avail: seq<Entry>

    ghost predicate Valid()
      reads this
    {
      1 <= next <= MAX && WellFormed(avail)
    }

    constructor ()
      ensures Valid() && avail == [Entry(1, MAX)] && next == 1 && forall k | 1 <= k <= MAX :: Free(avail, k)
    {
      next, avail := 1, [Entry(1, MAX)];
      new;
      assert avail[0] == Entry(1, MAX);
    }

    /** Binary search for a range that starts at `id`. */
    method Search(id: nat) returns (found: bool, index: nat)
      requires Valid()
      ensures index == Position(avail, id)
      ensures found <==> index < |avail| && avail[index].first == id
    {
      var lo, hi := 0, |avail|;
      while lo < hi
        invariant 0 <= lo <= hi <= |avail|
        invariant forall i | 0 <= i < lo :: avail[i].first < id
        invariant forall i | hi <= i < |avail| :: avail[i].first >= id
      {
        var mid := (lo + hi) / 2;
        if avail[mid].first < id {
          lo := mid + 1;
        } else {
          hi := mid;
        }
      }
      index := lo;
      found := index < |avail| && avail[index].first == id;
    }

    method Dealloc(id: nat)
      requires Valid() && 1 <= id <= MAX
      modifies this`avail
      ensures avail == Dealloced(old(avail), id)
      ensures !Free(old(avail), id) ==> Valid() && FreesExactly(old(avail), avail, id)
    {
      if !Free(avail, id) {
        DeallocLive(avail, id);
      }
      var found, index := Search(id);
      if found {
        return;
      }
      Put(index, id);
    }

    /** Put an ID at its place, merged with the ranges it touches. */
    method Put(index: nat, id: nat)
      requires index == Position(avail, id) && 1 <= id <= MAX
      requires index < |avail| ==> id < avail[index].first <= MAX
      modifies this`avail
      ensures avail == Dealloced(old(avail), id)
    {
      var mergeLeft := index > 0 && avail[index - 1].last < MAX && avail[index - 1].last + 1 == id;
      var mergeRight := index < |avail| && id < MAX && id + 1 == avail[index].first;
      if mergeLeft && mergeRight {
        MergedAt(avail, index - 1, avail[index - 1].(last := avail[index].last));
        avail := avail[index - 1 := avail[index - 1].(last := avail[index].last)];
        avail := avail[..index] + avail[index + 1..];
      } else if mergeLeft {
        SetAt(avail, index - 1, avail[index - 1].(last := id));
        avail := avail[index - 1 := avail[index - 1].(last := id)];
      } else if mergeRight {
        SetAt(avail, index, avail[index].(first := id));
        avail := avail[index := avail[index].(first := id)];
      } else {
        avail := avail[..index] + [Entry(id, id)] + avail[index..];
      }
    }

    /**
     * Take an ID.  The search ends at a range that starts at or after `next`, or wraps to
     * the first range with the ID reset to 1; so the ID never lies beyond the start of its
     * range, and the source's branches for the middle and the end of a range are dead.
     */
    method Alloc() returns (r: Option<nat>)
      requires Valid()
      modifies this
      ensures Valid()
      ensures r.None? <==> forall k: nat :: !Free(old(avail), k)
      ensures r.None? ==> avail == old(avail) && next == old(next)
      ensures r.Some? ==>
        && old(avail) != [] && r.value == old(avail)[Chosen(old(avail), old(next))].first
        && avail == Alloced(old(avail), Chosen(old(avail), old(next))) && next == UpdateNext(r.value)
        && Free(old(avail), r.value) && (forall k: nat :: Free(avail, k) <==> Free(old(avail), k) && k != r.value)
    {
      var id := next;
      if |avail| == 0 {
        return None;
      }
      var found, index := Search(id);
      if !found && index == |avail| {
        id, index := 1, 0;
      }
      assert index == Chosen(avail, next) && id <= avail[index].first;
      AllocTakes(avail, index);
      if id < avail[index].first {
        id := avail[index].first;
      }
      TakeFirst(index);
      next := UpdateNext(id);
      return Some(id);
    }

    /** Take the first ID off a range, and the range with it if that was all. */
    method TakeFirst(index: nat)
      requires index < |avail|
      modifies this`avail
      ensures avail == Alloced(old(avail), index)
    {
      var entry := avail[index];
      if entry.first == entry.last {
        avail := avail[..index] + avail[index + 1..];
      } else {
        avail := avail[index := entry.(first := entry.first + 1)];
      }
    }

    method IsFree(id: nat) returns (r: bool)
      requires Valid()
      ensures r <==> Free(avail, id)
    {
      var lo, hi := 0, |avail|;
      while lo < hi
        invariant 0 <= lo <= hi <= |avail|
        invariant forall i | 0 <= i < lo :: avail[i].last < id
        invariant forall i | hi <= i < |avail| :: id < avail[i].first
      {
        var mid := (lo + hi) / 2;
        if id < avail[mid].first {
          hi := mid;
        } else if id > avail[mid].last {
          lo := mid + 1;
        } else {
          return true;
        }
      }
      return false;
    }
  }
}
