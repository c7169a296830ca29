/**
 * The bus reservation protocol of src/device/bus/mod.rs, as the steps of any number
 * of threads over any number of buses.  A step is one access to shared state: taking
 * or releasing a bus's lock, reading or changing the reservation, the in-flight
 * counter, or the ID allocator.
 *
 * A reservation object cannot be dropped while it is borrowed, by an operation in
 * flight or by a thread inside `take`; the language enforces this, so `DropLock`
 * asks for it.
 */
module Buses {
  import opened Common
  import IdAllocs

  type Tid = nat
  type BusNo = nat
  type Handle = nat
  type OpNo = nat

  datatype Lock = Unlocked | Exclusive(owner: Tid) | Shared(owners: set<Tid>)

  datatype Bus = Bus(resv: Option<nat>, inflight: nat, lock: Lock)

  /** A reservation object. */
  datatype Resv = Resv(bus: BusNo, id: nat)

  /** An operation in flight: the reservation it borrows, and the bus. */
  datatype Op = Op(resv: Handle, bus: BusNo)

  /** Where a thread is inside a call. */
  datatype Pc =
    | Idle
    | ClaimWait(bus: BusNo)
    | ClaimClear(bus: BusNo)
    | ClaimId(bus: BusNo, id: nat)
    | TakeCheck(resv: Handle)
    | TakeCount(resv: Handle)
    | CancelHeld(bus: BusNo, which: Option<nat>)
    | DropHeld(bus: BusNo, id: nat)
    | DropFree(id: nat)

  datatype State = State(buses: map<BusNo, Bus>, threads: map<Tid, Pc>,
                         resvs: map<Handle, Resv>, ops: map<OpNo, Op>, pool: IdAllocs.Pool)

  datatype Step =
    | ClaimLock(t: Tid, b: BusNo) | ClaimPoll(t: Tid) | ClaimAlloc(t: Tid) | ClaimFinish(t: Tid, h: Handle)
    | TakeLock(t: Tid, h: Handle) | TakeLook(t: Tid) | TakeAdd(t: Tid, o: OpNo) | Finish(o: OpNo)
    | CancelLock(t: Tid, b: BusNo, which: Option<nat>) | CancelDo(t: Tid)
    | DropLock(t: Tid, h: Handle) | DropDo(t: Tid) | DropDone(t: Tid)

  // ---------------------------------------------------------------- the steps

  function PcOf(s: State, t: Tid): Pc {
    if t in s.threads then s.threads[t] else Idle
  }

  function At(s: State, t: Tid, pc: Pc): State {
    s.(threads := s.threads[t := pc])
  }

  function SetBus(s: State, b: BusNo, bus: Bus): State {
    s.(buses := s.buses[b := bus])
  }

  function LockFor(s: State, t: Tid, b: BusNo, pc: Pc): State
    requires b in s.buses
  {
    At(SetBus(s, b, s.buses[b].(lock := Exclusive(t))), t, pc)
  }

  function ReleaseShared(lock: Lock, t: Tid): Lock {
    if lock.Shared? && lock.owners - {t} != {} then Shared(lock.owners - {t}) else Unlocked
  }

  /** Clear a reservation, if there is one and it is the one meant. */
  function Cancelled(resv: Option<nat>, which: Option<nat>): Option<nat> {
    if resv.None? then resv else if which.Some? && which != resv then resv else None
  }

  /** Whether a reservation object is borrowed. */
  predicate Borrowed(s: State, h: Handle) {
    (exists o | o in s.ops :: s.ops[o].resv == h)
    || exists t | t in s.threads :: s.threads[t] == TakeCheck(h) || s.threads[t] == TakeCount(h)
  }

  /** The next state; a step that is not enabled changes nothing. */
  function Next(s: State, step: Step): State {
    match step
    case ClaimLock(t, b) =>
      if PcOf(s, t) == Idle && b in s.buses && s.buses[b].lock.Unlocked? && s.buses[b].resv.None?
      then LockFor(s, t, b, ClaimWait(b)) else s
    case ClaimPoll(t) =>
      var pc := PcOf(s, t);
      if pc.ClaimWait? && pc.bus in s.buses && s.buses[pc.bus].inflight == 0 then At(s, t, ClaimClear(pc.bus)) else s
    case ClaimAlloc(t) =>
      var pc := PcOf(s, t);
      if pc.ClaimClear? && s.pool.avail != [] then
        var id := s.pool.avail[IdAllocs.Chosen(s.pool.avail, s.pool.next)].first;
        At(s, t, ClaimId(pc.bus, id)).(pool := IdAllocs.Serve(s.pool, IdAllocs.Take))
      else s
    case ClaimFinish(t, h) =>
      var pc := PcOf(s, t);
      if pc.ClaimId? && pc.bus in s.buses && h !in s.resvs then
        At(SetBus(s, pc.bus, s.buses[pc.bus].(resv := Some(pc.id), lock := Unlocked)), t, Idle)
        .(resvs := s.resvs[h := Resv(pc.bus, pc.id)])
      else s
    case TakeLock(t, h) =>
      if PcOf(s, t) == Idle && h in s.resvs && s.resvs[h].bus in s.buses
         && !s.buses[s.resvs[h].bus].lock.Exclusive? then
        var b := s.resvs[h].bus;
        var owners := if s.buses[b].lock.Shared? then s.buses[b].lock.owners else {};
        At(SetBus(s, b, s.buses[b].(lock := Shared(owners + {t}))), t, TakeCheck(h))
      else s
    case TakeLook(t) =>
      var pc := PcOf(s, t);
      if pc.TakeCheck? && pc.resv in s.resvs && s.resvs[pc.resv].bus in s.buses then
        var b := s.resvs[pc.resv].bus;
        if s.buses[b].resv == Some(s.resvs[pc.resv].id) then At(s, t, TakeCount(pc.resv))
        else At(SetBus(s, b, s.buses[b].(lock := ReleaseShared(s.buses[b].lock, t))), t, Idle)
      else s
    case TakeAdd(t, o) =>
      var pc := PcOf(s, t);
      if pc.TakeCount? && pc.resv in s.resvs && s.resvs[pc.resv].bus in s.buses && o !in s.ops then
        var b := s.resvs[pc.resv].bus;
        At(SetBus(s, b, s.buses[b].(inflight := s.buses[b].inflight + 1, lock := ReleaseShared(s.buses[b].lock, t))),
           t, Idle).(ops := s.ops[o := Op(pc.resv, b)])
      else s
    case Finish(o) =>
      if o in s.ops && s.ops[o].bus in s.buses && s.buses[s.ops[o].bus].inflight > 0 then
        var b := s.ops[o].bus;
        SetBus(s, b, s.buses[b].(inflight := s.buses[b].inflight - 1)).(ops := s.ops - {o})
      else s
    case CancelLock(t, b, which) =>
      if PcOf(s, t) == Idle && b in s.buses && s.buses[b].lock.Unlocked?
      then LockFor(s, t, b, CancelHeld(b, which)) else s
    case CancelDo(t) =>
      var pc := PcOf(s, t);
      if pc.CancelHeld? && pc.bus in s.buses then
        var bus := s.buses[pc.bus];
        At(SetBus(s, pc.bus, bus.(resv := Cancelled(bus.resv, pc.which), lock := Unlocked)), t, Idle)
      else s
    case DropLock(t, h) =>
      if PcOf(s, t) == Idle && h in s.resvs && s.resvs[h].bus in s.buses && s.buses[s.resvs[h].bus].lock.Unlocked?
         && !Borrowed(s, h)
      then LockFor(s, t, s.resvs[h].bus, DropHeld(s.resvs[h].bus, s.resvs[h].id)).(resvs := s.resvs - {h}) else s
    case DropDo(t) =>
      var pc := PcOf(s, t);
      if pc.DropHeld? && pc.bus in s.buses then
        var bus := s.buses[pc.bus];
        At(SetBus(s, pc.bus, bus.(resv := Cancelled(bus.resv, Some(pc.id)), lock := Unlocked)), t, DropFree(pc.id))
      else s
    case DropDone(t) =>
      var pc := PcOf(s, t);
      if pc.DropFree? then At(s, t, Idle).(pool := IdAllocs.Serve(s.pool, IdAllocs.Return(pc.id))) else s
  }

  /** Buses without reservations, and nothing happening. */
  function Initial(buses: set<BusNo>): State {
    State(map b | b in buses :: Bus(None, 0, Unlocked), map[], map[], map[],
          IdAllocs.Pool([IdAllocs.Entry(1, IdAllocs.MAX)], 1, {}))
  }

  function Run(buses: set<BusNo>, steps: seq<Step>): State {
    if steps == [] then Initial(buses) else Next(Run(buses, steps[..|steps| - 1]), steps[|steps| - 1])
  }

  // ---------------------------------------------------------------- the invariant

  function OpsOn(ops: map<OpNo, Op>, b: BusNo): set<OpNo> {
    set o | o in ops && ops[o].bus == b
  }

  /** The bus a thread holds exclusively. */
  function HeldBus(pc: Pc): Option<BusNo> {
    match pc
    case ClaimWait(b) => Some(b)
    case ClaimClear(b) => Some(b)
    case ClaimId(b, _) => Some(b)
    case CancelHeld(b, _) => Some(b)
    case DropHeld(b, _) => Some(b)
    case _ => None
  }

  /** The allocated ID a thread carries outside any reservation object. */
  function CarriedId(pc: Pc): Option<nat> {
    match pc
    case ClaimId(_, id) => Some(id)
    case DropHeld(_, id) => Some(id)
    case DropFree(id) => Some(id)
    case _ => None
  }

  ghost predicate ThreadOk(s: State, t: Tid)
    requires t in s.threads
  {
    var pc := s.threads[t];
    && (HeldBus(pc).Some? ==>
          HeldBus(pc).value in s.buses && s.buses[HeldBus(pc).value].lock == Exclusive(t))
    && (pc.ClaimWait? || pc.ClaimClear? || pc.ClaimId? ==> pc.bus in s.buses && s.buses[pc.bus].resv.None?)
    && (pc.ClaimClear? || pc.ClaimId? ==> OpsOn(s.ops, pc.bus) == {})
    && (pc.TakeCheck? || pc.TakeCount? ==>
          && pc.resv in s.resvs && s.resvs[pc.resv].bus in s.buses
          && var lock := s.buses[s.resvs[pc.resv].bus].lock; lock.Shared? && t in lock.owners)
    && (pc.TakeCount? ==> s.buses[s.resvs[pc.resv].bus].resv == Some(s.resvs[pc.resv].id))
  }

  ghost predicate OpOk(s: State, o: OpNo)
    requires o in s.ops
  {
    var op := s.ops[o];
    && op.resv in s.resvs && s.resvs[op.resv].bus == op.bus && op.bus in s.buses
    && (s.buses[op.bus].resv.Some? ==> s.buses[op.bus].resv.value == s.resvs[op.resv].id)
  }

  /** Every ID in use is held once: by one reservation object or by one thread. */
  ghost predicate IdsOk(s: State) {
    && IdAllocs.PoolOk(s.pool)
    && (forall h | h in s.resvs :: s.resvs[h].id in s.pool.live)
    && (forall h, k | h in s.resvs && k in s.resvs && h != k :: s.resvs[h].id != s.resvs[k].id)
    && (forall t | t in s.threads && CarriedId(s.threads[t]).Some? :: CarriedId(s.threads[t]).value in s.pool.live)
    && (forall t, h | t in s.threads && h in s.resvs :: CarriedId(s.threads[t]) != Some(s.resvs[h].id))
    && (forall t, u | t in s.threads && u in s.threads && t != u && CarriedId(s.threads[t]).Some? ::
          CarriedId(s.threads[t]) != CarriedId(s.threads[u]))
  }

  /** All operations in flight on a bus belong to one reservation. */
  ghost predicate OneOwner(s: State) {
    forall o, p | o in s.ops && p in s.ops && s.ops[o].bus == s.ops[p].bus :: s.ops[o].resv == s.ops[p].resv
  }

  ghost predicate CountsOk(s: State) {
    forall b | b in s.buses :: s.buses[b].inflight == |OpsOn(s.ops, b)|
  }

  ghost predicate ThreadsOk(s: State) { forall t | t in s.threads :: ThreadOk(s, t) }

  ghost predicate OpsOk(s: State) { forall o | o in s.ops :: OpOk(s, o) }

  ghost predicate Inv(s: State) {
    && (forall h | h in s.resvs :: s.resvs[h].bus in s.buses)
    && ThreadsOk(s) && OpsOk(s) && IdsOk(s) && OneOwner(s) && CountsOk(s)
  }

  // ---------------------------------------------------------------- what a step leaves alone

  /** A change of one bus and one thread: only a sole exclusive holder touches the reservation. */
  ghost predicate Local(s: State, n: State, t: Tid, b: BusNo) {
    && b in s.buses && b in n.buses && n.buses == s.buses[b := n.buses[b]]
    && t in n.threads && n.threads == s.threads[t := n.threads[t]]
    && (n.buses[b].resv == s.buses[b].resv || s.buses[b].lock == Exclusive(t))
    && OthersKeep(s.buses[b].lock, n.buses[b].lock, t)
  }

  /** Every other holder of a lock still holds it. */
  predicate OthersKeep(before: Lock, after: Lock, t: Tid) {
    match before
    case Unlocked => true
    case Exclusive(u) => u == t || after == before
    case Shared(us) => us <= {t} || (after.Shared? && us - {t} <= after.owners)
  }

  lemma OtherThread(s: State, n: State, t: Tid, b: BusNo, u: Tid)
    requires Local(s, n, t, b) && u in s.threads && u != t && ThreadOk(s, u)
    requires forall h | s.threads[u] == TakeCheck(h) || s.threads[u] == TakeCount(h) ::
               h in s.resvs ==> h in n.resvs && n.resvs[h] == s.resvs[h]
    requires forall c | HeldBus(s.threads[u]) == Some(c) :: OpsOn(n.ops, c) <= OpsOn(s.ops, c)
    ensures ThreadOk(n, u)
  {
  }

  lemma SameIds(s: State, n: State, t: Tid)
    requires IdsOk(s) && n.resvs == s.resvs && n.pool == s.pool
    requires t in n.threads && n.threads == s.threads[t := n.threads[t]]
    requires CarriedId(n.threads[t]) == CarriedId(PcOf(s, t))
    ensures IdsOk(n)
  {
  }

  lemma LocalThreads(s: State, n: State, t: Tid, b: BusNo)
    requires ThreadsOk(s) && Local(s, n, t, b) && n.resvs == s.resvs && n.ops == s.ops && ThreadOk(n, t)
    ensures ThreadsOk(n)
  {
    forall u | u in n.threads ensures ThreadOk(n, u) {
      if u != t { OtherThread(s, n, t, b, u); }
    }
  }

  lemma LocalOps(s: State, n: State, t: Tid, b: BusNo)
    requires OpsOk(s) && Local(s, n, t, b) && n.resvs == s.resvs && n.ops == s.ops
    requires n.buses[b].resv == s.buses[b].resv || n.buses[b].resv == None
    ensures OpsOk(n)
  {
    forall o | o in n.ops ensures OpOk(n, o) { assert OpOk(s, o); }
  }

  /** A step on one bus and one thread that neither starts nor ends an operation or a reservation object. */
  lemma LocalStep(s: State, n: State, t: Tid, b: BusNo)
    requires Inv(s) && Local(s, n, t, b)
    requires n.resvs == s.resvs && n.ops == s.ops && n.pool == s.pool
    requires CarriedId(n.threads[t]) == CarriedId(PcOf(s, t)) && ThreadOk(n, t)
    requires n.buses[b].inflight == s.buses[b].inflight
    requires n.buses[b].resv == s.buses[b].resv || n.buses[b].resv == None
    ensures Inv(n)
  {
    SameIds(s, n, t);
    LocalThreads(s, n, t, b);
    LocalOps(s, n, t, b);
  }

  // ---------------------------------------------------------------- every step keeps it

  lemma InitialInv(buses: set<BusNo>)
    ensures Inv(Initial(buses))
  {
    var s := Initial(buses);
    IdAllocs.RunOk([]);
    forall b | b in s.buses ensures OpsOn(s.ops, b) == {} {}
  }

  lemma ClaimLockKeepsInv(s: State, t: Tid, b: BusNo)
    requires Inv(s)
    ensures Inv(Next(s, ClaimLock(t, b)))
  {
    var n := Next(s, ClaimLock(t, b));
    if n != s { LocalStep(s, n, t, b); }
  }

  lemma ClaimPollKeepsInv(s: State, t: Tid)
    requires Inv(s)
    ensures Inv(Next(s, ClaimPoll(t)))
  {
    var n := Next(s, ClaimPoll(t));
    if n != s {
      assert ThreadOk(s, t);
      LocalStep(s, n, t, PcOf(s, t).bus);
    }
  }

  lemma ClaimAllocIds(s: State, t: Tid)
    requires IdsOk(s) && PcOf(s, t).ClaimClear?
    ensures IdsOk(Next(s, ClaimAlloc(t)))
  {
    IdAllocs.ServeKeepsOk(s.pool, IdAllocs.Take);
  }

  lemma ClaimAllocThreads(s: State, t: Tid)
    requires ThreadsOk(s)
    ensures ThreadsOk(Next(s, ClaimAlloc(t)))
  {
    var n := Next(s, ClaimAlloc(t));
    forall u | u in n.threads ensures ThreadOk(n, u) { assert ThreadOk(s, u); }
  }

  lemma ClaimAllocKeepsInv(s: State, t: Tid)
    requires Inv(s)
    ensures Inv(Next(s, ClaimAlloc(t)))
  {
    var n := Next(s, ClaimAlloc(t));
    if n != s {
      ClaimAllocIds(s, t);
      ClaimAllocThreads(s, t);
      assert OpsOk(n) by { forall o | o in n.ops ensures OpOk(n, o) { assert OpOk(s, o); } }
    }
  }

  lemma ClaimFinishIds(s: State, t: Tid, h: Handle)
    requires IdsOk(s) && t in s.threads && s.threads[t].ClaimId? && h !in s.resvs
    ensures IdsOk(At(s, t, Idle).(resvs := s.resvs[h := Resv(s.threads[t].bus, s.threads[t].id)]))
  {
  }

  lemma ClaimFinishThreads(s: State, t: Tid, h: Handle)
    requires ThreadsOk(s) && t in s.threads
    ensures ThreadsOk(Next(s, ClaimFinish(t, h)))
  {
    var n := Next(s, ClaimFinish(t, h));
    if n != s {
      assert ThreadOk(s, t);
      forall u | u in n.threads ensures ThreadOk(n, u) {
        if u != t { OtherThread(s, n, t, PcOf(s, t).bus, u); }
      }
    }
  }

  lemma ClaimFinishOps(s: State, t: Tid, h: Handle)
    requires OpsOk(s) && t in s.threads && ThreadOk(s, t)
    ensures OpsOk(Next(s, ClaimFinish(t, h)))
  {
    var n := Next(s, ClaimFinish(t, h));
    forall o | o in n.ops ensures OpOk(n, o) {
      assert OpOk(s, o);
      assert o in OpsOn(s.ops, s.ops[o].bus);
    }
  }

  lemma ClaimFinishKeepsInv(s: State, t: Tid, h: Handle)
    requires Inv(s)
    ensures Inv(Next(s, ClaimFinish(t, h)))
  {
    var n := Next(s, ClaimFinish(t, h));
    if n != s {
      assert IdsOk(n) by { ClaimFinishIds(s, t, h); }
      ClaimFinishThreads(s, t, h);
      ClaimFinishOps(s, t, h);
    }
  }

  lemma TakeLockLocal(s: State, t: Tid, h: Handle)
    requires Next(s, TakeLock(t, h)) != s
    ensures var n := Next(s, TakeLock(t, h));
            h in s.resvs && Local(s, n, t, s.resvs[h].bus) && ThreadOk(n, t)
  {
  }

  lemma TakeLockKeepsInv(s: State, t: Tid, h: Handle)
    requires Inv(s)
    ensures Inv(Next(s, TakeLock(t, h)))
  {
    var n := Next(s, TakeLock(t, h));
    if n != s {
      TakeLockLocal(s, t, h);
      LocalStep(s, n, t, s.resvs[h].bus);
    }
  }

  lemma TakeLookKeepsInv(s: State, t: Tid)
    requires Inv(s)
    ensures Inv(Next(s, TakeLook(t)))
  {
    var n := Next(s, TakeLook(t));
    if n != s {
      assert ThreadOk(s, t);
      LocalStep(s, n, t, s.resvs[PcOf(s, t).resv].bus);
    }
  }

  lemma OpsAdded(ops: map<OpNo, Op>, o: OpNo, op: Op)
    requires o !in ops
    ensures OpsOn(ops[o := op], op.bus) == OpsOn(ops, op.bus) + {o}
    ensures forall c | c != op.bus :: OpsOn(ops[o := op], c) == OpsOn(ops, c)
  {
  }

  lemma OpsRemoved(ops: map<OpNo, Op>, o: OpNo)
    requires o in ops
    ensures OpsOn(ops - {o}, ops[o].bus) == OpsOn(ops, ops[o].bus) - {o}
    ensures forall c | c != ops[o].bus :: OpsOn(ops - {o}, c) == OpsOn(ops, c)
  {
  }

  lemma TakeAddThreads(s: State, t: Tid, o: OpNo)
    requires ThreadsOk(s)
    ensures ThreadsOk(Next(s, TakeAdd(t, o)))
  {
    var n := Next(s, TakeAdd(t, o));
    if n != s {
      assert ThreadOk(s, t);
      var b := s.resvs[PcOf(s, t).resv].bus;
      OpsAdded(s.ops, o, Op(PcOf(s, t).resv, b));
      forall u | u in n.threads ensures ThreadOk(n, u) {
        if u != t { OtherThread(s, n, t, b, u); }
      }
    }
  }

  lemma TakeAddOps(s: State, t: Tid, o: OpNo)
    requires ThreadsOk(s) && OpsOk(s)
    ensures OpsOk(Next(s, TakeAdd(t, o)))
  {
    var n := Next(s, TakeAdd(t, o));
    if n != s {
      assert ThreadOk(s, t);
      forall p | p in n.ops ensures OpOk(n, p) { assert p != o ==> OpOk(s, p); }
    }
  }

  /** An operation on the bus of a reservation that is current belongs to it. */
  lemma CurrentOwns(s: State, p: OpNo, h: Handle)
    requires OpsOk(s) && IdsOk(s) && p in s.ops && h in s.resvs && s.resvs[h].bus == s.ops[p].bus
    requires s.resvs[h].bus in s.buses && s.buses[s.resvs[h].bus].resv == Some(s.resvs[h].id)
    ensures s.ops[p].resv == h
  {
    assert OpOk(s, p);
  }

  lemma TakeAddOwner(s: State, t: Tid, o: OpNo)
    requires ThreadsOk(s) && OpsOk(s) && IdsOk(s) && OneOwner(s)
    ensures OneOwner(Next(s, TakeAdd(t, o)))
  {
    var n := Next(s, TakeAdd(t, o));
    if n != s {
      assert ThreadOk(s, t);
      forall p | p in s.ops && s.ops[p].bus == n.ops[o].bus ensures s.ops[p].resv == n.ops[o].resv {
        CurrentOwns(s, p, n.ops[o].resv);
      }
    }
  }

  lemma TakeAddCounts(s: State, t: Tid, o: OpNo)
    requires CountsOk(s)
    ensures CountsOk(Next(s, TakeAdd(t, o)))
  {
    var n := Next(s, TakeAdd(t, o));
    if n != s { OpsAdded(s.ops, o, n.ops[o]); }
  }

  lemma TakeAddKeepsInv(s: State, t: Tid, o: OpNo)
    requires Inv(s)
    ensures Inv(Next(s, TakeAdd(t, o)))
  {
    var n := Next(s, TakeAdd(t, o));
    if n != s {
      assert IdsOk(n) by { SameIds(s, n, t); }
      TakeAddCounts(s, t, o);
      TakeAddThreads(s, t, o);
      TakeAddOps(s, t, o);
      TakeAddOwner(s, t, o);
    }
  }

  lemma FinishThreads(s: State, o: OpNo)
    requires ThreadsOk(s)
    ensures ThreadsOk(Next(s, Finish(o)))
  {
    var n := Next(s, Finish(o));
    if n != s {
      OpsRemoved(s.ops, o);
      forall u | u in n.threads ensures ThreadOk(n, u) { assert ThreadOk(s, u); }
    }
  }

  lemma FinishOps(s: State, o: OpNo)
    requires OpsOk(s)
    ensures OpsOk(Next(s, Finish(o)))
  {
    var n := Next(s, Finish(o));
    forall p | p in n.ops ensures OpOk(n, p) { assert OpOk(s, p); }
  }

  lemma FinishCounts(s: State, o: OpNo)
    requires CountsOk(s)
    ensures CountsOk(Next(s, Finish(o)))
  {
    if o in s.ops { OpsRemoved(s.ops, o); }
  }

  lemma FinishKeepsInv(s: State, o: OpNo)
    requires Inv(s)
    ensures Inv(Next(s, Finish(o)))
  {
    FinishThreads(s, o);
    FinishOps(s, o);
    FinishCounts(s, o);
    var n := Next(s, Finish(o));
    assert IdsOk(n) by { assert n.resvs == s.resvs && n.threads == s.threads && n.pool == s.pool; }
  }

  lemma CancelLockKeepsInv(s: State, t: Tid, b: BusNo, which: Option<nat>)
    requires Inv(s)
    ensures Inv(Next(s, CancelLock(t, b, which)))
  {
    var n := Next(s, CancelLock(t, b, which));
    if n != s { LocalStep(s, n, t, b); }
  }

  lemma CancelDoKeepsInv(s: State, t: Tid)
    requires Inv(s)
    ensures Inv(Next(s, CancelDo(t)))
  {
    var n := Next(s, CancelDo(t));
    if n != s {
      assert ThreadOk(s, t);
      LocalStep(s, n, t, PcOf(s, t).bus);
    }
  }

  lemma DropLockIds(s: State, t: Tid, h: Handle)
    requires IdsOk(s) && PcOf(s, t) == Idle && h in s.resvs
    ensures IdsOk(At(s, t, DropHeld(s.resvs[h].bus, s.resvs[h].id)).(resvs := s.resvs - {h}))
  {
  }

  lemma DropLockThreads(s: State, t: Tid, h: Handle)
    requires ThreadsOk(s)
    ensures ThreadsOk(Next(s, DropLock(t, h)))
  {
    var n := Next(s, DropLock(t, h));
    if n != s {
      forall u | u in n.threads ensures ThreadOk(n, u) {
        if u != t { OtherThread(s, n, t, s.resvs[h].bus, u); }
      }
    }
  }

  lemma DropLockOps(s: State, t: Tid, h: Handle)
    requires OpsOk(s)
    ensures OpsOk(Next(s, DropLock(t, h)))
  {
    var n := Next(s, DropLock(t, h));
    forall o | o in n.ops ensures OpOk(n, o) {
      assert OpOk(s, o);
      assert n != s ==> s.ops[o].resv != h;
    }
  }

  lemma DropLockKeepsInv(s: State, t: Tid, h: Handle)
    requires Inv(s)
    ensures Inv(Next(s, DropLock(t, h)))
  {
    var n := Next(s, DropLock(t, h));
    if n != s {
      assert IdsOk(n) by { DropLockIds(s, t, h); }
      DropLockThreads(s, t, h);
      DropLockOps(s, t, h);
    }
  }

  lemma DropDoKeepsInv(s: State, t: Tid)
    requires Inv(s)
    ensures Inv(Next(s, DropDo(t)))
  {
    var n := Next(s, DropDo(t));
    if n != s {
      assert ThreadOk(s, t);
      LocalStep(s, n, t, PcOf(s, t).bus);
    }
  }

  lemma DropDoneIds(s: State, t: Tid)
    requires IdsOk(s) && t in s.threads && s.threads[t].DropFree?
    ensures IdsOk(At(s, t, Idle).(pool := IdAllocs.Serve(s.pool, IdAllocs.Return(s.threads[t].id))))
  {
    IdAllocs.ServeKeepsOk(s.pool, IdAllocs.Return(s.threads[t].id));
  }

  lemma DropDoneKeepsInv(s: State, t: Tid)
    requires Inv(s)
    ensures Inv(Next(s, DropDone(t)))
  {
    var n := Next(s, DropDone(t));
    if n != s {
      assert IdsOk(n) by { DropDoneIds(s, t); }
      forall u | u in n.threads ensures ThreadOk(n, u) { assert u != t ==> ThreadOk(s, u); }
      forall o | o in n.ops ensures OpOk(n, o) { assert OpOk(s, o); }
    }
  }

  lemma StepKeepsInv(s: State, step: Step)
    requires Inv(s)
    ensures Inv(Next(s, step))
  {
    match step
    case ClaimLock(t, b) => ClaimLockKeepsInv(s, t, b);
    case ClaimPoll(t) => ClaimPollKeepsInv(s, t);
    case ClaimAlloc(t) => ClaimAllocKeepsInv(s, t);
    case ClaimFinish(t, h) => ClaimFinishKeepsInv(s, t, h);
    case TakeLock(t, h) => TakeLockKeepsInv(s, t, h);
    case TakeLook(t) => TakeLookKeepsInv(s, t);
    case TakeAdd(t, o) => TakeAddKeepsInv(s, t, o);
    case Finish(o) => FinishKeepsInv(s, o);
    case CancelLock(t, b, which) => CancelLockKeepsInv(s, t, b, which);
    case CancelDo(t) => CancelDoKeepsInv(s, t);
    case DropLock(t, h) => DropLockKeepsInv(s, t, h);
    case DropDo(t) => DropDoKeepsInv(s, t);
    case DropDone(t) => DropDoneKeepsInv(s, t);
  }

  lemma {:induction false} RunInv(buses: set<BusNo>, steps: seq<Step>)
    ensures Inv(Run(buses, steps))
  {
    if steps == [] {
      InitialInv(buses);
    } else {
      RunInv(buses, steps[..|steps| - 1]);
      StepKeepsInv(Run(buses, steps[..|steps| - 1]), steps[|steps| - 1]);
    }
  }

  // ---------------------------------------------------------------- what the protocol promises

  /**
   * Exclusivity: in every run, all operations in flight on a bus belong to one
   * reservation object, and to the bus's current reservation if it has one.
   */
  lemma BusExclusive(buses: set<BusNo>, steps: seq<Step>, o: OpNo, p: OpNo)
    requires o in Run(buses, steps).ops && p in Run(buses, steps).ops
    ensures var s := Run(buses, steps);
            && s.ops[o].resv in s.resvs && s.resvs[s.ops[o].resv].bus == s.ops[o].bus && s.ops[o].bus in s.buses
            && (s.ops[o].bus == s.ops[p].bus ==> s.ops[o].resv == s.ops[p].resv)
            && (s.buses[s.ops[o].bus].resv.Some? ==> s.buses[s.ops[o].bus].resv.value == s.resvs[s.ops[o].resv].id)
  {
    RunInv(buses, steps);
    assert OpOk(Run(buses, steps), o);
  }

  /** In every run, live reservation objects have distinct IDs, none of which the allocator can hand out. */
  lemma LiveIdsHeld(buses: set<BusNo>, steps: seq<Step>, h: Handle, k: Handle)
    requires h in Run(buses, steps).resvs && k in Run(buses, steps).resvs
    ensures var s := Run(buses, steps);
            && (h != k ==> s.resvs[h].id != s.resvs[k].id)
            && !IdAllocs.Free(s.pool.avail, s.resvs[h].id)
  {
    RunInv(buses, steps);
  }

  /** In every run, a claim stops waiting exactly when the bus has no operation in flight. */
  lemma ClaimWaitsForAll(buses: set<BusNo>, steps: seq<Step>, t: Tid, b: BusNo)
    requires PcOf(Run(buses, steps), t) == ClaimWait(b)
    ensures var s := Run(buses, steps);
            PcOf(Next(s, ClaimPoll(t)), t) == ClaimClear(b) <==> forall o | o in s.ops :: s.ops[o].bus != b
  {
    RunInv(buses, steps);
    var s := Run(buses, steps);
    assert ThreadOk(s, t);
    assert OpsOn(s.ops, b) == {} <==> forall o | o in s.ops :: s.ops[o].bus != b by {
      if o :| o in s.ops && s.ops[o].bus == b { assert o in OpsOn(s.ops, b); }
    }
  }

  /** The reservation object exists, but is not the one its bus records. */
  predicate IsCancelled(s: State, h: Handle) {
    && h in s.resvs && s.resvs[h].bus in s.buses
    && s.buses[s.resvs[h].bus].resv != Some(s.resvs[h].id)
  }

  function OpsOf(s: State, h: Handle): set<OpNo> {
    set o | o in s.ops && s.ops[o].resv == h
  }

  /** A bus's reservation changes only to none, or to the ID a claiming thread carries. */
  lemma NextResv(s: State, step: Step, b: BusNo)
    requires b in s.buses
    ensures b in Next(s, step).buses
    ensures var resv := Next(s, step).buses[b].resv;
            || resv == s.buses[b].resv || resv == None
            || (step.ClaimFinish? && step.t in s.threads && CarriedId(s.threads[step.t]) == resv)
  {
  }

  lemma NextObjects(s: State, step: Step, h: Handle)
    requires h in s.resvs && !(step.DropLock? && step.h == h)
    ensures h in Next(s, step).resvs && Next(s, step).resvs[h] == s.resvs[h]
  {
  }

  lemma CancelledStays(s: State, step: Step, h: Handle)
    requires IdsOk(s) && IsCancelled(s, h) && !(step.DropLock? && step.h == h)
    ensures IsCancelled(Next(s, step), h)
  {
    NextResv(s, step, s.resvs[h].bus);
    NextObjects(s, step, h);
  }

  lemma CancelledStartsNothing(s: State, step: Step, h: Handle)
    requires ThreadsOk(s) && IsCancelled(s, h)
    ensures OpsOf(Next(s, step), h) <= OpsOf(s, h)
  {
    var n := Next(s, step);
    if step.TakeAdd? && n != s {
      assert ThreadOk(s, step.t);
    }
    assert n.ops == s.ops || (step.TakeAdd? && n.ops == s.ops[step.o := n.ops[step.o]]) || n.ops.Keys <= s.ops.Keys;
  }

  function RunFrom(s: State, steps: seq<Step>): State {
    if steps == [] then s else Next(RunFrom(s, steps[..|steps| - 1]), steps[|steps| - 1])
  }

  /**
   * Once cancelled, a reservation stays cancelled until it is dropped, whatever
   * claims follow, and starts no further operation.
   */
  lemma {:induction false} CancelledForever(buses: set<BusNo>, before: seq<Step>, after: seq<Step>, h: Handle)
    requires IsCancelled(Run(buses, before), h)
    requires forall i | 0 <= i < |after| :: !(after[i].DropLock? && after[i].h == h)
    ensures var s := Run(buses, before); var n := RunFrom(s, after);
            Inv(n) && IsCancelled(n, h) && OpsOf(n, h) <= OpsOf(s, h)
  {
    if after == [] {
      RunInv(buses, before);
    } else {
      var s := Run(buses, before);
      var rest := after[..|after| - 1];
      CancelledForever(buses, before, rest, h);
      CancelledStays(RunFrom(s, rest), after[|after| - 1], h);
      CancelledStartsNothing(RunFrom(s, rest), after[|after| - 1], h);
      StepKeepsInv(RunFrom(s, rest), after[|after| - 1]);
    }
  }

  /** In every run, the check in `take` succeeds exactly for a reservation that is not cancelled. */
  lemma TakeFailsIff(buses: set<BusNo>, steps: seq<Step>, t: Tid, h: Handle)
    requires PcOf(Run(buses, steps), t) == TakeCheck(h)
    ensures var s := Run(buses, steps);
            PcOf(Next(s, TakeLook(t)), t) == (if IsCancelled(s, h) then Idle else TakeCount(h))
  {
    RunInv(buses, steps);
    assert ThreadOk(Run(buses, steps), t);
  }

  /**
   * In every run, a claim that completes makes its own reservation current, and every other one on
   * the bus cancelled.
   */
  lemma ClaimTakesEffect(buses: set<BusNo>, steps: seq<Step>, t: Tid, h: Handle, k: Handle)
    requires PcOf(Run(buses, steps), t).ClaimId? && h !in Run(buses, steps).resvs
    ensures var s := Run(buses, steps); var n := Next(s, ClaimFinish(t, h));
            && h in n.resvs && n.resvs[h].bus == PcOf(s, t).bus && !IsCancelled(n, h)
            && (k in n.resvs && k != h && n.resvs[k].bus == n.resvs[h].bus ==> IsCancelled(n, k))
            && OpsOn(n.ops, n.resvs[h].bus) == {}
  {
    RunInv(buses, steps);
    var s := Run(buses, steps);
    assert ThreadOk(s, t);
  }

  /**
   * In every run, a cancellation that completes leaves no reservation current if it names
   * none or names the current one, and otherwise changes nothing about the bus but its lock.
   */
  lemma CancelTakesEffect(buses: set<BusNo>, steps: seq<Step>, t: Tid, h: Handle)
    requires PcOf(Run(buses, steps), t).CancelHeld?
    ensures var s := Run(buses, steps); var n, pc := Next(s, CancelDo(t)), PcOf(s, t);
            && pc.bus in s.buses && pc.bus in n.buses
            && (h in n.resvs && n.resvs[h].bus == pc.bus && (pc.which.None? || pc.which == Some(n.resvs[h].id)) ==>
                  IsCancelled(n, h))
            && (pc.which.Some? && pc.which != s.buses[pc.bus].resv ==>
                  n.buses[pc.bus] == s.buses[pc.bus].(lock := Unlocked))
  {
    RunInv(buses, steps);
    assert ThreadOk(Run(buses, steps), t);
  }

  /** In every run, a drop that completes leaves the reservation's ID free for later claims, and in nobody's hands. */
  lemma DropReturnsId(buses: set<BusNo>, steps: seq<Step>, t: Tid, h: Handle)
    requires PcOf(Run(buses, steps), t).DropFree?
    ensures var s := Run(buses, steps); var n := Next(s, DropDone(t));
            && IdAllocs.Free(n.pool.avail, PcOf(s, t).id)
            && (h in n.resvs ==> n.resvs[h].id != PcOf(s, t).id)
  {
    RunInv(buses, steps);
    DropDoneKeepsInv(Run(buses, steps), t);
  }
}
