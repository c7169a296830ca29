/**
 * The free-cluster bitmap of src/filesystem/fatfs/cluster.rs: `alloc` and `free` as
 * the atomic steps of any number of threads.  An allocation pays for a cluster by
 * lowering a counter, and then takes any set bit; a free sets a bit and then raises
 * the counter.
 */
module ClusterBitmaps {
  import opened Common
  import opened Bits

  // ---------------------------------------------------------------- bits of a bitmap

  /** The clusters whose bits are set. */
  ghost function FreeSet(words: seq<nat>): set<nat> {
    set c: nat | c < BITS * |words| && Bit(words[c / BITS], c % BITS)
  }

  ghost predicate WordsOk(words: seq<nat>) {
    forall i | 0 <= i < |words| :: words[i] < Pow2(BITS)
  }

  lemma InWord(c: nat, i: nat, k: nat)
    requires k < BITS
    ensures c == k + i * BITS <==> c / BITS == i && c % BITS == k
  {
  }

  /** A bitmap that differs in one bit of one word. */
  lemma OneBit(words: seq<nat>, after: seq<nat>, i: nat, k: nat, x: bool)
    requires |after| == |words| && i < |words| && k < BITS
    requires forall m | 0 <= m < |words| && m != i :: after[m] == words[m]
    requires forall j: nat | j < BITS :: Bit(after[i], j) <==> if j == k then x else Bit(words[i], j)
    ensures FreeSet(after) == if x then FreeSet(words) + {k + i * BITS} else FreeSet(words) - {k + i * BITS}
  {
    forall c: nat | c < BITS * |words|
      ensures Bit(after[c / BITS], c % BITS) <==> if c == k + i * BITS then x else Bit(words[c / BITS], c % BITS)
    {
      InWord(c, i, k);
    }
    assert k + i * BITS < BITS * |words|;
  }

  lemma ClearBit(words: seq<nat>, i: nat, k: nat)
    requires i < |words| && k < BITS
    ensures FreeSet(words[i := AndNot(words[i], Pow2(k))]) == FreeSet(words) - {k + i * BITS}
    ensures WordsOk(words) ==> WordsOk(words[i := AndNot(words[i], Pow2(k))])
  {
    forall j: nat | j < BITS
      ensures Bit(AndNot(words[i], Pow2(k)), j) <==> if j == k then false else Bit(words[i], j)
    {
      BitAndNot(words[i], Pow2(k), j);
      BitPow(k, j);
    }
    OneBit(words, words[i := AndNot(words[i], Pow2(k))], i, k, false);
    AndNotBound(words[i], Pow2(k));
  }

  lemma SetBit(words: seq<nat>, i: nat, k: nat)
    requires i < |words| && k < BITS
    ensures FreeSet(words[i := Or(words[i], Pow2(k))]) == FreeSet(words) + {k + i * BITS}
    ensures WordsOk(words) ==> WordsOk(words[i := Or(words[i], Pow2(k))])
  {
    forall j: nat | j < BITS
      ensures Bit(Or(words[i], Pow2(k)), j) <==> if j == k then true else Bit(words[i], j)
    {
      BitOr(words[i], Pow2(k), j);
      BitPow(k, j);
    }
    OneBit(words, words[i := Or(words[i], Pow2(k))], i, k, true);
    PowBound(k, BITS);
    if WordsOk(words) {
      OrBound(words[i], Pow2(k), BITS);
    }
  }

  // ---------------------------------------------------------------- the steps

  type Tid = nat

  /**
   * Where a thread is: about to pay, having seen a count; looking for a bit; about to take one;
   * about to count a free.
   */
  datatype Pc = Idle | Pay(seen: nat) | Scan(i: nat) | Pop(i: nat, cur: nat) | Raise

  /** `held` are the clusters whose users have not given them back. */
  datatype State = State(total: nat, available: nat, words: seq<nat>, threads: map<Tid, Pc>, held: set<nat>)

  datatype Step = Begin(t: Tid) | TryPay(t: Tid, spurious: bool) | Look(t: Tid) | Take(t: Tid)
                | Release(t: Tid, c: nat) | Count(t: Tid)

  function PcOf(s: State, t: Tid): Pc {
    if t in s.threads then s.threads[t] else Idle
  }

  function At(s: State, t: Tid, pc: Pc): State { s.(threads := s.threads[t := pc]) }

  /** On to word `i`, or past it if it is zero. */
  function Inspect(s: State, t: Tid, i: nat): State
    requires i < |s.words|
  {
    if LowestBit(s.words[i]) == 0 then At(s, t, Scan((i + 1) % |s.words|)) else At(s, t, Pop(i, s.words[i]))
  }

  /** The next state; a step that is not enabled changes nothing. */
  function Next(s: State, step: Step): State {
    match step
    case Begin(t) => if PcOf(s, t) == Idle then At(s, t, Pay(s.available)) else s
    case TryPay(t, spurious) =>
      var pc := PcOf(s, t);
      if !pc.Pay? then s
      else if pc.seen == 0 then At(s, t, Idle)
      else if s.available == pc.seen && !spurious then At(s, t, Scan(0)).(available := pc.seen - 1)
      else At(s, t, Pay(s.available))
    case Look(t) =>
      var pc := PcOf(s, t);
      if pc.Scan? && pc.i < |s.words| then Inspect(s, t, pc.i) else s
    case Take(t) =>
      var pc := PcOf(s, t);
      if !(pc.Pop? && pc.i < |s.words| && pc.cur > 0) then s
      else if s.words[pc.i] != pc.cur then Inspect(s, t, pc.i)
      else At(s, t, Idle).(words := s.words[pc.i := AndNot(pc.cur, LowestBit(pc.cur))],
                           held := s.held + {Taken(pc)})
    case Release(t, c) =>
      if !(PcOf(s, t) == Idle && c < s.total && c / BITS < |s.words|) then s
      else
        var i, mask := c / BITS, Pow2(c % BITS);
        if And(s.words[i], mask) != 0 then s
        else At(s, t, Raise).(words := s.words[i := Or(s.words[i], mask)], held := s.held - {c})
    case Count(t) => if PcOf(s, t) == Raise then At(s, t, Idle).(available := s.available + 1) else s
  }

  /** The cluster a thread is about to take. */
  function Taken(pc: Pc): nat
    requires pc.Pop? && pc.cur > 0
  {
    LowestBitIs(pc.cur);
    Trailing(LowestBit(pc.cur)) + pc.i * BITS
  }

  function Below(n: nat): (r: set<nat>)
    ensures forall c: nat :: c in r <==> c < n
  {
    if n == 0 then {} else Below(n - 1) + {n - 1}
  }

  /** No cluster is available. */
  function Initial(total: nat): State
    requires total > 0
  {
    State(total, 0, seq((total - 1) / BITS + 1, _ => 0), map[], Below(total))
  }

  function Run(total: nat, steps: seq<Step>): State
    requires total > 0
  {
    if steps == [] then Initial(total) else Next(Run(total, steps[..|steps| - 1]), steps[|steps| - 1])
  }

  // ---------------------------------------------------------------- the invariant

  /** Threads that have paid for a cluster and not yet taken one. */
  ghost function Paid(s: State): set<Tid> {
    set t | t in s.threads && (s.threads[t].Scan? || s.threads[t].Pop?)
  }

  /** Threads that have set a bit and not yet counted it. */
  ghost function Raising(s: State): set<Tid> {
    set t | t in s.threads && s.threads[t].Raise?
  }

  ghost predicate PcOk(s: State, pc: Pc) {
    && (pc.Scan? ==> pc.i < |s.words|)
    && (pc.Pop? ==> pc.i < |s.words| && 0 < pc.cur)
  }

  ghost predicate Inv(s: State) {
    && s.words != [] && WordsOk(s.words) && s.total <= BITS * |s.words|
    && (forall t | t in s.threads :: PcOk(s, s.threads[t]))
    && FreeSet(s.words) !! s.held
    && (forall c: nat :: c in FreeSet(s.words) || c in s.held <==> c < s.total)
    && s.available + |Paid(s)| + |Raising(s)| == |FreeSet(s.words)|
  }

  lemma InitialInv(total: nat)
    requires total > 0
    ensures Inv(Initial(total))
  {
    var s := Initial(total);
    forall c: nat | c < BITS * |s.words|
      ensures !Bit(s.words[c / BITS], c % BITS)
    {
      BitZero(c % BITS);
    }
    assert FreeSet(s.words) == {} && Paid(s) == {} && Raising(s) == {};
  }

  /** How one thread's move changes who has paid and who is counting. */
  lemma CountsAfter(s: State, n: State, t: Tid, pc: Pc)
    requires n.threads == s.threads[t := pc]
    ensures |Paid(n)| == |Paid(s)| + (if pc.Scan? || pc.Pop? then 1 else 0)
                         - (if PcOf(s, t).Scan? || PcOf(s, t).Pop? then 1 else 0)
    ensures |Raising(n)| == |Raising(s)| + (if pc.Raise? then 1 else 0) - (if PcOf(s, t).Raise? then 1 else 0)
  {
    SizeAfter(Paid(s), Paid(n), t, pc.Scan? || pc.Pop?);
    SizeAfter(Raising(s), Raising(n), t, pc.Raise?);
  }

  lemma InspectKeepsInv(s: State, t: Tid)
    requires Inv(s) && t in s.threads && (s.threads[t].Scan? || s.threads[t].Pop?)
    ensures Inv(Inspect(s, t, s.threads[t].i))
  {
    var i := s.threads[t].i;
    assert PcOk(s, s.threads[t]);
    var n := Inspect(s, t, i);
    CountsAfter(s, n, t, PcOf(n, t));
    LowestBitIs(s.words[i]);
  }

  /** A taken cluster's bit was set, and nobody held it. */
  lemma {:induction false} TakeIsFree(s: State, t: Tid)
    requires Inv(s) && PcOf(s, t).Pop? && s.words[PcOf(s, t).i] == PcOf(s, t).cur
    ensures PcOf(s, t).cur > 0
    ensures var n, c := Next(s, Take(t)), Taken(PcOf(s, t));
            && c in FreeSet(s.words) && c !in s.held && c < s.total
            && n.held == s.held + {c} && FreeSet(n.words) == FreeSet(s.words) - {c} && WordsOk(n.words)
  {
    var pc := s.threads[t];
    assert PcOk(s, pc);
    TakenIs(pc);
    TakenSet(s.words, pc);
    ClearBit(s.words, pc.i, Trailing(pc.cur));
  }

  lemma TakenSet(words: seq<nat>, pc: Pc)
    requires pc.Pop? && pc.i < |words| && words[pc.i] == pc.cur && 0 < pc.cur < Pow2(BITS)
    ensures Taken(pc) in FreeSet(words)
  {
    TakenIs(pc);
    LowestBitIs(pc.cur);
  }

  lemma TakenIs(pc: Pc)
    requires pc.Pop? && 0 < pc.cur < Pow2(BITS)
    ensures var k := Trailing(pc.cur);
            && k < BITS && LowestBit(pc.cur) == Pow2(k) && Taken(pc) == k + pc.i * BITS
            && Taken(pc) / BITS == pc.i && Taken(pc) % BITS == k
  {
    LowestBitIs(pc.cur);
    TrailingPow(Trailing(pc.cur));
    TrailingBound(pc.cur, BITS);
  }

  lemma TakeKeepsInv(s: State, t: Tid)
    requires Inv(s)
    ensures Inv(Next(s, Take(t)))
  {
    var pc, n := PcOf(s, t), Next(s, Take(t));
    if pc.Pop? {
      assert PcOk(s, pc);
      if s.words[pc.i] == pc.cur {
        TakeIsFree(s, t);
        CountsAfter(s, n, t, Idle);
      } else {
        InspectKeepsInv(s, t);
      }
    }
  }

  /** A cluster given back has its bit set, which was clear. */
  lemma ReleaseFrees(s: State, t: Tid, c: nat)
    requires WordsOk(s.words) && Next(s, Release(t, c)) != s
    ensures var n := Next(s, Release(t, c));
            && n == At(s, t, Raise).(words := n.words, held := s.held - {c}) && c < s.total
            && |n.words| == |s.words| && WordsOk(n.words)
            && c !in FreeSet(s.words) && FreeSet(n.words) == FreeSet(s.words) + {c}
  {
    BitAnd(s.words[c / BITS], c % BITS);
    SetBit(s.words, c / BITS, c % BITS);
    InWord(c, c / BITS, c % BITS);
  }

  lemma ReleaseKeepsInv(s: State, t: Tid, c: nat)
    requires Inv(s)
    ensures Inv(Next(s, Release(t, c)))
  {
    var n := Next(s, Release(t, c));
    if n != s {
      ReleaseFrees(s, t, c);
      CountsAfter(s, n, t, Raise);
    }
  }

  lemma CounterKeepsInv(s: State, step: Step)
    requires Inv(s) && (step.Begin? || step.TryPay? || step.Count?)
    ensures Inv(Next(s, step))
  {
    var n := Next(s, step);
    if n != s {
      CountsAfter(s, n, step.t, PcOf(n, step.t));
      assert n.words == s.words && n.held == s.held && n.total == s.total;
    }
  }

  lemma StepKeepsInv(s: State, step: Step)
    requires Inv(s)
    ensures Inv(Next(s, step))
  {
    match step
    case Take(t) => TakeKeepsInv(s, t);
    case Release(t, c) => ReleaseKeepsInv(s, t, c);
    case Look(t) =>
      if PcOf(s, t).Scan? { InspectKeepsInv(s, t); }
    case Begin(t) => CounterKeepsInv(s, step);
    case TryPay(t, _) => CounterKeepsInv(s, step);
    case Count(t) => CounterKeepsInv(s, step);
  }

  lemma {:induction false} RunInv(total: nat, steps: seq<Step>)
    requires total > 0
    ensures Inv(Run(total, steps))
  {
    if steps == [] {
      InitialInv(total);
    } else {
      RunInv(total, steps[..|steps| - 1]);
      StepKeepsInv(Run(total, steps[..|steps| - 1]), steps[|steps| - 1]);
    }
  }

  // ---------------------------------------------------------------- what the protocol promises

  /** In every run, the counter, the allocations paid and the frees not yet counted add up to the set bits. */
  lemma CountsBalance(total: nat, steps: seq<Step>)
    requires total > 0
    ensures var s := Run(total, steps);
            && s.available + |Paid(s)| + |Raising(s)| == |FreeSet(s.words)|
            && FreeSet(s.words) !! s.held && forall c: nat :: c in FreeSet(s.words) || c in s.held <==> c < total
  {
    RunInv(total, steps);
    TotalStays(total, steps);
  }

  lemma {:induction false} TotalStays(total: nat, steps: seq<Step>)
    requires total > 0
    ensures Run(total, steps).total == total
  {
    if steps != [] {
      TotalStays(total, steps[..|steps| - 1]);
    }
  }

  /**
   * In every run, a step changes what is held only by taking a cluster that nobody held, or giving
   * back one that was held.
   */
  lemma NeverHeldTwice(total: nat, steps: seq<Step>, step: Step)
    requires total > 0
    ensures var s := Run(total, steps); var n := Next(s, step);
            || n.held == s.held
            || (step.Take? && exists c | c < total && c !in s.held :: n.held == s.held + {c})
            || (step.Release? && step.c in s.held && n.held == s.held - {step.c})
  {
    RunInv(total, steps);
    TotalStays(total, steps);
    var s := Run(total, steps);
    var n := Next(s, step);
    if step.Take? && PcOf(s, step.t).Pop? && s.words[PcOf(s, step.t).i] == PcOf(s, step.t).cur {
      TakeIsFree(s, step.t);
    } else if step.Release? && n.held != s.held {
      BitAnd(s.words[step.c / BITS], step.c % BITS);
      assert step.c !in FreeSet(s.words);
    }
  }

  /** In every run, there is a set bit for every allocation that has paid. */
  lemma PaidHasBit(total: nat, steps: seq<Step>, t: Tid)
    requires total > 0 && t in Paid(Run(total, steps))
    ensures exists j | 0 <= j < |Run(total, steps).words| :: Run(total, steps).words[j] > 0
  {
    RunInv(total, steps);
    BitSomewhere(Run(total, steps), t);
  }

  lemma BitSomewhere(s: State, t: Tid)
    requires Inv(s) && t in Paid(s)
    ensures exists j | 0 <= j < |s.words| :: s.words[j] > 0
  {
    assert |Paid(s)| > 0 by { assert Paid(s) != {}; }
    var c :| c in FreeSet(s.words);
    if s.words[c / BITS] == 0 {
      BitZero(c % BITS);
    }
  }

  /** The step of a thread that has paid. */
  function AloneStep(s: State, t: Tid): Step {
    if PcOf(s, t).Scan? then Look(t) else Take(t)
  }

  /** Thread `t` running alone, `n` steps. */
  function Alone(s: State, t: Tid, n: nat): State {
    if n == 0 then s
    else
      var before := Alone(s, t, n - 1);
      Next(before, AloneStep(before, t))
  }

  /** How far word `j` is ahead of word `i`, going round. */
  function Ahead(i: nat, j: nat, n: nat): nat
    requires i < n && j < n
  {
    if i <= j then j - i else j + n - i
  }

  lemma RoundTheWords(i: nat, n: nat)
    requires i < n
    ensures (i + 1) % n == if i + 1 == n then 0 else i + 1
  {
  }

  /** A paid allocation that scans alone takes a cluster in at most one round and one step. */
  lemma {:induction false} ScanFinishes(s: State, t: Tid, i: nat, j: nat) returns (n: nat, c: nat)
    requires Inv(s) && PcOf(s, t) == Scan(i) && i < |s.words| && j < |s.words| && s.words[j] > 0
    ensures n <= Ahead(i, j, |s.words|) + 2 && c !in s.held
    ensures PcOf(Alone(s, t, n), t) == Idle && Alone(s, t, n).held == s.held + {c}
    decreases Ahead(i, j, |s.words|)
  {
    var next := Next(s, Look(t));
    StepKeepsInv(s, Look(t));
    LowestBitIs(s.words[i]);
    if s.words[i] == 0 {
      RoundTheWords(i, |s.words|);
      n, c := ScanFinishes(next, t, (i + 1) % |s.words|, j);
      AloneShift(s, t, n);
      n := n + 1;
    } else {
      n, c := 2, Taken(PcOf(next, t));
      TakeIsFree(next, t);
      AloneShift(s, t, 1);
      assert Alone(next, t, 0) == next;
      assert Alone(next, t, 1) == Next(next, Take(t));
    }
  }

  lemma {:induction false} AloneShift(s: State, t: Tid, n: nat)
    ensures Alone(s, t, n + 1) == Alone(Next(s, AloneStep(s, t)), t, n)
  {
    if n > 0 {
      AloneShift(s, t, n - 1);
    } else {
      assert Alone(s, t, 0) == s;
    }
  }

  /** An allocation that runs alone gets a cluster if and only if the counter is not zero when it starts. */
  lemma AllocAlone(s: State, t: Tid) returns (n: nat, c: nat)
    requires Inv(s) && PcOf(s, t) == Idle
    ensures var paid := Next(Next(s, Begin(t)), TryPay(t, false));
            if s.available == 0 then PcOf(paid, t) == Idle && paid.held == s.held && paid.words == s.words
            else
              && n <= |s.words| + 1 && c !in s.held && c < s.total
              && PcOf(Alone(paid, t, n), t) == Idle && Alone(paid, t, n).held == s.held + {c}
  {
    n, c := 0, 0;
    var paid := Next(Next(s, Begin(t)), TryPay(t, false));
    StepKeepsInv(s, Begin(t));
    StepKeepsInv(Next(s, Begin(t)), TryPay(t, false));
    if s.available > 0 {
      assert t in Paid(paid);
      BitSomewhere(paid, t);
      var j :| 0 <= j < |paid.words| && paid.words[j] > 0;
      n, c := ScanFinishes(paid, t, 0, j);
      AloneKeepsInv(paid, t, n);
      assert c in Alone(paid, t, n).held;
    }
  }

  lemma {:induction false} AloneKeepsInv(s: State, t: Tid, n: nat)
    requires Inv(s)
    ensures Inv(Alone(s, t, n)) && Alone(s, t, n).total == s.total
  {
    if n > 0 {
      AloneKeepsInv(s, t, n - 1);
      var before := Alone(s, t, n - 1);
      StepKeepsInv(before, AloneStep(before, t));
      TotalKept(before, AloneStep(before, t));
    }
  }

  lemma TotalKept(s: State, step: Step)
    ensures Next(s, step).total == s.total
  {
  }

  // ---------------------------------------------------------------- taking a chain

  /** The clusters of one word. */
  ghost function Block(i: nat): (r: set<nat>)
    ensures forall c: nat :: c in r <==> c / BITS == i
  {
    Below((i + 1) * BITS) - Below(i * BITS)
  }

  /** The words after `alloc_chain` takes the lowest cluster of word `i`: it stores the complement of the bit taken. */
  function ChainPopped(words: seq<nat>, i: nat): seq<nat>
    requires i < |words| && 0 < words[i] < Pow2(BITS)
  {
    LowestBitIs(words[i]);
    TrailingBound(words[i], BITS);
    PowBound(Trailing(words[i]), BITS);
    words[i := Pow2(BITS) - 1 - LowestBit(words[i])]
  }

  function ChainTaken(words: seq<nat>, i: nat): nat
    requires i < |words| && words[i] > 0
  {
    Trailing(words[i]) + i * BITS
  }

  /** Every other cluster of the word ends up free, whoever holds it and whether or not there is such a cluster. */
  lemma ChainPopFrees(words: seq<nat>, i: nat)
    requires i < |words| && 0 < words[i] < Pow2(BITS)
    ensures FreeSet(ChainPopped(words, i)) == (FreeSet(words) - Block(i)) + (Block(i) - {ChainTaken(words, i)})
  {
    var k, after := Trailing(words[i]), ChainPopped(words, i);
    LowestBitIs(words[i]);
    TrailingBound(words[i], BITS);
    PowBound(k, BITS);
    forall c: nat | c < BITS * |words|
      ensures Bit(after[c / BITS], c % BITS)
         <==> if c / BITS == i then c != ChainTaken(words, i) else Bit(words[c / BITS], c % BITS)
    {
      if c / BITS == i {
        BitComplement(Pow2(k), BITS, c % BITS);
        BitPow(k, c % BITS);
      }
    }
  }

  lemma FullWord(words: seq<nat>, i: nat, x: nat)
    requires i < |words| && 0 < words[i] == Pow2(BITS) - 1 && x in FreeSet(ChainPopped(words, i))
    ensures x in FreeSet(words) && x != ChainTaken(words, i)
  {
    ChainPopFrees(words, i);
    TrailingBound(words[i], BITS);
    if x / BITS == i { AllOnes(BITS, x % BITS); }
  }

  lemma TakenFree(words: seq<nat>, i: nat)
    requires i < |words| && 0 < words[i] < Pow2(BITS)
    ensures ChainTaken(words, i) in FreeSet(words)
  {
    TrailingBound(words[i], BITS);
    InWord(ChainTaken(words, i), i, Trailing(words[i]));
  }

  lemma ChainPopFull(s: State, i: nat)
    requires Inv(s) && i < |s.words| && 0 < s.words[i] == Pow2(BITS) - 1
    ensures var after, held := FreeSet(ChainPopped(s.words, i)), s.held + {ChainTaken(s.words, i)};
            after !! held && forall c | c in after :: c < s.total
  {
    forall x | x in FreeSet(ChainPopped(s.words, i))
      ensures x in FreeSet(s.words) && x != ChainTaken(s.words, i)
    {
      FullWord(s.words, i, x);
    }
  }

  lemma ChainPopPartial(s: State, i: nat) returns (x: nat)
    requires Inv(s) && i < |s.words| && 0 < s.words[i] < Pow2(BITS) - 1
    ensures x in FreeSet(ChainPopped(s.words, i)) && (x in s.held || x >= s.total)
  {
    var j := ClearBitExists(s.words[i], BITS);
    x := j + i * BITS;
    assert x / BITS == i && x % BITS == j;
    assert x !in FreeSet(s.words);
    ChainPopFrees(s.words, i);
    TrailingBound(s.words[i], BITS);
  }

  /**
   * `alloc_chain` takes a cluster that was free and that nobody held.  Afterwards no free
   * cluster is held by anybody or lies past the last one if and only if every cluster of the
   * word was free.
   */
  lemma ChainPopIff(s: State, i: nat)
    requires Inv(s) && i < |s.words| && s.words[i] > 0
    ensures s.words[i] < Pow2(BITS)
    ensures ChainTaken(s.words, i) in FreeSet(s.words) && ChainTaken(s.words, i) !in s.held
    ensures var after, held := FreeSet(ChainPopped(s.words, i)), s.held + {ChainTaken(s.words, i)};
            (after !! held && forall c | c in after :: c < s.total) <==> s.words[i] == Pow2(BITS) - 1
  {
    TakenFree(s.words, i);
    if s.words[i] == Pow2(BITS) - 1 {
      ChainPopFull(s, i);
    } else {
      var x := ChainPopPartial(s, i);
    }
  }

  lemma OneFreed()
    ensures Run(2, [Release(0, 0), Count(0)]).words == [1] && Run(2, [Release(0, 0), Count(0)]).held == {1}
  {
    var steps, start := [Release(0, 0), Count(0)], Initial(2);
    assert start.words == [0] && start.held == {0, 1};
    assert Pow2(0) == 1 && And(0, 1) == 0 && Or(0, 1) == 1;
    var first := Next(start, Release(0, 0));
    assert first.words == [1] && first.held == {1};
    assert steps[..1] == [Release(0, 0)] && [Release(0, 0)][..0] == [];
    assert Run(2, [Release(0, 0)]) == first by { assert Run(2, []) == start; }
  }

  /**
   * A volume of two clusters with only the first free: taking it for a chain frees the
   * second, which is held, and a third, which does not exist.
   */
  lemma ChainPopExample()
    ensures var s := Run(2, [Release(0, 0), Count(0)]);
            && s.words == [1] && s.held == {1} && ChainTaken(s.words, 0) == 0
            && 1 < Pow2(BITS) && 1 in FreeSet(ChainPopped(s.words, 0)) && 2 in FreeSet(ChainPopped(s.words, 0))
  {
    OneFreed();
    PowBound(0, BITS);
    ChainPopFrees([1], 0);
  }
}
