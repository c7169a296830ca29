/**
 * The FIFO of src/util/fifo.rs with a second reader.  After a failed exchange a reader keeps
 * the write position it loaded and retries with the read position it found.
 */
module FifoPairs {
  import opened Common
  import opened Fifos

  /** Two readers; `firstAt` and `secondAt` are the counters at which their reservations start. */
  datatype Pair = Pair(s: State, second: Reader, firstAt: nat, secondAt: nat)

  datatype PairStep = One(step: Step) | StartSecond(want: nat) | StepSecond

  function Swap(p: Pair): Pair {
    Pair(p.s.(reader := p.second), p.s.reader, p.secondAt, p.firstAt)
  }

  function NextFirst(p: Pair, step: Step): Pair
    requires |p.s.fifo.data| > 0
  {
    p.(s := Next(p.s, step),
       firstAt := if step.StepReader? && p.s.reader.ReadGotTx? then p.s.log.readResvs else p.firstAt)
  }

  function NextPair(p: Pair, step: PairStep): Pair
    requires |p.s.fifo.data| > 0
  {
    match step
    case One(step) => NextFirst(p, step)
    case StartSecond(want) => Swap(NextFirst(Swap(p), Read(want)))
    case StepSecond => Swap(NextFirst(Swap(p), StepReader))
  }

  function Start(size: nat): Pair { Pair(Initial(size), ReadIdle, 0, 0) }

  function PairRun(size: nat, steps: seq<PairStep>): (p: Pair)
    requires size > 0
    ensures |p.s.fifo.data| == size
  {
    if steps == [] then Start(size) else NextPair(PairRun(size, steps[..|steps| - 1]), steps[|steps| - 1])
  }

  // ---------------------------------------------------------------- the invariant

  /** What a reader knows and holds. */
  ghost predicate OneOk(r: Reader, at: nat, g: Log, cap: nat)
    requires cap > 0
  {
    match r
    case ReadGotTx(_, rx, tx, txCount) => txCount <= g.writeCommits && tx == txCount % cap
    case ReadCopy(start, count, out) =>
      && start == at % cap && count > 0 && g.readCommits <= at && at + count <= g.readResvs <= |g.accepted|
      && |out| <= count && out == g.accepted[at..at + |out|]
    case _ => true
  }

  /** The reservations under way, one after the other, are what is reserved and not committed. */
  ghost predicate Lined(r: Reader, at: nat, q: Reader, qAt: nat, g: Log) {
    if r.ReadCopy? && q.ReadCopy? then
      || (at == g.readCommits && qAt == at + r.count && qAt + q.count == g.readResvs)
      || (qAt == g.readCommits && at == qAt + q.count && at + r.count == g.readResvs)
    else if r.ReadCopy? then at == g.readCommits && at + r.count == g.readResvs
    else if q.ReadCopy? then qAt == g.readCommits && qAt + q.count == g.readResvs
    else g.readCommits == g.readResvs
  }

  ghost predicate PairInv(p: Pair) {
    && Core(p.s)
    && OneOk(p.s.reader, p.firstAt, p.s.log, |p.s.fifo.data|) && OneOk(p.second, p.secondAt, p.s.log, |p.s.fifo.data|)
    && Lined(p.s.reader, p.firstAt, p.second, p.secondAt, p.s.log)
  }

  /**
   * The exchange the reader is about to make takes no more than is committed: it fails, or
   * what lies between the read position and the write position loaded, going round,
   * is committed, or no more is wanted than that.
   */
  ghost predicate SafeExchange(s: State)
    requires |s.fifo.data| > 0
  {
    s.reader.ReadGotTx? && s.fifo.readResv == s.reader.rx ==>
      var committed := s.log.writeCommits - s.log.readResvs;
      (s.reader.txCount - s.log.readResvs) % |s.fifo.data| <= committed || s.reader.want <= committed
  }

  ghost predicate Safe(p: Pair, step: PairStep)
    requires |p.s.fifo.data| > 0
  {
    match step
    case One(step) => step.StepReader? ==> SafeExchange(p.s)
    case StartSecond(_) => true
    case StepSecond => SafeExchange(Swap(p).s)
  }

  // ---------------------------------------------------------------- one reader's step

  /** What an exchange that succeeds takes. */
  lemma ReserveCount(s: State)
    requires Core(s) && s.reader.ReadGotTx? && s.reader.tx == s.reader.txCount % |s.fifo.data|
    requires s.fifo.readResv == s.reader.rx
    ensures var r, cap := s.log.readResvs, |s.fifo.data|; var round := (s.reader.txCount - r) % cap;
            var count, n := Min(round, s.reader.want), NextReader(s);
            && 0 <= count < cap
            && n == s.(fifo := s.fifo.(readResv := (r + count) % cap), log := s.log.(readResvs := r + count),
                       reader := if count == 0 then ReadIdle else ReadCopy(s.reader.rx, count, []))
  {
    var r, cap := s.log.readResvs, |s.fifo.data|;
    ReadSpaceRound(s.reader.txCount, r, cap);
    ModAdd(r, Min(ReadSpace(s.reader.tx, s.reader.rx, cap), s.reader.want), cap);
  }

  lemma ReserveWithin(p: Pair)
    requires PairInv(p) && p.s.reader.ReadGotTx? && p.s.fifo.readResv == p.s.reader.rx && SafeExchange(p.s)
    ensures PairInv(NextFirst(p, StepReader))
  {
    ReserveCount(p.s);
    var n := NextFirst(p, StepReader);
    assert Core(n.s);
    assert OneOk(n.second, n.secondAt, n.s.log, |n.s.fifo.data|);
  }

  lemma ReserveBeyond(p: Pair)
    requires PairInv(p) && p.s.reader.ReadGotTx? && !SafeExchange(p.s)
    ensures !PairInv(NextFirst(p, StepReader))
  {
    ReserveCount(p.s);
    assert !Ordered(NextFirst(p, StepReader).s.log, |p.s.fifo.data|);
  }

  /** A byte copied out is the accepted one. */
  lemma CopyKeepsPair(p: Pair)
    requires PairInv(p) && p.s.reader.ReadCopy? && |p.s.reader.out| < p.s.reader.count
    ensures PairInv(NextFirst(p, StepReader))
  {
    CellExact(p.firstAt, p.s.reader.count, |p.s.fifo.data|, |p.s.reader.out|);
  }

  /** A reservation whose start is the commit position is the next to be committed. */
  lemma CommitIsNext(p: Pair)
    requires PairInv(p) && p.s.reader.ReadCopy? && p.s.fifo.readCommit == p.s.reader.start
    ensures p.firstAt == p.s.log.readCommits
  {
    if p.firstAt > p.s.log.readCommits {
      CellsDiffer(p.s.log.readCommits, p.firstAt, |p.s.fifo.data|);
    }
  }

  lemma Joined(accepted: seq<byte>, r: nat, count: nat)
    requires r + count <= |accepted|
    ensures accepted[..r] + accepted[r..r + count] == accepted[..r + count]
  {
  }

  /** A reservation is committed when all before it are. */
  lemma CommitKeepsPair(p: Pair)
    requires PairInv(p) && p.s.reader.ReadCopy? && |p.s.reader.out| == p.s.reader.count
    ensures PairInv(NextFirst(p, StepReader))
  {
    var g, cap, count := p.s.log, |p.s.fifo.data|, p.s.reader.count;
    if p.s.fifo.readCommit == p.s.reader.start {
      CommitIsNext(p);
      ModAdd(g.readCommits, count, cap);
      Joined(g.accepted, g.readCommits, count);
      var n := NextFirst(p, StepReader);
      assert n.s.log == g.(readCommits := g.readCommits + count, delivered := g.accepted[..g.readCommits + count]);
      assert Core(n.s);
    }
  }

  lemma FirstStepIff(p: Pair)
    requires PairInv(p)
    ensures PairInv(NextFirst(p, StepReader)) <==> SafeExchange(p.s)
  {
    match p.s.reader
    case ReadIdle =>
    case ReadStart(_) =>
    case ReadGotRx(_, _) =>
    case ReadGotTx(_, rx, _, _) =>
      if !SafeExchange(p.s) {
        ReserveBeyond(p);
      } else if p.s.fifo.readResv == rx {
        ReserveWithin(p);
      }
    case ReadCopy(_, count, out) =>
      if |out| < count { CopyKeepsPair(p); } else { CommitKeepsPair(p); }
  }

  // ---------------------------------------------------------------- every step

  lemma SwapKeepsPair(p: Pair)
    ensures PairInv(Swap(p)) <==> PairInv(p)
  {
  }

  lemma UndisturbedOk(r: Reader, at: nat, s: State, n: State)
    requires Core(s) && Core(n) && ReadersUndisturbed(s, n) && OneOk(r, at, s.log, |s.fifo.data|)
    ensures OneOk(r, at, n.log, |n.fifo.data|)
  {
    if r.ReadCopy? {
      assert n.log.accepted[at..at + |r.out|] == s.log.accepted[at..at + |r.out|];
    }
  }

  lemma WriterKeepsPair(p: Pair)
    requires PairInv(p)
    ensures PairInv(NextFirst(p, StepWriter))
  {
    var n := NextWriter(p.s);
    WriterKeepsCore(p.s);
    UndisturbedOk(p.s.reader, p.firstAt, p.s, n);
    UndisturbedOk(p.second, p.secondAt, p.s, n);
    assert Lined(n.reader, p.firstAt, p.second, p.secondAt, n.log);
  }

  /**
   * With two readers, a step keeps the counters ordered, the unread bytes in their cells and
   * the readers within what is committed if and only if it is not an exchange that takes more
   * than is committed.
   */
  lemma PairStepIff(p: Pair, step: PairStep)
    requires PairInv(p)
    ensures PairInv(NextPair(p, step)) <==> Safe(p, step)
  {
    match step
    case One(StepReader) => FirstStepIff(p);
    case One(StepWriter) => WriterKeepsPair(p);
    case One(Read(_)) =>
    case One(Write(_)) =>
    case StartSecond(want) =>
      SwapKeepsPair(NextFirst(Swap(p), Read(want)));
    case StepSecond =>
      SwapKeepsPair(p);
      SwapKeepsPair(NextFirst(Swap(p), StepReader));
      FirstStepIff(Swap(p));
  }

  ghost predicate AllSafe(size: nat, steps: seq<PairStep>)
    requires size > 0
  {
    steps != [] ==>
      var before := steps[..|steps| - 1];
      AllSafe(size, before) && Safe(PairRun(size, before), steps[|steps| - 1])
  }

  /** A run of two readers and a writer delivers in order as long as every exchange is safe. */
  lemma {:induction false} PairRunInv(size: nat, steps: seq<PairStep>)
    requires 0 < size < U64_LIMIT / 2 && AllSafe(size, steps)
    ensures PairInv(PairRun(size, steps))
    ensures PairRun(size, steps).s.log.delivered <= PairRun(size, steps).s.log.accepted
  {
    if steps == [] {
      InitialInv(size);
    } else {
      var before := steps[..|steps| - 1];
      PairRunInv(size, before);
      PairStepIff(PairRun(size, before), steps[|steps| - 1]);
    }
  }

  /** An exchange is safe if nobody has read past the write position the reader loaded. */
  lemma FreshIsSafe(p: Pair)
    requires PairInv(p) && p.s.reader.ReadGotTx? && p.s.log.readResvs <= p.s.reader.txCount
    ensures SafeExchange(p.s)
  {
    var d, cap := p.s.reader.txCount - p.s.log.readResvs, |p.s.fifo.data|;
    DivModUnique(d, cap, 0, d);
  }

  // ---------------------------------------------------------------- a retry that goes wrong

  lemma OneMore(size: nat, steps: seq<PairStep>, step: PairStep)
    requires size > 0
    ensures PairRun(size, steps + [step]) == NextPair(PairRun(size, steps), step)
    ensures AllSafe(size, steps + [step]) <==> AllSafe(size, steps) && Safe(PairRun(size, steps), step)
  {
    assert (steps + [step])[..|steps|] == steps;
  }

  /** The first reader loads both positions while the FIFO is empty. */
  const LOADED: seq<PairStep> := [One(Read(1)), One(StepReader), One(StepReader)]

  /** The writer writes a byte, reserving its cell first. */
  const RESERVED: seq<PairStep> :=
    LOADED + [One(Write([7]))] + [One(StepWriter)] + [One(StepWriter)] + [One(StepWriter)]
  const WRITTEN: seq<PairStep> := RESERVED + [One(StepWriter)] + [One(StepWriter)]

  /** The second reader reserves the byte and then reads it. */
  const CLAIMED: seq<PairStep> := WRITTEN + [StartSecond(1)] + [StepSecond] + [StepSecond] + [StepSecond]
  const TAKEN: seq<PairStep> := CLAIMED + [StepSecond] + [StepSecond]

  /** The pair while the first reader still holds the positions it loaded. */
  function Holding(f: Fifo, w: Writer, g: Log, second: Reader): Pair {
    Pair(State(f, ReadGotTx(1, 0, 0, 0), w, g), second, 0, 0)
  }

  lemma AfterLoads()
    ensures AllSafe(2, LOADED)
    ensures PairRun(2, LOADED) == Holding(Fifo([0, 0], 0, 0, 0, 0), WriteIdle, Log(0, 0, 0, 0, [], []), ReadIdle)
  {
    var a: seq<PairStep> := [];
    assert Initial(2).fifo.data == [0, 0];
    OneMore(2, a, One(Read(1)));
    OneMore(2, a + [One(Read(1))], One(StepReader));
    OneMore(2, a + [One(Read(1))] + [One(StepReader)], One(StepReader));
    assert a + [One(Read(1))] + [One(StepReader)] + [One(StepReader)] == LOADED;
  }

  lemma AfterReserve()
    ensures AllSafe(2, RESERVED)
    ensures PairRun(2, RESERVED)
         == Holding(Fifo([0, 0], 0, 0, 1, 0), WriteCopy([7], 0, 1, 0), Log(0, 0, 0, 1, [7], []), ReadIdle)
  {
    AfterLoads();
    var p := PairRun(2, LOADED);
    var a := LOADED + [One(Write([7]))];
    OneMore(2, LOADED, One(Write([7])));
    OneMore(2, a, One(StepWriter));
    OneMore(2, a + [One(StepWriter)], One(StepWriter));
    var b := a + [One(StepWriter)] + [One(StepWriter)];
    assert PairRun(2, b) == p.(s := p.s.(writer := WriteGotTx([7], 0, 0, 0)));
    OneMore(2, b, One(StepWriter));
    assert [7][..1] == [7 as byte];
  }

  lemma AfterWrite()
    ensures AllSafe(2, WRITTEN)
    ensures PairRun(2, WRITTEN) == Holding(Fifo([7, 0], 0, 0, 1, 1), WriteIdle, Log(0, 0, 1, 1, [7], []), ReadIdle)
  {
    AfterReserve();
    OneMore(2, RESERVED, One(StepWriter));
    assert [0, 0][0 := 7 as byte] == [7, 0];
    OneMore(2, RESERVED + [One(StepWriter)], One(StepWriter));
  }

  lemma AfterClaim()
    ensures AllSafe(2, CLAIMED)
    ensures PairRun(2, CLAIMED)
         == Holding(Fifo([7, 0], 1, 0, 1, 1), WriteIdle, Log(0, 1, 1, 1, [7], []), ReadCopy(0, 1, []))
  {
    AfterWrite();
    var p := PairRun(2, WRITTEN);
    var a := WRITTEN + [StartSecond(1)];
    OneMore(2, WRITTEN, StartSecond(1));
    OneMore(2, a, StepSecond);
    OneMore(2, a + [StepSecond], StepSecond);
    var b := a + [StepSecond] + [StepSecond];
    assert PairRun(2, b) == p.(second := ReadGotTx(1, 0, 1, 1));
    OneMore(2, b, StepSecond);
  }

  lemma AfterSecond()
    ensures AllSafe(2, TAKEN)
    ensures PairRun(2, TAKEN) == Holding(Fifo([7, 0], 1, 1, 1, 1), WriteIdle, Log(1, 1, 1, 1, [7], [7]), ReadIdle)
  {
    AfterClaim();
    OneMore(2, CLAIMED, StepSecond);
    assert [] + [7 as byte] == [7];
    OneMore(2, CLAIMED + [StepSecond], StepSecond);
  }

  /** The first reader's exchange fails, since the second has read meanwhile. */
  const REFUSED: seq<PairStep> := TAKEN + [One(StepReader)]

  lemma AfterRefusal()
    ensures AllSafe(2, REFUSED)
    ensures PairRun(2, REFUSED)
         == Pair(State(Fifo([7, 0], 1, 1, 1, 1), ReadGotTx(1, 1, 0, 0), WriteIdle, Log(1, 1, 1, 1, [7], [7])),
                 ReadIdle, 1, 0)
  {
    AfterSecond();
    OneMore(2, TAKEN, One(StepReader));
  }

  /** The retry, with the write position from before, takes a byte that was never written. */
  lemma StaleRetry()
    ensures AllSafe(2, REFUSED) && !Safe(PairRun(2, REFUSED), One(StepReader))
    ensures var g := PairRun(2, REFUSED + [One(StepReader)]).s.log; g.readResvs == 2 && g.writeResvs == 1
  {
    AfterRefusal();
    assert ReadSpace(0, 1, 2) == 1 && (0 - 1) % 2 == 1;
    OneMore(2, REFUSED, One(StepReader));
  }
}
