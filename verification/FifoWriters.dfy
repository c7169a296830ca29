/**
 * The FIFO of src/util/fifo.rs with a second writer.  After a failed exchange a writer keeps
 * the read position it loaded and retries with the write position it found.
 */
module FifoWriters {
  import opened Common
  import opened Fifos

  /** Two writers; `firstAt` and `secondAt` are the counters at which their reservations start. */
  datatype Pair = Pair(s: State, second: Writer, firstAt: nat, secondAt: nat)

  datatype PairStep = One(step: Step) | StartSecond(wdata: seq<byte>) | StepSecond

  function Swap(p: Pair): Pair {
    Pair(p.s.(writer := p.second), p.s.writer, p.secondAt, p.firstAt)
  }

  function NextFirst(p: Pair, step: Step): Pair
    requires |p.s.fifo.data| > 0
  {
    p.(s := Next(p.s, step),
       firstAt := if step.StepWriter? && p.s.writer.WriteGotTx? then p.s.log.writeResvs else p.firstAt)
  }

  function NextPair(p: Pair, step: PairStep): Pair
    requires |p.s.fifo.data| > 0
  {
    match step
    case One(step) => NextFirst(p, step)
    case StartSecond(wdata) => Swap(NextFirst(Swap(p), Write(wdata)))
    case StepSecond => Swap(NextFirst(Swap(p), StepWriter))
  }

  function Start(size: nat): Pair { Pair(Initial(size), WriteIdle, 0, 0) }

  function PairRun(size: nat, steps: seq<PairStep>): (p: Pair)
    requires size > 0
    ensures |p.s.fifo.data| == size
  {
    if steps == [] then Start(size) else NextPair(PairRun(size, steps[..|steps| - 1]), steps[|steps| - 1])
  }

  // ---------------------------------------------------------------- the invariant

  /** What a writer knows and holds. */
  ghost predicate OneOk(w: Writer, at: nat, g: Log, data: seq<byte>) {
    |data| > 0 &&
    match w
    case WriteGotRx(_, rx, rxCount) => rxCount <= g.readCommits && rx == rxCount % |data|
    case WriteGotTx(_, rx, rxCount, _) => rxCount <= g.readCommits && rx == rxCount % |data|
    case WriteCopy(wdata, start, count, copied) =>
      && start == at % |data| && count > 0 && g.writeCommits <= at && at + count <= g.writeResvs == |g.accepted|
      && copied <= count <= |wdata| && g.accepted[at..at + count] == wdata[..count]
      && Holds(data, g, at, at + copied)
    case _ => true
  }

  /** The reservations under way, one after the other, are what is reserved and not committed. */
  ghost predicate Lined(w: Writer, at: nat, v: Writer, vAt: nat, g: Log) {
    if w.WriteCopy? && v.WriteCopy? then
      || (at == g.writeCommits && vAt == at + w.count && vAt + v.count == g.writeResvs)
      || (vAt == g.writeCommits && at == vAt + v.count && at + w.count == g.writeResvs)
    else if w.WriteCopy? then at == g.writeCommits && at + w.count == g.writeResvs
    else if v.WriteCopy? then vAt == g.writeCommits && vAt + v.count == g.writeResvs
    else g.writeCommits == g.writeResvs
  }

  ghost predicate PairInv(p: Pair) {
    && Ground(p.s) && ReaderOk(p.s)
    && OneOk(p.s.writer, p.firstAt, p.s.log, p.s.fifo.data) && OneOk(p.second, p.secondAt, p.s.log, p.s.fifo.data)
    && Lined(p.s.writer, p.firstAt, p.second, p.secondAt, p.s.log)
  }

  /**
   * The exchange the writer is about to make takes no more than is free: it fails, or what lies
   * between the write position and the read position loaded, going round, is free, or no more
   * is to be written than that.
   */
  ghost predicate SafeExchange(s: State)
    requires |s.fifo.data| > 0
  {
    s.writer.WriteGotTx? && s.fifo.writeResv == s.writer.tx ==>
      var cap := |s.fifo.data|;
      var free := s.log.readCommits + cap - 1 - s.log.writeResvs;
      cap - 1 - (s.log.writeResvs - s.writer.rxCount) % cap <= free || |s.writer.wdata| <= free
  }

  ghost predicate Safe(p: Pair, step: PairStep)
    requires |p.s.fifo.data| > 0
  {
    match step
    case One(step) => step.StepWriter? ==> SafeExchange(p.s)
    case StartSecond(_) => true
    case StepSecond => SafeExchange(Swap(p).s)
  }

  // ---------------------------------------------------------------- one writer's step

  /** What an exchange that succeeds takes. */
  lemma ReserveCount(s: State)
    requires Ground(s) && s.writer.WriteGotTx? && s.writer.rx == s.writer.rxCount % |s.fifo.data|
    requires s.fifo.writeResv == s.writer.tx
    ensures var w, cap := s.log.writeResvs, |s.fifo.data|;
            var count, n := Min(cap - 1 - (w - s.writer.rxCount) % cap, |s.writer.wdata|), NextWriter(s);
            && 0 <= count < cap
            && n == s.(fifo := s.fifo.(writeResv := (w + count) % cap),
                       log := s.log.(writeResvs := w + count, accepted := s.log.accepted + s.writer.wdata[..count]),
                       writer := if count == 0 then WriteIdle else WriteCopy(s.writer.wdata, s.writer.tx, count, 0))
  {
    var w, cap := s.log.writeResvs, |s.fifo.data|;
    ReadSpaceRound(w, s.writer.rxCount, cap);
    SpacesSum(s.writer.tx, s.writer.rx, cap);
    ModAdd(w, Min(WriteSpace(s.writer.rx, s.writer.tx, cap), |s.writer.wdata|), cap);
  }

  /** A writer that is not taking part loses nothing when more is accepted. */
  lemma MoreAccepted(w: Writer, at: nat, g: Log, h: Log, data: seq<byte>)
    requires OneOk(w, at, g, data) && g.accepted <= h.accepted && h.writeResvs == |h.accepted|
    requires h.readCommits == g.readCommits && h.writeCommits == g.writeCommits
    ensures OneOk(w, at, h, data)
  {
    if w.WriteCopy? {
      assert h.accepted[at..at + w.count] == g.accepted[at..at + w.count];
    }
  }

  lemma ReserveKeepsGround(s: State, n: State)
    requires Ground(s) && ReaderOk(s) && s.log.writeResvs <= n.log.writeResvs < s.log.readCommits + |s.fifo.data|
    requires n == s.(fifo := s.fifo.(writeResv := n.log.writeResvs % |s.fifo.data|), writer := n.writer,
                     log := s.log.(writeResvs := n.log.writeResvs, accepted := n.log.accepted))
    requires s.log.accepted <= n.log.accepted && n.log.writeResvs == |n.log.accepted|
    ensures Ground(n) && ReaderOk(n)
  {
    assert n.log.accepted[..s.log.readCommits] == s.log.accepted[..s.log.readCommits];
    if s.reader.ReadCopy? {
      var r, m := s.log.readCommits, s.log.readCommits + |s.reader.out|;
      assert n.log.accepted[r..m] == s.log.accepted[r..m];
    }
  }

  lemma ReservedKeepsPair(p: Pair, count: nat, n: Pair)
    requires PairInv(p) && p.s.writer.WriteGotTx? && p.s.fifo.writeResv == p.s.writer.tx && count <= |p.s.writer.wdata|
    requires p.s.log.writeResvs + count < p.s.log.readCommits + |p.s.fifo.data|
    requires n == p.(s := n.s, firstAt := p.s.log.writeResvs)
    requires n.s == p.s.(fifo := p.s.fifo.(writeResv := (p.s.log.writeResvs + count) % |p.s.fifo.data|),
                         log := p.s.log.(writeResvs := p.s.log.writeResvs + count,
                                         accepted := p.s.log.accepted + p.s.writer.wdata[..count]),
                         writer := if count == 0 then WriteIdle
                                   else WriteCopy(p.s.writer.wdata, p.s.writer.tx, count, 0))
    ensures PairInv(n)
  {
    var w := p.s.log.writeResvs;
    ReserveKeepsGround(p.s, n.s);
    MoreAccepted(p.second, p.secondAt, p.s.log, n.s.log, p.s.fifo.data);
    assert n.s.log.accepted[w..w + count] == p.s.writer.wdata[..count];
    assert OneOk(n.s.writer, w, n.s.log, n.s.fifo.data);
  }

  lemma ReserveWithin(p: Pair)
    requires PairInv(p) && p.s.writer.WriteGotTx? && p.s.fifo.writeResv == p.s.writer.tx && SafeExchange(p.s)
    ensures PairInv(NextFirst(p, StepWriter))
  {
    ReserveCount(p.s);
    var n := NextFirst(p, StepWriter);
    ReservedKeepsPair(p, n.s.log.writeResvs - p.s.log.writeResvs, n);
  }

  lemma ReserveBeyond(p: Pair)
    requires PairInv(p) && p.s.writer.WriteGotTx? && !SafeExchange(p.s)
    ensures !PairInv(NextFirst(p, StepWriter))
  {
    ReserveCount(p.s);
    assert !Ordered(NextFirst(p, StepWriter).s.log, |p.s.fifo.data|);
  }

  /** A byte written into the cell of counter `c` leaves every other cell within a lap alone. */
  lemma ByteElsewhere(data: seq<byte>, g: Log, from: nat, to: nat, c: nat, x: byte)
    requires |data| > 0 && to <= |g.accepted| && Holds(data, g, from, to)
    requires to <= c < from + |data| || (c < from && to <= c + |data|)
    ensures Holds(data[c % |data| := x], g, from, to)
  {
    forall i | from <= i < to
      ensures i % |data| != c % |data|
    {
      if i < c { CellsDiffer(i, c, |data|); } else { CellsDiffer(c, i, |data|); }
    }
  }

  /** What the byte that the first writer copies next does to the FIFO. */
  lemma CopyIs(p: Pair)
    requires PairInv(p) && p.s.writer.WriteCopy? && p.s.writer.copied < p.s.writer.count
    ensures var c, w := p.firstAt + p.s.writer.copied, p.s.writer;
            && c < p.s.log.writeResvs
            && NextFirst(p, StepWriter)
               == p.(s := p.s.(fifo := p.s.fifo.(data := p.s.fifo.data[c % |p.s.fifo.data| := p.s.log.accepted[c]]),
                               writer := w.(copied := w.copied + 1)))
  {
    var w := p.s.writer;
    CellExact(p.firstAt, w.count, |p.s.fifo.data|, w.copied);
    assert p.s.log.accepted[p.firstAt..p.firstAt + w.count][w.copied] == w.wdata[w.copied];
  }

  /** A byte more of the first writer's own. */
  lemma CopyKeepsFirst(w: Writer, at: nat, g: Log, data: seq<byte>)
    requires OneOk(w, at, g, data) && w.WriteCopy? && w.copied < w.count && w.count < |data|
    ensures var c := at + w.copied;
            OneOk(w.(copied := w.copied + 1), at, g, data[c % |data| := g.accepted[c]])
  {
    var c := at + w.copied;
    ByteElsewhere(data, g, at, c, c, g.accepted[c]);
  }

  /** What the other writer has copied stays. */
  lemma CopyKeepsSecond(v: Writer, vAt: nat, g: Log, data: seq<byte>, c: nat)
    requires OneOk(v, vAt, g, data) && c < |g.accepted|
    requires v.WriteCopy? ==> vAt + v.count <= c < vAt + |data| || (c < vAt && vAt + v.count <= c + |data|)
    ensures OneOk(v, vAt, g, data[c % |data| := g.accepted[c]])
  {
    if v.WriteCopy? {
      ByteElsewhere(data, g, vAt, vAt + v.copied, c, g.accepted[c]);
    }
  }

  lemma CopyKeepsGround(s: State, c: nat, n: State)
    requires Ground(s) && ReaderOk(s) && s.log.writeCommits <= c < s.log.writeResvs && s.writer.WriteCopy?
    requires n == s.(fifo := s.fifo.(data := s.fifo.data[c % |s.fifo.data| := s.log.accepted[c]]), writer := n.writer)
    ensures Ground(n) && ReaderOk(n)
  {
    ByteElsewhere(s.fifo.data, s.log, s.log.readCommits, s.log.writeCommits, c, s.log.accepted[c]);
  }

  lemma CopiedKeepsPair(p: Pair, c: nat, n: Pair)
    requires PairInv(p) && p.s.writer.WriteCopy? && p.s.writer.copied < p.s.writer.count
    requires c == p.firstAt + p.s.writer.copied < |p.s.log.accepted|
    requires n == p.(s := n.s)
    requires n.s == p.s.(fifo := p.s.fifo.(data := p.s.fifo.data[c % |p.s.fifo.data| := p.s.log.accepted[c]]),
                         writer := p.s.writer.(copied := p.s.writer.copied + 1))
    ensures PairInv(n)
  {
    CopyKeepsGround(p.s, c, n.s);
    CopyKeepsFirst(p.s.writer, p.firstAt, p.s.log, p.s.fifo.data);
    CopyKeepsSecond(p.second, p.secondAt, p.s.log, p.s.fifo.data, c);
  }

  lemma CopyKeepsPair(p: Pair)
    requires PairInv(p) && p.s.writer.WriteCopy? && p.s.writer.copied < p.s.writer.count
    ensures PairInv(NextFirst(p, StepWriter))
  {
    CopyIs(p);
    CopiedKeepsPair(p, p.firstAt + p.s.writer.copied, NextFirst(p, StepWriter));
  }

  /** A reservation whose start is the commit position is the next to be committed. */
  lemma CommitIsNext(p: Pair)
    requires PairInv(p) && p.s.writer.WriteCopy? && p.s.fifo.writeCommit == p.s.writer.start
    ensures p.firstAt == p.s.log.writeCommits
  {
    if p.firstAt > p.s.log.writeCommits {
      CellsDiffer(p.s.log.writeCommits, p.firstAt, |p.s.fifo.data|);
    }
  }

  /** A reservation is committed when all before it are. */
  lemma CommitKeepsPair(p: Pair)
    requires PairInv(p) && p.s.writer.WriteCopy? && p.s.writer.copied == p.s.writer.count
    ensures PairInv(NextFirst(p, StepWriter))
  {
    var g, cap, count := p.s.log, |p.s.fifo.data|, p.s.writer.count;
    if p.s.fifo.writeCommit == p.s.writer.start {
      CommitIsNext(p);
      ModAdd(g.writeCommits, count, cap);
      var n := NextFirst(p, StepWriter);
      assert n.s.log == g.(writeCommits := g.writeCommits + count);
      assert Ground(n.s) && ReaderOk(n.s);
    }
  }

  lemma FirstStepIff(p: Pair)
    requires PairInv(p)
    ensures PairInv(NextFirst(p, StepWriter)) <==> SafeExchange(p.s)
  {
    match p.s.writer
    case WriteIdle =>
    case WriteStart(_) =>
    case WriteGotRx(_, _, _) =>
    case WriteGotTx(_, _, _, tx) =>
      if !SafeExchange(p.s) {
        ReserveBeyond(p);
      } else if p.s.fifo.writeResv == tx {
        ReserveWithin(p);
      }
    case WriteCopy(_, _, count, copied) =>
      if copied < count { CopyKeepsPair(p); } else { CommitKeepsPair(p); }
  }

  // ---------------------------------------------------------------- every step

  lemma SwapKeepsPair(p: Pair)
    ensures PairInv(Swap(p)) <==> PairInv(p)
  {
  }

  lemma UndisturbedOk(w: Writer, at: nat, s: State, n: State)
    requires WritersUndisturbed(s, n) && OneOk(w, at, s.log, s.fifo.data)
    ensures OneOk(w, at, n.log, n.fifo.data)
  {
  }

  lemma ReaderKeepsPair(p: Pair)
    requires PairInv(p)
    ensures PairInv(NextFirst(p, StepReader))
  {
    var n := NextReader(p.s);
    ReaderKeepsGround(p.s);
    UndisturbedOk(p.s.writer, p.firstAt, p.s, n);
    UndisturbedOk(p.second, p.secondAt, p.s, n);
    assert Lined(n.writer, p.firstAt, p.second, p.secondAt, n.log);
  }

  /**
   * With two writers, a step keeps the counters ordered, the unread bytes in their cells and
   * the writers within what is free if and only if it is not an exchange that takes more than
   * is free.
   */
  lemma PairStepIff(p: Pair, step: PairStep)
    requires PairInv(p)
    ensures PairInv(NextPair(p, step)) <==> Safe(p, step)
  {
    match step
    case One(StepWriter) => FirstStepIff(p);
    case One(StepReader) => ReaderKeepsPair(p);
    case One(Read(_)) =>
    case One(Write(_)) =>
    case StartSecond(wdata) =>
      SwapKeepsPair(NextFirst(Swap(p), Write(wdata)));
    case StepSecond =>
      SwapKeepsPair(p);
      SwapKeepsPair(NextFirst(Swap(p), StepWriter));
      FirstStepIff(Swap(p));
  }

  ghost predicate AllSafe(size: nat, steps: seq<PairStep>)
    requires size > 0
  {
    steps != [] ==>
      var before := steps[..|steps| - 1];
      AllSafe(size, before) && Safe(PairRun(size, before), steps[|steps| - 1])
  }

  /** A run of two writers and a reader delivers in order as long as every exchange is safe. */
  lemma {:induction false} PairRunInv(size: nat, steps: seq<PairStep>)
    requires 0 < size < U64_LIMIT / 2 && AllSafe(size, steps)
    ensures PairInv(PairRun(size, steps))
    ensures PairRun(size, steps).s.log.delivered <= PairRun(size, steps).s.log.accepted
  {
    if steps == [] {
      InitialInv(size);
    } else {
      var before := steps[..|steps| - 1];
      PairRunInv(size, before);
      PairStepIff(PairRun(size, before), steps[|steps| - 1]);
    }
  }

  /** An exchange is safe if nobody has written a lap past the read position the writer loaded. */
  lemma FreshIsSafe(p: Pair)
    requires PairInv(p) && p.s.writer.WriteGotTx? && p.s.log.writeResvs < p.s.writer.rxCount + |p.s.fifo.data|
    ensures SafeExchange(p.s)
  {
    var d, cap := p.s.log.writeResvs - p.s.writer.rxCount, |p.s.fifo.data|;
    DivModUnique(d, cap, 0, d);
  }

  // ---------------------------------------------------------------- a position that came round

  lemma OneMore(size: nat, steps: seq<PairStep>, step: PairStep)
    requires size > 0
    ensures PairRun(size, steps + [step]) == NextPair(PairRun(size, steps), step)
    ensures AllSafe(size, steps + [step]) <==> AllSafe(size, steps) && Safe(PairRun(size, steps), step)
  {
    assert (steps + [step])[..|steps|] == steps;
  }

  /** The first writer loads both positions of an empty FIFO of two. */
  const LOADED: seq<PairStep> := [One(Write([7])), One(StepWriter), One(StepWriter)]

  /** The second writer writes a byte, and the reader reads it. */
  const RESERVED: seq<PairStep> := LOADED + [StartSecond([8])] + [StepSecond] + [StepSecond] + [StepSecond]
  const WRITTEN: seq<PairStep> := RESERVED + [StepSecond] + [StepSecond]
  const CLAIMED: seq<PairStep> := WRITTEN + [One(Read(1))] + [One(StepReader)] + [One(StepReader)] + [One(StepReader)]
  const TAKEN: seq<PairStep> := CLAIMED + [One(StepReader)] + [One(StepReader)]

  /** The second writer writes another, and the write position is where it was. */
  const AGAIN: seq<PairStep> := TAKEN + [StartSecond([9])] + [StepSecond] + [StepSecond] + [StepSecond]
  const FILLED: seq<PairStep> := AGAIN + [StepSecond] + [StepSecond]

  /** The pair while the first writer still holds the positions it loaded. */
  function Holding(f: Fifo, r: Reader, g: Log, second: Writer, at: nat): Pair {
    Pair(State(f, r, WriteGotTx([7], 0, 0, 0), g), second, 0, at)
  }

  lemma AfterLoads()
    ensures AllSafe(2, LOADED)
    ensures PairRun(2, LOADED) == Holding(Fifo([0, 0], 0, 0, 0, 0), ReadIdle, Log(0, 0, 0, 0, [], []), WriteIdle, 0)
  {
    var a: seq<PairStep> := [];
    assert Initial(2).fifo.data == [0, 0];
    OneMore(2, a, One(Write([7])));
    OneMore(2, a + [One(Write([7]))], One(StepWriter));
    OneMore(2, a + [One(Write([7]))] + [One(StepWriter)], One(StepWriter));
    assert a + [One(Write([7]))] + [One(StepWriter)] + [One(StepWriter)] == LOADED;
  }

  lemma AfterReserve()
    ensures AllSafe(2, RESERVED)
    ensures PairRun(2, RESERVED)
         == Holding(Fifo([0, 0], 0, 0, 1, 0), ReadIdle, Log(0, 0, 0, 1, [8], []), WriteCopy([8], 0, 1, 0), 0)
  {
    AfterLoads();
    var p := PairRun(2, LOADED);
    var a := LOADED + [StartSecond([8])];
    OneMore(2, LOADED, StartSecond([8]));
    OneMore(2, a, StepSecond);
    OneMore(2, a + [StepSecond], StepSecond);
    var b := a + [StepSecond] + [StepSecond];
    assert PairRun(2, b) == p.(second := WriteGotTx([8], 0, 0, 0));
    OneMore(2, b, StepSecond);
    assert [8][..1] == [8 as byte];
  }

  lemma AfterWrite()
    ensures AllSafe(2, WRITTEN)
    ensures PairRun(2, WRITTEN) == Holding(Fifo([8, 0], 0, 0, 1, 1), ReadIdle, Log(0, 0, 1, 1, [8], []), WriteIdle, 0)
  {
    AfterReserve();
    OneMore(2, RESERVED, StepSecond);
    assert [0, 0][0 := 8 as byte] == [8, 0];
    OneMore(2, RESERVED + [StepSecond], StepSecond);
  }

  lemma AfterClaim()
    ensures AllSafe(2, CLAIMED)
    ensures PairRun(2, CLAIMED)
         == Holding(Fifo([8, 0], 1, 0, 1, 1), ReadCopy(0, 1, []), Log(0, 1, 1, 1, [8], []), WriteIdle, 0)
  {
    AfterWrite();
    var p := PairRun(2, WRITTEN);
    var a := WRITTEN + [One(Read(1))];
    OneMore(2, WRITTEN, One(Read(1)));
    OneMore(2, a, One(StepReader));
    OneMore(2, a + [One(StepReader)], One(StepReader));
    var b := a + [One(StepReader)] + [One(StepReader)];
    assert PairRun(2, b) == p.(s := p.s.(reader := ReadGotTx(1, 0, 1, 1)));
    OneMore(2, b, One(StepReader));
  }

  lemma AfterRead()
    ensures AllSafe(2, TAKEN)
    ensures PairRun(2, TAKEN) == Holding(Fifo([8, 0], 1, 1, 1, 1), ReadIdle, Log(1, 1, 1, 1, [8], [8]), WriteIdle, 0)
  {
    AfterClaim();
    OneMore(2, CLAIMED, One(StepReader));
    assert [] + [8 as byte] == [8];
    OneMore(2, CLAIMED + [One(StepReader)], One(StepReader));
  }

  lemma AfterAgain()
    ensures AllSafe(2, AGAIN)
    ensures PairRun(2, AGAIN)
         == Holding(Fifo([8, 0], 1, 1, 0, 1), ReadIdle, Log(1, 1, 1, 2, [8, 9], [8]), WriteCopy([9], 1, 1, 0), 1)
  {
    AfterRead();
    var p := PairRun(2, TAKEN);
    var a := TAKEN + [StartSecond([9])];
    OneMore(2, TAKEN, StartSecond([9]));
    OneMore(2, a, StepSecond);
    OneMore(2, a + [StepSecond], StepSecond);
    var b := a + [StepSecond] + [StepSecond];
    assert PairRun(2, b) == p.(second := WriteGotTx([9], 1, 1, 1));
    OneMore(2, b, StepSecond);
    assert [9][..1] == [9 as byte] && [8] + [9 as byte] == [8, 9];
  }

  lemma AfterFill()
    ensures AllSafe(2, FILLED)
    ensures PairRun(2, FILLED)
         == Holding(Fifo([8, 9], 1, 1, 0, 0), ReadIdle, Log(1, 1, 2, 2, [8, 9], [8]), WriteIdle, 1)
  {
    AfterAgain();
    OneMore(2, AGAIN, StepSecond);
    assert [8, 0][1 := 9 as byte] == [8, 9];
    OneMore(2, AGAIN + [StepSecond], StepSecond);
  }

  /**
   * The first writer finds the write position unchanged, and its exchange succeeds with the
   * read position from before: it reserves a cell where none is free.
   */
  lemma StaleWrite()
    ensures AllSafe(2, FILLED) && !Safe(PairRun(2, FILLED), One(StepWriter))
    ensures var g := PairRun(2, FILLED + [One(StepWriter)]).s.log; g.writeResvs == 3 && g.readCommits == 1
  {
    AfterFill();
    assert WriteSpace(0, 0, 2) == 1 && (2 - 0) % 2 == 0;
    OneMore(2, FILLED, One(StepWriter));
  }
}
