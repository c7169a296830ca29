/**
 * The lock-free byte FIFO of src/util/fifo.rs, as the atomic steps of one reader
 * and one writer interleaved arbitrarily.  Every load, compare-exchange and byte
 * copied is a step of its own.  The unbounded counters and the byte histories in
 * `Log` appear in no guard: they only record what happened.
 */
module Fifos {
  import opened Common

  function WrapAdd(a: nat, b: nat): nat { (a + b) % U64_LIMIT }

  function WrapSub(a: nat, b: nat): nat { (a - b) % U64_LIMIT }

  /** The shared fields. */
  datatype Fifo = Fifo(data: seq<byte>, readResv: nat, readCommit: nat, writeResv: nat, writeCommit: nat)

  /** Where the reader is in `read`; positions carry the counter value they were loaded at. */
  datatype Reader =
    | ReadIdle
    | ReadStart(want: nat)
    | ReadGotRx(want: nat, rx: nat)
    | ReadGotTx(want: nat, rx: nat, tx: nat, txCount: nat)
    | ReadCopy(start: nat, count: nat, out: seq<byte>)

  /** Where the writer is in `write`. */
  datatype Writer =
    | WriteIdle
    | WriteStart(wdata: seq<byte>)
    | WriteGotRx(wdata: seq<byte>, rx: nat, rxCount: nat)
    | WriteGotTx(wdata: seq<byte>, rx: nat, rxCount: nat, tx: nat)
    | WriteCopy(wdata: seq<byte>, start: nat, count: nat, copied: nat)

  /** Bytes reserved and committed by each side since the start, those accepted, and those delivered. */
  datatype Log = Log(readCommits: nat, readResvs: nat, writeCommits: nat, writeResvs: nat,
                     accepted: seq<byte>, delivered: seq<byte>)

  datatype State = State(fifo: Fifo, reader: Reader, writer: Writer, log: Log)

  datatype Step = Read(want: nat) | StepReader | Write(wdata: seq<byte>) | StepWriter

  // ---------------------------------------------------------------- the steps

  function ReadSpace(tx: nat, rx: nat, cap: nat): nat
    requires cap > 0
  {
    WrapAdd(WrapSub(tx, rx), cap) % cap
  }

  function WriteSpace(rx: nat, tx: nat, cap: nat): nat
    requires cap > 0
  {
    WrapSub(WrapAdd(WrapSub(rx, tx), cap), 1) % cap
  }

  /** The cell of byte `k` of a transfer: one slice, or one up to the end and one from the start. */
  function Cell(start: nat, count: nat, cap: nat, k: nat): int
    requires cap > 0
  {
    var end := WrapAdd(start, count) % cap;
    if end > start then start + k
    else if k < cap - start then start + k
    else k - (cap - start)
  }

  function NextReader(s: State): State
    requires |s.fifo.data| > 0
  {
    var f, g, cap := s.fifo, s.log, |s.fifo.data|;
    match s.reader
    case ReadIdle => s
    case ReadStart(want) => s.(reader := ReadGotRx(want, f.readResv))
    case ReadGotRx(want, rx) => s.(reader := ReadGotTx(want, rx, f.writeCommit, g.writeCommits))
    case ReadGotTx(want, rx, tx, txCount) =>
      var count := Min(ReadSpace(tx, rx, cap), want);
      if f.readResv != rx then
        s.(reader := ReadGotTx(want, f.readResv, tx, txCount))
      else
        s.(fifo := f.(readResv := WrapAdd(rx, count) % cap),
           reader := if count == 0 then ReadIdle else ReadCopy(rx, count, []),
           log := g.(readResvs := g.readResvs + count))
    case ReadCopy(start, count, out) =>
      if |out| < count then
        var c := Cell(start, count, cap, |out|);
        if 0 <= c < cap then s.(reader := ReadCopy(start, count, out + [f.data[c]])) else s
      else if f.readCommit != start then s
      else s.(fifo := f.(readCommit := WrapAdd(start, count) % cap), reader := ReadIdle,
              log := g.(readCommits := g.readCommits + count, delivered := g.delivered + out))
  }

  function NextWriter(s: State): State
    requires |s.fifo.data| > 0
  {
    var f, g, cap := s.fifo, s.log, |s.fifo.data|;
    match s.writer
    case WriteIdle => s
    case WriteStart(wdata) => s.(writer := WriteGotRx(wdata, f.readCommit, g.readCommits))
    case WriteGotRx(wdata, rx, rxCount) => s.(writer := WriteGotTx(wdata, rx, rxCount, f.writeResv))
    case WriteGotTx(wdata, rx, rxCount, tx) =>
      var count := Min(WriteSpace(rx, tx, cap), |wdata|);
      if f.writeResv != tx then
        s.(writer := WriteGotTx(wdata, rx, rxCount, f.writeResv))
      else
        s.(fifo := f.(writeResv := WrapAdd(tx, count) % cap),
           writer := if count == 0 then WriteIdle else WriteCopy(wdata, tx, count, 0),
           log := g.(writeResvs := g.writeResvs + count, accepted := g.accepted + wdata[..count]))
    case WriteCopy(wdata, start, count, copied) =>
      if copied < count then
        var c := Cell(start, count, cap, copied);
        if 0 <= c < cap && copied < |wdata|
        then s.(fifo := f.(data := f.data[c := wdata[copied]]), writer := WriteCopy(wdata, start, count, copied + 1))
        else s
      else if f.writeCommit != start then s
      else s.(fifo := f.(writeCommit := WrapAdd(start, count) % cap), writer := WriteIdle,
              log := g.(writeCommits := g.writeCommits + count))
  }

  function Next(s: State, step: Step): State
    requires |s.fifo.data| > 0
  {
    match step
    case Read(want) => if s.reader.ReadIdle? then s.(reader := ReadStart(want)) else s
    case StepReader => NextReader(s)
    case Write(wdata) => if s.writer.WriteIdle? then s.(writer := WriteStart(wdata)) else s
    case StepWriter => NextWriter(s)
  }

  function Initial(size: nat): State {
    State(Fifo(seq(size, _ => 0), 0, 0, 0, 0), ReadIdle, WriteIdle, Log(0, 0, 0, 0, [], []))
  }

  // ---------------------------------------------------------------- the invariant

  ghost predicate Ordered(g: Log, cap: nat) {
    g.readCommits <= g.readResvs <= g.writeCommits <= g.writeResvs < g.readCommits + cap
  }

  ghost predicate Positions(f: Fifo, g: Log) {
    var cap := |f.data|;
    && 0 < cap < U64_LIMIT / 2
    && f.readCommit == g.readCommits % cap && f.readResv == g.readResvs % cap
    && f.writeCommit == g.writeCommits % cap && f.writeResv == g.writeResvs % cap
  }

  /** Cells from counter `from` up to `to` hold the accepted bytes. */
  ghost predicate Holds(data: seq<byte>, g: Log, from: nat, to: nat)
    requires |data| > 0 && to <= |g.accepted|
  {
    forall i | from <= i < to :: data[i % |data|] == g.accepted[i]
  }

  ghost predicate ReaderOk(s: State) {
    var g, cap := s.log, |s.fifo.data|;
    cap > 0 &&
    match s.reader
    case ReadIdle => g.readResvs == g.readCommits
    case ReadStart(_) => g.readResvs == g.readCommits
    case ReadGotRx(_, rx) => g.readResvs == g.readCommits && rx == g.readResvs % cap
    case ReadGotTx(_, rx, tx, txCount) =>
      && g.readResvs == g.readCommits && rx == g.readResvs % cap
      && g.readResvs <= txCount <= g.writeCommits && tx == txCount % cap
    case ReadCopy(start, count, out) =>
      && start == g.readCommits % cap && count > 0 && g.readResvs == g.readCommits + count
      && |out| <= count && g.readResvs <= |g.accepted|
      && out == g.accepted[g.readCommits..g.readCommits + |out|]
  }

  ghost predicate WriterOk(s: State) {
    var g, cap := s.log, |s.fifo.data|;
    cap > 0 && g.writeResvs == |g.accepted| &&
    match s.writer
    case WriteIdle => g.writeResvs == g.writeCommits
    case WriteStart(_) => g.writeResvs == g.writeCommits
    case WriteGotRx(_, rx, rxCount) =>
      && g.writeResvs == g.writeCommits && rxCount <= g.readCommits && rx == rxCount % cap
      && g.writeResvs < rxCount + cap
    case WriteGotTx(_, rx, rxCount, tx) =>
      && g.writeResvs == g.writeCommits && rxCount <= g.readCommits && rx == rxCount % cap
      && g.writeResvs < rxCount + cap && tx == g.writeResvs % cap
    case WriteCopy(wdata, start, count, copied) =>
      && start == g.writeCommits % cap && count > 0 && g.writeResvs == g.writeCommits + count
      && copied <= count <= |wdata|
      && g.accepted[g.writeCommits..] == wdata[..count]
      && Holds(s.fifo.data, g, g.writeCommits, g.writeCommits + copied)
  }

  /** What does not depend on how many readers and writers there are. */
  ghost predicate Ground(s: State) {
    && Positions(s.fifo, s.log) && Ordered(s.log, |s.fifo.data|) && s.log.writeResvs == |s.log.accepted|
    && Holds(s.fifo.data, s.log, s.log.readCommits, s.log.writeCommits)
    && s.log.delivered == s.log.accepted[..s.log.readCommits]
  }

  /** What does not depend on how many readers there are. */
  ghost predicate Core(s: State) { Ground(s) && WriterOk(s) }

  ghost predicate Inv(s: State) { Core(s) && ReaderOk(s) }

  // ---------------------------------------------------------------- modular arithmetic

  lemma ModSmall(n: nat, cap: nat)
    requires n < 2 * cap
    ensures n % cap == if n < cap then n else n - cap
  {
    DivModUnique(n, cap, if n < cap then 0 else 1, if n < cap then n else n - cap);
  }

  lemma ModAdd(a: nat, n: nat, cap: nat)
    requires 0 < cap < U64_LIMIT / 2 && n <= cap
    ensures a % cap < cap
    ensures WrapAdd(a % cap, n) % cap == (a + n) % cap
  {
    var q, r := a / cap, a % cap;
    assert a == q * cap + r;
    ModSmall(r + n, cap);
    assert r + n < U64_LIMIT;
    assert (q + 1) * cap == q * cap + cap;
    DivModUnique(a + n, cap, if r + n < cap then q else q + 1, (r + n) % cap);
  }

  /** Counters less than a capacity apart have different cells. */
  lemma CellsDiffer(i: nat, j: nat, cap: nat)
    requires i < j < i + cap
    ensures i % cap != j % cap
  {
    var qi, qj := i / cap, j / cap;
    assert i == qi * cap + i % cap && j == qj * cap + j % cap;
    assert (qj - qi) * cap == j - j % cap - i + i % cap;
    assert (qi - qj) * cap == i - i % cap - j + j % cap;
    if i % cap == j % cap {
      if qj > qi { MulGrows(qj - qi, cap); } else { MulNonNeg(qi - qj, cap); }
    }
  }

  /** `x` reduces modulo `cap` to the offset it has from a multiple of `cap`. */
  lemma Residue(x: nat, d: nat, k: int, cap: nat)
    requires d < cap && x == d + k * cap
    ensures x % cap == d
  {
    DivModUnique(x, cap, k, d);
  }

  /** The wrapping operations come out as the plain ones would. */
  lemma WrapExact(a: nat, b: nat, cap: nat)
    requires a < cap && b < cap < U64_LIMIT / 2
    ensures WrapAdd(WrapSub(a, b), cap) == a - b + cap
    ensures WrapSub(WrapAdd(WrapSub(a, b), cap), 1) == a - b + cap - 1
  {
    assert WrapSub(a, b) == if a >= b then a - b else a - b + U64_LIMIT;
  }

  /** The wrapping subtraction measures exactly what lies between two counters. */
  lemma ReadSpaceExact(r: nat, w: nat, cap: nat)
    requires 0 < cap < U64_LIMIT / 2 && r <= w < r + cap
    ensures ReadSpace(w % cap, r % cap, cap) == w - r
  {
    WrapExact(w % cap, r % cap, cap);
    Apart(r, w, cap);
  }

  lemma WriteSpaceExact(r: nat, w: nat, cap: nat)
    requires 0 < cap < U64_LIMIT / 2 && r <= w < r + cap
    ensures WriteSpace(r % cap, w % cap, cap) == r + cap - 1 - w
  {
    WrapExact(r % cap, w % cap, cap);
    Apart(r, w, cap);
  }

  /** The wrapping subtraction measures the distance going round, however many laps apart the counters are. */
  lemma ReadSpaceRound(t: nat, r: nat, cap: nat)
    requires 0 < cap < U64_LIMIT / 2
    ensures ReadSpace(t % cap, r % cap, cap) == (t - r) % cap
  {
    WrapExact(t % cap, r % cap, cap);
    var x, k := t % cap - r % cap + cap, t / cap - r / cap - 1;
    DivMod(t, cap);
    DivMod(r, cap);
    MulAdd(t / cap, -(r / cap) - 1, cap);
    MulAdd(r / cap, 1, cap);
    assert (-(r / cap) - 1) * cap == -((r / cap + 1) * cap);
    assert t - r == x + k * cap;
    DivMod(x, cap);
    MulAdd(x / cap, k, cap);
    DivModUnique(t - r, cap, x / cap + k, x % cap);
  }

  lemma Apart(r: nat, w: nat, cap: nat)
    requires 0 < cap && r <= w < r + cap
    ensures (w % cap - r % cap + cap) % cap == w - r
    ensures (r % cap - w % cap + cap - 1) % cap == r + cap - 1 - w
  {
    var rx, tx, rq, wq := r % cap, w % cap, r / cap, w / cap;
    assert r == rq * cap + rx && w == wq * cap + tx;
    assert (rq - wq + 1) * cap == rq * cap - wq * cap + cap;
    assert (wq - rq) * cap == wq * cap - rq * cap;
    Residue(tx - rx + cap, w - r, rq - wq + 1, cap);
    Residue(rx - tx + cap - 1, r + cap - 1 - w, wq - rq, cap);
  }

  /** Byte `k` of a transfer that starts at counter `a` lies in the cell of counter `a + k`. */
  lemma CellExact(a: nat, count: nat, cap: nat, k: nat)
    requires k < count < cap < U64_LIMIT / 2
    ensures Cell(a % cap, count, cap, k) == (a + k) % cap
    ensures 0 <= Cell(a % cap, count, cap, k) < cap
  {
    ModAdd(a, k, cap);
    CellSlices(a % cap, count, cap, k);
  }

  lemma CellSlices(start: nat, count: nat, cap: nat, k: nat)
    requires start < cap && k < count < cap < U64_LIMIT / 2
    ensures Cell(start, count, cap, k) == WrapAdd(start, k) % cap
  {
    ModSmall(start + count, cap);
    ModSmall(start + k, cap);
  }

  // ---------------------------------------------------------------- every step keeps the invariant

  lemma InitialInv(size: nat)
    requires 0 < size < U64_LIMIT / 2
    ensures Inv(Initial(size))
  {
  }

  /** What a reader's step leaves to the writers. */
  ghost predicate WritersUndisturbed(s: State, n: State) {
    && n.writer == s.writer && n.fifo.data == s.fifo.data
    && n.fifo.writeResv == s.fifo.writeResv && n.fifo.writeCommit == s.fifo.writeCommit
    && n.log.writeResvs == s.log.writeResvs && n.log.writeCommits == s.log.writeCommits
    && s.log.readCommits <= n.log.readCommits && n.log.accepted == s.log.accepted
  }

  lemma ReaderKeepsGround(s: State)
    requires Ground(s) && ReaderOk(s)
    ensures Ground(NextReader(s)) && ReaderOk(NextReader(s)) && WritersUndisturbed(s, NextReader(s))
  {
    var g, cap := s.log, |s.fifo.data|;
    match s.reader
    case ReadIdle =>
    case ReadStart(_) =>
    case ReadGotRx(_, _) =>
    case ReadGotTx(_, _, _, _) => ReadReserveKeepsGround(s);
    case ReadCopy(start, count, out) =>
      if |out| < count {
        ReadByteKeepsGround(s);
      } else {
        ModAdd(g.readCommits, count, cap);
      }
  }

  lemma ReadReserveKeepsGround(s: State)
    requires Ground(s) && ReaderOk(s) && s.reader.ReadGotTx?
    ensures Ground(NextReader(s)) && ReaderOk(NextReader(s)) && WritersUndisturbed(s, NextReader(s))
  {
    var g, cap := s.log, |s.fifo.data|;
    var ReadGotTx(want, rx, tx, txCount) := s.reader;
    ReadSpaceExact(g.readResvs, txCount, cap);
    ModAdd(g.readResvs, Min(ReadSpace(tx, rx, cap), want), cap);
  }

  /** A byte copied out is the next accepted one. */
  lemma ReadByteKeepsGround(s: State)
    requires Ground(s) && ReaderOk(s) && s.reader.ReadCopy? && |s.reader.out| < s.reader.count
    ensures Ground(NextReader(s)) && ReaderOk(NextReader(s)) && WritersUndisturbed(s, NextReader(s))
  {
    CellExact(s.log.readCommits, s.reader.count, |s.fifo.data|, |s.reader.out|);
  }

  lemma ReaderKeepsInv(s: State)
    requires Inv(s)
    ensures Inv(NextReader(s))
  {
    ReaderKeepsGround(s);
  }

  /** What a writer's step leaves to the readers. */
  ghost predicate ReadersUndisturbed(s: State, n: State) {
    && n.reader == s.reader && |n.fifo.data| == |s.fifo.data|
    && n.fifo.readResv == s.fifo.readResv && n.fifo.readCommit == s.fifo.readCommit
    && n.log.readResvs == s.log.readResvs && n.log.readCommits == s.log.readCommits
    && s.log.writeCommits <= n.log.writeCommits && s.log.accepted <= n.log.accepted
  }

  lemma WriterKeepsCore(s: State)
    requires Core(s)
    ensures Core(NextWriter(s)) && ReadersUndisturbed(s, NextWriter(s))
  {
    var g, cap := s.log, |s.fifo.data|;
    match s.writer
    case WriteIdle =>
    case WriteStart(_) =>
    case WriteGotRx(_, _, _) =>
    case WriteGotTx(_, _, _, _) => WriteReserveKeepsCore(s);
    case WriteCopy(wdata, start, count, copied) =>
      if copied < count {
        WriteByteKeepsCore(s);
      } else {
        ModAdd(g.writeCommits, count, cap);
      }
  }

  lemma WriteReserveKeepsCore(s: State)
    requires Core(s) && s.writer.WriteGotTx?
    ensures Core(NextWriter(s)) && ReadersUndisturbed(s, NextWriter(s))
  {
    var g, cap := s.log, |s.fifo.data|;
    var WriteGotTx(wdata, rx, rxCount, tx) := s.writer;
    WriteSpaceExact(rxCount, g.writeResvs, cap);
    ModAdd(g.writeResvs, Min(WriteSpace(rx, tx, cap), |wdata|), cap);
  }

  /** A byte copied in lands in a free cell and leaves every unread byte alone. */
  lemma WriteByteKeepsCore(s: State)
    requires Core(s) && s.writer.WriteCopy? && s.writer.copied < s.writer.count
    ensures Core(NextWriter(s)) && ReadersUndisturbed(s, NextWriter(s))
  {
    var g, cap := s.log, |s.fifo.data|;
    var WriteCopy(wdata, start, count, copied) := s.writer;
    var at := g.writeCommits + copied;
    CellExact(g.writeCommits, count, cap, copied);
    forall i | g.readCommits <= i < at
      ensures i % cap != at % cap
    {
      CellsDiffer(i, at, cap);
    }
    assert g.accepted[at] == g.accepted[g.writeCommits..][copied];
  }

  lemma WriterKeepsInv(s: State)
    requires Inv(s)
    ensures Inv(NextWriter(s))
  {
    WriterKeepsCore(s);
  }

  // ---------------------------------------------------------------- whole runs

  /** The state after a run of steps. */
  function Run(size: nat, steps: seq<Step>): (s: State)
    requires size > 0
    ensures |s.fifo.data| == size
  {
    if steps == [] then Initial(size) else Next(Run(size, steps[..|steps| - 1]), steps[|steps| - 1])
  }

  lemma {:induction false} RunInv(size: nat, steps: seq<Step>)
    requires 0 < size < U64_LIMIT / 2
    ensures Inv(Run(size, steps))
  {
    if steps == [] {
      InitialInv(size);
    } else {
      RunInv(size, steps[..|steps| - 1]);
      var s := Run(size, steps[..|steps| - 1]);
      match steps[|steps| - 1]
      case Read(_) =>
      case Write(_) =>
      case StepReader => ReaderKeepsInv(s);
      case StepWriter => WriterKeepsInv(s);
    }
  }

  /** In every run, what has been delivered is a prefix, in order, of what has been accepted. */
  lemma DeliveredInOrder(size: nat, steps: seq<Step>)
    requires 0 < size < U64_LIMIT / 2
    ensures var g := Run(size, steps).log;
            g.delivered <= g.accepted && |g.accepted| - |g.delivered| < size
  {
    RunInv(size, steps);
  }

  /** In every run, a cell being filled is neither being copied out nor waiting to be. */
  lemma NoCellShared(size: nat, steps: seq<Step>, i: nat, k: nat)
    requires 0 < size < U64_LIMIT / 2
    requires var s := Run(size, steps);
             s.writer.WriteCopy? && k < s.writer.count && s.log.readCommits <= i < s.log.writeCommits
    ensures var s := Run(size, steps);
            Cell(s.writer.start, s.writer.count, size, k) != i % size
  {
    RunInv(size, steps);
    var s := Run(size, steps);
    CellExact(s.log.writeCommits, s.writer.count, size, k);
    CellsDiffer(i, s.log.writeCommits + k, size);
  }

  /** In every run, the reader copies out only committed bytes. */
  lemma ReaderWithinCommitted(size: nat, steps: seq<Step>, k: nat)
    requires 0 < size < U64_LIMIT / 2
    requires var s := Run(size, steps); s.reader.ReadCopy? && k < s.reader.count
    ensures var s := Run(size, steps);
            && s.log.readCommits + k < s.log.writeCommits
            && Cell(s.reader.start, s.reader.count, size, k) == (s.log.readCommits + k) % size
  {
    RunInv(size, steps);
    var s := Run(size, steps);
    CellExact(s.log.readCommits, s.reader.count, size, k);
  }

  /** With one reader and one writer no compare-exchange ever fails, so no step repeats itself. */
  lemma ExchangesSucceed(size: nat, steps: seq<Step>)
    requires 0 < size < U64_LIMIT / 2
    ensures var s := Run(size, steps);
            && (!s.reader.ReadIdle? ==> NextReader(s) != s)
            && (!s.writer.WriteIdle? ==> NextWriter(s) != s)
            && (s.reader.ReadGotTx? ==> s.fifo.readResv == s.reader.rx)
            && (s.reader.ReadCopy? ==> s.fifo.readCommit == s.reader.start)
            && (s.writer.WriteGotTx? ==> s.fifo.writeResv == s.writer.tx)
            && (s.writer.WriteCopy? ==> s.fifo.writeCommit == s.writer.start)
  {
    RunInv(size, steps);
    var s := Run(size, steps);
    if s.reader.ReadCopy? && |s.reader.out| < s.reader.count {
      CellExact(s.log.readCommits, s.reader.count, size, |s.reader.out|);
    }
    if s.writer.WriteCopy? && s.writer.copied < s.writer.count {
      CellExact(s.log.writeCommits, s.writer.count, size, s.writer.copied);
    }
  }

  lemma ReadTakesAll(s: State)
    requires Inv(s) && s.reader.ReadGotTx?
    ensures NextReader(s).log.readResvs == s.log.readResvs + Min(s.reader.want, s.reader.txCount - s.log.readResvs)
  {
    ReadSpaceExact(s.log.readResvs, s.reader.txCount, |s.fifo.data|);
  }

  lemma WriteTakesAll(s: State)
    requires Inv(s) && s.writer.WriteGotTx?
    ensures var free := s.writer.rxCount + |s.fifo.data| - 1 - |s.log.accepted|;
            && 0 <= free
            && NextWriter(s).log.accepted == s.log.accepted + s.writer.wdata[..Min(|s.writer.wdata|, free)]
  {
    WriteSpaceExact(s.writer.rxCount, s.log.writeResvs, |s.fifo.data|);
  }

  /**
   * A reservation takes everything committed when it looked, a write everything that was free, up
   * to what was asked.
   */
  lemma ReservationsMaximal(size: nat, steps: seq<Step>)
    requires 0 < size < U64_LIMIT / 2
    ensures var s := Run(size, steps);
            && (s.reader.ReadGotTx? ==>
                  NextReader(s).log.readResvs
                  == s.log.readResvs + Min(s.reader.want, s.reader.txCount - s.log.readResvs))
            && (s.writer.WriteGotTx? ==>
                  var free := s.writer.rxCount + size - 1 - |s.log.accepted|;
                  && 0 <= free
                  && NextWriter(s).log.accepted == s.log.accepted + s.writer.wdata[..Min(|s.writer.wdata|, free)])
  {
    RunInv(size, steps);
    var s := Run(size, steps);
    if s.reader.ReadGotTx? { ReadTakesAll(s); }
    if s.writer.WriteGotTx? { WriteTakesAll(s); }
  }

  function ReadAvl(f: Fifo): nat
    requires |f.data| > 0
  {
    ReadSpace(f.writeCommit, f.readResv, |f.data|)
  }

  function WriteAvl(f: Fifo): nat
    requires |f.data| > 0
  {
    WriteSpace(f.readResv, f.writeCommit, |f.data|)
  }

  /**
   * The readable amount is exact.  The writable amount looks at the reader's reservation
   * and the writer's commit, so it is the free space exactly when no copy is under way,
   * and too large otherwise.
   */
  lemma AvailableAmounts(size: nat, steps: seq<Step>)
    requires 0 < size < U64_LIMIT / 2
    ensures var s := Run(size, steps);
            var free := size - 1 - (s.log.writeResvs - s.log.readCommits);
            && ReadAvl(s.fifo) == s.log.writeCommits - s.log.readResvs
            && WriteAvl(s.fifo) >= free
            && (WriteAvl(s.fifo) == free <==> !s.reader.ReadCopy? && !s.writer.WriteCopy?)
  {
    RunInv(size, steps);
    var s := Run(size, steps);
    ReadSpaceExact(s.log.readResvs, s.log.writeCommits, size);
    WriteSpaceExact(s.log.readResvs, s.log.writeCommits, size);
  }

  /** A byte reserved by the writer and not yet committed still counts as writable. */
  lemma WritableTooLarge()
    ensures var s := Run(4, [Write([7]), StepWriter, StepWriter, StepWriter]);
            && s.writer.WriteCopy?
            && WriteAvl(s.fifo) == 3 && 4 - 1 - (s.log.writeResvs - s.log.readCommits) == 2
  {
    var a: seq<Step> := [Write([7])];
    assert Run(4, a) == Initial(4).(writer := WriteStart([7])) by { assert a[..0] == []; }
    var b := [Write([7]), StepWriter];
    assert b[..1] == a;
    var c := [Write([7]), StepWriter, StepWriter];
    assert c[..2] == b;
    assert Run(4, c) == Initial(4).(writer := WriteGotTx([7], 0, 0, 0));
    assert [Write([7]), StepWriter, StepWriter, StepWriter][..3] == c;
  }

  // ---------------------------------------------------------------- amounts from two loads

  predicate ByReader(step: Step) { step.Read? || step.StepReader? }

  lemma {:induction false} WritersOnly(size: nat, before: seq<Step>, between: seq<Step>)
    requires size > 0 && forall i | 0 <= i < |between| :: !ByReader(between[i])
    ensures Run(size, before + between).fifo.readResv == Run(size, before).fifo.readResv
  {
    if between == [] {
      assert before + between == before;
    } else {
      var last := |between| - 1;
      WritersOnly(size, before, between[..last]);
      assert (before + between)[..|before + between| - 1] == before + between[..last];
    }
  }

  lemma {:induction false} ReadersOnly(size: nat, before: seq<Step>, between: seq<Step>)
    requires size > 0 && forall i | 0 <= i < |between| :: ByReader(between[i])
    ensures Run(size, before + between).fifo.writeCommit == Run(size, before).fifo.writeCommit
  {
    if between == [] {
      assert before + between == before;
    } else {
      var last := |between| - 1;
      ReadersOnly(size, before, between[..last]);
      assert (before + between)[..|before + between| - 1] == before + between[..last];
    }
  }

  /** What may be read and what may be written make up the capacity less one. */
  lemma SpacesSum(tx: nat, rx: nat, cap: nat)
    requires tx < cap && rx < cap < U64_LIMIT / 2
    ensures ReadSpace(tx, rx, cap) + WriteSpace(rx, tx, cap) == cap - 1
  {
    WrapExact(tx, rx, cap);
    WrapExact(rx, tx, cap);
    ModSmall(tx - rx + cap, cap);
    ModSmall(rx - tx + cap - 1, cap);
  }

  lemma SameResidue(a: int, b: int, cap: nat)
    requires cap > 0
    ensures a % cap == b % cap <==> (a - b) % cap == 0
  {
    var p, q, k := a / cap, b / cap, (a - b) / cap;
    assert a == p * cap + a % cap && b == q * cap + b % cap && a - b == k * cap + (a - b) % cap;
    MulAdd(p - q, q, cap);
    MulAdd(k, q, cap);
    if a % cap == b % cap {
      DivModUnique(a - b, cap, p - q, 0);
    } else if (a - b) % cap == 0 {
      DivModUnique(a, cap, k + q, b % cap);
    }
  }

  lemma SameFromEnd(w: int, r: int, was: int, cap: nat)
    requires cap > 0
    ensures (w - was) % cap == (w - r) % cap <==> (r - was) % cap == 0
  {
    SameResidue(w - was, w - r, cap);
    assert (w - was) - (w - r) == r - was;
  }

  /** `read_avl` with the reader's reservation loaded in `s` and the writer's commit in `n`. */
  function Readable(s: State, n: State): nat
    requires |s.fifo.data| > 0
  {
    ReadSpace(n.fifo.writeCommit, s.fifo.readResv, |s.fifo.data|)
  }

  /** `write_avl` with the same two loads. */
  function Writable(s: State, n: State): nat
    requires |s.fifo.data| > 0
  {
    WriteSpace(s.fifo.readResv, n.fifo.writeCommit, |s.fifo.data|)
  }

  /** The reader has gone on by a whole number of laps. */
  predicate WholeLaps(s: State, n: State)
    requires |s.fifo.data| > 0
  {
    (n.log.readResvs - s.log.readResvs) % |s.fifo.data| == 0
  }

  lemma TwoLoads(s: State, n: State)
    requires Inv(s) && Inv(n) && |s.fifo.data| == |n.fifo.data|
    ensures Readable(s, n) == (n.log.writeCommits - s.log.readResvs) % |s.fifo.data|
    ensures Writable(s, n) == |s.fifo.data| - 1 - Readable(s, n)
    ensures Readable(s, n) == Readable(n, n) <==> WholeLaps(s, n)
    ensures Writable(s, n) == Writable(n, n) <==> WholeLaps(s, n)
  {
    var cap := |s.fifo.data|;
    ReadSpaceRound(n.log.writeCommits, s.log.readResvs, cap);
    ReadSpaceRound(n.log.writeCommits, n.log.readResvs, cap);
    SameFromEnd(n.log.writeCommits, n.log.readResvs, s.log.readResvs, cap);
    SpacesSum(n.fifo.writeCommit, s.fifo.readResv, cap);
    SpacesSum(n.fifo.writeCommit, n.fifo.readResv, cap);
  }

  /**
   * Both amounts load the reader's reservation first and the writer's commit second, with any
   * steps in between.  Called by the reader they are those of the second load, called by the
   * writer those of the first.  For a third thread they are those of the second load exactly
   * when the reader went on by whole laps meanwhile.
   */
  lemma AmountsOverTime(size: nat, before: seq<Step>, between: seq<Step>, s: State, n: State)
    requires 0 < size < U64_LIMIT / 2 && s == Run(size, before) && n == Run(size, before + between)
    ensures Readable(s, n) == (n.log.writeCommits - s.log.readResvs) % size
    ensures Writable(s, n) == size - 1 - Readable(s, n)
    ensures (forall i | 0 <= i < |between| :: !ByReader(between[i])) ==>
              Readable(s, n) == ReadAvl(n.fifo) && Writable(s, n) == WriteAvl(n.fifo)
    ensures (forall i | 0 <= i < |between| :: ByReader(between[i])) ==>
              Readable(s, n) == ReadAvl(s.fifo) && Writable(s, n) == WriteAvl(s.fifo)
    ensures Readable(s, n) == ReadAvl(n.fifo) <==> WholeLaps(s, n)
    ensures Writable(s, n) == WriteAvl(n.fifo) <==> WholeLaps(s, n)
  {
    RunInv(size, before);
    RunInv(size, before + between);
    TwoLoads(s, n);
    if forall i | 0 <= i < |between| :: !ByReader(between[i]) { WritersOnly(size, before, between); }
    if forall i | 0 <= i < |between| :: ByReader(between[i]) { ReadersOnly(size, before, between); }
  }
}
