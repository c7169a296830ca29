/**
 * The counter that keeps a file from being open for writing while it is mapped with
 * writes denied, as in src/filesystem/vfs.rs and src/filesystem/mod.rs.  Each step is one
 * atomic update of the counter.
 */
module DenyWrites {
  import opened Common

  type Handle = nat
  type Mapping = nat

  /** Open handles, with whether each is open for writing, and mappings, with whether each denies writes. */
  datatype State = State(counter: int, handles: map<Handle, bool>, mappings: map<Mapping, bool>)

  datatype Step =
    | Open(h: Handle, write: bool) | SetFlags(h: Handle, write: bool) | Close(h: Handle)
    | Map(m: Mapping, deny: bool) | Unmap(m: Mapping)

  /** What a step returns to its caller; a step that is not possible is ignored. */
  datatype Reply = Ok | Busy | AssertionFailed | Ignored

  function Next(s: State, step: Step): (State, Reply) {
    match step
    case Open(h, write) =>
      if h in s.handles then (s, Ignored)
      else if !write then (s.(handles := s.handles[h := false]), Ok)
      else if s.counter <= 0 then (s.(counter := s.counter - 1, handles := s.handles[h := true]), Ok)
      else (s, Busy)
    case SetFlags(h, write) =>
      if h !in s.handles then (s, Ignored)
      else if s.handles[h] && !write then (s.(counter := s.counter + 1, handles := s.handles[h := false]), Ok)
      else if s.handles[h] || !write then (s, Ok)
      else if s.counter <= 0 then (s.(counter := s.counter - 1, handles := s.handles[h := true]), Ok)
      else (s, Busy)
    case Close(h) =>
      if h !in s.handles then (s, Ignored)
      else if !s.handles[h] then (s.(handles := s.handles - {h}), Ok)
      else (s.(counter := s.counter + 1, handles := s.handles - {h}), if s.counter <= -1 then Ok else AssertionFailed)
    case Map(m, deny) =>
      if m in s.mappings then (s, Ignored)
      else if !deny then (s.(mappings := s.mappings[m := false]), Ok)
      else if s.counter >= 0 then (s.(counter := s.counter + 1, mappings := s.mappings[m := true]), Ok)
      else (s, Busy)
    case Unmap(m) =>
      if m !in s.mappings then (s, Ignored)
      else if !s.mappings[m] then (s.(mappings := s.mappings - {m}), Ok)
      else (s.(counter := s.counter - 1, mappings := s.mappings - {m}), if s.counter >= 1 then Ok else AssertionFailed)
  }

  function Run(steps: seq<Step>): State {
    if steps == [] then State(0, map[], map[]) else Next(Run(steps[..|steps| - 1]), steps[|steps| - 1]).0
  }

  ghost function Writers(s: State): set<Handle> {
    set h | h in s.handles && s.handles[h]
  }

  ghost function Deniers(s: State): set<Mapping> {
    set m | m in s.mappings && s.mappings[m]
  }

  ghost predicate Inv(s: State) {
    && s.counter == |Deniers(s)| - |Writers(s)|
    && (Writers(s) == {} || Deniers(s) == {})
  }

  lemma HandleStep(s: State, h: Handle, write: bool)
    ensures |Writers(s.(handles := s.handles[h := write]))|
         == |Writers(s)| + (if write then 1 else 0) - (if h in Writers(s) then 1 else 0)
    ensures |Writers(s.(handles := s.handles - {h}))| == |Writers(s)| - (if h in Writers(s) then 1 else 0)
  {
    SizeAfter(Writers(s), Writers(s.(handles := s.handles[h := write])), h, write);
    SizeAfter(Writers(s), Writers(s.(handles := s.handles - {h})), h, false);
  }

  lemma MappingStep(s: State, m: Mapping, deny: bool)
    ensures |Deniers(s.(mappings := s.mappings[m := deny]))|
         == |Deniers(s)| + (if deny then 1 else 0) - (if m in Deniers(s) then 1 else 0)
    ensures |Deniers(s.(mappings := s.mappings - {m}))| == |Deniers(s)| - (if m in Deniers(s) then 1 else 0)
  {
    SizeAfter(Deniers(s), Deniers(s.(mappings := s.mappings[m := deny])), m, deny);
    SizeAfter(Deniers(s), Deniers(s.(mappings := s.mappings - {m})), m, false);
  }

  /** The exclusion and the counter, as sizes. */
  lemma InvSizes(s: State)
    ensures Inv(s) <==> s.counter == |Deniers(s)| - |Writers(s)| && (|Writers(s)| == 0 || |Deniers(s)| == 0)
  {
  }

  lemma StepKeepsInv(s: State, step: Step)
    requires Inv(s)
    ensures Inv(Next(s, step).0) && Next(s, step).1 != AssertionFailed
  {
    var n := Next(s, step).0;
    InvSizes(s);
    InvSizes(n);
    match step
    case Open(h, write) =>
      HandleStep(s, h, write);
      assert n != s ==> Writers(n) == Writers(s.(handles := s.handles[h := write])) && Deniers(n) == Deniers(s);
    case SetFlags(h, write) =>
      HandleStep(s, h, write);
      assert n != s ==> Writers(n) == Writers(s.(handles := s.handles[h := write])) && Deniers(n) == Deniers(s);
    case Close(h) =>
      HandleStep(s, h, false);
      assert n != s ==> Writers(n) == Writers(s.(handles := s.handles - {h})) && Deniers(n) == Deniers(s);
    case Map(m, deny) =>
      MappingStep(s, m, deny);
      assert n != s ==> Deniers(n) == Deniers(s.(mappings := s.mappings[m := deny])) && Writers(n) == Writers(s);
    case Unmap(m) =>
      MappingStep(s, m, false);
      assert n != s ==> Deniers(n) == Deniers(s.(mappings := s.mappings - {m})) && Writers(n) == Writers(s);
  }

  lemma {:induction false} RunInv(steps: seq<Step>)
    ensures Inv(Run(steps))
  {
    if steps == [] {
      assert Writers(Run(steps)) == {} && Deniers(Run(steps)) == {};
    } else {
      RunInv(steps[..|steps| - 1]);
      StepKeepsInv(Run(steps[..|steps| - 1]), steps[|steps| - 1]);
    }
  }

  /**
   * In every run, no file is open for writing and mapped with writes denied at once,
   * the counter tells which, and the assertions on closing and unmapping hold.
   */
  lemma WritesExcluded(steps: seq<Step>, step: Step)
    ensures var s := Run(steps);
            && s.counter == |Deniers(s)| - |Writers(s)| && (Writers(s) == {} || Deniers(s) == {})
            && Next(s, step).1 != AssertionFailed
  {
    RunInv(steps);
    StepKeepsInv(Run(steps), step);
  }

  /** In every run, a request is refused exactly when it would break the exclusion. */
  lemma BusyExactly(steps: seq<Step>, step: Step)
    ensures var s := Run(steps);
            Next(s, step).1 == Busy <==>
              || (step.Open? && step.h !in s.handles && step.write && Deniers(s) != {})
              || (step.SetFlags? && step.h in s.handles && !s.handles[step.h] && step.write && Deniers(s) != {})
              || (step.Map? && step.m !in s.mappings && step.deny && Writers(s) != {})
  {
    RunInv(steps);
    InvSizes(Run(steps));
  }
}
