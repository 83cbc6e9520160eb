/** Counting primes on two cores: every access to a shared variable, and every number tried, is a step
    of its own, and the cores' steps interleave in any order. */
module DualCore {
  import opened Primes

  /** Core 0 after the launch: publish the upper half, count the lower half, wait, add. */
  datatype Main =
    | SetBegin | SetEnd | SetRun
    | Count0(i: nat, found: nat)
    | Wait0(found: nat)
    | Add(found: nat)
    | Done0(result: int)

  /** Core 1: wait, fetch the range, count it, hand in the count. */
  datatype Worker =
    | Wait1 | LoadBegin
    | LoadEnd(beg: int)
    | Count1(i: int, end: int, found: nat)
    | StoreCount(found: nat)
    | ClearRun | Done1

  /** The shared variables and both cores. */
  datatype State = State(arg0: int, arg1: int, run: int, main: Main, worker: Worker)

  datatype Core = Core0 | Core1

  /** What counting adds for one number. */
  ghost function Tally(n: int): nat {
    if n >= 0 && Reported(n) then 1 else 0
  }

  /** The arguments may hold anything at first; the flag is clear. */
  predicate Init(s: State) {
    s.run == 0 && s.main == SetBegin && s.worker == Wait1
  }

  ghost function StepMain(s: State, limit: nat): State {
    match s.main
    case SetBegin => s.(arg0 := limit / 2, main := SetEnd)
    case SetEnd => s.(arg1 := limit, main := SetRun)
    case SetRun => s.(run := 1, main := Count0(0, 0))
    case Count0(i, found) => s.(main := if i < limit / 2 then Count0(i + 1, found + Tally(i)) else Wait0(found))
    case Wait0(found) => if s.run != 0 then s else s.(main := Add(found))
    case Add(found) => s.(main := Done0(found + s.arg0))
    case Done0(_) => s
  }

  ghost function StepWorker(s: State): State {
    match s.worker
    case Wait1 => if s.run == 0 then s else s.(worker := LoadBegin)
    case LoadBegin => s.(worker := LoadEnd(s.arg0))
    case LoadEnd(beg) => s.(worker := Count1(beg, s.arg1, 0))
    case Count1(i, end, found) => s.(worker := if i < end then Count1(i + 1, end, found + Tally(i)) else StoreCount(found))
    case StoreCount(found) => s.(arg0 := found, worker := ClearRun)
    case ClearRun => s.(run := 0, worker := Done1)
    case Done1 => s
  }

  ghost function Step(s: State, core: Core, limit: nat): State {
    if core == Core0 then StepMain(s, limit) else StepWorker(s)
  }

  /** The state a schedule leads to. */
  ghost function Run(s: State, schedule: seq<Core>, limit: nat): State
    decreases |schedule|
  {
    if schedule == [] then s else Run(Step(s, schedule[0], limit), schedule[1..], limit)
  }

  // ---- The invariant ---------------------------------------------------------------------

  predicate Published(main: Main) {
    !main.SetBegin? && !main.SetEnd? && !main.SetRun?
  }

  /** Before the flag is set core 1 has read nothing, and the arguments are on their way. */
  predicate Publishing(s: State, limit: nat) {
    && s.run == 0 && s.worker == Wait1
    && (!s.main.SetBegin? ==> s.arg0 == limit / 2)
    && (s.main.SetRun? ==> s.arg1 == limit)
  }

  /** Core 1's half of the work. */
  ghost function UpperCount(limit: nat): nat {
    |PrimesIn(limit / 2, limit)|
  }

  ghost predicate WorkerInv(s: State, limit: nat) {
    match s.worker
    case Wait1 => s.run == 1 && s.arg0 == limit / 2 && s.arg1 == limit
    case LoadBegin => s.run == 1 && s.arg0 == limit / 2 && s.arg1 == limit
    case LoadEnd(beg) => s.run == 1 && beg == limit / 2 && s.arg1 == limit
    case Count1(i, end, found) => s.run == 1 && end == limit && limit / 2 <= i <= limit && found == |PrimesIn(limit / 2, i)|
    case StoreCount(found) => s.run == 1 && found == UpperCount(limit)
    case ClearRun => s.run == 1 && s.arg0 == UpperCount(limit)
    case Done1 => s.run == 0 && s.arg0 == UpperCount(limit)
  }

  ghost predicate MainInv(s: State, limit: nat) {
    match s.main
    case Count0(i, found) => i <= limit / 2 && found == |PrimesIn(0, i)|
    case Wait0(found) => found == |PrimesIn(0, limit / 2)|
    case Add(found) => found == |PrimesIn(0, limit / 2)| && s.worker == Done1
    case Done0(result) => result == |PrimesIn(0, limit)|
    case _ => true
  }

  ghost predicate Inv(s: State, limit: nat) {
    MainInv(s, limit) && if Published(s.main) then WorkerInv(s, limit) else Publishing(s, limit)
  }

  lemma TallyCounts(beg: nat, i: nat)
    requires beg <= i < 65535 * 65535
    ensures |PrimesIn(beg, i + 1)| == |PrimesIn(beg, i)| + Tally(i)
  {
    ExactWithoutWrap(i);
    OneMorePrime(beg, i);
  }

  lemma NoneIn(beg: nat)
    ensures |PrimesIn(beg, beg)| == 0
  {
    assert PrimesIn(beg, beg) == {};
  }

  lemma MainKeepsInv(s: State, limit: nat)
    requires Inv(s, limit) && limit < 0x8000_0000
    ensures Inv(StepMain(s, limit), limit)
  {
    match s.main
    case SetRun => NoneIn(0);
    case Count0(i, found) => if i < limit / 2 { TallyCounts(0, i); }
    case Add(found) => SplitCount(0, limit / 2, limit);
    case _ =>
  }

  lemma WorkerKeepsInv(s: State, limit: nat)
    requires Inv(s, limit) && limit < 0x8000_0000
    ensures Inv(StepWorker(s), limit)
  {
    match s.worker
    case LoadEnd(beg) => NoneIn(limit / 2);
    case Count1(i, end, found) => if i < end { TallyCounts(limit / 2, i); }
    case _ =>
  }

  lemma {:induction false} RunKeepsInv(s: State, schedule: seq<Core>, limit: nat)
    requires Inv(s, limit) && limit < 0x8000_0000
    ensures Inv(Run(s, schedule, limit), limit)
    decreases |schedule|
  {
    if schedule != [] {
      if schedule[0] == Core0 { MainKeepsInv(s, limit); } else { WorkerKeepsInv(s, limit); }
      RunKeepsInv(Step(s, schedule[0], limit), schedule[1..], limit);
    }
  }

  /** In every interleaving, once core 0 is done its result is the number of primes below the limit. */
  lemma ResultIsPrimeCount(s: State, schedule: seq<Core>, limit: nat)
    requires Init(s) && limit < 0x8000_0000
    ensures var t := Run(s, schedule, limit); t.main.Done0? ==> t.main.result == |PrimesIn(0, limit)|
  {
    RunKeepsInv(s, schedule, limit);
  }

  /** In every interleaving, core 1 counts exactly the published upper half and
      core 0 reads the count only after core 1 has stored it. */
  lemma Handshake(s: State, schedule: seq<Core>, limit: nat)
    requires Init(s) && limit < 0x8000_0000
    ensures var t := Run(s, schedule, limit);
      && (t.worker != Wait1 ==> Published(t.main))
      && (t.worker.Count1? ==> t.worker.end == limit && limit / 2 <= t.worker.i && t.worker.found == |PrimesIn(limit / 2, t.worker.i)|)
      && (t.main.Add? ==> t.worker == Done1 && t.arg0 == |PrimesIn(limit / 2, limit)|)
  {
    RunKeepsInv(s, schedule, limit);
  }

  // ---- Termination -----------------------------------------------------------------------

  /** The core is not done and not kept waiting. */
  predicate Ready(s: State, core: Core) {
    if core == Core0 then
      !s.main.Done0? && (s.main.Wait0? ==> s.run == 0)
    else
      s.worker != Done1 && (s.worker == Wait1 ==> s.run != 0)
  }

  /** Steps left, not counting waits. */
  ghost function Work(s: State, limit: nat): nat
    requires Inv(s, limit)
  {
    WorkMain(s.main, limit / 2) + WorkWorker(s.worker, limit)
  }

  function WorkMain(main: Main, half: nat): nat {
    match main
    case SetBegin => half + 6
    case SetEnd => half + 5
    case SetRun => half + 4
    case Count0(i, _) => if i < half then half - i + 3 else 3
    case Wait0(_) => 2
    case Add(_) => 1
    case Done0(_) => 0
  }

  function WorkWorker(worker: Worker, limit: nat): nat {
    match worker
    case Wait1 => limit + 6
    case LoadBegin => limit + 5
    case LoadEnd(_) => limit + 4
    case Count1(i, _, _) => if 0 <= i < limit then limit - i + 3 else 3
    case StoreCount(_) => 2
    case ClearRun => 1
    case Done1 => 0
  }

  /** A step of a ready core makes progress; a step of any other core changes nothing. */
  lemma Progress(s: State, core: Core, limit: nat)
    requires Inv(s, limit) && limit < 0x8000_0000
    ensures Inv(Step(s, core, limit), limit)
    ensures !Ready(s, core) ==> Step(s, core, limit) == s
    ensures Ready(s, core) ==> Work(Step(s, core, limit), limit) < Work(s, limit)
  {
    if core == Core0 { MainKeepsInv(s, limit); } else { WorkerKeepsInv(s, limit); }
  }

  /** No deadlock: until both are done, one core is ready. */
  lemma SomeoneReady(s: State, limit: nat)
    requires Inv(s, limit)
    ensures Work(s, limit) == 0 || Ready(s, Core0) || Ready(s, Core1)
    ensures Work(s, limit) == 0 ==> s.main.Done0? && s.worker == Done1
  {
  }

  /** A stretch in which both cores get a turn makes progress, unless both are done. */
  lemma {:induction false} Stretch(s: State, schedule: seq<Core>, limit: nat)
    requires Inv(s, limit) && limit < 0x8000_0000 && Core0 in schedule && Core1 in schedule
    ensures Inv(Run(s, schedule, limit), limit)
    ensures Work(s, limit) == 0 || Work(Run(s, schedule, limit), limit) < Work(s, limit)
  {
    RunKeepsInv(s, schedule, limit);
    SomeoneReady(s, limit);
    if Ready(s, Core0) { ReadyRuns(s, Core0, schedule, limit); }
    else if Ready(s, Core1) { ReadyRuns(s, Core1, schedule, limit); }
  }

  /** Work never grows, and shrinks when a ready core gets a turn. */
  lemma {:induction false} ReadyRuns(s: State, core: Core, schedule: seq<Core>, limit: nat)
    requires Inv(s, limit) && limit < 0x8000_0000
    ensures Inv(Run(s, schedule, limit), limit)
    ensures Work(Run(s, schedule, limit), limit) <= Work(s, limit)
    ensures Ready(s, core) && core in schedule ==> Work(Run(s, schedule, limit), limit) < Work(s, limit)
    decreases |schedule|
  {
    if schedule != [] {
      Progress(s, schedule[0], limit);
      ReadyRuns(Step(s, schedule[0], limit), core, schedule[1..], limit);
    }
  }

  /** Stretches one after the other. */
  function Joined(rounds: seq<seq<Core>>): seq<Core> {
    if rounds == [] then [] else rounds[0] + Joined(rounds[1..])
  }

  lemma {:induction false} RunJoined(s: State, a: seq<Core>, b: seq<Core>, limit: nat)
    ensures Run(s, a + b, limit) == Run(Run(s, a, limit), b, limit)
    decreases |a|
  {
    if a == [] {
      assert a + b == b;
    } else {
      assert (a + b)[1..] == a[1..] + b;
      RunJoined(Step(s, a[0], limit), a[1..], b, limit);
    }
  }

  lemma {:induction false} FairRunsShrink(s: State, rounds: seq<seq<Core>>, limit: nat)
    requires Inv(s, limit) && limit < 0x8000_0000
    requires forall r :: r in rounds ==> Core0 in r && Core1 in r
    ensures Inv(Run(s, Joined(rounds), limit), limit)
    ensures var left := Work(Run(s, Joined(rounds), limit), limit); left == 0 || left + |rounds| <= Work(s, limit)
    decreases |rounds|
  {
    if rounds != [] {
      var t := Run(s, rounds[0], limit);
      Stretch(s, rounds[0], limit);
      ReadyRuns(s, Core0, rounds[0], limit);
      RunJoined(s, rounds[0], Joined(rounds[1..]), limit);
      FairRunsShrink(t, rounds[1..], limit);
      ReadyRuns(t, Core0, Joined(rounds[1..]), limit);
    }
  }

  /** Every fair run ends with the answer: after `limit + limit / 2 + 12` stretches in which both cores
      get a turn, core 0 is done and has the number of primes below the limit. */
  lemma FairRunsFinish(s: State, rounds: seq<seq<Core>>, limit: nat)
    requires Init(s) && limit < 0x8000_0000
    requires forall r :: r in rounds ==> Core0 in r && Core1 in r
    requires |rounds| >= limit + limit / 2 + 12
    ensures Run(s, Joined(rounds), limit).main == Done0(|PrimesIn(0, limit)|)
    ensures Run(s, Joined(rounds), limit).worker == Done1
  {
    FairRunsShrink(s, rounds, limit);
    SomeoneReady(Run(s, Joined(rounds), limit), limit);
  }
}
