/**
  The `Vector` pipeline object and its counters (vector-bindings/src/lib.rs:417-543).

  `process_logs` does not hold the object while the VRL runs, so batches of several
  threads and calls of `initialize` interleave.  The class gives each locked section as
  a method; the state machine below runs those sections in any order.
 */
module Pipeline {
  import opened Wrappers
  import opened Conversion
  import opened Events

  /** Adding 64-bit counters: pegs at the maximum. */
  function SaturatingAdd(a: U64, b: U64): U64 {
    if a + b <= U64_MAX then a + b else U64_MAX
  }

  function Saturated(n: nat): U64 {
    if n <= U64_MAX then n else U64_MAX
  }

  datatype Counters = Counters(processed: U64, errors: U64, bytes: U64) {
    function Add(more: Counters): Counters {
      Counters(SaturatingAdd(processed, more.processed), SaturatingAdd(errors, more.errors),
               SaturatingAdd(bytes, more.bytes))
    }
  }

  const ZERO := Counters(0, 0, 0)

  /** The bytes of a character in UTF-8. */
  function Utf8Width(c: char): nat {
    var n := c as int;
    if n < 0x80 then 1 else if n < 0x800 then 2 else if n < 0x1_0000 then 3 else 4
  }

  function ByteLength(s: string): nat {
    if s == [] then 0 else Utf8Width(s[0]) + ByteLength(s[1..])
  }

  /** A batch whose programs have run: each log with whether its event succeeded. */
  type Batch = seq<(string, bool)>

  function Succeeded(batch: Batch): nat {
    if batch == [] then 0 else Succeeded(batch[..|batch| - 1]) + if batch[|batch| - 1].1 then 1 else 0
  }

  function Failed(batch: Batch): nat {
    if batch == [] then 0 else Failed(batch[..|batch| - 1]) + if batch[|batch| - 1].1 then 0 else 1
  }

  function Bytes(batch: Batch): nat {
    if batch == [] then 0 else Bytes(batch[..|batch| - 1]) + ByteLength(batch[|batch| - 1].0)
  }

  /** The true sums over a batch, each capped at the 64-bit maximum. */
  function Tally(batch: Batch): Counters {
    Counters(Saturated(Succeeded(batch)), Saturated(Failed(batch)), Saturated(Bytes(batch)))
  }

  /** Each log with its outcome's verdict, in order. */
  function Judged(logs: seq<string>, outcomes: seq<Outcome>): Batch
    requires |logs| == |outcomes|
  {
    seq(|logs|, i requires 0 <= i < |logs| => (logs[i], outcomes[i].result.Ok?))
  }

  // What the counts mean.

  /** UTF-8 spends one byte on seven bits of a character, then two, three and four on eleven, sixteen and the rest. */
  lemma Utf8WidthExactly(c: char)
    ensures Utf8Width(c) == 1 <==> c < '\U{80}'
    ensures Utf8Width(c) == 2 <==> '\U{80}' <= c < '\U{800}'
    ensures Utf8Width(c) == 3 <==> '\U{800}' <= c < '\U{10000}'
    ensures Utf8Width(c) == 4 <==> '\U{10000}' <= c
  {
  }

  lemma SaturationExactly(a: U64, b: U64, n: nat)
    ensures SaturatingAdd(a, b) == if a + b > 18446744073709551615 then 18446744073709551615 else a + b
    ensures Saturated(n) == if n > 18446744073709551615 then 18446744073709551615 else n
  {
  }

  lemma {:induction false} ByteLengthOfConcat(a: string, b: string)
    ensures ByteLength(a + b) == ByteLength(a) + ByteLength(b)
  {
    if a == [] {
      assert a + b == b;
    } else {
      assert (a + b)[1..] == a[1..] + b;
      ByteLengthOfConcat(a[1..], b);
    }
  }

  /** All the texts as one. */
  function Concat(logs: seq<string>): string {
    if logs == [] then "" else Concat(logs[..|logs| - 1]) + logs[|logs| - 1]
  }

  /** The places in a batch whose verdict is `verdict`. */
  function PlacesOf(verdicts: seq<bool>, verdict: bool): set<nat> {
    set i: nat | i < |verdicts| && verdicts[i] == verdict
  }

  lemma OneMorePlace(verdicts: seq<bool>, n: nat, verdict: bool)
    requires |verdicts| == n + 1
    ensures |PlacesOf(verdicts, verdict)|
            == |PlacesOf(verdicts[..n], verdict)| + if verdicts[n] == verdict then 1 else 0
  {
    var earlier := PlacesOf(verdicts[..n], verdict);
    assert PlacesOf(verdicts, verdict) == earlier + if verdicts[n] == verdict then {n} else {};
  }

  /** A batch's sums: its good verdicts, its bad ones, and the bytes of its logs whatever their verdicts. */
  lemma {:induction false} SumsExactly(logs: seq<string>, verdicts: seq<bool>)
    requires |logs| == |verdicts|
    ensures var batch := Zipped(logs, verdicts);
            && Succeeded(batch) == |PlacesOf(verdicts, true)|
            && Failed(batch) == |PlacesOf(verdicts, false)|
            && Bytes(batch) == ByteLength(Concat(logs))
  {
    if logs != [] {
      var n := |logs| - 1;
      var batch := Zipped(logs, verdicts);
      SumsExactly(logs[..n], verdicts[..n]);
      assert batch[..n] == Zipped(logs[..n], verdicts[..n]);
      assert batch[n] == (logs[n], verdicts[n]);
      OneMorePlace(verdicts, n, true);
      OneMorePlace(verdicts, n, false);
      ByteLengthOfConcat(Concat(logs[..n]), logs[n]);
    }
  }

  /**
    What a batch adds: each log whose event succeeded to one counter, each other one to the
    next, and the bytes of all of them, failed or not.
   */
  lemma TallyExactly(logs: seq<string>, outcomes: seq<Outcome>)
    requires |logs| == |outcomes|
    ensures var tally := Tally(Judged(logs, outcomes));
            && tally.processed == Saturated(|set i: nat | i < |outcomes| && outcomes[i].result.Ok?|)
            && tally.errors == Saturated(|set i: nat | i < |outcomes| && outcomes[i].result.Err?|)
            && tally.bytes == Saturated(ByteLength(Concat(logs)))
  {
    var verdicts := Verdicts(outcomes);
    assert Judged(logs, outcomes) == Zipped(logs, verdicts);
    SumsExactly(logs, verdicts);
    assert PlacesOf(verdicts, true) == set i: nat | i < |outcomes| && outcomes[i].result.Ok?;
    assert PlacesOf(verdicts, false) == set i: nat | i < |outcomes| && outcomes[i].result.Err?;
  }

  datatype ProcessError = NotInitialized | CompilationFailed(text: string) | ConversionFailed

  class Vector {
    var initialized: bool
    var eventsProcessed: U64
    var errors: U64
    var bytesProcessed: U64
    var startedAt: Option<int>  // a reading of the clock

    constructor ()
      ensures !initialized && Stats() == ZERO && startedAt == None
    {
      initialized := false;
      eventsProcessed, errors, bytesProcessed := 0, 0, 0;
      startedAt := None;
    }

    function Stats(): Counters
      reads this
    {
      Counters(eventsProcessed, errors, bytesProcessed)
    }

    method Initialize(now: int)
      modifies this
      ensures initialized && Stats() == ZERO && startedAt == Some(now)
    {
      initialized := true;
      eventsProcessed, errors, bytesProcessed := 0, 0, 0;
      startedAt := Some(now);
    }

    /** The locked section at the end of a batch. */
    method Commit(tally: Counters)
      modifies this`eventsProcessed, this`errors, this`bytesProcessed
      ensures Stats() == old(Stats()).Add(tally)
    {
      eventsProcessed := SaturatingAdd(eventsProcessed, tally.processed);
      errors := SaturatingAdd(errors, tally.errors);
      bytesProcessed := SaturatingAdd(bytesProcessed, tally.bytes);
    }

    /** One batch run with nothing else touching the pipeline meanwhile. */
    method ProcessLogs(parse: Parser, compiled: Result<Program, string>, converts: Outcome -> bool, logs: seq<string>)
      returns (r: Result<seq<Outcome>, ProcessError>)
      modifies this
      ensures initialized == old(initialized) && startedAt == old(startedAt)
      ensures r.Err? ==> Stats() == old(Stats())
      ensures !old(initialized) ==> r == Err(NotInitialized)
      ensures old(initialized) && compiled.Err? ==> r == Err(CompilationFailed(compiled.error))
      ensures old(initialized) && compiled.Ok? && r.Err? ==> r == Err(ConversionFailed)
      ensures r.Ok? <==> old(initialized) && compiled.Ok?
                         && forall log <- logs :: converts(Executed(parse, compiled.value, log, map[]))
      ensures r.Ok? ==> |r.value| == |logs| && Stats() == old(Stats()).Add(Tally(Judged(logs, r.value)))
      ensures r.Ok? ==> forall i :: 0 <= i < |logs| ==> r.value[i] == Executed(parse, compiled.value, logs[i], map[])
    {
      if !initialized {
        return Err(NotInitialized);
      }
      var run := RunEvents(parse, compiled, logs, map[]);
      if run.Err? {
        return Err(CompilationFailed(run.error));
      }
      var tally := TallyOutcomes(logs, run.value, converts);
      if tally.None? {
        return Err(ConversionFailed);
      }
      Commit(tally.value);
      return Ok(run.value);
    }
  }

  /** The per-batch loop: counts each outcome, or stops at one Python cannot be given. */
  method TallyOutcomes(logs: seq<string>, outcomes: seq<Outcome>, converts: Outcome -> bool)
    returns (tally: Option<Counters>)
    requires |logs| == |outcomes|
    ensures tally == if forall outcome <- outcomes :: converts(outcome)
                     then Some(Tally(Judged(logs, outcomes))) else None
  {
    var counted := ZERO;
    var batch := Judged(logs, outcomes);
    for i := 0 to |logs|
      invariant counted == Tally(batch[..i])
      invariant forall k :: 0 <= k < i ==> converts(outcomes[k])
    {
      assert batch[..i + 1][..i] == batch[..i];
      var bytes := Saturated(ByteLength(logs[i]));
      counted := counted.Add(if outcomes[i].result.Ok? then Counters(1, 0, bytes) else Counters(0, 1, bytes));
      if !converts(outcomes[i]) {
        return None;
      }
    }
    assert batch[..|logs|] == batch;
    return Some(counted);
  }

  // ---------------------------------------------------------------------------
  // Threads sharing one pipeline
  // ---------------------------------------------------------------------------

  type Thread = nat

  /** A call of `process_logs` between its locked sections. */
  datatype Phase = Running(logs: seq<string>) | Ready(batch: Batch)

  datatype State = State(initialized: bool, counters: Counters, calls: map<Thread, Phase>)

  const INITIAL := State(false, ZERO, map[])

  datatype Step =
    | Initialize
    | Start(thread: Thread, logs: seq<string>)
    | Finish(thread: Thread, verdicts: seq<bool>)  // the VRL ran and every result converted
    | Reject(thread: Thread)                       // the VRL did not compile: no event was attempted
    | Abandon(thread: Thread)                      // the VRL ran, but a result did not convert
    | Commit(thread: Thread)

  function Zipped(logs: seq<string>, verdicts: seq<bool>): Batch
    requires |logs| == |verdicts|
  {
    seq(|logs|, i requires 0 <= i < |logs| => (logs[i], verdicts[i]))
  }

  /** The state a step leads to, or None when it cannot be taken. */
  function Next(s: State, step: Step): Option<State> {
    match step
    case Initialize => Some(State(true, ZERO, s.calls))
    case Start(t, logs) =>
      if t in s.calls then None
      else if !s.initialized then Some(s)
      else Some(s.(calls := s.calls[t := Running(logs)]))
    case Finish(t, verdicts) =>
      if t in s.calls && s.calls[t].Running? && |verdicts| == |s.calls[t].logs|
      then Some(s.(calls := s.calls[t := Ready(Zipped(s.calls[t].logs, verdicts))]))
      else None
    case Reject(t) =>
      if t in s.calls && s.calls[t].Running? then Some(s.(calls := s.calls - {t})) else None
    case Abandon(t) =>
      if t in s.calls && s.calls[t].Running? then Some(s.(calls := s.calls - {t})) else None
    case Commit(t) =>
      if t in s.calls && s.calls[t].Ready?
      then Some(s.(counters := s.counters.Add(Tally(s.calls[t].batch)), calls := s.calls - {t}))
      else None
  }

  function Reached(s: State, steps: seq<Step>): Option<State> {
    if steps == [] then Some(s)
    else match Reached(s, steps[..|steps| - 1])
      case None => None
      case Some(before) => Next(before, steps[|steps| - 1])
  }

  // The history a run leaves, read off its steps alone.

  /** The logs `t` most recently started with. */
  function LastLogs(steps: seq<Step>, t: Thread): seq<string> {
    if steps == [] then []
    else match steps[|steps| - 1]
      case Start(u, logs) => if u == t then logs else LastLogs(steps[..|steps| - 1], t)
      case _ => LastLogs(steps[..|steps| - 1], t)
  }

  /** The verdicts `t` most recently finished with. */
  function LastVerdicts(steps: seq<Step>, t: Thread): seq<bool> {
    if steps == [] then []
    else match steps[|steps| - 1]
      case Finish(u, verdicts) => if u == t then verdicts else LastVerdicts(steps[..|steps| - 1], t)
      case _ => LastVerdicts(steps[..|steps| - 1], t)
  }

  /** The batches committed after the last `initialize`, counted by their commit, as one sequence of events. */
  function CommittedEvents(steps: seq<Step>): Batch {
    if steps == [] then []
    else
      var earlier := steps[..|steps| - 1];
      match steps[|steps| - 1]
      case Initialize => []
      case Commit(t) =>
        var logs, verdicts := LastLogs(earlier, t), LastVerdicts(earlier, t);
        CommittedEvents(earlier) + if |logs| == |verdicts| then Zipped(logs, verdicts) else []
      case _ => CommittedEvents(earlier)
  }

  /** How many events were attempted since the last `initialize`, by the batches that ended since. */
  function AttemptedEvents(steps: seq<Step>): nat {
    if steps == [] then 0
    else
      var earlier := steps[..|steps| - 1];
      match steps[|steps| - 1]
      case Initialize => 0
      case Commit(t) => AttemptedEvents(earlier) + |LastLogs(earlier, t)|
      case Abandon(t) => AttemptedEvents(earlier) + |LastLogs(earlier, t)|
      case _ => AttemptedEvents(earlier)
  }

  /** How many of those were in a batch given up because a result did not convert. */
  function LostEvents(steps: seq<Step>): nat {
    if steps == [] then 0
    else
      var earlier := steps[..|steps| - 1];
      match steps[|steps| - 1]
      case Initialize => 0
      case Abandon(t) => LostEvents(earlier) + |LastLogs(earlier, t)|
      case _ => LostEvents(earlier)
  }

  ghost predicate StartedIn(steps: seq<Step>, t: Thread) {
    exists i :: 0 <= i < |steps| && steps[i].Start? && steps[i].thread == t
  }

  lemma StartedInOneMore(steps: seq<Step>, t: Thread)
    requires steps != []
    ensures var last := steps[|steps| - 1];
            StartedIn(steps, t) <==> StartedIn(steps[..|steps| - 1], t) || (last.Start? && last.thread == t)
  {
    var earlier := steps[..|steps| - 1];
    if StartedIn(earlier, t) {
      var i :| 0 <= i < |earlier| && earlier[i].Start? && earlier[i].thread == t;
      assert steps[i] == earlier[i];
    }
    if i :| 0 <= i < |steps| && steps[i].Start? && steps[i].thread == t {
      assert i < |earlier| ==> earlier[i] == steps[i];
    }
  }

  ghost predicate MatchesHistory(steps: seq<Step>, t: Thread, call: Phase) {
    match call
    case Running(logs) => logs == LastLogs(steps, t)
    case Ready(batch) =>
      && |LastLogs(steps, t)| == |LastVerdicts(steps, t)|
      && batch == Zipped(LastLogs(steps, t), LastVerdicts(steps, t))
  }

  /** A call in flight that started in `steps` holds what they say. */
  lemma {:induction false} CallsMatchHistory(s: State, steps: seq<Step>, t: Thread)
    requires Reached(s, steps).Some? && t in Reached(s, steps).value.calls && StartedIn(steps, t)
    ensures MatchesHistory(steps, t, Reached(s, steps).value.calls[t])
  {
    StartedInOneMore(steps, t);
    var earlier := steps[..|steps| - 1];
    if t in Reached(s, earlier).value.calls {
      CallsMatchHistory(s, earlier, t);
    }
  }

  lemma {:induction false} CallsWereStarted(s: State, steps: seq<Step>, t: Thread)
    requires Reached(s, steps).Some? && t in Reached(s, steps).value.calls && t !in s.calls
    ensures StartedIn(steps, t)
  {
    StartedInOneMore(steps, t);
    if t in Reached(s, steps[..|steps| - 1]).value.calls {
      CallsWereStarted(s, steps[..|steps| - 1], t);
    }
  }

  /** A call in flight in a run from the beginning holds what the run says. */
  lemma RunMatchesHistory(steps: seq<Step>, t: Thread)
    requires Reached(INITIAL, steps).Some? && t in Reached(INITIAL, steps).value.calls
    ensures MatchesHistory(steps, t, Reached(INITIAL, steps).value.calls[t])
  {
    CallsWereStarted(INITIAL, steps, t);
    CallsMatchHistory(INITIAL, steps, t);
  }

  lemma {:induction false} SumsOfConcat(a: Batch, b: Batch)
    ensures Succeeded(a + b) == Succeeded(a) + Succeeded(b)
    ensures Failed(a + b) == Failed(a) + Failed(b)
    ensures Bytes(a + b) == Bytes(a) + Bytes(b)
  {
    if b == [] {
      assert a + b == a;
    } else {
      assert (a + b)[..|a + b| - 1] == a + b[..|b| - 1];
      SumsOfConcat(a, b[..|b| - 1]);
    }
  }

  lemma {:induction false} EveryEventCountsOnce(batch: Batch)
    ensures Succeeded(batch) + Failed(batch) == |batch|
  {
    if batch != [] {
      EveryEventCountsOnce(batch[..|batch| - 1]);
    }
  }

  /**
    Over any interleaving, each counter is the true sum over the events committed since
    the last `initialize`, capped at the 64-bit maximum; every such event is in exactly one
    of the two event sums, and a batch that did not commit is in none.
   */
  lemma {:induction false} CountersAreSums(steps: seq<Step>)
    requires Reached(INITIAL, steps).Some?
    ensures var events := CommittedEvents(steps);
            && Reached(INITIAL, steps).value.counters == Tally(events)
            && Succeeded(events) + Failed(events) == |events|
  {
    EveryEventCountsOnce(CommittedEvents(steps));
    if steps != [] {
      var earlier, last := steps[..|steps| - 1], steps[|steps| - 1];
      CountersAreSums(earlier);
      if last.Commit? {
        RunMatchesHistory(earlier, last.thread);
        CommitAddsUp(CommittedEvents(earlier), Reached(INITIAL, earlier).value.calls[last.thread].batch);
      }
    }
  }

  lemma CommitAddsUp(events: Batch, batch: Batch)
    ensures Tally(events).Add(Tally(batch)) == Tally(events + batch)
  {
    SumsOfConcat(events, batch);
  }

  /** In any run the events attempted are those committed, each once, and those lost. */
  lemma {:induction false} AttemptsAreCommittedOrLost(steps: seq<Step>)
    requires Reached(INITIAL, steps).Some?
    ensures |CommittedEvents(steps)| + LostEvents(steps) == AttemptedEvents(steps)
  {
    if steps != [] {
      var earlier, last := steps[..|steps| - 1], steps[|steps| - 1];
      AttemptsAreCommittedOrLost(earlier);
      if last.Commit? {
        RunMatchesHistory(earlier, last.thread);
      }
    }
  }

  /**
    The two event counters sum to the events committed exactly when neither true sum is over
    the 64-bit maximum, and to the events attempted exactly when, besides, no batch with an
    event in it was given up.
   */
  lemma CountersSumExactly(steps: seq<Step>)
    requires Reached(INITIAL, steps).Some?
    ensures var counters, events := Reached(INITIAL, steps).value.counters, CommittedEvents(steps);
            && (counters.processed + counters.errors == |events| <==>
                  Succeeded(events) <= U64_MAX && Failed(events) <= U64_MAX)
            && (counters.processed + counters.errors == AttemptedEvents(steps) <==>
                  Succeeded(events) <= U64_MAX && Failed(events) <= U64_MAX && LostEvents(steps) == 0)
  {
    CountersAreSums(steps);
    AttemptsAreCommittedOrLost(steps);
  }

  /** A batch of one event given up after its program ran: attempted, and in no counter. */
  lemma AbandonedBatchIsUncounted()
    ensures var steps := [Initialize, Start(0, ["x"]), Abandon(0)];
            && Reached(INITIAL, steps).Some?
            && Reached(INITIAL, steps).value.counters == ZERO
            && AttemptedEvents(steps) == LostEvents(steps) == 1
  {
    var steps := [Initialize, Start(0, ["x"]), Abandon(0)];
    assert steps[..2] == [Initialize, Start(0, ["x"])];
    assert steps[..2][..1] == [Initialize];
    assert [Initialize][..0] == [];
    var s1 := Next(INITIAL, Initialize).value;
    assert Reached(INITIAL, [Initialize]) == Some(s1);
    assert Reached(INITIAL, steps[..2]) == Next(s1, Start(0, ["x"]));
  }

  /** `n` batches of one succeeding event, one after the other. */
  function Rounds(n: nat): seq<Step> {
    if n == 0 then [Initialize] else Rounds(n - 1) + [Start(0, ["x"]), Finish(0, [true]), Commit(0)]
  }

  lemma RoundTaken(before: seq<Step>, log: string)
    requires Reached(INITIAL, before).Some?
    requires Reached(INITIAL, before).value.initialized && Reached(INITIAL, before).value.calls == map[]
    ensures var after := Reached(INITIAL, before + [Start(0, [log]), Finish(0, [true]), Commit(0)]);
            after.Some? && after.value.initialized && after.value.calls == map[]
  {
    CommitsAlone(Reached(INITIAL, before).value, 0, [log], [true]);
    ReachedInTwo(INITIAL, before, [Start(0, [log]), Finish(0, [true]), Commit(0)]);
  }

  lemma RoundCommits(before: seq<Step>, log: string)
    ensures CommittedEvents(before + [Start(0, [log]), Finish(0, [true]), Commit(0)])
            == CommittedEvents(before) + Zipped([log], [true])
  {
    var started := before + [Start(0, [log])];
    var finished := started + [Finish(0, [true])];
    var committed := finished + [Commit(0)];
    assert before + [Start(0, [log]), Finish(0, [true]), Commit(0)] == committed;
    assert started[..|before|] == before;
    assert finished[..|started|] == started;
    assert committed[..|finished|] == finished;
    assert CommittedEvents(finished) == CommittedEvents(started) == CommittedEvents(before);
    assert LastLogs(finished, 0) == LastLogs(started, 0) == [log];
    assert LastVerdicts(finished, 0) == [true];
  }

  lemma {:induction false} RoundsReach(n: nat)
    ensures Reached(INITIAL, Rounds(n)).Some?
    ensures Reached(INITIAL, Rounds(n)).value.initialized && Reached(INITIAL, Rounds(n)).value.calls == map[]
    ensures |CommittedEvents(Rounds(n))| == Succeeded(CommittedEvents(Rounds(n))) == n
  {
    if n == 0 {
      ReachedInOne(INITIAL, Initialize);
    } else {
      var before := Rounds(n - 1);
      RoundsReach(n - 1);
      RoundTaken(before, "x");
      RoundCommits(before, "x");
      OneMoreEvent(CommittedEvents(before), "x");
    }
  }

  lemma OneMoreEvent(events: Batch, log: string)
    ensures var more := events + Zipped([log], [true]);
            |more| == |events| + 1 && Succeeded(more) == Succeeded(events) + 1
  {
    var one := Zipped([log], [true]);
    assert one[..0] == [];
    assert Succeeded(one) == 1;
    SumsOfConcat(events, one);
  }

  /** After 2^64 committed events the counter of successes stands one short of them. */
  lemma OverflowIsCapped()
    ensures var steps := Rounds(U64_MAX + 1);
            && Reached(INITIAL, steps).Some?
            && |CommittedEvents(steps)| == U64_MAX + 1
            && Reached(INITIAL, steps).value.counters.processed == 18446744073709551615
            && Reached(INITIAL, steps).value.counters.errors == 0
  {
    RoundsReach(U64_MAX + 1);
    CountersAreSums(Rounds(U64_MAX + 1));
  }

  /** A call whose results all converted can only commit; one still running can end in any of three ways. */
  lemma CallsStepExactly(s: State, t: Thread, step: Step)
    requires t in s.calls && !step.Initialize? && step.thread == t
    ensures Next(s, step).Some? <==>
            match s.calls[t]
            case Ready(_) => step.Commit?
            case Running(logs) =>
              step.Reject? || step.Abandon? || (step.Finish? && |step.verdicts| == |logs|)
  {
  }

  /** Until the first `initialize` no call gets past its check, so nothing is ever counted. */
  lemma {:induction false} NothingBeforeInitialize(steps: seq<Step>)
    requires Reached(INITIAL, steps).Some? && Initialize !in steps
    ensures Reached(INITIAL, steps).value == INITIAL
    ensures CommittedEvents(steps) == []
  {
    if steps != [] {
      NothingBeforeInitialize(steps[..|steps| - 1]);
    }
  }

  /** The calls of `t` that got past their check: those after the first `initialize`. */
  function Accepted(steps: seq<Step>, t: Thread): nat {
    if steps == [] then 0
    else
      var earlier, last := steps[..|steps| - 1], steps[|steps| - 1];
      Accepted(earlier, t) + if last.Start? && last.thread == t && Initialize in earlier then 1 else 0
  }

  /** The calls of `t` that committed or were given up. */
  function Settled(steps: seq<Step>, t: Thread): nat {
    if steps == [] then 0
    else
      var last := steps[|steps| - 1];
      Settled(steps[..|steps| - 1], t) +
      if (last.Commit? || last.Reject? || last.Abandon?) && last.thread == t then 1 else 0
  }

  lemma {:induction false} InitializedExactly(steps: seq<Step>)
    requires Reached(INITIAL, steps).Some?
    ensures Reached(INITIAL, steps).value.initialized <==> Initialize in steps
  {
    if steps != [] {
      var n := |steps| - 1;
      InitializedExactly(steps[..n]);
      assert steps == steps[..n] + [steps[n]];
    }
  }

  /** No batch commits twice or is lost: every accepted call is in flight, or settled once. */
  lemma {:induction false} CallsAreConserved(steps: seq<Step>, t: Thread)
    requires Reached(INITIAL, steps).Some?
    ensures Accepted(steps, t) == Settled(steps, t) + if t in Reached(INITIAL, steps).value.calls then 1 else 0
  {
    if steps != [] {
      InitializedExactly(steps[..|steps| - 1]);
      CallsAreConserved(steps[..|steps| - 1], t);
    }
  }

  // ---------------------------------------------------------------------------
  // One call on its own
  // ---------------------------------------------------------------------------

  /** Each log's outcome, as `Vector.ProcessLogs` returns them. */
  function Outcomes(parse: Parser, program: Program, logs: seq<string>): seq<Outcome> {
    seq(|logs|, i requires 0 <= i < |logs| => Executed(parse, program, logs[i], map[]))
  }

  function Verdicts(outcomes: seq<Outcome>): seq<bool> {
    seq(|outcomes|, i requires 0 <= i < |outcomes| => outcomes[i].result.Ok?)
  }

  /** The steps of a call of `Vector.ProcessLogs` that nothing interrupts. */
  ghost function CallSteps(parse: Parser, compiled: Result<Program, string>, logs: seq<string>,
                           converts: Outcome -> bool, initialized: bool, t: Thread): seq<Step>
  {
    if !initialized then [Start(t, logs)]
    else if compiled.Err? then [Start(t, logs), Reject(t)]
    else if exists log <- logs :: !converts(Executed(parse, compiled.value, log, map[])) then
      [Start(t, logs), Abandon(t)]
    else [Start(t, logs), Finish(t, Verdicts(Outcomes(parse, compiled.value, logs))), Commit(t)]
  }

  lemma {:induction false} ReachedInTwo(s: State, first: seq<Step>, second: seq<Step>)
    requires Reached(s, first).Some?
    ensures Reached(s, first + second) == Reached(Reached(s, first).value, second)
  {
    if second == [] {
      assert first + second == first;
    } else {
      var n := |second| - 1;
      assert (first + second)[..|first + second| - 1] == first + second[..n];
      ReachedInTwo(s, first, second[..n]);
    }
  }

  lemma ReachedInOne(s: State, step: Step)
    ensures Reached(s, [step]) == Next(s, step)
  {
    assert [step][..0] == [];
  }

  /** A call nothing interrupts moves the state as `Vector.ProcessLogs` promises: by its tally, or not at all. */
  lemma CallAloneIsProcessLogs(parse: Parser, compiled: Result<Program, string>, logs: seq<string>,
                               converts: Outcome -> bool, s: State, t: Thread)
    requires t !in s.calls
    ensures var succeeds := && s.initialized && compiled.Ok?
                            && forall log <- logs :: converts(Executed(parse, compiled.value, log, map[]));
            Reached(s, CallSteps(parse, compiled, logs, converts, s.initialized, t))
            == Some(if succeeds
                    then s.(counters := s.counters.Add(Tally(Judged(logs, Outcomes(parse, compiled.value, logs)))))
                    else s)
  {
    var steps := CallSteps(parse, compiled, logs, converts, s.initialized, t);
    ReachedInOne(s, steps[0]);
    assert s.calls - {t} == s.calls;
    if |steps| == 2 {
      ReachedInTwo(s, [steps[0]], [steps[1]]);
      ReachedInOne(Next(s, steps[0]).value, steps[1]);
      assert s.calls[t := Running(logs)] - {t} == s.calls;
    } else if |steps| == 3 {
      var outcomes := Outcomes(parse, compiled.value, logs);
      CommitsAlone(s, t, logs, Verdicts(outcomes));
      assert Zipped(logs, Verdicts(outcomes)) == Judged(logs, outcomes);
    }
  }

  lemma CommitsAlone(s: State, t: Thread, logs: seq<string>, verdicts: seq<bool>)
    requires t !in s.calls && s.initialized && |logs| == |verdicts|
    ensures Reached(s, [Start(t, logs), Finish(t, verdicts), Commit(t)])
            == Some(s.(counters := s.counters.Add(Tally(Zipped(logs, verdicts)))))
  {
    var start, finish, commit := Start(t, logs), Finish(t, verdicts), Commit(t);
    var started := Next(s, start).value;
    var finished := Next(started, finish).value;
    ReachedInOne(s, start);
    ReachedInOne(started, finish);
    ReachedInOne(finished, commit);
    ReachedInTwo(s, [start], [finish]);
    ReachedInTwo(s, [start, finish], [commit]);
    assert [start] + [finish] == [start, finish];
    assert [start, finish] + [commit] == [start, finish, commit];
    assert finished.calls - {t} == s.calls;
  }

  // ---------------------------------------------------------------------------
  // When `initialize` really separates two runs
  // ---------------------------------------------------------------------------

  /** Some batch commits in `steps` that did not start in them. */
  ghost predicate Straddles(steps: seq<Step>) {
    exists i :: 0 <= i < |steps| && steps[i].Commit? && !StartedIn(steps[..i], steps[i].thread)
  }

  function EventCount(call: Phase): nat {
    match call
    case Running(logs) => |logs|
    case Ready(batch) => |batch|
  }

  lemma ReachedOneMore(s: State, steps: seq<Step>, step: Step)
    requires Reached(s, steps).Some?
    ensures Reached(s, steps + [step]) == Next(Reached(s, steps).value, step)
  {
    ReachedInTwo(s, steps, [step]);
    ReachedInOne(Reached(s, steps).value, step);
  }

  lemma FinishesStartNothing(steps: seq<Step>, t: Thread)
    requires forall step <- steps :: step.Finish?
    ensures !StartedIn(steps, t)
  {
    forall i | 0 <= i < |steps| ensures !steps[i].Start? {
      assert steps[i] in steps;
    }
  }

  /** A call in flight can commit without starting again. */
  lemma CanCommit(s: State, t: Thread) returns (rest: seq<Step>, batch: Batch)
    requires t in s.calls
    ensures forall step <- rest :: step.Finish?
    ensures |batch| == EventCount(s.calls[t])
    ensures Reached(s, rest + [Commit(t)]) == Some(s.(counters := s.counters.Add(Tally(batch)), calls := s.calls - {t}))
  {
    match s.calls[t]
    case Ready(ready) =>
      rest, batch := [], ready;
      ReachedOneMore(s, [], Commit(t));
    case Running(logs) =>
      var verdicts := seq(|logs|, _ => true);
      rest, batch := [Finish(t, verdicts)], Zipped(logs, verdicts);
      ReachedInOne(s, Finish(t, verdicts));
      ReachedOneMore(s, rest, Commit(t));
      assert s.calls[t := Ready(batch)] - {t} == s.calls - {t};
  }

  /** No batch of before an `initialize` commits after it, exactly when no call was in flight at it. */
  lemma InitializeSeparatesExactlyWhenIdle(s: State)
    ensures s.calls == map[] <==>
            forall steps :: Reached(Next(s, Initialize).value, steps).Some? ==> !Straddles(steps)
  {
    var restarted := Next(s, Initialize).value;
    if s.calls == map[] {
      forall steps: seq<Step> | Reached(restarted, steps).Some? ensures !Straddles(steps) {
        if i :| 0 <= i < |steps| && steps[i].Commit? && !StartedIn(steps[..i], steps[i].thread) {
          PrefixReached(restarted, steps, i + 1);
          assert steps[..i + 1][..i] == steps[..i];
          CallsWereStarted(restarted, steps[..i], steps[i].thread);
        }
      }
    } else {
      var t :| t in s.calls;
      var rest, _ := CanCommit(restarted, t);
      var steps := rest + [Commit(t)];
      FinishesStartNothing(rest, t);
      assert steps[|rest|].Commit? && steps[..|rest|] == rest;
      assert Straddles(steps);
    }
  }

  lemma {:induction false} PrefixReached(s: State, steps: seq<Step>, n: nat)
    requires n <= |steps| && Reached(s, steps).Some?
    ensures Reached(s, steps[..n]).Some?
  {
    if n < |steps| {
      assert steps[..|steps| - 1][..n] == steps[..n];
      PrefixReached(s, steps[..|steps| - 1], n);
    } else {
      assert steps[..n] == steps;
    }
  }

  /** The events `steps` committed since their last `initialize` in batches they started themselves. */
  ghost function OwnEvents(steps: seq<Step>): Batch {
    if steps == [] then []
    else
      var earlier := steps[..|steps| - 1];
      match steps[|steps| - 1]
      case Initialize => []
      case Commit(t) =>
        var logs, verdicts := LastLogs(earlier, t), LastVerdicts(earlier, t);
        OwnEvents(earlier) + if StartedIn(earlier, t) && |logs| == |verdicts| then Zipped(logs, verdicts) else []
      case _ => OwnEvents(earlier)
  }

  ghost predicate OnlyEmptyCalls(s: State) {
    forall t <- s.calls :: EventCount(s.calls[t]) == 0
  }

  lemma {:induction false} UnstartedIsEmpty(s: State, steps: seq<Step>, t: Thread)
    requires OnlyEmptyCalls(s) && Reached(s, steps).Some?
    requires t in Reached(s, steps).value.calls && !StartedIn(steps, t)
    ensures EventCount(Reached(s, steps).value.calls[t]) == 0
  {
    if steps != [] {
      StartedInOneMore(steps, t);
      UnstartedIsEmpty(s, steps[..|steps| - 1], t);
    }
  }

  lemma {:induction false} CountersAreOwn(s: State, steps: seq<Step>)
    requires OnlyEmptyCalls(s) && s.counters == ZERO && Reached(s, steps).Some?
    ensures Reached(s, steps).value.counters == Tally(OwnEvents(steps))
  {
    if steps != [] {
      var earlier, last := steps[..|steps| - 1], steps[|steps| - 1];
      CountersAreOwn(s, earlier);
      if last.Commit? {
        var batch := Reached(s, earlier).value.calls[last.thread].batch;
        CommitAddsUp(OwnEvents(earlier), batch);
        if StartedIn(earlier, last.thread) {
          CallsMatchHistory(s, earlier, last.thread);
        } else {
          UnstartedIsEmpty(s, earlier, last.thread);
          assert OwnEvents(earlier) + batch == OwnEvents(earlier);
        }
      }
    }
  }

  lemma OnlyOldCommits(rest: seq<Step>, t: Thread)
    requires forall step <- rest :: step.Finish?
    ensures OwnEvents(rest) == [] && OwnEvents(rest + [Commit(t)]) == []
  {
    if rest != [] {
      assert rest[|rest| - 1].Finish?;
      OnlyOldCommits(rest[..|rest| - 1], t);
    }
    assert (rest + [Commit(t)])[..|rest|] == rest;
    FinishesStartNothing(rest, t);
  }

  /** A call with events in flight can commit, and is then counted without having started. */
  lemma OldCallIsCounted(s: State, t: Thread) returns (steps: seq<Step>)
    requires s.counters == ZERO && t in s.calls && EventCount(s.calls[t]) > 0
    ensures Reached(s, steps).Some? && OwnEvents(steps) == [] && Reached(s, steps).value.counters != ZERO
  {
    var rest, batch := CanCommit(s, t);
    steps := rest + [Commit(t)];
    OnlyOldCommits(rest, t);
    TallyOfSome(batch);
  }

  lemma TallyOfSome(batch: Batch)
    requires batch != []
    ensures ZERO.Add(Tally(batch)) != ZERO
  {
    EveryEventCountsOnce(batch);
  }

  /**
    After an `initialize` the counters are, whatever happens next, the tally of batches started
    since, exactly when no call with an event in it was in flight at that `initialize`.
   */
  lemma CountersDescribeOneRunExactly(s: State)
    ensures var restarted := Next(s, Initialize).value;
            OnlyEmptyCalls(s) <==>
            forall steps :: Reached(restarted, steps).Some? ==>
                              Reached(restarted, steps).value.counters == Tally(OwnEvents(steps))
  {
    var restarted := Next(s, Initialize).value;
    if OnlyEmptyCalls(s) {
      forall steps | Reached(restarted, steps).Some?
        ensures Reached(restarted, steps).value.counters == Tally(OwnEvents(steps))
      {
        CountersAreOwn(restarted, steps);
      }
    } else {
      var t :| t in s.calls && EventCount(s.calls[t]) != 0;
      var steps := OldCallIsCounted(restarted, t);
      assert Reached(restarted, steps).value.counters != Tally(OwnEvents(steps));
    }
  }

  /** A batch in flight across an `initialize` is counted by the fresh counters. */
  lemma InFlightBatchIsCounted()
    ensures var steps := [Initialize, Start(0, ["x"]), Initialize, Finish(0, [true]), Commit(0)];
            && Reached(INITIAL, steps).Some?
            && Reached(INITIAL, steps).value.counters == Counters(1, 0, 1)
            && !StartedIn(steps[3..], 0)
  {
    var steps := [Initialize, Start(0, ["x"]), Initialize, Finish(0, [true]), Commit(0)];
    var s1 := Next(INITIAL, steps[0]).value;
    var s2 := Next(s1, steps[1]).value;
    var s3 := Next(s2, steps[2]).value;
    var s4 := Next(s3, steps[3]).value;
    assert steps[..4] == [steps[0], steps[1], steps[2], steps[3]];
    assert steps[..4][..3] == [steps[0], steps[1], steps[2]];
    assert [steps[0], steps[1], steps[2]][..2] == [steps[0], steps[1]];
    assert [steps[0], steps[1]][..1] == [steps[0]];
    assert [steps[0]][..0] == [];
    assert Reached(INITIAL, [steps[0]]) == Some(s1);
    assert Reached(INITIAL, [steps[0], steps[1]]) == Some(s2);
    assert Reached(INITIAL, [steps[0], steps[1], steps[2]]) == Some(s3);
    assert Reached(INITIAL, steps[..4]) == Some(s4);
    var batch := s4.calls[0].batch;
    assert batch == [("x", true)] && batch[..0] == [] && "x"[1..] == "";
    assert ByteLength("x") == 1;
    assert Succeeded(batch) == 1;
    assert Failed(batch) == 0;
    assert Bytes(batch) == 1;
  }
}
