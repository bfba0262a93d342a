/**
  Threads asking one table for indexes at the same time
  (vector-bindings/src/enrichment.rs:249-283).

  The cache's lock is held for the check and for the insert, and released while the index
  is built, so these three sections of different calls interleave.  A holder may panic, leaving the
  map in any state and the lock poisoned.
 */
module IndexProtocol {
  import opened Wrappers
  import opened Enrichment

  type Thread = nat

  datatype Call =
    | Checking(key: IndexKey)
    | Building(key: IndexKey)
    | Inserting(key: IndexKey, index: RowIndex)
    | Done(key: IndexKey, result: Option<RowIndex>)

  /** A call as it starts: without all the columns there is nothing to do. */
  function Asked(table: Table, key: IndexKey): Call {
    if HasColumns(table, key.fields) then Checking(key) else Done(key, None)
  }

  /** A call's next section: what it leaves of the cache, and where the call stands after it. */
  function Section(texts: Texts, table: Table, cache: Cache, call: Call): (Cache, Call)
    requires !call.Done?
  {
    match call
    case Checking(key) =>
      var cached := cache.Get(key);
      (cache, if cached.Some? then Done(key, cached) else Building(key))
    case Building(key) => (cache, Inserting(key, IndexOf(texts, table.rows, key)))
    case Inserting(key, index) => (cache.Put(key, index), Done(key, Some(index)))
  }

  /** The sections a call still has to run, at most. */
  function Remaining(call: Call): nat {
    match call
    case Checking(_) => 3
    case Building(_) => 2
    case Inserting(_, _) => 1
    case Done(_, _) => 0
  }

  /** A call's remaining sections with nothing in between. */
  function Uninterrupted(texts: Texts, table: Table, cache: Cache, call: Call): (Cache, Call)
    decreases Remaining(call)
  {
    if call.Done? then (cache, call)
    else
      var (cache', call') := Section(texts, table, cache, call);
      Uninterrupted(texts, table, cache', call')
  }

  lemma {:induction false} UninterruptedKeepsKey(texts: Texts, table: Table, cache: Cache, call: Call)
    ensures Uninterrupted(texts, table, cache, call).1.key == call.key
    decreases Remaining(call)
  {
    if !call.Done? {
      var (cache', call') := Section(texts, table, cache, call);
      UninterruptedKeepsKey(texts, table, cache', call');
    }
  }

  /** Run without interruption, the sections come to exactly what `FileTable.ObtainIndex` promises. */
  lemma UninterruptedIsObtainIndex(texts: Texts, table: Table, cache: Cache, key: IndexKey)
    requires cache.Trusted(texts, table.rows)
    ensures Uninterrupted(texts, table, cache, Asked(table, key))
            == (cache.After(texts, table, key), Done(key, IndexFor(texts, table, key)))
  {
    if HasColumns(table, key.fields) {
      if cache.Get(key).Some? {
        assert cache.indexes[key := cache.indexes[key]] == cache.indexes;
      } else {
        var built := Inserting(key, IndexOf(texts, table.rows, key));
        assert Section(texts, table, cache, Building(key)) == (cache, built);
        assert Uninterrupted(texts, table, cache, built)
               == Uninterrupted(texts, table, cache.Put(key, built.index), Done(key, Some(built.index)));
      }
    }
  }

  datatype State = State(cache: Cache, calls: map<Thread, Call>)

  const INITIAL := State(Cache(map[], false), map[])

  datatype Step =
    | Ask(thread: Thread, key: IndexKey)
    | Advance(thread: Thread)
    | Panic(left: map<IndexKey, RowIndex>)

  function Next(texts: Texts, table: Table, s: State, step: Step): Option<State> {
    match step
    case Ask(t, key) =>
      if t in s.calls && !s.calls[t].Done? then None else Some(s.(calls := s.calls[t := Asked(table, key)]))
    case Advance(t) =>
      if t !in s.calls || s.calls[t].Done? then None
      else
        var (cache, call) := Section(texts, table, s.cache, s.calls[t]);
        Some(State(cache, s.calls[t := call]))
    case Panic(left) =>
      if s.cache.poisoned then None else Some(s.(cache := Cache(left, true)))
  }

  function Reached(texts: Texts, table: Table, steps: seq<Step>): Option<State> {
    if steps == [] then Some(INITIAL)
    else match Reached(texts, table, steps[..|steps| - 1])
      case None => None
      case Some(before) => Next(texts, table, before, steps[|steps| - 1])
  }

  /** A thread can ask exactly when it has no call in progress, and go on exactly when it has. */
  lemma ThreadsStepExactly(texts: Texts, table: Table, s: State, t: Thread, key: IndexKey)
    ensures var busy := t in s.calls && !s.calls[t].Done?;
            && (Next(texts, table, s, Ask(t, key)).Some? <==> !busy)
            && (Next(texts, table, s, Advance(t)).Some? <==> busy)
  {
  }

  /** The distinct keys asked for that name only columns. */
  function Requested(table: Table, steps: seq<Step>): set<IndexKey> {
    set i | 0 <= i < |steps| && steps[i].Ask? && HasColumns(table, steps[i].key.fields) :: steps[i].key
  }

  /** What a call carries is the fresh index for the key it was asked for. */
  ghost predicate Sound(texts: Texts, table: Table, call: Call) {
    match call
    case Checking(key) => HasColumns(table, key.fields)
    case Building(key) => HasColumns(table, key.fields)
    case Inserting(key, index) => HasColumns(table, key.fields) && index == IndexOf(texts, table.rows, key)
    case Done(key, result) => result == IndexFor(texts, table, key)
  }

  /** The calls of a reached state are sound, asked for, and the unpoisoned cache is fresh and asked for. */
  ghost predicate Invariant(texts: Texts, table: Table, steps: seq<Step>, s: State) {
    && s.cache.Trusted(texts, table.rows)
    && (!s.cache.poisoned ==> s.cache.indexes.Keys <= Requested(table, steps))
    && (forall t <- s.calls :: Sound(texts, table, s.calls[t]))
    && (forall t <- s.calls :: !s.calls[t].Done? ==> s.calls[t].key in Requested(table, steps))
    && (!s.cache.poisoned ==>
          forall t <- s.calls :: s.calls[t].Done? && s.calls[t].result.Some? ==> s.calls[t].key in s.cache.indexes)
  }

  lemma {:induction false} InvariantHolds(texts: Texts, table: Table, steps: seq<Step>)
    requires Reached(texts, table, steps).Some?
    ensures Invariant(texts, table, steps, Reached(texts, table, steps).value)
  {
    if steps != [] {
      var earlier, last := steps[..|steps| - 1], steps[|steps| - 1];
      InvariantHolds(texts, table, earlier);
      RequestedGrows(table, steps);
      StepKeepsInvariant(texts, table, earlier, Reached(texts, table, earlier).value, last);
      assert steps == earlier + [last];
    }
  }

  lemma RequestedGrows(table: Table, steps: seq<Step>)
    requires steps != []
    ensures Requested(table, steps[..|steps| - 1]) <= Requested(table, steps)
  {
    var earlier := steps[..|steps| - 1];
    forall key <- Requested(table, earlier) ensures key in Requested(table, steps) {
      var i :| 0 <= i < |earlier| && earlier[i].Ask?
               && HasColumns(table, earlier[i].key.fields) && earlier[i].key == key;
      assert steps[i] == earlier[i];
    }
  }

  lemma StepKeepsInvariant(texts: Texts, table: Table, earlier: seq<Step>, s: State, step: Step)
    requires Invariant(texts, table, earlier, s) && Next(texts, table, s, step).Some?
    ensures Invariant(texts, table, earlier + [step], Next(texts, table, s, step).value)
  {
    var steps := earlier + [step];
    RequestedGrows(table, steps);
    assert steps[..|steps| - 1] == earlier;
    var s' := Next(texts, table, s, step).value;
    if step.Ask? && HasColumns(table, step.key.fields) {
      assert steps[|earlier|] == step;
      assert step.key in Requested(table, steps);
    }
    forall t <- s'.calls
      ensures Sound(texts, table, s'.calls[t])
      ensures !s'.calls[t].Done? ==> s'.calls[t].key in Requested(table, steps)
    {
      if !step.Panic? && t != step.thread {
        assert t in s.calls && s'.calls[t] == s.calls[t];
      } else if t in s.calls {
        assert Sound(texts, table, s.calls[t]);
      }
    }
  }

  /**
    Under every interleaving, poisoned or not, every index a call returns is the one built
    afresh from the rows (none when a field has no column); until the lock is poisoned it is
    cached too, every cached index is fresh, and there are no more of them than distinct keys
    asked for.
   */
  lemma EveryIndexIsFresh(texts: Texts, table: Table, steps: seq<Step>, thread: Thread)
    requires Reached(texts, table, steps).Some?
    ensures var s := Reached(texts, table, steps).value;
            && (thread in s.calls && s.calls[thread].Done? ==>
                  && s.calls[thread].result == IndexFor(texts, table, s.calls[thread].key)
                  && (!s.cache.poisoned && s.calls[thread].result.Some? ==>
                        s.cache.Get(s.calls[thread].key) == s.calls[thread].result))
            && (!s.cache.poisoned ==>
                  && (forall key <- s.cache.indexes :: s.cache.indexes[key] == IndexOf(texts, table.rows, key))
                  && |s.cache.indexes| <= |Requested(table, steps)|)
  {
    InvariantHolds(texts, table, steps);
    var s := Reached(texts, table, steps).value;
    if thread in s.calls {
      assert Sound(texts, table, s.calls[thread]);
    }
    if !s.cache.poisoned {
      SubsetIsNoLarger(s.cache.indexes.Keys, Requested(table, steps));
    }
  }

  lemma {:induction false} SubsetIsNoLarger<T>(a: set<T>, b: set<T>)
    requires a <= b
    ensures |a| <= |b|
    decreases a
  {
    if a != {} {
      var x :| x in a;
      SubsetIsNoLarger(a - {x}, b - {x});
    }
  }

  /** Once poisoned, the cache is never written again. */
  lemma {:induction false} PoisonedCacheIsFrozen(texts: Texts, table: Table, steps: seq<Step>, more: seq<Step>)
    requires Reached(texts, table, steps + more).Some?
    ensures var s := Reached(texts, table, steps);
            s.Some? && (s.value.cache.poisoned ==> Reached(texts, table, steps + more).value.cache == s.value.cache)
  {
    if more == [] {
      assert steps + more == steps;
    } else {
      var n := |more| - 1;
      assert (steps + more)[..|steps + more| - 1] == steps + more[..n];
      PoisonedCacheIsFrozen(texts, table, steps, more[..n]);
    }
  }

  /** No other thread's step, nor a panic, sets a call back. */
  lemma OthersLeaveACallAlone(texts: Texts, table: Table, s: State, thread: Thread, other: Step)
    requires thread in s.calls && Next(texts, table, s, other).Some?
    requires other.Panic? || other.thread != thread
    ensures thread in Next(texts, table, s, other).value.calls
    ensures Next(texts, table, s, other).value.calls[thread] == s.calls[thread]
  {
  }

  /** How often `thread` advances in `steps`. */
  function OwnSections(steps: seq<Step>, thread: Thread): nat {
    if steps == [] then 0
    else
      var last := steps[|steps| - 1];
      OwnSections(steps[..|steps| - 1], thread) + if last.Advance? && last.thread == thread then 1 else 0
  }

  /**
    Other threads and panics can neither set a call back nor make it longer: however they
    interleave, the sections it ran and those it has left are at most those it had left.
   */
  lemma {:induction false} OthersCannotDelay(
    texts: Texts, table: Table, steps: seq<Step>, more: seq<Step>, thread: Thread)
    requires Reached(texts, table, steps).Some? && thread in Reached(texts, table, steps).value.calls
    requires Reached(texts, table, steps + more).Some?
    requires forall step <- more :: step.Ask? ==> step.thread != thread
    ensures var before, after := Reached(texts, table, steps).value, Reached(texts, table, steps + more).value;
            && thread in after.calls
            && after.calls[thread].key == before.calls[thread].key
            && OwnSections(more, thread) + Remaining(after.calls[thread]) <= Remaining(before.calls[thread])
  {
    if more == [] {
      assert steps + more == steps;
    } else {
      var n := |more| - 1;
      assert (steps + more)[..|steps + more| - 1] == steps + more[..n];
      assert (steps + more)[|steps + more| - 1] == more[n];
      OthersCannotDelay(texts, table, steps, more[..n], thread);
      if more[n].Panic? || more[n].thread != thread {
        OthersLeaveACallAlone(texts, table, Reached(texts, table, steps + more[..n]).value, thread, more[n]);
      }
    }
  }

  /** No call can be blocked: from any reached state its own next sections, three at most, finish it. */
  lemma {:induction false} CallFinishes(texts: Texts, table: Table, steps: seq<Step>, thread: Thread)
    returns (more: seq<Step>)
    requires Reached(texts, table, steps).Some? && thread in Reached(texts, table, steps).value.calls
    ensures |more| <= Remaining(Reached(texts, table, steps).value.calls[thread]) <= 3
    ensures forall step <- more :: step == Advance(thread)
    ensures Reached(texts, table, steps + more).Some?
    ensures var key := Reached(texts, table, steps).value.calls[thread].key;
            && thread in Reached(texts, table, steps + more).value.calls
            && Reached(texts, table, steps + more).value.calls[thread] == Done(key, IndexFor(texts, table, key))
    decreases Remaining(Reached(texts, table, steps).value.calls[thread])
  {
    var s := Reached(texts, table, steps).value;
    var call := s.calls[thread];
    if call.Done? {
      more := [];
      assert steps + more == steps;
      EveryIndexIsFresh(texts, table, steps, thread);
    } else {
      var next := Advance(thread);
      assert (steps + [next])[..|steps|] == steps;
      assert Next(texts, table, s, next).Some?;
      var rest := CallFinishes(texts, table, steps + [next], thread);
      more := [next] + rest;
      assert steps + more == steps + [next] + rest;
    }
  }
}
