/**
  The registry of enrichment tables, and lookups compiled against it
  (vector-bindings/src/enrichment.rs:375-402, 503-596, 680-757).
 */
module TableRegistry {
  import opened Wrappers
  import opened Documents
  import opened Conversion
  import opened Enrichment
  import IndexProtocol

  datatype RegisterError = EmptyName | UnknownKind(kind: string) | BadTable(error: LoadError)

  datatype UnknownTable = UnknownTable(table: string, registered: seq<string>)

  /** A compiled lookup: the table it captured and the index for its condition fields. */
  datatype Compiled = Compiled(data: FileTable, index: Option<RowIndex>, ik: IndexKey)

  /** The flag's literal, if given; anything but a boolean stands for true. */
  function CaseFlag(literal: Option<Value>): bool {
    match literal
    case Some(Scalar(Boolean(b))) => b
    case _ => true
  }

  /** Matching ignores case only when told so. */
  lemma CaseFlagExactly(literal: Option<Value>)
    ensures !CaseFlag(literal) <==> literal == Some(Scalar(Boolean(false)))
  {
  }

  ghost predicate NamesAscend(names: seq<string>) {
    forall i, j :: 0 <= i < j < |names| ==> KeyLess(names[i], names[j])
  }

  function WithName(names: seq<string>, name: string): seq<string> {
    if names == [] || KeyLess(name, names[0]) then [name] + names
    else [names[0]] + WithName(names[1..], name)
  }

  lemma {:induction false} WithNameAscends(names: seq<string>, name: string)
    requires NamesAscend(names) && name !in names
    ensures NamesAscend(WithName(names, name))
    ensures forall other :: other in WithName(names, name) <==> other == name || other in names
  {
    if names != [] {
      var first, rest := names[0], names[1..];
      assert names == [first] + rest;
      KeyLessTotal(name, first);
      if KeyLess(name, first) {
        forall i | 0 <= i < |rest| ensures KeyLess(name, rest[i]) {
          KeyLessTransitive(name, first, names[i + 1]);
        }
      } else {
        WithNameAscends(rest, name);
        forall other <- WithName(rest, name) ensures KeyLess(first, other) {
          if other in rest {
            var i :| 0 <= i < |rest| && rest[i] == other;
            assert names[i + 1] == other;
          }
        }
      }
    }
  }

  /** The ordered map's keys. */
  method NamesOf(names: set<string>) returns (sorted: seq<string>)
    ensures NamesAscend(sorted) && forall name :: name in sorted <==> name in names
  {
    sorted := [];
    var left := names;
    while left != {}
      invariant left <= names && NamesAscend(sorted)
      invariant forall name :: name in sorted <==> name in names - left
      decreases left
    {
      var name :| name in left;
      WithNameAscends(sorted, name);
      sorted := WithName(sorted, name);
      left := left - {name};
    }
  }

  /** The process-wide map from names to tables, for tables of kind `file`. */
  class Registry {
    var tables: map<string, FileTable>

    constructor ()
      ensures tables == map[]
    {
      tables := map[];
    }

    /** Every registered table has uniform rows, and a cache that can be relied on. */
    ghost predicate Valid(texts: Texts)
      reads this, tables.Values
    {
      forall name <- tables :: Loaded(tables[name].Data()) && tables[name].cache.Trusted(texts, tables[name].rows)
    }

    method Register(texts: Texts, name: string, kind: string,
                    headers: Result<seq<string>, string>, records: seq<Result<seq<string>, string>>)
      returns (r: Result<(), RegisterError>)
      requires Valid(texts) && kind != "geoip"
      modifies this
      ensures Valid(texts)
      ensures r.Err? ==> tables == old(tables)
      ensures name == "" ==> r == Err(EmptyName)
      ensures name != "" && kind != "file" ==> r == Err(UnknownKind(kind))
      ensures r.Ok? <==> name != "" && kind == "file" && Loadable(headers, records)
      ensures r.Ok? ==> name in tables && tables == old(tables)[name := tables[name]]
                        && fresh(tables[name]) && Enrichment.Holds(tables[name].Data(), headers.value, records)
                        && tables[name].cache == Cache(map[], false)
    {
      if name == "" {
        return Err(EmptyName);
      }
      if kind != "file" {
        return Err(UnknownKind(kind));
      }
      var loaded := Load(headers, records);
      if loaded.Err? {
        return Err(BadTable(loaded.error));
      }
      var table := new FileTable(loaded.value.headers, loaded.value.rows);
      tables := tables[name := table];
      return Ok(());
    }

    method Clear()
      modifies this
      ensures tables == map[]
    {
      tables := map[];
    }

    /** A lookup captures the table its name denotes now; an unregistered name never compiles. */
    method CompileArgs(texts: Texts, name: string, caseSensitive: Option<Value>, fields: seq<string>)
      returns (r: Result<Compiled, UnknownTable>)
      requires Valid(texts)
      modifies tables.Values
      ensures Valid(texts) && tables == old(tables)
      ensures r.Ok? <==> name in tables
      ensures r.Ok? ==> r.value.data == tables[name] && r.value.ik == IndexKey(CaseFlag(caseSensitive), fields)
                        && r.value.index == IndexFor(texts, tables[name].Data(), r.value.ik)
                        && Loaded(r.value.data.Data())
      ensures r.Ok? ==> tables[name].cache == old(tables[name].cache).After(texts, tables[name].Data(), r.value.ik)
      ensures forall table <- tables.Values :: (r.Ok? && table == r.value.data) || table.cache == old(table.cache)
      ensures r.Err? ==> r.error.table == name && NamesAscend(r.error.registered)
                         && forall other :: other in r.error.registered <==> other in tables
    {
      if name !in tables {
        var registered := NamesOf(tables.Keys);
        return Err(UnknownTable(name, registered));
      }
      var data := tables[name];
      var ik := IndexKey(CaseFlag(caseSensitive), fields);
      var index := data.ObtainIndex(texts, ik);
      return Ok(Compiled(data, index, ik));
    }
  }

  // ---------------------------------------------------------------------------
  // One event's lookup
  // ---------------------------------------------------------------------------

  datatype ResolveError = ExpressionFailed(text: string) | SelectNotArray | SelectItemNotText(text: string)

  /** The resolved conditions, up to the first expression that fails. */
  function ResolveConditions(resolved: seq<(string, Result<Value, string>)>): Result<seq<Condition>, ResolveError> {
    if resolved == [] then Ok([])
    else if resolved[0].1.Err? then Err(ExpressionFailed(resolved[0].1.error))
    else match ResolveConditions(resolved[1..])
      case Err(e) => Err(e)
      case Ok(rest) => Ok([(resolved[0].0, resolved[0].1.value)] + rest)
  }

  /** The select list's items as text, up to the first that is none. */
  function SelectKeys(asText: Value -> Result<string, string>, items: seq<Value>): Result<seq<string>, ResolveError> {
    if items == [] then Ok([])
    else if asText(items[0]).Err? then Err(SelectItemNotText(asText(items[0]).error))
    else match SelectKeys(asText, items[1..])
      case Err(e) => Err(e)
      case Ok(rest) => Ok([asText(items[0]).value] + rest)
  }

  function ResolveSelect(asText: Value -> Result<string, string>, select: Option<Result<Value, string>>)
    : Result<Option<seq<string>>, ResolveError>
  {
    if select.None? then Ok(None)
    else if select.value.Err? then Err(ExpressionFailed(select.value.error))
    else if !select.value.value.Array? then Err(SelectNotArray)
    else match SelectKeys(asText, select.value.value.items)
      case Err(e) => Err(e)
      case Ok(keys) => Ok(Some(keys))
  }

  /** Both arguments resolved; a failing condition is reported before a failing selection. */
  function ResolveLookup(asText: Value -> Result<string, string>, resolved: seq<(string, Result<Value, string>)>,
                         select: Option<Result<Value, string>>)
    : Result<(seq<Condition>, Option<seq<string>>), ResolveError>
  {
    match ResolveConditions(resolved)
    case Err(e) => Err(e)
    case Ok(conditions) =>
      match ResolveSelect(asText, select)
      case Err(e) => Err(e)
      case Ok(keys) => Ok((conditions, keys))
  }

  /** The conditions keep their fields and values; the first expression that fails is the error. */
  lemma {:induction false} ConditionsExactly(resolved: seq<(string, Result<Value, string>)>)
    ensures var r := ResolveConditions(resolved);
            && (r.Ok? <==> forall i :: 0 <= i < |resolved| ==> resolved[i].1.Ok?)
            && (r.Ok? ==> |r.value| == |resolved|
                          && forall i :: 0 <= i < |resolved| ==> resolved[i] == (r.value[i].0, Ok(r.value[i].1)))
            && (r.Err? ==> exists i :: 0 <= i < |resolved| && resolved[i].1.Err?
                                       && r.error == ExpressionFailed(resolved[i].1.error)
                                       && forall k :: 0 <= k < i ==> resolved[k].1.Ok?)
  {
    if resolved != [] {
      var rest := resolved[1..];
      ConditionsExactly(rest);
      assert forall i :: 0 <= i < |rest| ==> rest[i] == resolved[i + 1];
      var r := ResolveConditions(rest);
      if resolved[0].1.Err? {
        assert resolved[0].1.Err?;
      } else if r.Err? {
        var i :| 0 <= i < |rest| && rest[i].1.Err? && r.error == ExpressionFailed(rest[i].1.error)
                 && forall k :: 0 <= k < i ==> rest[k].1.Ok?;
        assert resolved[i + 1].1.Err?;
        assert forall k :: 0 <= k < i + 1 ==> resolved[k].1.Ok? by {
          assert forall k :: 1 <= k < i + 1 ==> resolved[k] == rest[k - 1];
        }
      }
    }
  }

  /** The keys are the items' texts; the first item that is none is the error. */
  lemma {:induction false} SelectKeysExactly(asText: Value -> Result<string, string>, items: seq<Value>)
    ensures var r := SelectKeys(asText, items);
            && (r.Ok? <==> forall i :: 0 <= i < |items| ==> asText(items[i]).Ok?)
            && (r.Ok? ==> |r.value| == |items|
                          && forall i :: 0 <= i < |items| ==> asText(items[i]) == Ok(r.value[i]))
            && (r.Err? ==> exists i :: 0 <= i < |items| && asText(items[i]).Err?
                                       && r.error == SelectItemNotText(asText(items[i]).error)
                                       && forall k :: 0 <= k < i ==> asText(items[k]).Ok?)
  {
    if items != [] {
      var rest := items[1..];
      SelectKeysExactly(asText, rest);
      assert forall i :: 0 <= i < |rest| ==> rest[i] == items[i + 1];
      var r := SelectKeys(asText, rest);
      if asText(items[0]).Err? {
        assert asText(items[0]).Err?;
      } else if r.Err? {
        var i :| 0 <= i < |rest| && asText(rest[i]).Err? && r.error == SelectItemNotText(asText(rest[i]).error)
                 && forall k :: 0 <= k < i ==> asText(rest[k]).Ok?;
        assert asText(items[i + 1]).Err?;
        assert forall k :: 0 <= k < i + 1 ==> asText(items[k]).Ok? by {
          assert forall k :: 1 <= k < i + 1 ==> items[k] == rest[k - 1];
        }
      }
    }
  }

  /** A selection is absent, a list of keys, or one of three errors; a failing condition comes before any of these. */
  lemma ResolvesExactly(asText: Value -> Result<string, string>, resolved: seq<(string, Result<Value, string>)>,
                        select: Option<Result<Value, string>>)
    ensures var conditions, r := ResolveConditions(resolved), ResolveLookup(asText, resolved, select);
            && (conditions.Err? ==> r == Err(conditions.error))
            && (conditions.Ok? ==>
                  match select
                  case None => r == Ok((conditions.value, None))
                  case Some(Err(e)) => r == Err(ExpressionFailed(e))
                  case Some(Ok(Array(items))) =>
                    var keys := SelectKeys(asText, items);
                    r == if keys.Ok? then Ok((conditions.value, Some(keys.value))) else Err(keys.error)
                  case Some(Ok(_)) => r == Err(SelectNotArray))
  {
  }

  lemma {:induction false} ResolvedFields(resolved: seq<(string, Result<Value, string>)>)
    requires ResolveConditions(resolved).Ok?
    ensures FieldsOf(ResolveConditions(resolved).value)
            == seq(|resolved|, i requires 0 <= i < |resolved| => resolved[i].0)
  {
    if resolved != [] {
      ResolvedFields(resolved[1..]);
      var conditions := ResolveConditions(resolved).value;
      assert conditions[1..] == ResolveConditions(resolved[1..]).value;
      assert FieldsOf(conditions) == [conditions[0].0] + FieldsOf(conditions[1..]);
    }
  }

  datatype Failure<E> = Unresolved(error: ResolveError) | Failed(failure: E)

  /** A lookup as `CompileArgs` leaves it, its condition fields those of `resolved`. */
  ghost predicate CompiledFor(texts: Texts, compiled: Compiled, resolved: seq<(string, Result<Value, string>)>) {
    && compiled.index == IndexFor(texts, compiled.data.Data(), compiled.ik)
    && compiled.ik.fields == seq(|resolved|, i requires 0 <= i < |resolved| => resolved[i].0)
  }

  /** `find_enrichment_table_records`: every row a scan of the captured table finds. */
  method FindRecords(texts: Texts, asText: Value -> Result<string, string>, compiled: Compiled,
                     resolved: seq<(string, Result<Value, string>)>, select: Option<Result<Value, string>>)
    returns (r: Result<seq<Row>, Failure<LookupError>>)
    requires CompiledFor(texts, compiled, resolved)
    ensures match ResolveLookup(asText, resolved, select)
            case Err(e) => r == Err(Unresolved(e))
            case Ok((conditions, keys)) =>
              match Scan(texts, compiled.data.Data(), conditions, compiled.ik.caseSensitive, keys, All)
              case Err(e) => r == Err(Failed(e))
              case Ok(rows) => r == Ok(rows)
  {
    var lookup := ResolveLookup(asText, resolved, select);
    if lookup.Err? {
      return Err(Unresolved(lookup.error));
    }
    var (conditions, keys) := lookup.value;
    var rows := FindRows(texts, compiled.data.Data(), compiled.index, conditions, compiled.ik.caseSensitive, keys, All);
    ResolvedFields(resolved);
    IndexedLookupIsScan(texts, compiled.data.Data(), conditions, compiled.ik.caseSensitive, keys, All);
    return if rows.Err? then Err(Failed(rows.error)) else Ok(rows.value);
  }

  /** `get_enrichment_table_record`: the verdict on all rows a scan finds, from at most two of them. */
  method GetRecord(texts: Texts, asText: Value -> Result<string, string>, compiled: Compiled,
                   resolved: seq<(string, Result<Value, string>)>, select: Option<Result<Value, string>>)
    returns (r: Result<Row, Failure<RecordFailure>>)
    requires CompiledFor(texts, compiled, resolved) && Loaded(compiled.data.Data())
    ensures match ResolveLookup(asText, resolved, select)
            case Err(e) => r == Err(Unresolved(e))
            case Ok((conditions, keys)) =>
              match Single(Scan(texts, compiled.data.Data(), conditions, compiled.ik.caseSensitive, keys, All))
              case Err(e) => r == Err(Failed(e))
              case Ok(row) => r == Ok(row)
  {
    var lookup := ResolveLookup(asText, resolved, select);
    if lookup.Err? {
      return Err(Unresolved(lookup.error));
    }
    var (conditions, keys) := lookup.value;
    var rows := FindRows(texts, compiled.data.Data(), compiled.index, conditions, compiled.ik.caseSensitive, keys, One);
    ResolvedFields(resolved);
    StoppingAtTwoIsInvisible(texts, compiled.data.Data(), conditions, compiled.ik.caseSensitive, keys);
    if rows.Err? {
      return Err(Failed(Lookup(rows.error)));
    }
    if |rows.value| > 1 {
      return Err(Failed(Ambiguous));
    }
    return if rows.value == [] then Err(Failed(NoRows)) else Ok(rows.value[|rows.value| - 1]);
  }

  // ---------------------------------------------------------------------------
  // Threads compiling while tables come and go
  // ---------------------------------------------------------------------------

  type Thread = nat

  datatype StoredTable = StoredTable(table: Table, cache: Cache)

  /** A compiled lookup by value: the stored table it captured, its index and what it indexes. */
  datatype BoundLookup = BoundLookup(stored: nat, index: Option<RowIndex>, ik: IndexKey)

  /** One lookup of a VRL program compiling: it holds the registry's lock for reading throughout. */
  datatype Compiling = Compiling(name: string, stored: nat, call: IndexProtocol.Call)

  /** Stored tables are shared by the registry and the lookups, and never dropped from under either. */
  datatype World = World(registry: map<string, nat>, stored: seq<StoredTable>,
                         compiling: map<Thread, Compiling>, lookups: seq<BoundLookup>)

  const EMPTY := World(map[], [], map[], [])

  datatype Step =
    | Register(name: string, table: Table)
    | Clear
    | Begin(thread: Thread, name: string, ik: IndexKey)
    | Advance(thread: Thread)
    | Finish(thread: Thread)
    | Panic(thread: Thread, left: map<IndexKey, RowIndex>)  // in a section that holds a cache's lock

  predicate Pending(w: World, t: Thread) {
    t in w.compiling && w.compiling[t].stored < |w.stored|
  }

  /** The state a step leads to, or None while it has to wait or has nothing to act on. */
  function Next(texts: Texts, w: World, step: Step): Option<World> {
    match step
    case Register(name, table) =>
      if name == "" then Some(w)
      else if w.compiling != map[] then None
      else Some(w.(registry := w.registry[name := |w.stored|],
                   stored := w.stored + [StoredTable(table, Cache(map[], false))]))
    case Clear => if w.compiling != map[] then None else Some(w.(registry := map[]))
    case Begin(t, name, ik) =>
      if t in w.compiling then None
      else if name !in w.registry || w.registry[name] >= |w.stored| then Some(w)
      else
        var n := w.registry[name];
        Some(w.(compiling := w.compiling[t := Compiling(name, n, IndexProtocol.Asked(w.stored[n].table, ik))]))
    case Advance(t) => if !Pending(w, t) || w.compiling[t].call.Done? then None else Some(Advanced(texts, w, t))
    case Finish(t) =>
      if !Pending(w, t) || !w.compiling[t].call.Done? then None
      else
        var Compiling(_, n, call) := w.compiling[t];
        Some(w.(compiling := w.compiling - {t}, lookups := w.lookups + [BoundLookup(n, call.result, call.key)]))
    case Panic(t, left) =>
      if !Pending(w, t) || w.compiling[t].call.Building? || w.compiling[t].call.Done? then None
      else
        var n := w.compiling[t].stored;
        if w.stored[n].cache.poisoned then None
        else Some(w.(compiling := w.compiling - {t},
                     stored := w.stored[n := StoredTable(w.stored[n].table, Cache(left, true))]))
  }

  /** One section of a compile's call, against the cache of its table. */
  function Advanced(texts: Texts, w: World, t: Thread): World
    requires Pending(w, t) && !w.compiling[t].call.Done?
  {
    var Compiling(name, n, call) := w.compiling[t];
    var (cache, call') := IndexProtocol.Section(texts, w.stored[n].table, w.stored[n].cache, call);
    CallAt(w, t, cache, call')
  }

  function CallAt(w: World, t: Thread, cache: Cache, call: IndexProtocol.Call): World
    requires Pending(w, t)
  {
    var n := w.compiling[t].stored;
    w.(stored := w.stored[n := StoredTable(w.stored[n].table, cache)],
       compiling := w.compiling[t := w.compiling[t].(call := call)])
  }

  function Reached(texts: Texts, w: World, steps: seq<Step>): Option<World> {
    if steps == [] then Some(w)
    else match Reached(texts, w, steps[..|steps| - 1])
      case None => None
      case Some(before) => Next(texts, before, steps[|steps| - 1])
  }

  /** The table `name` denotes after `steps`, read off the steps alone. */
  function RegisteredAt(steps: seq<Step>, name: string): Option<Table> {
    if steps == [] then None
    else match steps[|steps| - 1]
      case Register(other, table) =>
        if other == name && name != "" then Some(table) else RegisteredAt(steps[..|steps| - 1], name)
      case Clear => None
      case _ => RegisteredAt(steps[..|steps| - 1], name)
  }

  /** What `t` last began to compile against: the table its name denoted then, and what it indexes. */
  function CapturedBy(steps: seq<Step>, t: Thread): Option<(Table, IndexKey)> {
    if steps == [] then None
    else
      var earlier := steps[..|steps| - 1];
      match steps[|steps| - 1]
      case Begin(u, name, ik) =>
        if u != t then CapturedBy(earlier, t)
        else if RegisteredAt(earlier, name).Some? then Some((RegisteredAt(earlier, name).value, ik))
        else None
      case _ => CapturedBy(earlier, t)
  }

  /** What the compiled lookups captured, in the order they were finished. */
  function Captured(steps: seq<Step>): seq<(Table, IndexKey)> {
    if steps == [] then []
    else
      var earlier := steps[..|steps| - 1];
      match steps[|steps| - 1]
      case Finish(t) =>
        Captured(earlier) + if CapturedBy(earlier, t).Some? then [CapturedBy(earlier, t).value] else []
      case _ => Captured(earlier)
  }

  ghost predicate CachesTrusted(texts: Texts, w: World) {
    forall i :: 0 <= i < |w.stored| ==> w.stored[i].cache.Trusted(texts, w.stored[i].table.rows)
  }

  /** The registry holds what the steps registered. */
  ghost predicate Names(steps: seq<Step>, w: World) {
    && (forall name <- w.registry :: w.registry[name] < |w.stored|)
    && (forall name :: RegisteredAt(steps, name).Some? <==> name in w.registry)
    && (forall name <- w.registry :: RegisteredAt(steps, name) == Some(w.stored[w.registry[name]].table))
  }

  /** A compile in progress: its name still denotes its table, and its call for an index is sound. */
  ghost predicate Compiles(texts: Texts, steps: seq<Step>, w: World, t: Thread)
    requires t in w.compiling
  {
    var Compiling(name, n, call) := w.compiling[t];
    && n < |w.stored|
    && name in w.registry && w.registry[name] == n
    && CapturedBy(steps, t) == Some((w.stored[n].table, call.key))
    && IndexProtocol.Sound(texts, w.stored[n].table, call)
  }

  /** A compiled lookup holds the table and fresh index of what it captured. */
  ghost predicate Holds(texts: Texts, w: World, p: BoundLookup, captured: (Table, IndexKey)) {
    && p.stored < |w.stored|
    && w.stored[p.stored].table == captured.0
    && p.ik == captured.1
    && p.index == IndexFor(texts, captured.0, captured.1)
  }

  ghost predicate LookupsHold(texts: Texts, steps: seq<Step>, w: World) {
    && |w.lookups| == |Captured(steps)|
    && forall i :: 0 <= i < |w.lookups| ==> Holds(texts, w, w.lookups[i], Captured(steps)[i])
  }

  ghost predicate Invariant(texts: Texts, steps: seq<Step>, w: World) {
    && CachesTrusted(texts, w)
    && Names(steps, w)
    && (forall t <- w.compiling :: Compiles(texts, steps, w, t))
    && LookupsHold(texts, steps, w)
  }

  lemma {:induction false} InvariantHolds(texts: Texts, steps: seq<Step>)
    requires Reached(texts, EMPTY, steps).Some?
    ensures Invariant(texts, steps, Reached(texts, EMPTY, steps).value)
  {
    if steps != [] {
      var earlier, last := steps[..|steps| - 1], steps[|steps| - 1];
      InvariantHolds(texts, earlier);
      var w := Reached(texts, EMPTY, earlier).value;
      StepKeepsTables(texts, w, last);
      assert forall t <- w.compiling :: Compiles(texts, earlier, w, t);
      StepKeepsCaches(texts, w, last);
      if last.Register? || last.Clear? {
        RegisteringKeeps(texts, earlier, steps, w, Next(texts, w, last).value);
      } else {
        CompilingKeeps(texts, earlier, steps, w, Next(texts, w, last).value);
      }
    }
  }

  /** Stored tables only ever gain caches and successors. */
  ghost predicate SameTables(w: World, w': World) {
    && |w.stored| <= |w'.stored|
    && forall i :: 0 <= i < |w.stored| ==> w'.stored[i].table == w.stored[i].table
  }

  lemma StepKeepsTables(texts: Texts, w: World, step: Step)
    requires Next(texts, w, step).Some?
    ensures SameTables(w, Next(texts, w, step).value)
  {
  }

  lemma StepKeepsCaches(texts: Texts, w: World, step: Step)
    requires Next(texts, w, step).Some? && CachesTrusted(texts, w)
    requires forall t <- w.compiling ::
               w.compiling[t].stored < |w.stored| ==>
                 IndexProtocol.Sound(texts, w.stored[w.compiling[t].stored].table, w.compiling[t].call)
    ensures CachesTrusted(texts, Next(texts, w, step).value)
  {
    if step.Advance? {
      assert IndexProtocol.Sound(
          texts, w.stored[w.compiling[step.thread].stored].table, w.compiling[step.thread].call);
    }
  }

  lemma NamesStay(earlier: seq<Step>, steps: seq<Step>, w: World, w': World)
    requires Names(earlier, w) && w'.registry == w.registry && SameTables(w, w')
    requires forall name :: RegisteredAt(steps, name) == RegisteredAt(earlier, name)
    ensures Names(steps, w')
  {
  }

  lemma CompileStays(texts: Texts, earlier: seq<Step>, steps: seq<Step>, w: World, w': World, t: Thread)
    requires t in w.compiling && Compiles(texts, earlier, w, t)
    requires t in w'.compiling && w'.compiling[t] == w.compiling[t]
    requires w'.registry == w.registry && SameTables(w, w')
    requires CapturedBy(steps, t) == CapturedBy(earlier, t)
    ensures Compiles(texts, steps, w', t)
  {
  }

  lemma LookupsStay(texts: Texts, earlier: seq<Step>, steps: seq<Step>, w: World, w': World)
    requires LookupsHold(texts, earlier, w) && w'.lookups == w.lookups && SameTables(w, w')
    requires Captured(steps) == Captured(earlier)
    ensures LookupsHold(texts, steps, w')
  {
    forall i | 0 <= i < |w.lookups| ensures Holds(texts, w', w.lookups[i], Captured(steps)[i]) {
      assert Holds(texts, w, w.lookups[i], Captured(earlier)[i]);
    }
  }

  lemma RegisteringKeeps(texts: Texts, earlier: seq<Step>, steps: seq<Step>, w: World, w': World)
    requires steps != [] && earlier == steps[..|steps| - 1] && Invariant(texts, earlier, w)
    requires steps[|steps| - 1].Register? || steps[|steps| - 1].Clear?
    requires Next(texts, w, steps[|steps| - 1]) == Some(w') && SameTables(w, w') && CachesTrusted(texts, w')
    ensures Invariant(texts, steps, w')
  {
    LookupsStay(texts, earlier, steps, w, w');
    if w.compiling != map[] {
      NamesStay(earlier, steps, w, w');
      forall t <- w'.compiling ensures Compiles(texts, steps, w', t) {
        CompileStays(texts, earlier, steps, w, w', t);
      }
    }
  }

  lemma CompilingKeeps(texts: Texts, earlier: seq<Step>, steps: seq<Step>, w: World, w': World)
    requires steps != [] && earlier == steps[..|steps| - 1] && Invariant(texts, earlier, w)
    requires !steps[|steps| - 1].Register? && !steps[|steps| - 1].Clear?
    requires Next(texts, w, steps[|steps| - 1]) == Some(w') && SameTables(w, w') && CachesTrusted(texts, w')
    ensures Invariant(texts, steps, w')
  {
    NamesStay(earlier, steps, w, w');
    var last := steps[|steps| - 1];
    forall t <- w'.compiling ensures Compiles(texts, steps, w', t) {
      if t != last.thread {
        CompileStays(texts, earlier, steps, w, w', t);
      } else {
        OwnStepKeeps(texts, earlier, steps, w, w');
      }
    }
    if last.Finish? {
      FinishKeeps(texts, earlier, steps, w, w');
    } else {
      LookupsStay(texts, earlier, steps, w, w');
    }
  }

  lemma OwnStepKeeps(texts: Texts, earlier: seq<Step>, steps: seq<Step>, w: World, w': World)
    requires steps != [] && earlier == steps[..|steps| - 1] && Invariant(texts, earlier, w)
    requires !steps[|steps| - 1].Register? && !steps[|steps| - 1].Clear?
    requires Next(texts, w, steps[|steps| - 1]) == Some(w') && SameTables(w, w')
    requires steps[|steps| - 1].thread in w'.compiling
    ensures Compiles(texts, steps, w', steps[|steps| - 1].thread)
  {
    var last := steps[|steps| - 1];
    if last.Advance? {
      assert Compiles(texts, earlier, w, last.thread);
    }
  }

  lemma FinishKeeps(texts: Texts, earlier: seq<Step>, steps: seq<Step>, w: World, w': World)
    requires steps != [] && earlier == steps[..|steps| - 1] && Invariant(texts, earlier, w)
    requires steps[|steps| - 1].Finish? && Next(texts, w, steps[|steps| - 1]) == Some(w')
    ensures LookupsHold(texts, steps, w')
  {
    assert Compiles(texts, earlier, w, steps[|steps| - 1].thread);
    forall i | 0 <= i < |w.lookups| ensures Holds(texts, w', w.lookups[i], Captured(steps)[i]) {
      assert Holds(texts, w, w.lookups[i], Captured(earlier)[i]);
    }
  }

  /**
    In every run, compiled lookup number `id` answers as a scan of the table that was
    registered under its name when it compiled, however compiles interleave: no later
    registration, clearing or panic changes it.
   */
  lemma LookupsKeepTheirTable(texts: Texts, steps: seq<Step>, id: nat, conditions: seq<Condition>,
                              select: Option<seq<string>>, wanted: Wanted)
    requires Reached(texts, EMPTY, steps).Some? && id < |Captured(steps)|
    requires FieldsOf(conditions) == Captured(steps)[id].1.fields
    ensures var w := Reached(texts, EMPTY, steps).value;
            && |w.lookups| == |Captured(steps)|
            && w.lookups[id].stored < |w.stored|
            && FindRows(texts, w.stored[w.lookups[id].stored].table, w.lookups[id].index, conditions,
                        w.lookups[id].ik.caseSensitive, select, wanted)
               == Scan(texts, Captured(steps)[id].0, conditions, Captured(steps)[id].1.caseSensitive, select, wanted)
  {
    InvariantHolds(texts, steps);
    var w := Reached(texts, EMPTY, steps).value;
    assert Holds(texts, w, w.lookups[id], Captured(steps)[id]);
    IndexedLookupIsScan(texts, Captured(steps)[id].0, conditions, Captured(steps)[id].1.caseSensitive, select, wanted);
  }

  /** What was captured stays captured, whatever follows. */
  lemma {:induction false} CapturesOnlyGrow(steps: seq<Step>, more: seq<Step>)
    ensures Captured(steps) <= Captured(steps + more)
  {
    if more == [] {
      assert steps + more == steps;
    } else {
      var n := |more| - 1;
      CapturesOnlyGrow(steps, more[..n]);
      assert (steps + more)[..|steps + more| - 1] == steps + more[..n];
    }
  }

  /** A compile gets past its check exactly when its name is registered at that moment. */
  lemma CompilesExactlyWhenRegistered(texts: Texts, steps: seq<Step>, thread: Thread, name: string, ik: IndexKey)
    requires Reached(texts, EMPTY, steps).Some? && thread !in Reached(texts, EMPTY, steps).value.compiling
    ensures var w, begun := Reached(texts, EMPTY, steps).value, steps + [Begin(thread, name, ik)];
            && Reached(texts, EMPTY, begun).Some?
            && var w' := Reached(texts, EMPTY, begun).value;
            if RegisteredAt(steps, name).Some?
            then thread in w'.compiling && CapturedBy(begun, thread) == Some((RegisteredAt(steps, name).value, ik))
            else w' == w
  {
    InvariantHolds(texts, steps);
    assert (steps + [Begin(thread, name, ik)])[..|steps|] == steps;
  }

  /** While a compile goes on, nothing is registered or cleared: its name denotes what it captured. */
  lemma RegistryStandsWhileCompiling(texts: Texts, steps: seq<Step>, thread: Thread)
    requires Reached(texts, EMPTY, steps).Some? && thread in Reached(texts, EMPTY, steps).value.compiling
    ensures var compile := Reached(texts, EMPTY, steps).value.compiling[thread];
            && RegisteredAt(steps, compile.name).Some?
            && CapturedBy(steps, thread) == Some((RegisteredAt(steps, compile.name).value, compile.call.key))
  {
    InvariantHolds(texts, steps);
    assert Compiles(texts, steps, Reached(texts, EMPTY, steps).value, thread);
  }

  /** Registering waits for compiles, and then does what `Registry.Register` promises: one name, a new table. */
  lemma RegisterAloneIsRegister(texts: Texts, w: World, name: string, table: Table)
    requires name != ""
    ensures Next(texts, w, Register(name, table)).Some? <==> w.compiling == map[]
    ensures w.compiling == map[] ==>
              var w' := Next(texts, w, Register(name, table)).value;
              && w'.registry == w.registry[name := |w.stored|] && w'.lookups == w.lookups
              && w'.stored == w.stored + [StoredTable(table, Cache(map[], false))]
  {
  }

  /** A compile that panics while it holds the cache's lock is gone, its table's cache poisoned. */
  lemma PanicExactly(texts: Texts, w: World, t: Thread, left: map<IndexKey, RowIndex>)
    requires Pending(w, t)
    ensures var Compiling(_, n, call) := w.compiling[t];
            var next := Next(texts, w, Panic(t, left));
            && (next.Some? <==> (call.Checking? || call.Inserting?) && !w.stored[n].cache.poisoned)
            && (next.Some? ==> t !in next.value.compiling && next.value.stored[n].cache == Cache(left, true)
                               && next.value.stored[n].table == w.stored[n].table)
  {
  }

  // ---------------------------------------------------------------------------
  // One compile on its own
  // ---------------------------------------------------------------------------

  lemma {:induction false} ReachedInTwo(texts: Texts, w: World, first: seq<Step>, second: seq<Step>)
    requires Reached(texts, w, first).Some?
    ensures Reached(texts, w, first + second) == Reached(texts, Reached(texts, w, first).value, second)
  {
    if second == [] {
      assert first + second == first;
    } else {
      var n := |second| - 1;
      assert (first + second)[..|first + second| - 1] == first + second[..n];
      ReachedInTwo(texts, w, first, second[..n]);
    }
  }

  lemma ReachedInOne(texts: Texts, w: World, step: Step)
    ensures Reached(texts, w, [step]) == Next(texts, w, step)
  {
    assert [step][..0] == [];
  }

  /** A compile's sections one after the other, up to the end of its call. */
  lemma {:induction false} SectionsAlone(texts: Texts, w: World, thread: Thread) returns (more: seq<Step>)
    requires Pending(w, thread)
    ensures |more| <= IndexProtocol.Remaining(w.compiling[thread].call)
    ensures forall step <- more :: step == Advance(thread)
    ensures var Compiling(_, n, call) := w.compiling[thread];
            var (cache', call') := IndexProtocol.Uninterrupted(texts, w.stored[n].table, w.stored[n].cache, call);
            call'.Done? && Reached(texts, w, more) == Some(CallAt(w, thread, cache', call'))
    decreases IndexProtocol.Remaining(w.compiling[thread].call)
  {
    var Compiling(_, n, call) := w.compiling[thread];
    var StoredTable(table, cache) := w.stored[n];
    if call.Done? {
      more := [];
      CallAtSame(w, thread);
      assert IndexProtocol.Uninterrupted(texts, table, cache, call) == (cache, call);
    } else {
      var (cache', call') := IndexProtocol.Section(texts, table, cache, call);
      var next := Advanced(texts, w, thread);
      assert next == CallAt(w, thread, cache', call');
      var rest := SectionsAlone(texts, next, thread);
      var (last, done) := IndexProtocol.Uninterrupted(texts, table, cache', call');
      assert IndexProtocol.Uninterrupted(texts, table, cache, call) == (last, done);
      CallAtTwice(w, thread, cache', call', last, done);
      more := [Advance(thread)] + rest;
      ReachedInOne(texts, w, Advance(thread));
      ReachedInTwo(texts, w, [Advance(thread)], rest);
    }
  }

  lemma CallAtSame(w: World, t: Thread)
    requires Pending(w, t)
    ensures CallAt(w, t, w.stored[w.compiling[t].stored].cache, w.compiling[t].call) == w
  {
  }

  lemma CallAtTwice(w: World, t: Thread, cache: Cache, call: IndexProtocol.Call,
                    cache': Cache, call': IndexProtocol.Call)
    requires Pending(w, t)
    ensures Pending(CallAt(w, t, cache, call), t)
    ensures CallAt(CallAt(w, t, cache, call), t, cache', call') == CallAt(w, t, cache', call')
  {
  }

  lemma FinishAddsALookup(texts: Texts, steps: seq<Step>, thread: Thread)
    requires Reached(texts, EMPTY, steps).Some?
    requires thread in Reached(texts, EMPTY, steps).value.compiling
    requires Reached(texts, EMPTY, steps).value.compiling[thread].call.Done?
    ensures Reached(texts, EMPTY, steps + [Finish(thread)]).Some?
    ensures var w, w' := Reached(texts, EMPTY, steps).value, Reached(texts, EMPTY, steps + [Finish(thread)]).value;
            var Compiling(_, n, call) := w.compiling[thread];
            && n < |w.stored|
            && w' == w.(compiling := w.compiling - {thread},
                        lookups := w.lookups + [BoundLookup(n, call.result, call.key)])
            && call.result == IndexFor(texts, w.stored[n].table, call.key)
  {
    InvariantHolds(texts, steps);
    assert Compiles(texts, steps, Reached(texts, EMPTY, steps).value, thread);
    ReachedInTwo(texts, EMPTY, steps, [Finish(thread)]);
    ReachedInOne(texts, Reached(texts, EMPTY, steps).value, Finish(thread));
  }

  /** No compile can be blocked: its own next steps, four at most, end it with one more lookup. */
  lemma CompileFinishes(texts: Texts, steps: seq<Step>, thread: Thread) returns (more: seq<Step>)
    requires Reached(texts, EMPTY, steps).Some? && thread in Reached(texts, EMPTY, steps).value.compiling
    ensures |more| <= 4 && forall step <- more :: step == Advance(thread) || step == Finish(thread)
    ensures Reached(texts, EMPTY, steps + more).Some?
    ensures var w, w' := Reached(texts, EMPTY, steps).value, Reached(texts, EMPTY, steps + more).value;
            && w'.compiling == w.compiling - {thread} && w'.registry == w.registry
            && |w'.lookups| == |w.lookups| + 1 && w'.lookups[..|w.lookups|] == w.lookups
            && CapturedBy(steps, thread).Some?
            && Holds(texts, w', w'.lookups[|w.lookups|], CapturedBy(steps, thread).value)
  {
    InvariantHolds(texts, steps);
    var w := Reached(texts, EMPTY, steps).value;
    assert Compiles(texts, steps, w, thread);
    var Compiling(_, n, call) := w.compiling[thread];
    var sections := SectionsAlone(texts, w, thread);
    ReachedInTwo(texts, EMPTY, steps, sections);
    IndexProtocol.UninterruptedKeepsKey(texts, w.stored[n].table, w.stored[n].cache, call);
    FinishAddsALookup(texts, steps + sections, thread);
    more := sections + [Finish(thread)];
    assert steps + more == steps + sections + [Finish(thread)];
  }

  /**
    A compile nothing interrupts does what `Registry.CompileArgs` promises: it adds a lookup
    with the table's fresh index, and leaves that index in the table's cache.
   */
  lemma CompileAloneIsCompileArgs(texts: Texts, steps: seq<Step>, thread: Thread, name: string, ik: IndexKey)
    returns (more: seq<Step>)
    requires Reached(texts, EMPTY, steps).Some? && thread !in Reached(texts, EMPTY, steps).value.compiling
    requires name in Reached(texts, EMPTY, steps).value.registry
    ensures |more| <= 5
    ensures var w := Reached(texts, EMPTY, steps).value;
            var n := w.registry[name];
            && n < |w.stored|
            && var StoredTable(table, cache) := w.stored[n];
            Reached(texts, w, more)
            == Some(w.(stored := w.stored[n := StoredTable(table, cache.After(texts, table, ik))],
                       lookups := w.lookups + [BoundLookup(n, IndexFor(texts, table, ik), ik)]))
  {
    InvariantHolds(texts, steps);
    var w := Reached(texts, EMPTY, steps).value;
    var n := w.registry[name];
    var StoredTable(table, cache) := w.stored[n];
    var begun := Next(texts, w, Begin(thread, name, ik)).value;
    var sections := SectionsAlone(texts, begun, thread);
    IndexProtocol.UninterruptedIsObtainIndex(texts, table, cache, ik);
    more := [Begin(thread, name, ik)] + sections + [Finish(thread)];
    ReachedInOne(texts, w, Begin(thread, name, ik));
    ReachedInTwo(texts, w, [Begin(thread, name, ik)], sections);
    var called := Reached(texts, begun, sections).value;
    ReachedInOne(texts, called, Finish(thread));
    ReachedInTwo(texts, w, [Begin(thread, name, ik)] + sections, [Finish(thread)]);
    assert called.compiling - {thread} == w.compiling;
  }
}
