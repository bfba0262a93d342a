/**
  File enrichment tables: loading, the index on condition fields and its cache, and the
  lookups answered from it (vector-bindings/src/enrichment.rs).
 */
module Enrichment {
  import opened Wrappers
  import opened Decimals
  import opened Documents
  import opened Conversion

  /** A CSV row.  Its iteration order is never observed, so it is a plain map. */
  type Row = map<string, Value>

  /** A field and the value it must equal. */
  type Condition = (string, Value)

  datatype Table = Table(headers: seq<string>, rows: seq<Row>)

  /** The library's text functions: Unicode lowercasing and the text of a float. */
  datatype Texts = Texts(lower: string -> string, floatText: Float -> string)

  /** What tells one index of a table from another. */
  datatype IndexKey = IndexKey(caseSensitive: bool, fields: seq<string>)

  /** For each combination of indexed texts, the rows that show it. */
  type RowIndex = map<seq<string>, seq<nat>>

  datatype LookupError =
    | NoSuchField(field: string)
    | NotComparable(field: string)
    | NotSelected(key: string)

  datatype Wanted = One | All {
    /** Rows worth copying out; None stands for the largest `usize`, more than any table holds. */
    function Limit(): Option<nat> {
      if One? then Some(2) else None
    }
  }

  // ---------------------------------------------------------------------------
  // Comparable text
  // ---------------------------------------------------------------------------

  /** How a value reads when it is compared; arrays, objects and the like do not. */
  function ComparableText(texts: Texts, field: string, value: Value): Result<string, LookupError> {
    match value
    case Scalar(Bytes(b)) => Ok(LossyText(b))
    case Scalar(String(s)) => Ok(s)
    case Scalar(Integer(i)) => Ok(SignedDecimal(i))
    case Scalar(Float(f)) => Ok(texts.floatText(f))
    case Scalar(Boolean(b)) => Ok(if b then "true" else "false")
    case _ => Err(NotComparable(field))
  }

  function ComparableKey(texts: Texts, text: string, caseSensitive: bool): string {
    if caseSensitive then text else texts.lower(text)
  }

  /** The index key of a row, or None when a field is missing or not comparable. */
  function RowKey(texts: Texts, row: Row, fields: seq<string>, caseSensitive: bool): Option<seq<string>> {
    if fields == [] then Some([])
    else if fields[0] !in row || ComparableText(texts, fields[0], row[fields[0]]).Err? then None
    else match RowKey(texts, row, fields[1..], caseSensitive)
      case None => None
      case Some(rest) =>
        Some([ComparableKey(texts, ComparableText(texts, fields[0], row[fields[0]]).value, caseSensitive)] + rest)
  }

  /** The index key the conditions ask for, or the first condition that is not comparable. */
  function ConditionKey(texts: Texts, conditions: seq<Condition>, caseSensitive: bool)
    : Result<seq<string>, LookupError>
  {
    if conditions == [] then Ok([])
    else match ComparableText(texts, conditions[0].0, conditions[0].1)
      case Err(e) => Err(e)
      case Ok(text) =>
        match ConditionKey(texts, conditions[1..], caseSensitive)
        case Err(e) => Err(e)
        case Ok(rest) => Ok([ComparableKey(texts, text, caseSensitive)] + rest)
  }

  // ---------------------------------------------------------------------------
  // Select
  // ---------------------------------------------------------------------------

  function FirstMissing(keys: set<string>, select: seq<string>): Option<string> {
    if select == [] then None
    else if select[0] !in keys then Some(select[0])
    else FirstMissing(keys, select[1..])
  }

  lemma {:induction false} FirstMissingFinds(keys: set<string>, select: seq<string>)
    ensures FirstMissing(keys, select).None? <==> forall key <- select :: key in keys
    ensures forall i :: 0 <= i < |select| && select[i] !in keys && (forall k :: 0 <= k < i ==> select[k] in keys) ==>
                          FirstMissing(keys, select) == Some(select[i])
  {
    if select != [] {
      FirstMissingFinds(keys, select[1..]);
      assert forall i :: 0 < i < |select| ==> select[i] == select[1..][i - 1];
      assert forall key <- select :: key == select[0] || key in select[1..];
    }
  }

  /** The row cut down to the selected keys, or the first of them it does not carry. */
  function Selected(row: Row, select: Option<seq<string>>): (r: Result<Row, LookupError>)
  {
    match select
    case None => Ok(row)
    case Some(keys) =>
      match FirstMissing(row.Keys, keys)
      case Some(key) => Err(NotSelected(key))
      case None => Ok(map key | key in keys && key in row :: row[key])
  }

  /** What a selection leaves of a row: all of it without one, else just the selected cells, each as it was. */
  lemma SelectedExactly(row: Row, keys: seq<string>)
    ensures Selected(row, None) == Ok(row)
    ensures Selected(row, Some(keys)).Ok? <==> forall key <- keys :: key in row
    ensures Selected(row, Some(keys)).Ok? ==>
              var out := Selected(row, Some(keys)).value;
              out.Keys == (set key <- keys) && forall key <- keys :: key in row && out[key] == row[key]
    ensures forall i :: 0 <= i < |keys| && keys[i] !in row && (forall k :: 0 <= k < i ==> keys[k] in row) ==>
                          Selected(row, Some(keys)) == Err(NotSelected(keys[i]))
  {
    FirstMissingFinds(row.Keys, keys);
  }

  /** The source's loop over the selected keys. */
  method ApplySelect(row: Row, select: Option<seq<string>>) returns (r: Result<Row, LookupError>)
    ensures r == Selected(row, select)
  {
    if select.None? {
      return Ok(row);
    }
    var keys := select.value;
    FirstMissingFinds(row.Keys, keys);
    var out: Row := map[];
    for i := 0 to |keys|
      invariant forall k :: 0 <= k < i ==> keys[k] in row
      invariant out == map key | key in keys[..i] && key in row :: row[key]
    {
      if keys[i] !in row {
        return Err(NotSelected(keys[i]));
      }
      assert keys[..i + 1] == keys[..i] + [keys[i]];
      out := out[keys[i] := row[keys[i]]];
    }
    assert keys[..|keys|] == keys;
    return Ok(out);
  }

  // ---------------------------------------------------------------------------
  // The index
  // ---------------------------------------------------------------------------

  predicate HasColumns(table: Table, fields: seq<string>) {
    forall field <- fields :: field in table.headers
  }

  /** The numbers, ascending, of the rows from `from` on whose key is `key`. */
  function Numbers(texts: Texts, rows: seq<Row>, ik: IndexKey, key: seq<string>, from: nat): seq<nat>
    requires from <= |rows|
    decreases |rows| - from
  {
    if from == |rows| then []
    else
      (if RowKey(texts, rows[from], ik.fields, ik.caseSensitive) == Some(key) then [from] else [])
      + Numbers(texts, rows, ik, key, from + 1)
  }

  /** The index on `ik` of a table's rows: every key some row has, with the rows that have it. */
  function IndexOf(texts: Texts, rows: seq<Row>, ik: IndexKey): RowIndex {
    map key | key in KeysOf(texts, rows, ik) :: Numbers(texts, rows, ik, key, 0)
  }

  function KeysOf(texts: Texts, rows: seq<Row>, ik: IndexKey): set<seq<string>> {
    set n | 0 <= n < |rows| && RowKey(texts, rows[n], ik.fields, ik.caseSensitive).Some?
      :: RowKey(texts, rows[n], ik.fields, ik.caseSensitive).value
  }

  function Bucket(index: RowIndex, key: seq<string>): seq<nat> {
    if key in index then index[key] else []
  }

  lemma {:induction false} NumbersMember(
    texts: Texts, rows: seq<Row>, ik: IndexKey, key: seq<string>, from: nat, n: nat)
    requires from <= |rows|
    ensures n in Numbers(texts, rows, ik, key, from) <==>
            from <= n < |rows| && RowKey(texts, rows[n], ik.fields, ik.caseSensitive) == Some(key)
    decreases |rows| - from
  {
    if from < |rows| {
      NumbersMember(texts, rows, ik, key, from + 1, n);
    }
  }

  lemma BucketIsNumbers(texts: Texts, rows: seq<Row>, ik: IndexKey, key: seq<string>)
    ensures Bucket(IndexOf(texts, rows, ik), key) == Numbers(texts, rows, ik, key, 0)
  {
    var numbers := Numbers(texts, rows, ik, key, 0);
    if numbers != [] {
      NumbersMember(texts, rows, ik, key, 0, numbers[0]);
    }
  }

  /** What row `n` moves from the numbers still to come into the bucket. */
  lemma NextRow(texts: Texts, rows: seq<Row>, ik: IndexKey, key: seq<string>, n: nat, bucket: seq<nat>)
    requires n < |rows|
    ensures var taken := RowKey(texts, rows[n], ik.fields, ik.caseSensitive) == Some(key);
            bucket + Numbers(texts, rows, ik, key, n)
            == (if taken then bucket + [n] else bucket) + Numbers(texts, rows, ik, key, n + 1)
  {
    var rest := Numbers(texts, rows, ik, key, n + 1);
    assert bucket + ([n] + rest) == (bucket + [n]) + rest;
    assert [] + rest == rest;
  }

  /** The build loop: each row number is appended to the bucket of its row's key. */
  method BuildIndex(texts: Texts, rows: seq<Row>, ik: IndexKey) returns (index: RowIndex)
    ensures index == IndexOf(texts, rows, ik)
  {
    index := map[];
    for n := 0 to |rows|
      invariant forall key :: Bucket(index, key) + Numbers(texts, rows, ik, key, n) == Numbers(texts, rows, ik, key, 0)
      invariant forall key <- index :: index[key] != []
    {
      var values := RowKey(texts, rows[n], ik.fields, ik.caseSensitive);
      ghost var before := index;
      if values.Some? {
        index := index[values.value := Bucket(index, values.value) + [n]];
      }
      forall key
        ensures Bucket(index, key) + Numbers(texts, rows, ik, key, n + 1) == Numbers(texts, rows, ik, key, 0)
      {
        NextRow(texts, rows, ik, key, n, Bucket(before, key));
      }
    }
    IndexIsDetermined(texts, rows, ik, index);
  }

  lemma IndexIsDetermined(texts: Texts, rows: seq<Row>, ik: IndexKey, index: RowIndex)
    requires forall key :: Bucket(index, key) + [] == Numbers(texts, rows, ik, key, 0)
    requires forall key <- index :: index[key] != []
    ensures index == IndexOf(texts, rows, ik)
  {
    forall key
      ensures key in index <==> key in IndexOf(texts, rows, ik)
      ensures key in index ==> index[key] == IndexOf(texts, rows, ik)[key]
    {
      assert Bucket(index, key) + [] == Bucket(index, key);
      if key in KeysOf(texts, rows, ik) {
        var n :| 0 <= n < |rows| && RowKey(texts, rows[n], ik.fields, ik.caseSensitive) == Some(key);
        NumbersMember(texts, rows, ik, key, 0, n);
      }
      if key in index {
        NumbersMember(texts, rows, ik, key, 0, index[key][0]);
      }
    }
  }

  // ---------------------------------------------------------------------------
  // The cache
  // ---------------------------------------------------------------------------

  /** A mutex: its value, and whether a panicking holder has poisoned it. */
  datatype Cache = Cache(indexes: map<IndexKey, RowIndex>, poisoned: bool) {
    /** The locked check: a poisoned cache answers nothing. */
    function Get(key: IndexKey): Option<RowIndex> {
      if !poisoned && key in indexes then Some(indexes[key]) else None
    }

    /** The locked insert: a poisoned cache takes nothing. */
    function Put(key: IndexKey, index: RowIndex): Cache {
      if poisoned then this else Cache(indexes[key := index], poisoned)
    }

    /** What asking for `ik` once, alone, leaves. */
    function After(texts: Texts, table: Table, ik: IndexKey): Cache {
      if HasColumns(table, ik.fields) then Put(ik, IndexOf(texts, table.rows, ik)) else this
    }

    /** Until a panicking writer poisons it, every entry is the index built afresh. */
    ghost predicate Trusted(texts: Texts, rows: seq<Row>) {
      !poisoned ==> forall key <- indexes :: indexes[key] == IndexOf(texts, rows, key)
    }
  }

  /** What a lookup on `ik` goes through; without all its columns there is nothing to index. */
  function IndexFor(texts: Texts, table: Table, ik: IndexKey): Option<RowIndex> {
    if HasColumns(table, ik.fields) then Some(IndexOf(texts, table.rows, ik)) else None
  }

  /** A CSV loaded into memory: immutable rows, and the indexes built for them so far. */
  class FileTable {
    const headers: seq<string>
    const rows: seq<Row>
    var cache: Cache

    constructor (headers: seq<string>, rows: seq<Row>)
      ensures this.headers == headers && this.rows == rows
      ensures cache == Cache(map[], false)
    {
      this.headers, this.rows := headers, rows;
      cache := Cache(map[], false);
    }

    function Data(): Table {
      Table(headers, rows)
    }

    /** The index for `ik`, from the cache or built and cached, is always the one built afresh. */
    method ObtainIndex(texts: Texts, ik: IndexKey) returns (index: Option<RowIndex>)
      requires cache.Trusted(texts, rows)
      modifies this`cache
      ensures cache.Trusted(texts, rows)
      ensures index == IndexFor(texts, Data(), ik)
      ensures cache == old(cache).After(texts, Data(), ik)
    {
      if !HasColumns(Data(), ik.fields) {
        return None;
      }
      var cached := cache.Get(ik);
      if cached.Some? {
        assert cache.indexes[ik := cached.value] == cache.indexes;
        return cached;
      }
      var built := BuildIndex(texts, rows, ik);
      cache := cache.Put(ik, built);
      return Some(built);
    }
  }

  // ---------------------------------------------------------------------------
  // Loading
  // ---------------------------------------------------------------------------

  datatype LoadError =
    | UnreadableHeader(text: string)
    | NoHeader
    | UnreadableRow(number: nat, text: string)
    | RaggedRow(number: nat, found: nat, expected: nat)

  /** Cells inserted under their headers, left to right. */
  function RowOf(headers: seq<string>, cells: seq<string>): Row
    requires |headers| == |cells|
  {
    if headers == [] then map[]
    else
      var n := |headers| - 1;
      RowOf(headers[..n], cells[..n])[headers[n] := Scalar(Bytes(Utf8(cells[n])))]
  }

  lemma {:induction false} RowOfKeys(headers: seq<string>, cells: seq<string>)
    requires |headers| == |cells|
    ensures RowOf(headers, cells).Keys == set header <- headers
  {
    if headers != [] {
      var n := |headers| - 1;
      RowOfKeys(headers[..n], cells[..n]);
      assert headers == headers[..n] + [headers[n]];
    }
  }

  lemma {:induction false} LastCellStays(headers: seq<string>, cells: seq<string>, i: nat)
    requires |headers| == |cells| && i < |headers|
    requires forall k :: i < k < |headers| ==> headers[k] != headers[i]
    ensures headers[i] in RowOf(headers, cells)
    ensures RowOf(headers, cells)[headers[i]] == Scalar(Bytes(Utf8(cells[i])))
  {
    var n := |headers| - 1;
    if i < n {
      assert headers[n] != headers[i];
      LastCellStays(headers[..n], cells[..n], i);
    }
  }

  /** A row carries exactly the header names; of columns sharing a name, the last one's cell. */
  lemma RowOfKeepsLastCell(headers: seq<string>, cells: seq<string>)
    requires |headers| == |cells|
    ensures RowOf(headers, cells).Keys == set header <- headers
    ensures forall i :: 0 <= i < |headers| && (forall k :: i < k < |headers| ==> headers[k] != headers[i]) ==>
                          headers[i] in RowOf(headers, cells) &&
                          RowOf(headers, cells)[headers[i]] == Scalar(Bytes(Utf8(cells[i])))
  {
    RowOfKeys(headers, cells);
    forall i | 0 <= i < |headers| && (forall k :: i < k < |headers| ==> headers[k] != headers[i])
      ensures headers[i] in RowOf(headers, cells)
      ensures RowOf(headers, cells)[headers[i]] == Scalar(Bytes(Utf8(cells[i])))
    {
      LastCellStays(headers, cells, i);
    }
  }

  /** Every row carries exactly the header names, and text in every cell. */
  ghost predicate Loaded(table: Table) {
    forall row <- table.rows ::
      row.Keys == (set header <- table.headers) &&
      forall field <- row :: exists text :: row[field] == Scalar(Bytes(Utf8(text)))
  }

  /** What is wrong with a record, the reader's own error first. */
  function RecordError(record: Result<seq<string>, string>, number: nat, columns: nat): Option<LoadError> {
    match record
    case Err(text) => Some(UnreadableRow(number, text))
    case Ok(cells) => if |cells| != columns then Some(RaggedRow(number, |cells|, columns)) else None
  }

  ghost predicate HasWidth(record: Result<seq<string>, string>, columns: nat) {
    record.Ok? && |record.value| == columns
  }

  ghost predicate Loadable(headers: Result<seq<string>, string>, records: seq<Result<seq<string>, string>>) {
    headers.Ok? && headers.value != []
    && forall i :: 0 <= i < |records| ==> HasWidth(records[i], |headers.value|)
  }

  /** The table holds the headers and, in file order, each record under them. */
  ghost predicate Holds(table: Table, headers: seq<string>, records: seq<Result<seq<string>, string>>) {
    && Loaded(table)
    && table.headers == headers
    && |table.rows| == |records|
    && forall i :: 0 <= i < |records| ==>
         records[i].Ok? && |records[i].value| == |headers| && table.rows[i] == RowOf(headers, records[i].value)
  }

  /**
    Turns what the CSV reader yields into a table, or reports the first thing wrong:
    the header, then the records in file order, numbered from one.
   */
  method Load(headers: Result<seq<string>, string>, records: seq<Result<seq<string>, string>>)
    returns (r: Result<Table, LoadError>)
    ensures r.Ok? <==> Loadable(headers, records)
    ensures r.Ok? ==> Holds(r.value, headers.value, records)
    ensures headers.Err? ==> r == Err(UnreadableHeader(headers.error))
    ensures headers.Ok? && headers.value == [] ==> r == Err(NoHeader)
    ensures headers.Ok? && headers.value != [] && r.Err? ==>
              exists i :: && 0 <= i < |records|
                          && r.error == (if records[i].Err? then UnreadableRow(i + 1, records[i].error)
                                         else RaggedRow(i + 1, |records[i].value|, |headers.value|))
                          && !HasWidth(records[i], |headers.value|)
                          && forall k :: 0 <= k < i ==> HasWidth(records[k], |headers.value|)
  {
    if headers.Err? {
      return Err(UnreadableHeader(headers.error));
    }
    if headers.value == [] {
      return Err(NoHeader);
    }
    var rows: seq<Row> := [];
    for i := 0 to |records|
      invariant |rows| == i
      invariant forall k :: 0 <= k < i ==> RecordError(records[k], k + 1, |headers.value|).None?
      invariant forall k :: 0 <= k < i ==> rows[k] == RowOf(headers.value, records[k].value)
    {
      var problem := RecordError(records[i], i + 1, |headers.value|);
      if problem.Some? {
        return Err(problem.value);
      }
      var cells := records[i].value;
      var row: Row := map[];
      for j := 0 to |cells|
        invariant row == RowOf(headers.value[..j], cells[..j])
      {
        assert headers.value[..j + 1][..j] == headers.value[..j] && cells[..j + 1][..j] == cells[..j];
        row := row[headers.value[j] := Scalar(Bytes(Utf8(cells[j])))];
      }
      assert headers.value[..|cells|] == headers.value && cells[..|cells|] == cells;
      rows := rows + [row];
    }
    forall row <- rows
      ensures row.Keys == (set header <- headers.value)
      ensures forall field <- row :: exists text :: row[field] == Scalar(Bytes(Utf8(text)))
    {
      var k :| 0 <= k < |rows| && rows[k] == row;
      RowOfKeys(headers.value, records[k].value);
      RowOfIsText(headers.value, records[k].value);
    }
    return Ok(Table(headers.value, rows));
  }

  lemma {:induction false} RowOfIsText(headers: seq<string>, cells: seq<string>)
    requires |headers| == |cells|
    ensures forall field <- RowOf(headers, cells) ::
              exists text :: RowOf(headers, cells)[field] == Scalar(Bytes(Utf8(text)))
  {
    if headers != [] {
      RowOfIsText(headers[..|headers| - 1], cells[..|headers| - 1]);
    }
  }

  // ---------------------------------------------------------------------------
  // Lookups
  // ---------------------------------------------------------------------------

  function FieldsOf(conditions: seq<Condition>): seq<string> {
    seq(|conditions|, i requires 0 <= i < |conditions| => conditions[i].0)
  }

  function FirstWithoutColumn(headers: seq<string>, conditions: seq<Condition>): Option<string> {
    if conditions == [] then None
    else if conditions[0].0 !in headers then Some(conditions[0].0)
    else FirstWithoutColumn(headers, conditions[1..])
  }

  function Take(numbers: seq<nat>, limit: Option<nat>): seq<nat> {
    if limit.Some? && limit.value < |numbers| then numbers[..limit.value] else numbers
  }

  /** The numbered rows, each cut to the selection, up to the first failure. */
  function SelectRows(rows: seq<Row>, numbers: seq<nat>, select: Option<seq<string>>): Result<seq<Row>, LookupError> {
    if numbers == [] then Ok([])
    else if numbers[0] >= |rows| then SelectRows(rows, numbers[1..], select)
    else match Selected(rows[numbers[0]], select)
      case Err(e) => Err(e)
      case Ok(row) =>
        match SelectRows(rows, numbers[1..], select)
        case Err(e) => Err(e)
        case Ok(rest) => Ok([row] + rest)
  }

  /** The lookup as it is answered: one bucket of the index, cut to the limit, then selected. */
  function FindRows(texts: Texts, table: Table, index: Option<RowIndex>, conditions: seq<Condition>,
                    caseSensitive: bool, select: Option<seq<string>>, wanted: Wanted)
    : Result<seq<Row>, LookupError>
  {
    match index
    case None => (
      match FirstWithoutColumn(table.headers, conditions)
      case Some(field) => if table.rows != [] then Err(NoSuchField(field)) else Ok([])
      case None => Ok([])
    )
    case Some(buckets) =>
      match ConditionKey(texts, conditions, caseSensitive)
      case Err(e) => Err(e)
      case Ok(key) => SelectRows(table.rows, Take(Bucket(buckets, key), wanted.Limit()), select)
  }

  // The plain lookup the index stands for.

  /** The row's cell in the condition's field reads the same as the condition's value. */
  predicate Meets(texts: Texts, row: Row, condition: Condition, caseSensitive: bool) {
    && condition.0 in row
    && var cell := ComparableText(texts, condition.0, row[condition.0]);
    && var value := ComparableText(texts, condition.0, condition.1);
    && cell.Ok? && value.Ok?
    && (cell.value == value.value || (!caseSensitive && texts.lower(cell.value) == texts.lower(value.value)))
  }

  predicate MeetsAll(texts: Texts, row: Row, conditions: seq<Condition>, caseSensitive: bool) {
    forall condition <- conditions :: Meets(texts, row, condition, caseSensitive)
  }

  /** Goes through the rows from `from` on in order, keeping matches until `limit` of them are found. */
  function ScanRows(texts: Texts, rows: seq<Row>, from: nat, conditions: seq<Condition>, caseSensitive: bool,
                    select: Option<seq<string>>, limit: Option<nat>): Result<seq<Row>, LookupError>
    requires from <= |rows|
    decreases |rows| - from
  {
    if from == |rows| || limit == Some(0) then Ok([])
    else if !MeetsAll(texts, rows[from], conditions, caseSensitive) then
      ScanRows(texts, rows, from + 1, conditions, caseSensitive, select, limit)
    else match Selected(rows[from], select)
      case Err(e) => Err(e)
      case Ok(row) =>
        var left := if limit.Some? then Some(limit.value - 1) else None;
        match ScanRows(texts, rows, from + 1, conditions, caseSensitive, select, left)
        case Err(e) => Err(e)
        case Ok(rest) => Ok([row] + rest)
  }

  function FirstNotComparable(texts: Texts, conditions: seq<Condition>): Option<string> {
    if conditions == [] then None
    else if ComparableText(texts, conditions[0].0, conditions[0].1).Err? then Some(conditions[0].0)
    else FirstNotComparable(texts, conditions[1..])
  }

  /**
    A lookup by plain scan: a field without a column is an error unless the table is
    empty, then a value that is not a scalar is one, then rows are matched in file order.
   */
  function Scan(texts: Texts, table: Table, conditions: seq<Condition>, caseSensitive: bool,
                select: Option<seq<string>>, wanted: Wanted): Result<seq<Row>, LookupError>
  {
    match FirstWithoutColumn(table.headers, conditions)
    case Some(field) => if table.rows == [] then Ok([]) else Err(NoSuchField(field))
    case None =>
      match FirstNotComparable(texts, conditions)
      case Some(field) => Err(NotComparable(field))
      case None => ScanRows(texts, table.rows, 0, conditions, caseSensitive, select, wanted.Limit())
  }

  lemma {:induction false} ColumnsFound(table: Table, conditions: seq<Condition>)
    ensures HasColumns(table, FieldsOf(conditions)) <==> FirstWithoutColumn(table.headers, conditions).None?
  {
    var fields := FieldsOf(conditions);
    if conditions != [] {
      ColumnsFound(table, conditions[1..]);
      assert fields == [conditions[0].0] + FieldsOf(conditions[1..]);
    }
  }

  lemma {:induction false} ConditionKeyFails(texts: Texts, conditions: seq<Condition>, caseSensitive: bool)
    ensures ConditionKey(texts, conditions, caseSensitive).Ok? <==> FirstNotComparable(texts, conditions).None?
    ensures FirstNotComparable(texts, conditions).Some? ==>
              ConditionKey(texts, conditions, caseSensitive)
              == Err(NotComparable(FirstNotComparable(texts, conditions).value))
  {
    if conditions != [] {
      ConditionKeyFails(texts, conditions[1..], caseSensitive);
    }
  }

  /** Equal keys and met conditions are the same thing. */
  lemma {:induction false} KeyMatchesExactly(texts: Texts, row: Row, conditions: seq<Condition>, caseSensitive: bool)
    requires ConditionKey(texts, conditions, caseSensitive).Ok?
    ensures RowKey(texts, row, FieldsOf(conditions), caseSensitive)
            == Some(ConditionKey(texts, conditions, caseSensitive).value)
            <==> MeetsAll(texts, row, conditions, caseSensitive)
  {
    var fields := FieldsOf(conditions);
    if conditions != [] {
      assert fields[1..] == FieldsOf(conditions[1..]);
      KeyMatchesExactly(texts, row, conditions[1..], caseSensitive);
      assert MeetsAll(texts, row, conditions, caseSensitive) <==>
             Meets(texts, row, conditions[0], caseSensitive) &&
             MeetsAll(texts, row, conditions[1..], caseSensitive) by {
        assert conditions == [conditions[0]] + conditions[1..];
      }
      var want := ConditionKey(texts, conditions, caseSensitive).value;
      assert want[1..] == ConditionKey(texts, conditions[1..], caseSensitive).value;
      var got := RowKey(texts, row, fields, caseSensitive);
      if got.Some? {
        assert got.value[1..] == RowKey(texts, row, fields[1..], caseSensitive).value;
        assert got.value == [got.value[0]] + got.value[1..] && want == [want[0]] + want[1..];
      }
    }
  }

  lemma SelectFirst(rows: seq<Row>, first: nat, rest: seq<nat>, select: Option<seq<string>>,
                    limit: Option<nat>, left: Option<nat>)
    requires first < |rows|
    requires if limit.Some? then limit.value > 0 && left == Some(limit.value - 1) else left == None
    ensures var taken := SelectRows(rows, Take([first] + rest, limit), select);
            var some := SelectRows(rows, Take(rest, left), select);
            taken == if Selected(rows[first], select).Err? then Err(Selected(rows[first], select).error)
                     else if some.Err? then Err(some.error)
                     else Ok([Selected(rows[first], select).value] + some.value)
  {
    assert Take([first] + rest, limit) == [first] + Take(rest, left);
    assert ([first] + Take(rest, left))[1..] == Take(rest, left);
  }

  lemma {:induction false} NumberedRowsAreScanned(
    texts: Texts, rows: seq<Row>, from: nat, conditions: seq<Condition>, caseSensitive: bool,
    select: Option<seq<string>>, limit: Option<nat>)
    requires from <= |rows| && ConditionKey(texts, conditions, caseSensitive).Ok?
    ensures var ik := IndexKey(caseSensitive, FieldsOf(conditions));
            var key := ConditionKey(texts, conditions, caseSensitive).value;
            SelectRows(rows, Take(Numbers(texts, rows, ik, key, from), limit), select)
            == ScanRows(texts, rows, from, conditions, caseSensitive, select, limit)
    decreases |rows| - from
  {
    if from < |rows| && limit != Some(0) {
      var ik := IndexKey(caseSensitive, FieldsOf(conditions));
      var key := ConditionKey(texts, conditions, caseSensitive).value;
      KeyMatchesExactly(texts, rows[from], conditions, caseSensitive);
      var rest := Numbers(texts, rows, ik, key, from + 1);
      if MeetsAll(texts, rows[from], conditions, caseSensitive) {
        var left := if limit.Some? then Some(limit.value - 1) else None;
        NumberedRowsAreScanned(texts, rows, from + 1, conditions, caseSensitive, select, left);
        SelectFirst(rows, from, rest, select, limit, left);
        assert Numbers(texts, rows, ik, key, from) == [from] + rest;
      } else {
        NumberedRowsAreScanned(texts, rows, from + 1, conditions, caseSensitive, select, limit);
        assert Numbers(texts, rows, ik, key, from) == rest;
      }
    }
  }

  /** A lookup through the index returns exactly what the plain scan returns. */
  lemma IndexedLookupIsScan(texts: Texts, table: Table, conditions: seq<Condition>, caseSensitive: bool,
                            select: Option<seq<string>>, wanted: Wanted)
    ensures FindRows(texts, table, IndexFor(texts, table, IndexKey(caseSensitive, FieldsOf(conditions))),
                     conditions, caseSensitive, select, wanted)
            == Scan(texts, table, conditions, caseSensitive, select, wanted)
  {
    ColumnsFound(table, conditions);
    ConditionKeyFails(texts, conditions, caseSensitive);
    var key := ConditionKey(texts, conditions, caseSensitive);
    if key.Ok? {
      BucketIsNumbers(texts, table.rows, IndexKey(caseSensitive, FieldsOf(conditions)), key.value);
      NumberedRowsAreScanned(texts, table.rows, 0, conditions, caseSensitive, select, wanted.Limit());
    }
  }

  lemma SignedDecimalIsInjective(i: int, j: int)
    requires SignedDecimal(i) == SignedDecimal(j)
    ensures i == j
  {
    DecimalReadsBack(if i < 0 then -i else i);
    DecimalReadsBack(if j < 0 then -j else j);
    DecimalHasNoSign(if i < 0 then -i else i);
    DecimalHasNoSign(if j < 0 then -j else j);
    assert SignedDecimal(i)[1..] == if i < 0 then Decimal(-i) else Decimal(i)[1..];
    assert SignedDecimal(j)[1..] == if j < 0 then Decimal(-j) else Decimal(j)[1..];
  }

  /**
    Conditions compare as text, without coercion: a text cell meets a text condition exactly
    when they are the same text, meets at most one integer, and never both booleans.
   */
  lemma TextCellsMeetExactly(texts: Texts, row: Row, field: string, cell: string, text: string, i: I64, j: I64)
    requires field in row && row[field] == Scalar(Bytes(Utf8(cell)))
    ensures Meets(texts, row, (field, Scalar(Bytes(Utf8(text)))), true) <==> cell == text
    ensures Meets(texts, row, (field, Scalar(String(text))), true) <==> cell == text
    ensures (Meets(texts, row, (field, Scalar(Integer(i))), true)
             && Meets(texts, row, (field, Scalar(Integer(j))), true)) ==> i == j
    ensures !(Meets(texts, row, (field, Scalar(Boolean(true))), true)
              && Meets(texts, row, (field, Scalar(Boolean(false))), true))
    ensures Meets(texts, row, (field, Scalar(String(text))), false) <==>
            cell == text || texts.lower(cell) == texts.lower(text)
  {
    if SignedDecimal(i) == SignedDecimal(j) {
      SignedDecimalIsInjective(i, j);
    }
    assert |"true"| != |"false"|;
  }

  /** `text` is how the value reads: itself, its one numeral, `true` or `false`. */
  ghost predicate Reads(texts: Texts, value: Value, text: string) {
    match value
    case Scalar(Bytes(Utf8(s))) => text == s
    case Scalar(Bytes(NotUtf8(_, lossy))) => text == lossy
    case Scalar(String(s)) => text == s
    case Scalar(Boolean(true)) => text == "true"
    case Scalar(Boolean(false)) => text == "false"
    case Scalar(Float(f)) => text == texts.floatText(f)
    case Scalar(Integer(i)) =>
      if i < 0 then text != "" && text[0] == '-' && IsNumeral(text[1..]) && Denoted(text[1..]) == -(i as int)
      else IsNumeral(text) && Denoted(text) == i
    case _ => false
  }

  lemma ComparableExactly(texts: Texts, field: string, value: Value, text: string)
    ensures ComparableText(texts, field, value) == Ok(text) <==> Reads(texts, value, text)
    ensures ComparableText(texts, field, value).Err? ==>
              ComparableText(texts, field, value) == Err(NotComparable(field))
    ensures ComparableText(texts, field, value).Err? <==>
            !value.Scalar? || value.scalar.VNull? || value.scalar.Timestamp? || value.scalar.Regex?
  {
    if value.Scalar? && value.scalar.Integer? {
      SignedDecimalExactly(value.scalar.i, text);
    }
  }

  /**
    A text cell meets a condition exactly when the condition's value reads as the cell does,
    or, ignoring case, as something that lowercases to the same.
   */
  lemma CellMeetsExactly(texts: Texts, row: Row, field: string, cell: string, value: Value)
    requires field in row && row[field] == Scalar(Bytes(Utf8(cell)))
    ensures Meets(texts, row, (field, value), true) <==> Reads(texts, value, cell)
    ensures Meets(texts, row, (field, value), false) <==>
            exists text :: Reads(texts, value, text) && (cell == text || texts.lower(cell) == texts.lower(text))
  {
    ComparableExactly(texts, field, value, cell);
    var read := ComparableText(texts, field, value);
    if read.Ok? {
      ComparableExactly(texts, field, value, read.value);
    }
    forall text | Reads(texts, value, text) ensures read == Ok(text) {
      ComparableExactly(texts, field, value, text);
    }
  }

  // ---------------------------------------------------------------------------
  // What a scan finds
  // ---------------------------------------------------------------------------

  ghost predicate FirstFailing(conditions: seq<Condition>, i: nat, good: Condition -> bool) {
    i < |conditions| && !good(conditions[i]) && forall k :: 0 <= k < i ==> good(conditions[k])
  }

  lemma {:induction false} FirstWithoutColumnExactly(headers: seq<string>, conditions: seq<Condition>)
    ensures FirstWithoutColumn(headers, conditions).None? <==> forall c <- conditions :: c.0 in headers
    ensures forall i: nat :: FirstFailing(conditions, i, (c: Condition) => c.0 in headers) ==>
                               FirstWithoutColumn(headers, conditions) == Some(conditions[i].0)
  {
    if conditions != [] {
      var rest := conditions[1..];
      FirstWithoutColumnExactly(headers, rest);
      assert conditions == [conditions[0]] + rest;
      forall i: nat | FirstFailing(conditions, i, (c: Condition) => c.0 in headers)
        ensures FirstWithoutColumn(headers, conditions) == Some(conditions[i].0)
      {
        if i > 0 {
          assert conditions[0].0 in headers && rest[i - 1] == conditions[i];
          assert forall k :: 0 <= k < i - 1 ==> rest[k] == conditions[k + 1];
          assert FirstFailing(rest, i - 1, (c: Condition) => c.0 in headers);
        }
      }
    }
  }

  predicate Comparable(value: Value) {
    value.Scalar? && !value.scalar.VNull? && !value.scalar.Timestamp? && !value.scalar.Regex?
  }

  lemma {:induction false} FirstNotComparableExactly(texts: Texts, conditions: seq<Condition>)
    ensures FirstNotComparable(texts, conditions).None? <==> forall c <- conditions :: Comparable(c.1)
    ensures forall i: nat :: FirstFailing(conditions, i, (c: Condition) => Comparable(c.1)) ==>
                               FirstNotComparable(texts, conditions) == Some(conditions[i].0)
  {
    if conditions != [] {
      var rest := conditions[1..];
      FirstNotComparableExactly(texts, rest);
      ComparableExactly(texts, conditions[0].0, conditions[0].1, "");
      assert conditions == [conditions[0]] + rest;
      forall i: nat | FirstFailing(conditions, i, (c: Condition) => Comparable(c.1))
        ensures FirstNotComparable(texts, conditions) == Some(conditions[i].0)
      {
        if i > 0 {
          assert Comparable(conditions[0].1) && rest[i - 1] == conditions[i];
          assert forall k :: 0 <= k < i - 1 ==> rest[k] == conditions[k + 1];
          assert FirstFailing(rest, i - 1, (c: Condition) => Comparable(c.1));
        }
      }
    }
  }

  /**
    A scan's errors: the first field that is no column, unless there are no rows, and then
    the first value that does not compare.
   */
  lemma ScanFailsExactly(texts: Texts, table: Table, conditions: seq<Condition>, caseSensitive: bool,
                         select: Option<seq<string>>, wanted: Wanted, i: nat)
    ensures FirstFailing(conditions, i, (c: Condition) => c.0 in table.headers) ==>
              Scan(texts, table, conditions, caseSensitive, select, wanted)
              == if table.rows == [] then Ok([]) else Err(NoSuchField(conditions[i].0))
    ensures ((forall c <- conditions :: c.0 in table.headers)
             && FirstFailing(conditions, i, (c: Condition) => Comparable(c.1))) ==>
              Scan(texts, table, conditions, caseSensitive, select, wanted) == Err(NotComparable(conditions[i].0))
  {
    FirstWithoutColumnExactly(table.headers, conditions);
    FirstNotComparableExactly(texts, conditions);
  }

  /** `numbers` are the rows that meet the conditions, in file order. */
  ghost predicate Matching(texts: Texts, rows: seq<Row>, conditions: seq<Condition>, caseSensitive: bool,
                           numbers: seq<nat>) {
    && StrictlyAscends(numbers)
    && forall n: nat :: n in numbers <==> n < |rows| && MeetsAll(texts, rows[n], conditions, caseSensitive)
  }

  ghost predicate InRange(rows: seq<Row>, numbers: seq<nat>) {
    forall k :: 0 <= k < |numbers| ==> numbers[k] < |rows|
  }

  /** `found` is what selecting from the numbered rows, one after the other, comes to. */
  ghost predicate Selects(rows: seq<Row>, numbers: seq<nat>, select: Option<seq<string>>,
                          found: Result<seq<Row>, LookupError>)
    requires InRange(rows, numbers)
  {
    match found
    case Ok(out) =>
      |out| == |numbers| && forall k :: 0 <= k < |numbers| ==> Selected(rows[numbers[k]], select) == Ok(out[k])
    case Err(e) =>
      exists k :: && 0 <= k < |numbers| && Selected(rows[numbers[k]], select) == Err(e)
                  && forall j :: 0 <= j < k ==> Selected(rows[numbers[j]], select).Ok?
  }

  lemma {:induction false} SelectRowsExactly(rows: seq<Row>, numbers: seq<nat>, select: Option<seq<string>>)
    requires InRange(rows, numbers)
    ensures Selects(rows, numbers, select, SelectRows(rows, numbers, select))
  {
    if numbers != [] {
      var rest := numbers[1..];
      SelectRowsExactly(rows, rest, select);
      assert forall k :: 0 <= k < |rest| ==> rest[k] == numbers[k + 1];
      var found := SelectRows(rows, rest, select);
      if found.Err? {
        var k :| 0 <= k < |rest| && Selected(rows[rest[k]], select) == Err(found.error)
                 && forall j :: 0 <= j < k ==> Selected(rows[rest[j]], select).Ok?;
        if Selected(rows[numbers[0]], select).Ok? {
          assert Selected(rows[numbers[k + 1]], select) == Err(found.error);
          forall j | 0 <= j < k + 1 ensures Selected(rows[numbers[j]], select).Ok? {
            assert j > 0 ==> numbers[j] == rest[j - 1];
          }
        }
      }
    }
  }

  /**
    What a scan finds when every field is a column and every value compares: the rows that
    meet the conditions, in file order, two of them at most when one is wanted, each selected.
   */
  lemma ScanFindsExactly(texts: Texts, table: Table, conditions: seq<Condition>, caseSensitive: bool,
                         select: Option<seq<string>>, wanted: Wanted)
    returns (numbers: seq<nat>)
    requires forall c <- conditions :: c.0 in table.headers && Comparable(c.1)
    ensures Matching(texts, table.rows, conditions, caseSensitive, numbers)
    ensures var taken := if wanted.One? && |numbers| > 2 then numbers[..2] else numbers;
            && InRange(table.rows, taken)
            && Selects(table.rows, taken, select, Scan(texts, table, conditions, caseSensitive, select, wanted))
  {
    FirstWithoutColumnExactly(table.headers, conditions);
    FirstNotComparableExactly(texts, conditions);
    ConditionKeyFails(texts, conditions, caseSensitive);
    var ik := IndexKey(caseSensitive, FieldsOf(conditions));
    var key := ConditionKey(texts, conditions, caseSensitive).value;
    numbers := Numbers(texts, table.rows, ik, key, 0);
    NumbersAscend(texts, table.rows, ik, key, 0);
    forall n: nat
      ensures n in numbers <==> n < |table.rows| && MeetsAll(texts, table.rows[n], conditions, caseSensitive)
    {
      NumbersMember(texts, table.rows, ik, key, 0, n);
      if n < |table.rows| {
        KeyMatchesExactly(texts, table.rows[n], conditions, caseSensitive);
      }
    }
    forall k | 0 <= k < |numbers| ensures numbers[k] < |table.rows| {
      assert numbers[k] in numbers;
    }
    NumberedRowsAreScanned(texts, table.rows, 0, conditions, caseSensitive, select, wanted.Limit());
    SelectRowsExactly(table.rows, Take(numbers, wanted.Limit()), select);
  }

  // ---------------------------------------------------------------------------
  // One record
  // ---------------------------------------------------------------------------

  datatype RecordFailure = Lookup(error: LookupError) | Ambiguous | NoRows

  /** `get_enrichment_table_record`'s verdict on the rows found. */
  function Single(found: Result<seq<Row>, LookupError>): Result<Row, RecordFailure> {
    match found
    case Err(e) => Err(Lookup(e))
    case Ok(rows) =>
      if |rows| > 1 then Err(Ambiguous)
      else if |rows| == 1 then Ok(rows[0])
      else Err(NoRows)
  }

  /** One row is the record; none, several and an error are told apart. */
  lemma SingleExactly(found: Result<seq<Row>, LookupError>, row: Row)
    ensures Single(found) == Ok(row) <==> found == Ok([row])
    ensures Single(found) == Err(NoRows) <==> found == Ok([])
    ensures Single(found) == Err(Ambiguous) <==> found.Ok? && |found.value| >= 2
    ensures forall e :: Single(found) == Err(Lookup(e)) <==> found == Err(e)
  {
    if found.Ok? && |found.value| == 1 {
      assert found.value == [found.value[0]];
    }
  }

  /** With uniform rows a selection fails on every row or on none. */
  lemma {:induction false} UniformSelection(table: Table, numbers: seq<nat>, select: Option<seq<string>>)
    requires Loaded(table) && forall i :: 0 <= i < |numbers| ==> numbers[i] < |table.rows|
    ensures var missing := if select.None? then None else FirstMissing((set header <- table.headers), select.value);
            var found := SelectRows(table.rows, numbers, select);
            if numbers != [] && missing.Some?
            then found == Err(NotSelected(missing.value))
            else found.Ok? && |found.value| == |numbers|
                 && (numbers != [] ==> Selected(table.rows[numbers[0]], select) == Ok(found.value[0]))
  {
    if numbers != [] {
      assert table.rows[numbers[0]] in table.rows;
      UniformSelection(table, numbers[1..], select);
    }
  }

  lemma UniformSingle(table: Table, numbers: seq<nat>, select: Option<seq<string>>)
    requires Loaded(table) && forall i :: 0 <= i < |numbers| ==> numbers[i] < |table.rows|
    ensures Single(SelectRows(table.rows, Take(numbers, Some(2)), select))
            == Single(SelectRows(table.rows, numbers, select))
  {
    UniformSelection(table, numbers, select);
    UniformSelection(table, Take(numbers, Some(2)), select);
  }

  /**
    Stopping at two rows cannot be seen: the single-record lookup's row, or its no-row,
    ambiguity, select or condition error, is the one all matching rows would give.
   */
  lemma StoppingAtTwoIsInvisible(texts: Texts, table: Table, conditions: seq<Condition>, caseSensitive: bool,
                                 select: Option<seq<string>>)
    requires Loaded(table)
    ensures var index := IndexFor(texts, table, IndexKey(caseSensitive, FieldsOf(conditions)));
            Single(FindRows(texts, table, index, conditions, caseSensitive, select, One))
            == Single(Scan(texts, table, conditions, caseSensitive, select, All))
  {
    IndexedLookupIsScan(texts, table, conditions, caseSensitive, select, All);
    var ik := IndexKey(caseSensitive, FieldsOf(conditions));
    var index := IndexFor(texts, table, ik);
    var key := ConditionKey(texts, conditions, caseSensitive);
    if index.Some? && key.Ok? {
      var all := Bucket(index.value, key.value);
      BucketIsNumbers(texts, table.rows, ik, key.value);
      forall i | 0 <= i < |all| ensures all[i] < |table.rows| {
        NumbersMember(texts, table.rows, ik, key.value, 0, all[i]);
      }
      UniformSingle(table, all, select);
    }
  }

  // ---------------------------------------------------------------------------
  // What the buckets are
  // ---------------------------------------------------------------------------

  ghost predicate StrictlyAscends(numbers: seq<nat>) {
    forall i, j :: 0 <= i < j < |numbers| ==> numbers[i] < numbers[j]
  }

  lemma PrependedAscends(first: nat, rest: seq<nat>)
    requires StrictlyAscends(rest) && forall i :: 0 <= i < |rest| ==> first < rest[i]
    ensures StrictlyAscends([first] + rest)
  {
  }

  lemma {:induction false} NumbersAscend(texts: Texts, rows: seq<Row>, ik: IndexKey, key: seq<string>, from: nat)
    requires from <= |rows|
    ensures StrictlyAscends(Numbers(texts, rows, ik, key, from))
    decreases |rows| - from
  {
    if from < |rows| {
      NumbersAscend(texts, rows, ik, key, from + 1);
      var rest := Numbers(texts, rows, ik, key, from + 1);
      forall i | 0 <= i < |rest| ensures from < rest[i] {
        NumbersMember(texts, rows, ik, key, from + 1, rest[i]);
      }
      PrependedAscends(from, rest);
      assert [] + rest == rest;
    }
  }

  lemma {:induction false} LoadedRowsHaveKeys(
    texts: Texts, table: Table, n: nat, fields: seq<string>, caseSensitive: bool)
    requires Loaded(table) && HasColumns(table, fields) && n < |table.rows|
    ensures RowKey(texts, table.rows[n], fields, caseSensitive).Some?
  {
    if fields != [] {
      var row := table.rows[n];
      assert row in table.rows && fields[0] in table.headers;
      assert fields[0] in row.Keys;
      assert fields[0] in row;
      var text :| row[fields[0]] == Scalar(Bytes(Utf8(text)));
      LoadedRowsHaveKeys(texts, table, n, fields[1..], caseSensitive);
    }
  }

  ghost predicate InBucket(index: RowIndex, key: seq<string>, n: nat) {
    key in index && n in index[key]
  }

  ghost predicate InSomeBucket(index: RowIndex, n: nat) {
    exists key :: InBucket(index, key, n)
  }

  /** The buckets partition the row numbers, and each ascends strictly. */
  lemma BucketsPartitionRows(texts: Texts, table: Table, ik: IndexKey)
    requires Loaded(table) && HasColumns(table, ik.fields)
    ensures var index := IndexOf(texts, table.rows, ik);
            && (forall n: nat :: n < |table.rows| <==> InSomeBucket(index, n))
            && (forall key, other, n :: InBucket(index, key, n) && InBucket(index, other, n) ==> key == other)
            && (forall key <- index :: StrictlyAscends(index[key]))
  {
    var index := IndexOf(texts, table.rows, ik);
    forall key, n: nat
      ensures InBucket(index, key, n) <==>
              n < |table.rows| && RowKey(texts, table.rows[n], ik.fields, ik.caseSensitive) == Some(key)
    {
      BucketIsNumbers(texts, table.rows, ik, key);
      NumbersMember(texts, table.rows, ik, key, 0, n);
    }
    forall n: nat | n < |table.rows| ensures InSomeBucket(index, n) {
      LoadedRowsHaveKeys(texts, table, n, ik.fields, ik.caseSensitive);
      assert InBucket(index, RowKey(texts, table.rows[n], ik.fields, ik.caseSensitive).value, n);
    }
    forall key <- index ensures StrictlyAscends(index[key]) {
      NumbersAscend(texts, table.rows, ik, key, 0);
    }
  }

  function LowerAll(texts: Texts, key: seq<string>): seq<string> {
    if key == [] then [] else [texts.lower(key[0])] + LowerAll(texts, key[1..])
  }

  lemma {:induction false} FoldedRowKey(texts: Texts, row: Row, fields: seq<string>)
    ensures RowKey(texts, row, fields, false) ==
            match RowKey(texts, row, fields, true) { case None => None case Some(key) => Some(LowerAll(texts, key)) }
  {
    if fields != [] {
      FoldedRowKey(texts, row, fields[1..]);
      var exact := RowKey(texts, row, fields, true);
      if exact.Some? {
        assert exact.value[1..] == RowKey(texts, row, fields[1..], true).value;
      }
    }
  }

  lemma {:induction false} FoldedConditionKey(texts: Texts, conditions: seq<Condition>)
    ensures ConditionKey(texts, conditions, false) ==
            match ConditionKey(texts, conditions, true) {
              case Err(e) => Err(e)
              case Ok(key) => Ok(LowerAll(texts, key))
            }
  {
    if conditions != [] {
      FoldedConditionKey(texts, conditions[1..]);
      var exact := ConditionKey(texts, conditions, true);
      if exact.Ok? {
        assert exact.value[1..] == ConditionKey(texts, conditions[1..], true).value;
      }
    }
  }

  /** A case-insensitive bucket is the union of the case-sensitive ones whose keys lowercase to it. */
  lemma FoldedBucketIsUnion(texts: Texts, rows: seq<Row>, fields: seq<string>, folded: seq<string>, n: nat)
    ensures n in Bucket(IndexOf(texts, rows, IndexKey(false, fields)), folded) <==>
            exists key :: LowerAll(texts, key) == folded
                          && n in Bucket(IndexOf(texts, rows, IndexKey(true, fields)), key)
  {
    BucketIsNumbers(texts, rows, IndexKey(false, fields), folded);
    NumbersMember(texts, rows, IndexKey(false, fields), folded, 0, n);
    if n < |rows| {
      FoldedRowKey(texts, rows[n], fields);
    }
    forall key
      ensures n in Bucket(IndexOf(texts, rows, IndexKey(true, fields)), key) <==>
              n < |rows| && RowKey(texts, rows[n], fields, true) == Some(key)
    {
      BucketIsNumbers(texts, rows, IndexKey(true, fields), key);
      NumbersMember(texts, rows, IndexKey(true, fields), key, 0, n);
    }
  }

  /** `a` is `b` with some elements left out. */
  ghost predicate Subsequence<T>(a: seq<T>, b: seq<T>) {
    a == [] || (b != [] && ((a[0] == b[0] && Subsequence(a[1..], b[1..])) || Subsequence(a, b[1..])))
  }

  lemma {:induction false} ExactNumbersWithinFolded(
    texts: Texts, rows: seq<Row>, fields: seq<string>, key: seq<string>, from: nat)
    requires from <= |rows|
    ensures Subsequence(Numbers(texts, rows, IndexKey(true, fields), key, from),
                        Numbers(texts, rows, IndexKey(false, fields), LowerAll(texts, key), from))
    decreases |rows| - from
  {
    if from < |rows| {
      ExactNumbersWithinFolded(texts, rows, fields, key, from + 1);
      FoldedRowKey(texts, rows[from], fields);
      var exact := Numbers(texts, rows, IndexKey(true, fields), key, from);
      var folded := Numbers(texts, rows, IndexKey(false, fields), LowerAll(texts, key), from);
      var exactRest := Numbers(texts, rows, IndexKey(true, fields), key, from + 1);
      var foldedRest := Numbers(texts, rows, IndexKey(false, fields), LowerAll(texts, key), from + 1);
      if RowKey(texts, rows[from], fields, true) == Some(key) {
        assert exact[1..] == exactRest && folded[1..] == foldedRest;
      } else if RowKey(texts, rows[from], fields, false) == Some(LowerAll(texts, key)) {
        assert exact == exactRest && folded[1..] == foldedRest;
      } else {
        assert exact == exactRest && folded == foldedRest;
      }
    }
  }

  lemma {:induction false} SelectionKeepsSubsequence(
    rows: seq<Row>, few: seq<nat>, many: seq<nat>, select: Option<seq<string>>)
    requires Subsequence(few, many) && SelectRows(rows, many, select).Ok?
    ensures SelectRows(rows, few, select).Ok?
    ensures Subsequence(SelectRows(rows, few, select).value, SelectRows(rows, many, select).value)
    decreases many
  {
    if few != [] {
      if few[0] == many[0] && Subsequence(few[1..], many[1..]) {
        SelectionKeepsSubsequence(rows, few[1..], many[1..], select);
      } else {
        SelectionKeepsSubsequence(rows, few, many[1..], select);
      }
      if many[0] < |rows| {
        assert SelectRows(rows, many, select).value[1..] == SelectRows(rows, many[1..], select).value;
        if few[0] == many[0] && Subsequence(few[1..], many[1..]) {
          assert SelectRows(rows, few, select).value[1..] == SelectRows(rows, few[1..], select).value;
        }
      }
    }
  }

  /** A scan fails only by its selection, and over uniform rows by the same key at whichever row it finds. */
  lemma {:induction false} ScanFailsBySelection(
    texts: Texts, table: Table, from: nat, conditions: seq<Condition>, caseSensitive: bool,
    select: Option<seq<string>>)
    requires from <= |table.rows|
    ensures var found := ScanRows(texts, table.rows, from, conditions, caseSensitive, select, None);
            && (found.Err? ==> found.error.NotSelected?)
            && (Loaded(table) ==>
                  var missing := if select.None? then None
                                 else FirstMissing((set header <- table.headers), select.value);
                  if missing.Some? then found == Ok([]) || found == Err(NotSelected(missing.value)) else found.Ok?)
    decreases |table.rows| - from
  {
    if from < |table.rows| {
      assert table.rows[from] in table.rows;
      ScanFailsBySelection(texts, table, from + 1, conditions, caseSensitive, select);
    }
  }

  lemma ExactRowsWithinFolded(
    texts: Texts, rows: seq<Row>, conditions: seq<Condition>, select: Option<seq<string>>)
    requires ConditionKey(texts, conditions, true).Ok?
    requires ScanRows(texts, rows, 0, conditions, false, select, None).Ok?
    ensures var exact := ScanRows(texts, rows, 0, conditions, true, select, None);
            exact.Ok? && Subsequence(exact.value, ScanRows(texts, rows, 0, conditions, false, select, None).value)
  {
    var fields, exact := FieldsOf(conditions), ConditionKey(texts, conditions, true).value;
    FoldedConditionKey(texts, conditions);
    NumberedRowsAreScanned(texts, rows, 0, conditions, true, select, None);
    NumberedRowsAreScanned(texts, rows, 0, conditions, false, select, None);
    ExactNumbersWithinFolded(texts, rows, fields, exact, 0);
    SelectionKeepsSubsequence(rows, Numbers(texts, rows, IndexKey(true, fields), exact, 0),
                              Numbers(texts, rows, IndexKey(false, fields), LowerAll(texts, exact), 0), select);
  }

  /**
    Matching case only ever leaves rows out, whatever lowercasing does: it keeps success and
    every condition error, and over a loaded table a select error goes away only when no row
    at all is left.
   */
  lemma CaseSensitiveIsSubsequence(texts: Texts, table: Table, conditions: seq<Condition>, select: Option<seq<string>>)
    ensures var folded := Scan(texts, table, conditions, false, select, All);
            var exact := Scan(texts, table, conditions, true, select, All);
            && (folded.Ok? ==> exact.Ok? && Subsequence(exact.value, folded.value))
            && (folded.Err? && !folded.error.NotSelected? ==> exact == folded)
            && (Loaded(table) && folded.Err? && folded.error.NotSelected? ==> exact == Ok([]) || exact == folded)
  {
    ConditionKeyFails(texts, conditions, true);
    if FirstWithoutColumn(table.headers, conditions).None? && FirstNotComparable(texts, conditions).None? {
      ScanFailsBySelection(texts, table, 0, conditions, false, select);
      ScanFailsBySelection(texts, table, 0, conditions, true, select);
      if ScanRows(texts, table.rows, 0, conditions, false, select, None).Ok? {
        ExactRowsWithinFolded(texts, table.rows, conditions, select);
      }
    }
  }
}
