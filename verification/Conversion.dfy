/**
  JSON values, VRL values and the conversions between them
  (vector-bindings/src/lib.rs:251-363).
 */
module Conversion {
  import opened Wrappers
  import opened Documents

  const I64_MAX: int := 0x7FFF_FFFF_FFFF_FFFF
  const U64_MAX: int := 0xFFFF_FFFF_FFFF_FFFF

  type I64 = i: int | -I64_MAX - 1 <= i <= I64_MAX
  type U64 = u: int | 0 <= u <= U64_MAX
  type NegativeI64 = i: int | -I64_MAX - 1 <= i < 0 witness -1

  /** A double that is not NaN. `bits` names a finite one; nothing here looks inside it. */
  datatype Float = Finite(bits: int) | PositiveInfinity | NegativeInfinity {
    predicate IsInfinite() {
      !Finite?
    }
  }

  /**
    A byte string. One that is valid UTF-8 is named by the text it encodes; any
    other carries the text a lossy decoding shows for it.
   */
  datatype ByteString = Utf8(text: string) | NotUtf8(raw: seq<int>, lossy: string)

  function LossyText(b: ByteString): string {
    match b case Utf8(text) => text case NotUtf8(_, lossy) => lossy
  }

  datatype VrlScalar =
    | VNull
    | Boolean(b: bool)
    | Integer(i: I64)
    | Float(f: Float)
    | Bytes(bytes: ByteString)
    | String(s: string)
    | Timestamp(shown: string)  // by the text it prints as
    | Regex(shown: string)      // by its pattern

  /** A JSON number as serde_json holds it: a finite double only when it is not an integer. */
  datatype JsonNumber = PosInt(u: U64) | NegInt(n: NegativeI64) | Double(bits: int)

  datatype JsonScalar = JNull | JBool(b: bool) | JNumber(n: JsonNumber) | JString(s: string)

  type Value = Doc<VrlScalar>
  type Json = Doc<JsonScalar>

  /** Where a JSON integer over I64_MAX stands, and the integer. */
  datatype IntegerOutOfRange = IntegerOutOfRange(path: string, value: U64)

  /** Puts one more step before a path already rendered. */
  function Under(segment: Segment, path: string): string {
    SegmentText(segment) + path
  }

  // ---------------------------------------------------------------------------
  // JSON to VRL
  // ---------------------------------------------------------------------------

  function NumberToVrl(n: JsonNumber): Result<Value, IntegerOutOfRange> {
    match n
    case PosInt(u) => if u <= I64_MAX then Ok(Scalar(Integer(u))) else Err(IntegerOutOfRange("", u))
    case NegInt(i) => Ok(Scalar(Integer(i)))
    case Double(bits) => Ok(Scalar(Float(Finite(bits))))
  }

  function JsonToVrl(json: Json): Result<Value, IntegerOutOfRange>
    decreases json
  {
    match json
    case Scalar(JNull) => Ok(Scalar(VNull))
    case Scalar(JBool(b)) => Ok(Scalar(Boolean(b)))
    case Scalar(JNumber(n)) => NumberToVrl(n)
    case Scalar(JString(s)) => Ok(Scalar(Bytes(Utf8(s))))
    case Array(items) => (
      match ItemsToVrl(items, 0)
      case Ok(values) => Ok(Array(values))
      case Err(e) => Err(e)
    )
    case Object(fields) => (
      match FieldsToVrl(fields)
      case Ok(values) => Ok(Object(values))
      case Err(e) => Err(e)
    )
  }

  /** Converts array items, the first of them at `index`, up to the first failure. */
  function ItemsToVrl(items: seq<Json>, index: nat): Result<seq<Value>, IntegerOutOfRange>
    decreases items
  {
    if items == [] then Ok([])
    else match JsonToVrl(items[0])
      case Err(e) => Err(e.(path := Under(Index(index), e.path)))
      case Ok(value) =>
        match ItemsToVrl(items[1..], index + 1)
        case Err(e) => Err(e)
        case Ok(values) => Ok([value] + values)
  }

  function FieldsToVrl(fields: seq<Field<JsonScalar>>): Result<seq<Field<VrlScalar>>, IntegerOutOfRange>
    decreases fields
  {
    if fields == [] then Ok([])
    else match JsonToVrl(fields[0].value)
      case Err(e) => Err(e.(path := Under(Key(fields[0].key), e.path)))
      case Ok(value) =>
        match FieldsToVrl(fields[1..])
        case Err(e) => Err(e)
        case Ok(values) => Ok([Field(fields[0].key, value)] + values)
  }

  // ---------------------------------------------------------------------------
  // VRL to JSON
  // ---------------------------------------------------------------------------

  /** An integer as a JSON number. */
  function IntegerToJson(i: I64): JsonNumber {
    if i < 0 then NegInt(i) else PosInt(i)
  }

  function ScalarToJson(s: VrlScalar): JsonScalar {
    match s
    case VNull => JNull
    case Boolean(b) => JBool(b)
    case Integer(i) => JNumber(IntegerToJson(i))
    case Float(f) => if f.Finite? then JNumber(Double(f.bits)) else JNull
    case Bytes(b) => JString(LossyText(b))
    case String(s) => JString(s)
    case Timestamp(shown) => JString(shown)
    case Regex(shown) => JString(shown)
  }

  /** What the conversion computes: every scalar on its own, arrays and keys kept. */
  function VrlToJson(v: Value): Json {
    MapDoc(ScalarToJson, v)
  }

  /** The conversion as the source runs it, filling a fresh map entry by entry. */
  method ConvertToJson(v: Value) returns (json: Json)
    requires WellFormed(v)
    ensures json == VrlToJson(v)
    decreases v
  {
    match v {
      case Scalar(s) =>
        json := Scalar(ScalarToJson(s));
      case Array(items) =>
        var out: seq<Json> := [];
        for i := 0 to |items|
          invariant out == MapItems(ScalarToJson, items[..i])
        {
          var item := ConvertToJson(items[i]);
          MapItemsAt(ScalarToJson, items, i);
          out := out + [item];
        }
        assert items[..|items|] == items;
        json := Array(out);
      case Object(fields) =>
        var map': seq<Field<JsonScalar>> := [];
        for i := 0 to |fields|
          invariant map' == MapFields(ScalarToJson, fields[..i])
          invariant forall k :: 0 <= k < i ==> map'[k].key == fields[k].key
        {
          var value := ConvertToJson(fields[i].value);
          MapFieldsAt(ScalarToJson, fields, i);
          InsertLast(map', fields[i].key, value);
          map' := Insert(map', fields[i].key, value);
        }
        assert fields[..|fields|] == fields;
        json := Object(map');
    }
  }

  // ---------------------------------------------------------------------------
  // What a scalar means
  // ---------------------------------------------------------------------------

  function IntegerValue(n: JsonNumber): Option<int> {
    match n
    case PosInt(u) => Some(u)
    case NegInt(i) => Some(i)
    case Double(_) => None
  }

  /** The same null, boolean, integer, double or text on either side. */
  predicate SameMeaning(j: JsonScalar, v: VrlScalar) {
    match v
    case VNull => j.JNull?
    case Boolean(b) => j == JBool(b)
    case Integer(i) => j.JNumber? && IntegerValue(j.n) == Some(i)
    case Float(f) => f.Finite? && j == JNumber(Double(f.bits))
    case Bytes(b) => j == JString(LossyText(b))
    case String(s) => j == JString(s)
    case Timestamp(shown) => j == JString(shown)
    case Regex(shown) => j == JString(shown)
  }

  /** A scalar keeps its meaning on the way to JSON, but an infinity becomes null. */
  lemma ScalarKeepsItsMeaning(s: VrlScalar)
    ensures SameMeaning(ScalarToJson(s), s) <==> !Infinite(s)
    ensures Infinite(s) ==> ScalarToJson(s) == JNull
    ensures Infinite(s) <==> s == Float(PositiveInfinity) || s == Float(NegativeInfinity)
  {
  }

  /** On the way to VRL too, wherever it stands; text arrives as a UTF-8 byte string. */
  lemma ConversionKeepsMeaning(json: Json, path: Path)
    requires JsonToVrl(json).Ok?
    ensures var v := JsonToVrl(json).value;
            (At(json, path).Some? && At(json, path).value.Scalar?) ==>
              var j := At(json, path).value.scalar;
              && At(v, path).Some? && At(v, path).value.Scalar?
              && SameMeaning(j, At(v, path).value.scalar)
              && (j.JString? ==> At(v, path).value.scalar == Bytes(Utf8(j.s)))
  {
    var v := JsonToVrl(json).value;
    JsonRoundTrip(json);
    VrlRoundTrip(v);
    AtMap(ScalarToJson, v, path);
    AtMap(Settled, v, path);
    if At(v, path).Some? && At(v, path).value.Scalar? {
      ScalarKeepsItsMeaning(At(v, path).value.scalar);
    }
  }

  /** The integers that convert are those up to the signed 64-bit maximum. */
  lemma IntegersConvertExactly(n: JsonNumber)
    requires IntegerValue(n).Some?
    ensures NumberToVrl(n).Ok? <==> IntegerValue(n).value <= 9223372036854775807
    ensures NumberToVrl(n).Ok? ==> NumberToVrl(n).value == Scalar(Integer(IntegerValue(n).value))
    ensures NumberToVrl(n).Err? ==> NumberToVrl(n).error == IntegerOutOfRange("", IntegerValue(n).value)
    ensures TooBig(JNumber(n)) <==> IntegerValue(n).value > 9223372036854775807
  {
  }

  // ---------------------------------------------------------------------------
  // Round trips
  // ---------------------------------------------------------------------------

  predicate TooBig(s: JsonScalar) {
    s.JNumber? && s.n.PosInt? && s.n.u > I64_MAX
  }

  /** JSON that converts comes back unchanged. */
  lemma {:induction false} JsonRoundTrip(json: Json)
    requires JsonToVrl(json).Ok?
    ensures VrlToJson(JsonToVrl(json).value) == json
    decreases json
  {
    match json
    case Scalar(_) =>
    case Array(items) => ItemsRoundTrip(items, 0);
    case Object(fields) => FieldsRoundTrip(fields);
  }

  lemma {:induction false} ItemsRoundTrip(items: seq<Json>, index: nat)
    requires ItemsToVrl(items, index).Ok?
    ensures MapItems(ScalarToJson, ItemsToVrl(items, index).value) == items
    decreases items
  {
    if items != [] {
      JsonRoundTrip(items[0]);
      ItemsRoundTrip(items[1..], index + 1);
      var head, tail := JsonToVrl(items[0]).value, ItemsToVrl(items[1..], index + 1).value;
      assert ([head] + tail)[1..] == tail;
    }
  }

  lemma {:induction false} FieldsRoundTrip(fields: seq<Field<JsonScalar>>)
    requires FieldsToVrl(fields).Ok?
    ensures MapFields(ScalarToJson, FieldsToVrl(fields).value) == fields
    decreases fields
  {
    if fields != [] {
      JsonRoundTrip(fields[0].value);
      FieldsRoundTrip(fields[1..]);
      var head, tail := Field(fields[0].key, JsonToVrl(fields[0].value).value), FieldsToVrl(fields[1..]).value;
      assert ([head] + tail)[1..] == tail;
    }
  }

  /** What a scalar becomes after going to JSON and back. */
  function Settled(s: VrlScalar): VrlScalar {
    match s
    case Float(f) => if f.Finite? then s else VNull
    case Bytes(b) => Bytes(Utf8(LossyText(b)))
    case String(s) => Bytes(Utf8(s))
    case Timestamp(shown) => Bytes(Utf8(shown))
    case Regex(shown) => Bytes(Utf8(shown))
    case _ => s
  }

  /** Every VRL value's JSON form converts, and gives the value with each scalar settled. */
  lemma {:induction false} VrlRoundTrip(v: Value)
    ensures JsonToVrl(VrlToJson(v)) == Ok(MapDoc(Settled, v))
    decreases v
  {
    match v
    case Scalar(_) =>
    case Array(items) => VrlItemsRoundTrip(items, 0);
    case Object(fields) => VrlFieldsRoundTrip(fields);
  }

  lemma {:induction false} VrlItemsRoundTrip(items: seq<Value>, index: nat)
    ensures ItemsToVrl(MapItems(ScalarToJson, items), index) == Ok(MapItems(Settled, items))
    decreases items
  {
    if items != [] {
      VrlRoundTrip(items[0]);
      VrlItemsRoundTrip(items[1..], index + 1);
      assert MapItems(ScalarToJson, items)[1..] == MapItems(ScalarToJson, items[1..]);
    }
  }

  lemma {:induction false} VrlFieldsRoundTrip(fields: seq<Field<VrlScalar>>)
    ensures FieldsToVrl(MapFields(ScalarToJson, fields)) == Ok(MapFields(Settled, fields))
    decreases fields
  {
    if fields != [] {
      VrlRoundTrip(fields[0].value);
      VrlFieldsRoundTrip(fields[1..]);
      assert MapFields(ScalarToJson, fields)[1..] == MapFields(ScalarToJson, fields[1..]);
    }
  }

  /** The two string variants made one. */
  function Merged(s: VrlScalar): VrlScalar {
    if s.String? then Bytes(Utf8(s.s)) else s
  }

  /** The scalars JSON cannot carry: timestamps, regexes, infinities, bytes that are not UTF-8. */
  predicate Lossy(s: VrlScalar) {
    s.Timestamp? || s.Regex? || (s.Float? && s.f.IsInfinite()) || (s.Bytes? && s.bytes.NotUtf8?)
  }

  /** Going to JSON and back is the identity, strings merged, exactly when no lossy scalar occurs. */
  lemma VrlRoundTripIsIdentityExactly(v: Value)
    requires WellFormed(v)
    ensures JsonToVrl(VrlToJson(v)) == Ok(MapDoc(Merged, v)) <==> forall path :: !HitAt(v, path, Lossy)
  {
    VrlRoundTrip(v);
    if MapDoc(Settled, v) == MapDoc(Merged, v) {
      forall path ensures !HitAt(v, path, Lossy) {
        AtMap(Settled, v, path);
        AtMap(Merged, v, path);
      }
    }
    if forall path :: !HitAt(v, path, Lossy) {
      FirstHitIsHit(v, Lossy);
      NoneLossy(v);
    }
  }

  lemma {:induction false} NoneLossy(v: Value)
    requires FirstHit(v, Lossy).None?
    ensures MapDoc(Settled, v) == MapDoc(Merged, v)
    decreases v
  {
    match v
    case Scalar(_) =>
    case Array(items) => NoneLossyItems(items, 0);
    case Object(fields) => NoneLossyFields(fields);
  }

  lemma {:induction false} NoneLossyItems(items: seq<Value>, index: nat)
    requires FirstInItems(items, index, Lossy).None?
    ensures MapItems(Settled, items) == MapItems(Merged, items)
    decreases items
  {
    if items != [] {
      NoneLossy(items[0]);
      NoneLossyItems(items[1..], index + 1);
    }
  }

  lemma {:induction false} NoneLossyFields(fields: seq<Field<VrlScalar>>)
    requires FirstInFields(fields, Lossy).None?
    ensures MapFields(Settled, fields) == MapFields(Merged, fields)
    decreases fields
  {
    if fields != [] {
      NoneLossy(fields[0].value);
      NoneLossyFields(fields[1..]);
    }
  }

  // ---------------------------------------------------------------------------
  // Where conversion fails
  // ---------------------------------------------------------------------------

  /** `error` is what the big integer at `path` makes: its rendered path and its value. */
  ghost predicate Reports(json: Json, path: Path, error: IntegerOutOfRange) {
    && error.path == Render(path)
    && At(json, path) == Some(Scalar(JNumber(PosInt(error.value))))
    && error.value > I64_MAX
  }

  /** Conversion fails exactly when some integer is too big, and then names the first one met. */
  lemma ConversionFailsAtFirstBigInteger(json: Json)
    requires WellFormed(json)
    ensures JsonToVrl(json).Ok? <==> forall path :: !HitAt(json, path, TooBig)
    ensures JsonToVrl(json).Err? ==>
              exists path :: Reports(json, path, JsonToVrl(json).error)
                             && forall other :: HitAt(json, other, TooBig) ==> other == path || Before(path, other)
  {
    ConversionFollowsFirstHit(json);
    FirstHitIsHit(json, TooBig);
    forall other | HitAt(json, other, TooBig)
      ensures FirstHit(json, TooBig).Some?
      ensures other == FirstHit(json, TooBig).value || Before(FirstHit(json, TooBig).value, other)
    {
      FirstHitIsFirst(json, TooBig, other);
    }
    if JsonToVrl(json).Err? {
      assert Reports(json, FirstHit(json, TooBig).value, JsonToVrl(json).error);
    }
  }

  lemma {:induction false} ConversionFollowsFirstHit(json: Json)
    requires WellFormed(json)
    ensures match FirstHit(json, TooBig)
            case None => JsonToVrl(json).Ok?
            case Some(path) =>
              HitAt(json, path, TooBig) &&
              JsonToVrl(json) == Err(IntegerOutOfRange(Render(path), At(json, path).value.scalar.n.u))
    decreases json
  {
    match json
    case Scalar(_) =>
    case Array(items) => ItemsFollowFirstHit(items, 0, items);
    case Object(fields) =>
      forall field <- fields ensures Lookup(fields, field.key) == Some(field.value) {
        LookupOwn(fields, field);
      }
      FieldsFollowFirstHit(fields, fields);
  }

  lemma {:induction false} ItemsFollowFirstHit(items: seq<Json>, index: nat, all: seq<Json>)
    requires index <= |all| && items == all[index..]
    requires forall item <- items :: WellFormed(item)
    ensures match FirstInItems(items, index, TooBig)
            case None => ItemsToVrl(items, index).Ok?
            case Some(path) =>
              HitAt(Array(all), path, TooBig) &&
              ItemsToVrl(items, index) == Err(IntegerOutOfRange(Render(path), At(Array(all), path).value.scalar.n.u))
    decreases items
  {
    if items != [] {
      ConversionFollowsFirstHit(items[0]);
      FirstHitIsHit(items[0], TooBig);
      match FirstHit(items[0], TooBig)
      case None => ItemsFollowFirstHit(items[1..], index + 1, all);
      case Some(path) => assert ([Index(index)] + path)[1..] == path;
    }
  }

  lemma {:induction false} FieldsFollowFirstHit(fields: seq<Field<JsonScalar>>, all: seq<Field<JsonScalar>>)
    requires forall field <- fields :: WellFormed(field.value)
    requires forall field <- fields :: Lookup(all, field.key) == Some(field.value)
    ensures match FirstInFields(fields, TooBig)
            case None => FieldsToVrl(fields).Ok?
            case Some(path) =>
              HitAt(Object(all), path, TooBig) &&
              FieldsToVrl(fields) == Err(IntegerOutOfRange(Render(path), At(Object(all), path).value.scalar.n.u))
    decreases fields
  {
    if fields != [] {
      ConversionFollowsFirstHit(fields[0].value);
      FirstHitIsHit(fields[0].value, TooBig);
      match FirstHit(fields[0].value, TooBig)
      case None => FieldsFollowFirstHit(fields[1..], all);
      case Some(path) => assert ([Key(fields[0].key)] + path)[1..] == path;
    }
  }

  // ---------------------------------------------------------------------------
  // The first infinite float
  // ---------------------------------------------------------------------------

  /** Looks for an infinity depth first and renders where it is. */
  function FirstInfiniteFloat(v: Value): Option<string>
    decreases v
  {
    match v
    case Scalar(s) => if s.Float? && s.f.IsInfinite() then Some("") else None
    case Array(items) => FirstInfiniteItem(items, 0)
    case Object(fields) => FirstInfiniteField(fields)
  }

  function FirstInfiniteItem(items: seq<Value>, index: nat): Option<string>
    decreases items
  {
    if items == [] then None
    else match FirstInfiniteFloat(items[0])
      case Some(path) => Some(Under(Index(index), path))
      case None => FirstInfiniteItem(items[1..], index + 1)
  }

  function FirstInfiniteField(fields: seq<Field<VrlScalar>>): Option<string>
    decreases fields
  {
    if fields == [] then None
    else match FirstInfiniteFloat(fields[0].value)
      case Some(path) => Some(Under(Key(fields[0].key), path))
      case None => FirstInfiniteField(fields[1..])
  }

  predicate Infinite(s: VrlScalar) {
    s.Float? && s.f.IsInfinite()
  }

  function RenderAny(first: Option<Path>): Option<string> {
    match first case None => None case Some(path) => Some(Render(path))
  }

  lemma {:induction false} InfinityFollowsFirstHit(v: Value)
    ensures FirstInfiniteFloat(v) == RenderAny(FirstHit(v, Infinite))
    decreases v
  {
    match v
    case Scalar(_) =>
    case Array(items) => InfiniteItemFollows(items, 0);
    case Object(fields) => InfiniteFieldFollows(fields);
  }

  lemma {:induction false} InfiniteItemFollows(items: seq<Value>, index: nat)
    ensures FirstInfiniteItem(items, index) == RenderAny(FirstInItems(items, index, Infinite))
    decreases items
  {
    if items != [] {
      InfinityFollowsFirstHit(items[0]);
      match FirstHit(items[0], Infinite)
      case None => InfiniteItemFollows(items[1..], index + 1);
      case Some(path) => assert ([Index(index)] + path)[1..] == path;
    }
  }

  lemma {:induction false} InfiniteFieldFollows(fields: seq<Field<VrlScalar>>)
    ensures FirstInfiniteField(fields) == RenderAny(FirstInFields(fields, Infinite))
    decreases fields
  {
    if fields != [] {
      InfinityFollowsFirstHit(fields[0].value);
      match FirstHit(fields[0].value, Infinite)
      case None => InfiniteFieldFollows(fields[1..]);
      case Some(path) => assert ([Key(fields[0].key)] + path)[1..] == path;
    }
  }

  /** None exactly when no float at any depth is infinite, otherwise the first one's path. */
  lemma FirstInfiniteFloatIsFirst(v: Value)
    requires WellFormed(v)
    ensures FirstInfiniteFloat(v).None? <==> forall path :: !HitAt(v, path, Infinite)
    ensures FirstInfiniteFloat(v).Some? ==>
              exists path :: Render(path) == FirstInfiniteFloat(v).value && HitAt(v, path, Infinite)
                             && forall other :: HitAt(v, other, Infinite) ==> other == path || Before(path, other)
  {
    InfinityFollowsFirstHit(v);
    FirstHitIsHit(v, Infinite);
    forall other | HitAt(v, other, Infinite)
      ensures FirstHit(v, Infinite).Some?
      ensures other == FirstHit(v, Infinite).value || Before(FirstHit(v, Infinite).value, other)
    {
      FirstHitIsFirst(v, Infinite, other);
    }
  }

  /** Without infinities, JSON shows null exactly where the value was null. */
  lemma NullOnlyWhereNull(v: Value, path: Path)
    requires FirstInfiniteFloat(v).None?
    ensures At(VrlToJson(v), path) == Some(Scalar(JNull)) <==> At(v, path) == Some(Scalar(VNull))
  {
    AtMap(ScalarToJson, v, path);
    InfinityFollowsFirstHit(v);
    if HitAt(v, path, Infinite) {
      FirstHitIsFirst(v, Infinite, path);
    }
  }
}
