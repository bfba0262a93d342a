/**
  Running a compiled program over events (vector-bindings/src/lib.rs:140-249).

  The VRL runtime is not modelled: a program is a function from the event and its
  secrets to what it leaves behind and how it ended.
 */
module Events {
  import opened Wrappers
  import opened Documents
  import opened Conversion

  type Secrets = map<string, string>

  datatype Termination = Abort(message: string) | Error(message: string) | Interrupted

  datatype Run = Run(value: Value, secrets: Secrets, ended: Option<Termination>)

  type Program = (Value, Secrets) -> Run

  /** serde_json's parser: None for text that is not JSON. */
  type Parser = string -> Option<Json>

  datatype EventError =
    | InputOutOfRange(integer: IntegerOutOfRange)
    | InfiniteFloat(path: string)
    | NotAnObject
    | Terminated(termination: Termination)

  datatype Outcome = Outcome(result: Result<Value, EventError>, secrets: Secrets)

  /** Unicode's White_Space property. */
  predicate IsWhiteSpace(c: char) {
    var n := c as int;
    9 <= n <= 13 || n == 0x20 || n == 0x85 || n == 0xA0 || n == 0x1680 || 0x2000 <= n <= 0x200A
    || n == 0x2028 || n == 0x2029 || n == 0x202F || n == 0x205F || n == 0x3000
  }

  /** Whether the trimmed text starts with an opening brace. */
  predicate LooksLikeJson(text: string) {
    text != [] && (text[0] == '{' || (IsWhiteSpace(text[0]) && LooksLikeJson(text[1..])))
  }

  /** The event plain text is wrapped as, and its JSON form. */
  function Message(text: string): Value {
    Object([Field("message", Scalar(Bytes(Utf8(text))))])
  }

  function MessageJson(text: string): Json {
    Object([Field("message", Scalar(JString(text)))])
  }

  /** The event a text denotes: JSON when it looks like JSON and parses, else a message. */
  function ReadEvent(parse: Parser, text: string): Result<Value, IntegerOutOfRange> {
    if LooksLikeJson(text) && parse(text).Some? then JsonToVrl(parse(text).value)
    else Ok(Message(text))
  }

  /** The event the Python reference says a text denotes: JSON when it starts with a brace and parses. */
  function DocumentedEvent(parse: Parser, text: string): Result<Value, IntegerOutOfRange> {
    if text != [] && text[0] == '{' && parse(text).Some? then JsonToVrl(parse(text).value)
    else Ok(Message(text))
  }

  function Judge(run: Run): Result<Value, EventError> {
    if run.ended.Some? then Err(Terminated(run.ended.value))
    else if !run.value.Object? then Err(NotAnObject)
    else match FirstInfiniteFloat(run.value)
      case None => Ok(run.value)
      case Some(path) => Err(InfiniteFloat(path))
  }

  /** What one event's run comes to. */
  function Executed(parse: Parser, program: Program, text: string, secrets: Secrets): Outcome {
    match ReadEvent(parse, text)
    case Err(integer) => Outcome(Err(InputOutOfRange(integer)), secrets)
    case Ok(event) => Outcome(Judge(program(event, secrets)), program(event, secrets).secrets)
  }

  /** One event's mutable state while its program runs. */
  class EventTarget {
    var value: Value
    var secrets: Secrets

    constructor (value: Value, secrets: Secrets)
      ensures this.value == value && this.secrets == secrets
    {
      this.value, this.secrets := value, secrets;
    }

    /** The runtime resolving `program` against this target. */
    method Resolve(program: Program) returns (ended: Option<Termination>)
      modifies this
      ensures Run(value, secrets, ended) == program(old(value), old(secrets))
    {
      var run := program(value, secrets);
      value, secrets := run.value, run.secrets;
      ended := run.ended;
    }
  }

  method ExecuteOnEvent(parse: Parser, program: Program, text: string, secrets: Secrets) returns (outcome: Outcome)
    ensures outcome == Executed(parse, program, text, secrets)
  {
    var event := ReadEvent(parse, text);
    if event.Err? {
      return Outcome(Err(InputOutOfRange(event.error)), secrets);
    }
    var target := new EventTarget(event.value, secrets);
    var ended := target.Resolve(program);
    var result: Result<Value, EventError>;
    if ended.Some? {
      result := Err(Terminated(ended.value));
    } else {
      var infinite := FirstInfiniteFloat(target.value);
      if !target.value.Object? {
        result := Err(NotAnObject);
      } else if infinite.Some? {
        result := Err(InfiniteFloat(infinite.value));
      } else {
        result := Ok(target.value);
      }
    }
    return Outcome(result, target.secrets);
  }

  /** Each event starts from the same secrets, so its outcome is that of running it alone. */
  method RunEvents(parse: Parser, compiled: Result<Program, string>, events: seq<string>, secrets: Secrets)
    returns (r: Result<seq<Outcome>, string>)
    ensures compiled.Err? ==> r == Err(compiled.error)
    ensures compiled.Ok? ==>
              && r.Ok? && |r.value| == |events|
              && forall i :: 0 <= i < |events| ==> r.value[i] == Executed(parse, compiled.value, events[i], secrets)
  {
    if compiled.Err? {
      return Err(compiled.error);
    }
    var outcomes: seq<Outcome> := [];
    for i := 0 to |events|
      invariant |outcomes| == i
      invariant forall k :: 0 <= k < i ==> outcomes[k] == Executed(parse, compiled.value, events[k], secrets)
    {
      var outcome := ExecuteOnEvent(parse, compiled.value, events[i], secrets);
      outcomes := outcomes + [outcome];
    }
    return Ok(outcomes);
  }

  // ---------------------------------------------------------------------------
  // What an outcome promises
  // ---------------------------------------------------------------------------

  /** A successful event is an object, free of infinities, whose JSON nulls are its own. */
  lemma SuccessIsFaithful(parse: Parser, program: Program, text: string, secrets: Secrets)
    requires Executed(parse, program, text, secrets).result.Ok?
    ensures var event := Executed(parse, program, text, secrets).result.value;
            && event.Object?
            && VrlToJson(event).Object?
            && (forall path :: !HitAt(event, path, Infinite))
            && (forall path :: At(VrlToJson(event), path) == Some(Scalar(JNull)) <==>
                                 At(event, path) == Some(Scalar(VNull)))
  {
    var event := Executed(parse, program, text, secrets).result.value;
    forall path ensures !HitAt(event, path, Infinite) {
      InfinityFollowsFirstHit(event);
      if HitAt(event, path, Infinite) {
        FirstHitIsFirst(event, Infinite, path);
      }
    }
    forall path
      ensures At(VrlToJson(event), path) == Some(Scalar(JNull)) <==> At(event, path) == Some(Scalar(VNull))
    {
      NullOnlyWhereNull(event, path);
    }
  }

  /** The value, secrets and ending of the run an event leads to, if its input converts. */
  ghost predicate Ran(parse: Parser, program: Program, text: string, secrets: Secrets, run: Run) {
    ReadEvent(parse, text).Ok? && run == program(ReadEvent(parse, text).value, secrets)
  }

  /**
    The run decides the outcome: its secrets are reported however it ended, its value exactly
    when it ended well with an object free of infinities, and otherwise its termination or the
    first infinity of an object is named.
   */
  lemma RunDecidesOutcome(parse: Parser, program: Program, text: string, secrets: Secrets, run: Run)
    requires Ran(parse, program, text, secrets, run) && WellFormed(run.value)
    ensures var outcome := Executed(parse, program, text, secrets);
            && outcome.secrets == run.secrets
            && (outcome.result == Ok(run.value) <==>
                  run.ended.None? && run.value.Object? && forall path :: !HitAt(run.value, path, Infinite))
            && (outcome.result.Ok? ==> outcome.result.value == run.value)
            && (run.ended.Some? ==> outcome.result == Err(Terminated(run.ended.value)))
            && (run.ended.None? && !run.value.Object? ==> outcome.result == Err(NotAnObject))
            && (run.ended.None? && run.value.Object? && (exists path :: HitAt(run.value, path, Infinite)) ==>
                  outcome.result.Err? && outcome.result.error.InfiniteFloat?)
            && (outcome.result.Err? && outcome.result.error.InfiniteFloat? ==>
                  exists path :: Render(path) == outcome.result.error.path && HitAt(run.value, path, Infinite)
                                 && forall other :: HitAt(run.value, other, Infinite) ==>
                                      other == path || Before(path, other))
  {
    FirstInfiniteFloatIsFirst(run.value);
  }

  /**
    An input with an integer above the signed 64-bit maximum never reaches the program:
    the event fails naming the first such integer, and its secrets are untouched.
   */
  lemma BigIntegerStopsTheEvent(parse: Parser, program: Program, text: string, secrets: Secrets, json: Json, at: Path)
    requires LooksLikeJson(text) && parse(text) == Some(json) && WellFormed(json)
    requires HitAt(json, at, TooBig)
    ensures var outcome := Executed(parse, program, text, secrets);
            && outcome.secrets == secrets
            && outcome.result.Err? && outcome.result.error.InputOutOfRange?
            && exists path :: Reports(json, path, outcome.result.error.integer) && (at == path || Before(path, at))
  {
    ConversionFailsAtFirstBigInteger(json);
  }

  /** A program that changes nothing gives back the JSON object it was fed. */
  lemma IdentityProgramRoundTrips(parse: Parser, text: string, secrets: Secrets, json: Json)
    requires LooksLikeJson(text) && parse(text) == Some(json) && json.Object? && WellFormed(json)
    requires forall path :: !HitAt(json, path, TooBig)
    ensures var outcome := Executed(parse, (v, s) => Run(v, s, None), text, secrets);
            outcome.result.Ok? && VrlToJson(outcome.result.value) == json && outcome.secrets == secrets
  {
    ConversionFailsAtFirstBigInteger(json);
    JsonRoundTrip(json);
    var v := JsonToVrl(json).value;
    InfinityFollowsFirstHit(v);
    if FirstHit(v, Infinite).Some? {
      ConvertedIsFinite(json);
    }
  }

  lemma {:induction false} LooksLikeJsonExactly(text: string)
    ensures LooksLikeJson(text) <==>
            exists i :: 0 <= i < |text| && text[i] == '{' && forall k :: 0 <= k < i ==> IsWhiteSpace(text[k])
  {
    if text != [] && text[0] != '{' {
      var rest := text[1..];
      LooksLikeJsonExactly(rest);
      assert forall k :: 0 <= k < |rest| ==> rest[k] == text[k + 1];
      if IsWhiteSpace(text[0]) && LooksLikeJson(rest) {
        var i :| 0 <= i < |rest| && rest[i] == '{' && forall k :: 0 <= k < i ==> IsWhiteSpace(rest[k]);
        assert forall k :: 0 < k < i + 1 ==> text[k] == rest[k - 1];
        assert text[i + 1] == '{';
      }
      if i :| 0 <= i < |text| && text[i] == '{' && forall k :: 0 <= k < i ==> IsWhiteSpace(text[k]) {
        assert i != 0 && rest[i - 1] == '{';
      }
    }
  }

  /** Exactly these characters are trimmed. */
  lemma WhiteSpaceExactly(c: char)
    ensures IsWhiteSpace(c) <==>
            || c in " \t\n\U{0B}\U{0C}\r" || c in "\U{85}\U{A0}\U{1680}"
            || c in "\U{2000}\U{2001}\U{2002}\U{2003}\U{2004}\U{2005}"
            || c in "\U{2006}\U{2007}\U{2008}\U{2009}\U{200A}"
            || c in "\U{2028}\U{2029}\U{202F}\U{205F}\U{3000}"
  {
  }

  lemma MessageToJson(text: string)
    ensures VrlToJson(Message(text)) == MessageJson(text)
    ensures JsonToVrl(MessageJson(text)) == Ok(Message(text))
    ensures FirstInfiniteFloat(Message(text)).None?
  {
    var fields, jsonFields := Message(text).fields, MessageJson(text).fields;
    assert fields[1..] == [];
    assert jsonFields[1..] == [];
    assert FirstInfiniteFloat(fields[0].value).None?;
    assert FirstInfiniteField(fields).None?;
    assert MapFields(ScalarToJson, fields) == jsonFields;
    assert JsonToVrl(jsonFields[0].value) == Ok(fields[0].value);
    assert FieldsToVrl(jsonFields) == Ok([fields[0]] + []);
    assert [fields[0]] + [] == fields;
  }

  lemma MessagesComeFromMessages(json: Json, text: string)
    ensures JsonToVrl(json) == Ok(Message(text)) <==> json == MessageJson(text)
  {
    MessageToJson(text);
    if JsonToVrl(json) == Ok(Message(text)) {
      JsonRoundTrip(json);
    }
  }

  /** Exactly which texts become messages: all but those that look like JSON and parse as something else. */
  lemma BecomesMessageExactly(parse: Parser, text: string)
    ensures ReadEvent(parse, text) == Ok(Message(text)) <==>
            !LooksLikeJson(text) || parse(text).None? || parse(text) == Some(MessageJson(text))
  {
    if parse(text).Some? {
      MessagesComeFromMessages(parse(text).value, text);
    }
  }

  /**
    The code reads a text as the reference says exactly when no white space leads up to a brace,
    or the text does not parse, or parses as the very message it would be wrapped as.
   */
  lemma ReadsAsDocumentedExactly(parse: Parser, text: string)
    ensures ReadEvent(parse, text) == DocumentedEvent(parse, text) <==>
            || !LooksLikeJson(text) || !IsWhiteSpace(text[0])
            || parse(text).None? || parse(text) == Some(MessageJson(text))
  {
    if parse(text).Some? {
      MessagesComeFromMessages(parse(text).value, text);
    }
  }

  /** One space before an empty object: read as that object, though documented as a message. */
  lemma LeadingSpaceIsReadAsJson(parse: Parser)
    requires parse(" {}") == Some(Object([]))
    ensures ReadEvent(parse, " {}") == Ok(Object([]))
    ensures DocumentedEvent(parse, " {}") == Ok(Message(" {}"))
  {
    assert " {}"[1..] == "{}";
    assert LooksLikeJson("{}");
  }

  /** Text that does not look like JSON, or is not, reaches every program as a message. */
  lemma PlainTextIsAMessage(parse: Parser, program: Program, text: string, secrets: Secrets)
    requires !LooksLikeJson(text) || parse(text).None?
    ensures var run := program(Message(text), secrets);
            Executed(parse, program, text, secrets) == Outcome(Judge(run), run.secrets)
    ensures var outcome := Executed(parse, (v, s) => Run(v, s, None), text, secrets);
            && outcome.result.Ok?
            && VrlToJson(outcome.result.value) == Object([Field("message", Scalar(JString(text)))])
  {
    MessageToJson(text);
  }

  lemma {:induction false} ConvertedIsFinite(json: Json)
    requires JsonToVrl(json).Ok?
    ensures FirstInfiniteFloat(JsonToVrl(json).value).None?
    decreases json
  {
    match json
    case Scalar(_) =>
    case Array(items) => ConvertedItemsFinite(items, 0);
    case Object(fields) => ConvertedFieldsFinite(fields);
  }

  lemma {:induction false} ConvertedItemsFinite(items: seq<Json>, index: nat)
    requires ItemsToVrl(items, index).Ok?
    ensures FirstInfiniteItem(ItemsToVrl(items, index).value, index).None?
    decreases items
  {
    if items != [] {
      ConvertedIsFinite(items[0]);
      ConvertedItemsFinite(items[1..], index + 1);
      assert ItemsToVrl(items, index).value[1..] == ItemsToVrl(items[1..], index + 1).value;
    }
  }

  lemma {:induction false} ConvertedFieldsFinite(fields: seq<Field<JsonScalar>>)
    requires FieldsToVrl(fields).Ok?
    ensures FirstInfiniteField(FieldsToVrl(fields).value).None?
    decreases fields
  {
    if fields != [] {
      ConvertedIsFinite(fields[0].value);
      ConvertedFieldsFinite(fields[1..]);
      assert FieldsToVrl(fields).value[1..] == FieldsToVrl(fields[1..]).value;
    }
  }
}
