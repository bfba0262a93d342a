/**
  Compiler diagnostics as text: how the bindings print them and how the config check
  reads them back (vector-bindings/src/lib.rs:98-138,
  vector-vrl/src/vector_vrl/config_check.py:30-101).
 */
module Diagnostics {
  import opened Wrappers
  import opened Nesting

  const UNDEFINED_FUNCTION := "call to undefined function"
  const UNDEFINED_PREFIX := "call to undefined function `"
  const COMPILATION_ERROR := "function compilation error: "
  const UNKNOWN_TABLE := "error[E111] unknown enrichment table "
  const UNKNOWN_TABLE_PREFIX := COMPILATION_ERROR + UNKNOWN_TABLE

  const ENRICHMENT: seq<string> := ["get_enrichment_table_record", "find_enrichment_table_records"]

  /** Names only a build with more features compiles. */
  const SANDBOXED: seq<string> := [
    "get_env_var", "encode_proto", "parse_proto", "parse_etld", "validate_json_schema",
    "get_hostname", "get_timezone_name", "http_request", "dns_lookup", "reverse_dns"
  ]

  // ---------------------------------------------------------------------------
  // Printing
  // ---------------------------------------------------------------------------

  /** A diagnostic's message, and the source text under its primary label if there is any. */
  datatype Diagnostic = Diagnostic(message: string, name: Option<string>)

  function DiagnosticText(d: Diagnostic): string {
    if d.message != UNDEFINED_FUNCTION || d.name.None? then d.message
    else d.message + " `" + d.name.value + "`"
  }

  lemma DiagnosticTextExactly(message: string, name: string)
    ensures DiagnosticText(Diagnostic(message, None)) == message
    ensures DiagnosticText(Diagnostic(message, Some(name)))
            == if message == "call to undefined function" then "call to undefined function `" + name + "`" else message
  {
  }

  function Texts(ds: seq<Diagnostic>): seq<string> {
    seq(|ds|, i requires 0 <= i < |ds| => DiagnosticText(ds[i]))
  }

  /** `lines.join(separator)` */
  function Join(lines: seq<string>, separator: string): string {
    if lines == [] then ""
    else if |lines| == 1 then lines[0]
    else lines[0] + separator + Join(lines[1..], separator)
  }

  /** The VRL compiler: the diagnostics of source it rejects, None for source it accepts. */
  type Compiler = string -> Option<seq<Diagnostic>>

  /** The error text of compiling `source`: its nesting first, then the compiler's diagnostics. */
  function CompileError(compiler: Compiler, source: string): Option<string> {
    if MaxDepth(source) > MAX_VRL_NESTING_DEPTH then Some(TooDeep(MaxDepth(source)))
    else match compiler(source)
      case None => None
      case Some(ds) => Some(Join(Texts(ds), "\n"))
  }

  /** `compile_vrl_program`, its guard run before the compiler sees the source. */
  method CompileProgram(compiler: Compiler, source: string) returns (error: Option<string>)
    ensures error == CompileError(compiler, source)
    ensures error.None? <==> MaxDepth(source) <= 64 && compiler(source).None?
    ensures MaxDepth(source) > 64 ==> error == Some(TooDeep(MaxDepth(source)))
  {
    var nesting := CheckNestingDepth(source);
    PeakWithinLimit(Structural(Normal, source), MAX_VRL_NESTING_DEPTH);
    if nesting.Err? {
      return Some(nesting.error);
    }
    var compiled := compiler(source);
    if compiled.None? {
      return None;
    }
    var errors: seq<string> := [];
    for i := 0 to |compiled.value|
      invariant errors == Texts(compiled.value)[..i]
    {
      errors := errors + [DiagnosticText(compiled.value[i])];
    }
    assert Texts(compiled.value)[..|compiled.value|] == Texts(compiled.value);
    return Some(Join(errors, "\n"));
  }

  // ---------------------------------------------------------------------------
  // Splitting into lines, as Python's `splitlines` does
  // ---------------------------------------------------------------------------

  predicate IsLineBreak(c: char) {
    var n := c as int;
    0x0A <= n <= 0x0D || 0x1C <= n <= 0x1E || n == 0x85 || n == 0x2028 || n == 0x2029
  }

  lemma LineBreaksExactly(c: char)
    ensures IsLineBreak(c) <==>
            || c in "\n\r" || c in "\U{0B}\U{0C}" || c in "\U{1C}\U{1D}\U{1E}" || c in "\U{85}\U{2028}\U{2029}"
  {
  }

  predicate BreakFree(s: string) {
    forall i :: 0 <= i < |s| ==> !IsLineBreak(s[i])
  }

  /** The length of the first line. */
  function LineLength(s: string): (n: nat)
    ensures n <= |s|
  {
    if s == "" || IsLineBreak(s[0]) then 0 else 1 + LineLength(s[1..])
  }

  /** The first line is break-free, and a break or the end follows it. */
  lemma {:induction false} FirstLineIsBreakFree(s: string)
    ensures BreakFree(s[..LineLength(s)])
    ensures LineLength(s) < |s| ==> IsLineBreak(s[LineLength(s)])
  {
    if s != "" && !IsLineBreak(s[0]) {
      FirstLineIsBreakFree(s[1..]);
      assert forall i :: 0 < i < LineLength(s) ==> s[..LineLength(s)][i] == s[1..][..LineLength(s[1..])][i - 1];
    }
  }

  function BreakWidth(s: string, n: nat): (w: nat)
    requires n < |s|
    ensures 1 <= w <= |s| - n
  {
    if s[n] == '\r' && n + 1 < |s| && s[n + 1] == '\n' then 2 else 1
  }

  function SplitLines(s: string): seq<string>
    decreases |s|
  {
    if s == "" then []
    else
      var n := LineLength(s);
      if n == |s| then [s] else [s[..n]] + SplitLines(s[n + BreakWidth(s, n)..])
  }

  lemma {:induction false} LineLengthOfLine(line: string, rest: string)
    requires BreakFree(line) && (rest == "" || IsLineBreak(rest[0]))
    ensures LineLength(line + rest) == |line|
  {
    if line == "" {
      assert line + rest == rest;
    } else {
      assert forall i :: 0 <= i < |line| - 1 ==> line[1..][i] == line[i + 1];
      assert (line + rest)[1..] == line[1..] + rest;
      LineLengthOfLine(line[1..], rest);
    }
  }

  /** `br` is one line break when `tail` follows it: a carriage return and line feed make one together. */
  predicate IsBreakBefore(br: string, tail: string) {
    br == "\r\n" || (|br| == 1 && IsLineBreak(br[0]) && (br[0] == '\r' && tail != "" ==> tail[0] != '\n'))
  }

  /** A line ends at any break. */
  lemma SplitAtBreak(line: string, br: string, tail: string)
    requires BreakFree(line) && IsBreakBefore(br, tail)
    ensures SplitLines(line + br + tail) == [line] + SplitLines(tail)
  {
    var s, n := line + br + tail, |line|;
    assert s == line + (br + tail);
    LineLengthOfLine(line, br + tail);
    assert s[..n] == line && s[n + |br|..] == tail && s[n] == br[0];
  }

  /** The lines without a last one that is empty. */
  function WithoutEmptyLast(lines: seq<string>): seq<string> {
    if lines != [] && lines[|lines| - 1] == "" then lines[..|lines| - 1] else lines
  }

  lemma SplitOne(line: string)
    requires BreakFree(line)
    ensures SplitLines(line) == WithoutEmptyLast([line])
  {
    LineLengthOfLine(line, "");
    assert line + "" == line;
  }

  lemma SplitMore(lines: seq<string>)
    requires |lines| > 1 && BreakFree(lines[0])
    ensures SplitLines(Join(lines, "\n")) == [lines[0]] + SplitLines(Join(lines[1..], "\n"))
  {
    SplitAtBreak(lines[0], "\n", Join(lines[1..], "\n"));
  }

  lemma WithoutEmptyLastMore(lines: seq<string>)
    requires |lines| > 1
    ensures WithoutEmptyLast(lines) == [lines[0]] + WithoutEmptyLast(lines[1..])
  {
    assert lines[1..][|lines| - 2] == lines[|lines| - 1];
    assert lines[1..][..|lines| - 2] == lines[..|lines| - 1][1..];
  }

  lemma {:induction false} SplitJoined(lines: seq<string>)
    requires forall i :: 0 <= i < |lines| ==> BreakFree(lines[i])
    ensures SplitLines(Join(lines, "\n")) == WithoutEmptyLast(lines)
  {
    if |lines| == 1 {
      SplitOne(lines[0]);
      assert lines == [lines[0]];
    } else if |lines| > 1 {
      SplitMore(lines);
      WithoutEmptyLastMore(lines);
      SplitJoined(lines[1..]);
    }
  }

  /** Text followed by a line feed splits on its own, whatever comes after. */
  lemma {:induction false} SplitAfterLineFeed(text: string, rest: string)
    ensures SplitLines(text + "\n" + rest) == SplitLines(text + "\n") + SplitLines(rest)
    decreases |text|
  {
    FirstLineIsBreakFree(text);
    var n := LineLength(text);
    var line := text[..n];
    if n == |text| {
      assert text == line && "" + rest == rest;
      assert text + "\n" == line + "\n" + "";
      SplitOff(line, "\n", "", rest);
    } else {
      var br, after := FirstBreak(text, n);
      if br == "\r" && after == "" {
        ReturnThenFeed(text, line, rest);
        assert "" + rest == rest;
        SplitOff(line, "\r\n", "", rest);
      } else {
        Regroup(line, br, after, "\n", rest);
        BreakStays(br, after, rest);
        SplitAfterLineFeed(after, rest);
        SplitOff(line, br, after + "\n", rest);
      }
    }
  }

  lemma BreakStays(br: string, after: string, rest: string)
    requires IsBreakBefore(br, after) && !(br == "\r" && after == "")
    ensures IsBreakBefore(br, after + "\n") && IsBreakBefore(br, after + "\n" + rest)
  {
    assert br == [br[0]] || br == "\r\n";
  }

  /** A line and its break split off the front, of a text and of the text with more behind it alike. */
  lemma SplitOff(line: string, br: string, after: string, rest: string)
    requires BreakFree(line) && IsBreakBefore(br, after) && IsBreakBefore(br, after + rest)
    requires SplitLines(after + rest) == SplitLines(after) + SplitLines(rest)
    ensures SplitLines(line + br + (after + rest)) == SplitLines(line + br + after) + SplitLines(rest)
  {
    var all := after + rest;
    SplitAtBreak(line, br, all);
    SplitAtBreak(line, br, after);
    Associate([line], SplitLines(after), SplitLines(rest));
  }

  lemma FirstBreak(text: string, n: nat) returns (br: string, after: string)
    requires n < |text| && IsLineBreak(text[n])
    ensures text == text[..n] + br + after
    ensures IsBreakBefore(br, after)
  {
    if text[n] == '\r' && n + 1 < |text| && text[n + 1] == '\n' {
      br, after := text[n..n + 2], text[n + 2..];
    } else {
      br, after := text[n..n + 1], text[n + 1..];
    }
  }

  lemma Regroup(line: string, br: string, after: string, feed: string, rest: string)
    ensures line + br + after + feed == line + br + (after + feed)
    ensures line + br + after + feed + rest == line + br + (after + feed + rest)
  {
  }

  lemma ReturnThenFeed(text: string, line: string, rest: string)
    requires text == line + "\r" + ""
    ensures text + "\n" == line + "\r\n" + "" && text + "\n" + rest == line + "\r\n" + ("" + rest)
  {
  }

  /** The lines that joined texts split into: each text's own, with the line feed that follows it. */
  function PrintedLines(texts: seq<string>): seq<string> {
    if texts == [] then []
    else if |texts| == 1 then SplitLines(texts[0])
    else SplitLines(texts[0] + "\n") + PrintedLines(texts[1..])
  }

  lemma {:induction false} JoinedLinesArePrinted(texts: seq<string>)
    ensures SplitLines(Join(texts, "\n")) == PrintedLines(texts)
  {
    if |texts| > 1 {
      SplitAfterLineFeed(texts[0], Join(texts[1..], "\n"));
      JoinedLinesArePrinted(texts[1..]);
    }
  }

  lemma {:induction false} SplitLinesBreakFree(s: string)
    ensures forall i :: 0 <= i < |SplitLines(s)| ==> BreakFree(SplitLines(s)[i])
    decreases |s|
  {
    if s != "" {
      FirstLineIsBreakFree(s);
      var n := LineLength(s);
      if n == |s| {
        assert s[..n] == s;
      } else {
        SplitLinesBreakFree(s[n + BreakWidth(s, n)..]);
      }
    }
  }

  /** Splitting recovers the joined lines exactly when none holds a break and the last is not empty. */
  lemma JoinThenSplitExactly(lines: seq<string>)
    ensures SplitLines(Join(lines, "\n")) == lines <==>
            (forall i :: 0 <= i < |lines| ==> BreakFree(lines[i])) && (lines == [] || lines[|lines| - 1] != "")
  {
    SplitLinesBreakFree(Join(lines, "\n"));
    if forall i :: 0 <= i < |lines| ==> BreakFree(lines[i]) {
      SplitJoined(lines);
    }
  }

  lemma {:induction false} SplitLinesNonEmpty(s: string)
    ensures SplitLines(s) == [] <==> s == ""
  {
  }

  // ---------------------------------------------------------------------------
  // Reading the lines back
  // ---------------------------------------------------------------------------

  predicate StartsWith(s: string, prefix: string) {
    |prefix| <= |s| && s[..|prefix|] == prefix
  }

  /** The name a line that is wholly an undefined-function diagnostic puts in backticks. */
  function UndefinedName(line: string): Option<string> {
    var n := |UNDEFINED_PREFIX|;
    if StartsWith(line, UNDEFINED_PREFIX) && |line| > n + 1 && line[|line| - 1] == '`' && '`' !in line[n..|line| - 1]
    then Some(line[n..|line| - 1])
    else None
  }

  /** The name is read back exactly when it is not empty and holds no backtick. */
  lemma UndefinedNameIsReadBack(name: string)
    ensures var text := DiagnosticText(Diagnostic(UNDEFINED_FUNCTION, Some(name)));
            UndefinedName(text) == if name != "" && '`' !in name then Some(name) else None
  {
    var text := DiagnosticText(Diagnostic(UNDEFINED_FUNCTION, Some(name)));
    assert text == UNDEFINED_PREFIX + name + "`";
    var n := |UNDEFINED_PREFIX|;
    assert text[..n] == UNDEFINED_PREFIX;
    assert text[n..|text| - 1] == name;
  }

  /** What a line says: it names a sandboxed function, it names a table nobody registered, or neither. */
  datatype LineKind = LeftOut(name: string) | Unregistered | RealError

  function ReadLine(line: string): LineKind {
    var name := UndefinedName(line);
    if name.Some? && name.value in SANDBOXED then LeftOut(name.value)
    else if StartsWith(line, UNKNOWN_TABLE_PREFIX) then Unregistered
    else RealError
  }

  /** The names are exactly these ten. */
  lemma SandboxedExactly(name: string)
    ensures name in SANDBOXED <==>
            || name == "get_env_var" || name == "encode_proto" || name == "parse_proto" || name == "parse_etld"
            || name == "validate_json_schema" || name == "get_hostname" || name == "get_timezone_name"
            || name == "http_request" || name == "dns_lookup" || name == "reverse_dns"
  {
  }

  lemma NameInLine(line: string, name: string)
    requires name != "" && '`' !in name
    ensures UndefinedName(line) == Some(name) <==> line == UNDEFINED_PREFIX + name + "`"
  {
    var n := |UNDEFINED_PREFIX|;
    if UndefinedName(line) == Some(name) {
      assert line == line[..n] + line[n..|line| - 1] + [line[|line| - 1]];
    }
    if line == UNDEFINED_PREFIX + name + "`" {
      assert line[..n] == UNDEFINED_PREFIX && line[n..|line| - 1] == name;
    }
  }

  lemma NamedLineIsNoTable(line: string)
    requires StartsWith(line, UNDEFINED_PREFIX)
    ensures !StartsWith(line, UNKNOWN_TABLE_PREFIX)
  {
    assert line[..|UNDEFINED_PREFIX|][0] == 'c';
    NotUnknownTable(line);
  }

  /** A line names a left-out function exactly when it is that diagnostic, and a table when it begins as one does. */
  lemma ReadLineExactly(line: string, name: string)
    ensures ReadLine(line) == LeftOut(name) <==>
            name in SANDBOXED && line == "call to undefined function `" + name + "`"
    ensures ReadLine(line) == Unregistered <==>
            "function compilation error: " + "error[E111] unknown enrichment table " <= line
  {
    var read := UndefinedName(line);
    if name in SANDBOXED {
      SandboxedNamesAreReadable(name);
      NameInLine(line, name);
    }
    if read.Some? {
      NamedLineIsNoTable(line);
    }
  }

  function ReadLines(lines: seq<string>): seq<LineKind> {
    seq(|lines|, i requires 0 <= i < |lines| => ReadLine(lines[i]))
  }

  /** A line this build cannot be held to. */
  predicate Excused(line: string) {
    !ReadLine(line).RealError?
  }

  /** The left-out functions, each once, in order of first mention. */
  function LeftOutNames(kinds: seq<LineKind>): seq<string> {
    if kinds == [] then []
    else
      var earlier, last := LeftOutNames(kinds[..|kinds| - 1]), kinds[|kinds| - 1];
      if last.LeftOut? && last.name !in earlier then earlier + [last.name] else earlier
  }

  /** Exactly the left-out functions some line names, none of them twice. */
  lemma {:induction false} LeftOutNamesExactly(kinds: seq<LineKind>, name: string)
    ensures name in LeftOutNames(kinds) <==> LeftOut(name) in kinds
    ensures multiset(LeftOutNames(kinds))[name] <= 1
  {
    if kinds != [] {
      var n := |kinds| - 1;
      LeftOutNamesExactly(kinds[..n], name);
      assert kinds == kinds[..n] + [kinds[n]];
    }
  }

  /** Each name comes where it is first mentioned: the names before it are those of the lines before that one. */
  lemma {:induction false} LeftOutNamesKeepOrder(kinds: seq<LineKind>, i: nat) returns (p: nat)
    requires i < |LeftOutNames(kinds)|
    ensures p < |kinds| && kinds[p] == LeftOut(LeftOutNames(kinds)[i])
    ensures LeftOutNames(kinds[..p]) == LeftOutNames(kinds)[..i]
  {
    var n := |kinds| - 1;
    var earlier := LeftOutNames(kinds[..n]);
    if i < |earlier| {
      p := LeftOutNamesKeepOrder(kinds[..n], i);
      assert kinds[..n][..p] == kinds[..p];
    } else {
      p := n;
    }
  }

  predicate Contains(text: string, part: string) {
    |part| <= |text| && (text[..|part|] == part || (text != "" && Contains(text[1..], part)))
  }

  predicate OccursAt(text: string, part: string, i: nat) {
    i + |part| <= |text| && text[i..i + |part|] == part
  }

  lemma {:induction false} ContainsExactly(text: string, part: string)
    ensures Contains(text, part) <==> exists i: nat :: OccursAt(text, part, i)
  {
    if |part| <= |text| {
      if text[..|part|] == part {
        assert OccursAt(text, part, 0);
      } else if text != "" {
        ContainsExactly(text[1..], part);
        forall i: nat ensures OccursAt(text[1..], part, i) <==> OccursAt(text, part, i + 1) {
          if i + 1 + |part| <= |text| {
            assert text[1..][i..i + |part|] == text[i + 1..i + 1 + |part|];
          }
        }
        if i: nat :| OccursAt(text, part, i) {
          assert i > 0 && OccursAt(text[1..], part, i - 1);
        }
      }
    }
  }

  /** The table functions a reason names: those the source mentions, else both. */
  function TableFunctions(vrl: string): (used: seq<string>)
    ensures used != []
  {
    var mentioned := (if Contains(vrl, ENRICHMENT[0]) then [ENRICHMENT[0]] else [])
                     + (if Contains(vrl, ENRICHMENT[1]) then [ENRICHMENT[1]] else []);
    if mentioned != [] then mentioned else ENRICHMENT
  }

  /** One function is named when the source mentions it and not the other; both are, in order, otherwise. */
  lemma TableFunctionsExactly(vrl: string)
    ensures var get, find := "get_enrichment_table_record", "find_enrichment_table_records";
            var gets := exists i: nat :: OccursAt(vrl, get, i);
            var finds := exists i: nat :: OccursAt(vrl, find, i);
            TableFunctions(vrl) == if gets && !finds then [get] else if finds && !gets then [find] else [get, find]
  {
    ContainsExactly(vrl, ENRICHMENT[0]);
    ContainsExactly(vrl, ENRICHMENT[1]);
  }

  /** Why VRL is unchecked: the table functions used, if any table is unregistered, and the functions left out. */
  datatype Reason = Reason(tableFunctions: seq<string>, leftOut: seq<string>)

  /** There is an error, and every line of it is excused. */
  ghost predicate AllExcused(error: Option<string>) {
    error.Some? && error.value != "" && RealError !in ReadLines(SplitLines(error.value))
  }

  /** The reason an error leaves its VRL unchecked, if it does. */
  ghost function ReasonFor(vrl: string, error: Option<string>): Option<Reason> {
    if !AllExcused(error) then None
    else
      var kinds := ReadLines(SplitLines(error.value));
      Some(Reason(if Unregistered in kinds then TableFunctions(vrl) else [], LeftOutNames(kinds)))
  }

  /** The line is, in full, the diagnostic of a call to the sandboxed function `name`. */
  ghost predicate CallsLeftOut(line: string, name: string) {
    name in SANDBOXED && line == "call to undefined function `" + name + "`"
  }

  lemma LeftOutLinesExactly(lines: seq<string>, name: string)
    ensures LeftOut(name) in ReadLines(lines) <==> exists line <- lines :: CallsLeftOut(line, name)
  {
    var kinds := ReadLines(lines);
    forall i | 0 <= i < |lines| ensures kinds[i] == LeftOut(name) <==> CallsLeftOut(lines[i], name) {
      ReadLineExactly(lines[i], name);
    }
    if line :| line in lines && CallsLeftOut(line, name) {
      var i :| 0 <= i < |lines| && lines[i] == line;
      assert kinds[i] == LeftOut(name);
    }
  }

  lemma UnregisteredLinesExactly(lines: seq<string>)
    ensures Unregistered in ReadLines(lines) <==> exists line <- lines :: ReadLine(line) == Unregistered
  {
    var kinds := ReadLines(lines);
    if line :| line in lines && ReadLine(line) == Unregistered {
      var i :| 0 <= i < |lines| && lines[i] == line;
      assert kinds[i] == Unregistered;
    }
  }

  /** What a reason names: tables exactly when some line is about one, and exactly the functions the lines name. */
  lemma ReasonExactly(vrl: string, error: string, name: string)
    requires AllExcused(Some(error))
    ensures var reason, lines := ReasonFor(vrl, Some(error)), SplitLines(error);
            && reason.Some?
            && (reason.value.tableFunctions != [] <==> exists line <- lines :: ReadLine(line) == Unregistered)
            && (reason.value.tableFunctions in {[], TableFunctions(vrl)})
            && (name in reason.value.leftOut <==> exists line <- lines :: CallsLeftOut(line, name))
  {
    LeftOutLinesExactly(SplitLines(error), name);
    UnregisteredLinesExactly(SplitLines(error));
    LeftOutNamesExactly(ReadLines(SplitLines(error)), name);
  }

  /** The loop over the lines: what is unregistered and left out, or None at the first real error. */
  method CollectReasons(kinds: seq<LineKind>) returns (r: Option<(bool, seq<string>)>)
    ensures r == if RealError in kinds then None else Some((Unregistered in kinds, LeftOutNames(kinds)))
    ensures r.Some? && kinds != [] ==> r.value.0 || r.value.1 != []
  {
    var leftOut: seq<string> := [];
    var unregistered := false;
    for i := 0 to |kinds|
      invariant leftOut == LeftOutNames(kinds[..i])
      invariant unregistered <==> Unregistered in kinds[..i]
      invariant RealError !in kinds[..i]
      invariant i > 0 ==> unregistered || leftOut != []
    {
      assert kinds[..i + 1] == kinds[..i] + [kinds[i]];
      match kinds[i] {
        case LeftOut(name) =>
          if name !in leftOut {
            leftOut := leftOut + [name];
          }
        case Unregistered =>
          unregistered := true;
        case RealError =>
          return None;
      }
    }
    assert kinds[..|kinds|] == kinds;
    return Some((unregistered, leftOut));
  }

  /** A reason exactly when there is an error and every line of it is excused; it is never empty. */
  method UncompilableReason(vrl: string, error: Option<string>) returns (r: Option<Reason>)
    ensures r == ReasonFor(vrl, error)
    ensures r.Some? ==> r.value.tableFunctions != [] || r.value.leftOut != []
  {
    if error.None? || error.value == "" {
      return None;
    }
    var lines := SplitLines(error.value);
    SplitLinesNonEmpty(error.value);
    var reasons := CollectReasons(ReadLines(lines));
    if reasons.None? {
      return None;
    }
    var (unregistered, leftOut) := reasons.value;
    return Some(Reason(if unregistered then TableFunctions(vrl) else [], leftOut));
  }

  // ---------------------------------------------------------------------------
  // The round trip
  // ---------------------------------------------------------------------------

  /** A diagnostic about a call to a sandboxed function. */
  predicate IsLeftOut(d: Diagnostic) {
    d.message == UNDEFINED_FUNCTION && d.name.Some? && d.name.value in SANDBOXED
  }

  predicate IsUnknownTable(d: Diagnostic) {
    StartsWith(d.message, UNKNOWN_TABLE_PREFIX)
  }

  /** The message does not itself spell out the name of a left-out function. */
  predicate Honest(d: Diagnostic) {
    !ReadLine(d.message).LeftOut?
  }

  /** An honest diagnostic printed on one line. */
  predicate Readable(d: Diagnostic) {
    Honest(d) && BreakFree(DiagnosticText(d)) && DiagnosticText(d) != ""
  }

  lemma {:induction false} SandboxedNamesAreReadable(name: string)
    requires name in SANDBOXED
    ensures name != "" && '`' !in name
  {
  }

  lemma ExcusedBegins(line: string)
    requires Excused(line)
    ensures line != "" && (line[0] == 'c' || line[0] == 'f')
  {
    if ReadLine(line).LeftOut? {
      assert line[..|UNDEFINED_PREFIX|][0] == 'c';
    } else {
      assert line[..|UNKNOWN_TABLE_PREFIX|][0] == 'f';
    }
  }

  lemma ExcusedExactly(d: Diagnostic)
    requires Honest(d)
    ensures Excused(DiagnosticText(d)) <==> IsLeftOut(d) || IsUnknownTable(d)
  {
    if d.message == UNDEFINED_FUNCTION && d.name.Some? {
      UndefinedNameIsReadBack(d.name.value);
      if d.name.value in SANDBOXED {
        SandboxedNamesAreReadable(d.name.value);
      }
      NotUnknownTable(d.message);
      NotUnknownTable(DiagnosticText(d));
    }
  }

  lemma NotUnknownTable(text: string)
    requires text != "" && text[0] != 'f'
    ensures !StartsWith(text, UNKNOWN_TABLE_PREFIX)
  {
    if |UNKNOWN_TABLE_PREFIX| <= |text| {
      assert text[..|UNKNOWN_TABLE_PREFIX|][0] == text[0];
    }
  }

  /**
    Rejected source is unchecked, not wrong, exactly when it nests within the limit and every
    one of its diagnostics is a left-out function or an unregistered table.
   */
  lemma UncheckedExactly(compiler: Compiler, source: string)
    requires compiler(source).Some? ==>
               forall i :: 0 <= i < |compiler(source).value| ==> Readable(compiler(source).value[i])
    ensures AllExcused(CompileError(compiler, source)) <==>
            && MaxDepth(source) <= MAX_VRL_NESTING_DEPTH
            && compiler(source).Some? && compiler(source).value != []
            && forall i :: 0 <= i < |compiler(source).value| ==>
                 IsLeftOut(compiler(source).value[i]) || IsUnknownTable(compiler(source).value[i])
  {
    if MaxDepth(source) > MAX_VRL_NESTING_DEPTH {
      TooDeepIsNotExcused(MaxDepth(source));
    } else if compiler(source).Some? {
      JoinedExcusedExactly(compiler(source).value);
    }
  }

  /** The lines the diagnostic at `i` prints, with the line feed before the next one. */
  function LinesOf(texts: seq<string>, i: nat): seq<string>
    requires i < |texts|
  {
    SplitLines(if i == |texts| - 1 then texts[i] else texts[i] + "\n")
  }

  /**
    Whatever its diagnostics print, breaks and all, each is judged by its own lines: rejected
    source is unchecked exactly when it nests within the limit, something was printed, and no
    line of any diagnostic is a real error.
   */
  lemma DiagnosticsAreJudgedSeparately(compiler: Compiler, source: string)
    ensures AllExcused(CompileError(compiler, source)) <==>
            && MaxDepth(source) <= MAX_VRL_NESTING_DEPTH
            && compiler(source).Some?
            && var texts := Texts(compiler(source).value);
            && Join(texts, "\n") != ""
            && forall i :: 0 <= i < |texts| ==> RealError !in ReadLines(LinesOf(texts, i))
  {
    if MaxDepth(source) > MAX_VRL_NESTING_DEPTH {
      TooDeepIsNotExcused(MaxDepth(source));
    } else if compiler(source).Some? {
      var texts := Texts(compiler(source).value);
      JoinedLinesArePrinted(texts);
      ErrorInSomeText(texts);
    }
  }

  lemma ReadLinesConcat(a: seq<string>, b: seq<string>)
    ensures ReadLines(a + b) == ReadLines(a) + ReadLines(b)
  {
  }

  lemma {:induction false} ErrorInSomeText(texts: seq<string>)
    ensures RealError in ReadLines(PrintedLines(texts)) <==>
            exists i :: 0 <= i < |texts| && RealError in ReadLines(LinesOf(texts, i))
  {
    if |texts| == 1 {
      assert LinesOf(texts, 0) == PrintedLines(texts);
    } else if |texts| > 1 {
      var rest := texts[1..];
      ErrorInSomeText(rest);
      ReadLinesConcat(SplitLines(texts[0] + "\n"), PrintedLines(rest));
      assert LinesOf(texts, 0) == SplitLines(texts[0] + "\n");
      forall i | 0 <= i < |rest| ensures LinesOf(rest, i) == LinesOf(texts, i + 1) {
      }
      if RealError in ReadLines(PrintedLines(rest)) {
        var i :| 0 <= i < |rest| && RealError in ReadLines(LinesOf(rest, i));
        assert RealError in ReadLines(LinesOf(texts, i + 1));
      }
      if i :| 0 < i < |texts| && RealError in ReadLines(LinesOf(texts, i)) {
        assert LinesOf(texts, i) == LinesOf(rest, i - 1);
      }
    }
  }

  lemma JoinedExcusedExactly(ds: seq<Diagnostic>)
    requires forall i :: 0 <= i < |ds| ==> Readable(ds[i])
    ensures AllExcused(Some(Join(Texts(ds), "\n"))) <==>
            ds != [] && forall i :: 0 <= i < |ds| ==> IsLeftOut(ds[i]) || IsUnknownTable(ds[i])
  {
    var texts := Texts(ds);
    JoinThenSplitExactly(texts);
    SplitLinesNonEmpty(Join(texts, "\n"));
    var kinds := ReadLines(texts);
    forall i | 0 <= i < |ds| ensures kinds[i] != RealError <==> IsLeftOut(ds[i]) || IsUnknownTable(ds[i]) {
      ExcusedExactly(ds[i]);
    }
    assert forall i :: 0 <= i < |kinds| ==> kinds[i] in kinds;
  }

  lemma TooDeepIsNotExcused(depth: nat)
    ensures !AllExcused(Some(TooDeep(depth)))
  {
    var text := TooDeep(depth);
    assert text[0] == 'V';
    var n := LineLength(text);
    assert n > 0;
    var first := SplitLines(text)[0];
    assert first[0] == 'V';
    if Excused(first) {
      ExcusedBegins(first);
    }
    assert ReadLines(SplitLines(text))[0] == RealError;
  }
}
