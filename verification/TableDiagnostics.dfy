/**
  The diagnostic for an unregistered table, which lists the names that are registered
  (vector-bindings/src/enrichment.rs:458-485), read back as lines.
 */
module TableDiagnostics {
  import opened Wrappers
  import opened Nesting
  import opened Diagnostics

  const NONE_REGISTERED := ": no enrichment tables are registered"
  const REGISTERED := "; registered tables: "

  /** The text up to the names; `quoted` is the unknown name in Rust's escaped form. */
  function Opening(quoted: string, registered: seq<string>): string {
    UNKNOWN_TABLE_PREFIX + (quoted + if registered == [] then NONE_REGISTERED else REGISTERED)
  }

  function UnknownTableText(quoted: string, registered: seq<string>): string {
    Opening(quoted, registered) + Join(registered, ", ")
  }

  /** Both forms in full, and how names are joined. */
  lemma UnknownTableTextExactly(quoted: string, first: string, second: string, rest: seq<string>)
    ensures UnknownTableText(quoted, [])
            == ("function compilation error: " + "error[E111] unknown enrichment table ")
               + (quoted + ": no enrichment tables are registered")
    ensures UnknownTableText(quoted, [first] + rest)
            == ("function compilation error: " + "error[E111] unknown enrichment table ")
               + (quoted + "; registered tables: ") + Join([first] + rest, ", ")
    ensures Join([first], ", ") == first
    ensures Join([first, second] + rest, ", ") == first + ", " + Join([second] + rest, ", ")
  {
    assert UnknownTableText(quoted, []) == Opening(quoted, []) + "" == Opening(quoted, []);
    JoinedByOne(first, [second] + rest, ", ");
    assert [first, second] + rest == [first] + ([second] + rest);
  }

  lemma JoinedByOne(first: string, rest: seq<string>, separator: string)
    requires rest != []
    ensures Join([first] + rest, separator) == first + separator + Join(rest, separator)
  {
    assert ([first] + rest)[1..] == rest;
  }

  // ---------------------------------------------------------------------------
  // When the diagnostic is one line
  // ---------------------------------------------------------------------------

  lemma BreakFreeConcat(a: string, b: string)
    ensures BreakFree(a + b) <==> BreakFree(a) && BreakFree(b)
  {
    assert forall i :: 0 <= i < |a| ==> (a + b)[i] == a[i];
    assert forall i :: 0 <= i < |b| ==> (a + b)[|a| + i] == b[i];
  }

  lemma {:induction false} BreakFreeJoin(lines: seq<string>, separator: string)
    requires BreakFree(separator)
    ensures BreakFree(Join(lines, separator)) <==> forall i :: 0 <= i < |lines| ==> BreakFree(lines[i])
  {
    if |lines| > 1 {
      BreakFreeJoin(lines[1..], separator);
      BreakFreeConcat(lines[0] + separator, Join(lines[1..], separator));
      BreakFreeConcat(lines[0], separator);
      assert forall i :: 0 < i < |lines| ==> lines[i] == lines[1..][i - 1];
    }
  }

  lemma OneLineExactly(s: string)
    requires s != ""
    ensures SplitLines(s) == [s] <==> BreakFree(s)
  {
    SplitLinesBreakFree(s);
    if SplitLines(s) == [s] {
      assert BreakFree(SplitLines(s)[0]);
    }
    if BreakFree(s) {
      SplitOne(s);
      assert [s][0] != "";
    }
  }

  lemma OpeningIsBreakFree(quoted: string, registered: seq<string>)
    requires BreakFree(quoted)
    ensures BreakFree(Opening(quoted, registered))
  {
    PrefixIsBreakFree();
    assert BreakFree(NONE_REGISTERED);
    assert BreakFree(REGISTERED);
    BreakFreeConcat(quoted, if registered == [] then NONE_REGISTERED else REGISTERED);
    BreakFreeConcat(UNKNOWN_TABLE_PREFIX, quoted + if registered == [] then NONE_REGISTERED else REGISTERED);
  }

  lemma PrefixIsBreakFree()
    ensures BreakFree(UNKNOWN_TABLE_PREFIX)
  {
    CompilationErrorIsBreakFree();
    assert BreakFree(UNKNOWN_TABLE);
    BreakFreeConcat(COMPILATION_ERROR, UNKNOWN_TABLE);
  }

  lemma CompilationErrorIsBreakFree()
    ensures BreakFree(COMPILATION_ERROR)
  {
  }

  /** The diagnostic is one line exactly when no registered name holds a line break. */
  lemma OneLineExactlyWithCleanNames(quoted: string, registered: seq<string>)
    requires BreakFree(quoted)
    ensures SplitLines(UnknownTableText(quoted, registered)) == [UnknownTableText(quoted, registered)] <==>
            forall i :: 0 <= i < |registered| ==> BreakFree(registered[i])
  {
    OpeningIsBreakFree(quoted, registered);
    assert BreakFree(", ");
    BreakFreeJoin(registered, ", ");
    BreakFreeConcat(Opening(quoted, registered), Join(registered, ", "));
    OneLineExactly(UnknownTableText(quoted, registered));
  }

  // ---------------------------------------------------------------------------
  // How the diagnostic is judged
  // ---------------------------------------------------------------------------

  lemma {:induction false} LineLengthAfter(head: string, rest: string)
    requires BreakFree(head)
    ensures LineLength(head + rest) == |head| + LineLength(rest)
  {
    if head == "" {
      assert head + rest == rest;
    } else {
      assert (head + rest)[1..] == head[1..] + rest;
      assert forall i :: 0 <= i < |head| - 1 ==> head[1..][i] == head[i + 1];
      LineLengthAfter(head[1..], rest);
    }
  }

  /** What follows the first line and its break. */
  function AfterFirstLine(s: string): (rest: string)
    ensures s != "" ==> |rest| < |s|
  {
    var n := LineLength(s);
    if n == |s| then "" else s[n + BreakWidth(s, n)..]
  }

  lemma SplitByFirstLine(s: string)
    requires s != ""
    ensures SplitLines(s) == [s[..LineLength(s)]] + SplitLines(AfterFirstLine(s))
  {
    if LineLength(s) == |s| {
      assert s[..|s|] == s;
    }
  }

  /** A break-free opening only lengthens the first line. */
  lemma SplitAfterOpening(head: string, rest: string)
    requires BreakFree(head) && head != ""
    ensures SplitLines(head + rest) == [head + rest[..LineLength(rest)]] + SplitLines(AfterFirstLine(rest))
  {
    LineLengthAfter(head, rest);
    SplitByFirstLine(head + rest);
    OpeningEndsNothing(head, rest);
    assert (head + rest)[..|head| + LineLength(rest)] == head + rest[..LineLength(rest)];
  }

  lemma OpeningEndsNothing(head: string, rest: string)
    requires LineLength(head + rest) == |head| + LineLength(rest)
    ensures AfterFirstLine(head + rest) == AfterFirstLine(rest)
  {
    var s, n := head + rest, LineLength(rest);
    if n < |rest| {
      SameBreak(head, rest, n);
      var w := BreakWidth(rest, n);
      DropConcat(head, rest, n + w);
      assert AfterFirstLine(s) == s[|head| + (n + w)..];
    }
  }

  lemma SameBreak(head: string, rest: string, n: nat)
    requires n < |rest|
    ensures BreakWidth(head + rest, |head| + n) == BreakWidth(rest, n)
  {
  }

  lemma DropConcat(head: string, rest: string, k: nat)
    requires k <= |rest|
    ensures (head + rest)[|head| + k..] == rest[k..]
  {
  }

  lemma FirstLineIsExcused(quoted: string, registered: seq<string>, more: string)
    ensures Excused(Opening(quoted, registered) + more)
  {
    var line := Opening(quoted, registered) + more;
    assert line[..|UNKNOWN_TABLE_PREFIX|] == UNKNOWN_TABLE_PREFIX;
  }

  /**
    The diagnostic's lines, with or without the line feed that joins it to the next one, hold
    no real error exactly when none of them after the first is one: the first never is.
   */
  lemma UncheckedByItsLaterLines(quoted: string, registered: seq<string>, feed: string)
    requires BreakFree(quoted)
    ensures var lines := SplitLines(UnknownTableText(quoted, registered) + feed);
            && lines != []
            && (RealError !in ReadLines(lines) <==> forall i :: 1 <= i < |lines| ==> Excused(lines[i]))
  {
    var head, names := Opening(quoted, registered), Join(registered, ", ") + feed;
    OpeningIsBreakFree(quoted, registered);
    assert UnknownTableText(quoted, registered) + feed == head + names;
    SplitAfterOpening(head, names);
    var lines := SplitLines(head + names);
    FirstLineIsExcused(quoted, registered, names[..LineLength(names)]);
    assert lines[0] == head + names[..LineLength(names)];
    ExcusedLines(lines);
  }

  lemma ExcusedLines(lines: seq<string>)
    ensures RealError !in ReadLines(lines) <==> forall i :: 0 <= i < |lines| ==> Excused(lines[i])
  {
    var kinds := ReadLines(lines);
    assert forall i :: 0 <= i < |lines| ==> kinds[i] == ReadLine(lines[i]);
    assert forall i :: 0 <= i < |kinds| ==> kinds[i] in kinds;
  }

  /** Alone, it is the whole error. */
  lemma AloneExactly(quoted: string, registered: seq<string>)
    requires BreakFree(quoted)
    ensures var text := UnknownTableText(quoted, registered);
            AllExcused(Some(text)) <==> RealError !in ReadLines(SplitLines(text))
  {
    UncheckedByItsLaterLines(quoted, registered, "");
    var text := UnknownTableText(quoted, registered);
    assert text + "" == text;
  }

  /** Names without line breaks are never misread, alone or before another diagnostic. */
  lemma CleanNamesAreUnchecked(quoted: string, registered: seq<string>)
    requires BreakFree(quoted) && forall i :: 0 <= i < |registered| ==> BreakFree(registered[i])
    ensures AllExcused(Some(UnknownTableText(quoted, registered)))
    ensures RealError !in ReadLines(SplitLines(UnknownTableText(quoted, registered) + "\n"))
  {
    var text := UnknownTableText(quoted, registered);
    OneLineExactlyWithCleanNames(quoted, registered);
    AloneExactly(quoted, registered);
    UncheckedByItsLaterLines(quoted, registered, "");
    assert text + "" == text;
    UncheckedByItsLaterLines(quoted, registered, "\n");
    CleanLineThenFeed(text);
  }

  lemma CleanLineThenFeed(text: string)
    requires SplitLines(text) == [text]
    ensures SplitLines(text + "\n") == [text]
  {
    SplitLinesBreakFree(text);
    assert BreakFree(SplitLines(text)[0]);
    SplitAtBreak(text, "\n", "");
    assert text + "\n" + "" == text + "\n";
  }

  // ---------------------------------------------------------------------------
  // By the names alone
  // ---------------------------------------------------------------------------

  /** `lines` are what `s` splits into, from front to back. */
  ghost predicate SplitsInto(s: string, lines: seq<string>)
    decreases |s|
  {
    if s == "" then lines == []
    else lines != [] && lines[0] == s[..LineLength(s)] && SplitsInto(AfterFirstLine(s), lines[1..])
  }

  lemma {:induction false} SplitLinesSplits(s: string)
    ensures SplitsInto(s, SplitLines(s))
    decreases |s|
  {
    if s != "" {
      SplitByFirstLine(s);
      SplitLinesSplits(AfterFirstLine(s));
      assert SplitLines(s)[1..] == SplitLines(AfterFirstLine(s));
    }
  }

  lemma {:induction false} LinesOccur(s: string, lines: seq<string>, i: nat) returns (k: nat)
    requires SplitsInto(s, lines) && i < |lines|
    ensures OccursAt(s, lines[i], k)
    decreases i
  {
    if i == 0 {
      k := 0;
      assert s[0..LineLength(s)] == s[..LineLength(s)];
    } else {
      var rest := AfterFirstLine(s);
      var j := LinesOccur(rest, lines[1..], i - 1);
      AfterFirstLineIsRest(s);
      OccursInRest(s, lines[i], rest, j);
      k := |s| - |rest| + j;
    }
  }

  lemma AfterFirstLineIsRest(s: string)
    ensures var rest := AfterFirstLine(s);
            |rest| <= |s| && rest == s[|s| - |rest|..]
  {
  }

  lemma OccursInRest(s: string, part: string, rest: string, j: nat)
    requires |rest| <= |s| && rest == s[|s| - |rest|..] && OccursAt(rest, part, j)
    ensures OccursAt(s, part, |s| - |rest| + j)
  {
    var k := |s| - |rest| + j;
    assert s[k..k + |part|] == rest[j..j + |part|];
  }

  lemma StartOccurs(s: string, line: string, k: nat, prefix: string)
    requires OccursAt(s, line, k) && StartsWith(line, prefix)
    ensures Contains(s, prefix)
  {
    assert s[k..k + |prefix|] == s[k..k + |line|][..|prefix|];
    assert OccursAt(s, prefix, k);
    ContainsExactly(s, prefix);
  }

  /** The names, joined, spell out the start of a line the check excuses. */
  predicate SpellsADiagnostic(names: string) {
    Contains(names, UNDEFINED_PREFIX) || Contains(names, UNKNOWN_TABLE_PREFIX)
  }

  lemma ExcusedLineIsSpelled(names: string, i: nat)
    requires i < |SplitLines(names)| && Excused(SplitLines(names)[i])
    ensures SpellsADiagnostic(names)
  {
    var line := SplitLines(names)[i];
    SplitLinesSplits(names);
    var k := LinesOccur(names, SplitLines(names), i);
    if StartsWith(line, UNKNOWN_TABLE_PREFIX) {
      StartOccurs(names, line, k, UNKNOWN_TABLE_PREFIX);
    } else {
      StartOccurs(names, line, k, UNDEFINED_PREFIX);
    }
  }

  lemma FeedCompletesNothing(names: string, part: string)
    requires part != "" && part[|part| - 1] != '\n'
    ensures Contains(names + "\n", part) ==> Contains(names, part)
  {
    ContainsExactly(names + "\n", part);
    ContainsExactly(names, part);
    if i :| 0 <= i <= |names + "\n"| && OccursAt(names + "\n", part, i) {
      assert (names + "\n")[i..i + |part|][|part| - 1] == (names + "\n")[i + |part| - 1];
      assert OccursAt(names, part, i) by {
        assert (names + "\n")[i..i + |part|] == names[i..i + |part|];
      }
    }
  }

  lemma FeedSpellsNothing(names: string, feed: string)
    requires !SpellsADiagnostic(names) && (feed == "" || feed == "\n")
    ensures !SpellsADiagnostic(names + feed)
  {
    if feed == "" {
      assert names + feed == names;
    } else {
      FeedCompletesNothing(names, UNDEFINED_PREFIX);
      FeedCompletesNothing(names, UNKNOWN_TABLE_PREFIX);
    }
  }

  /**
    Unless the registered names spell out a diagnostic themselves, the lines of a diagnostic
    hold no real error exactly when those names, joined, and the line feed before the next
    diagnostic if there is one, hold no line break but a final one.
   */
  lemma UncheckedExactlyByNames(quoted: string, registered: seq<string>, feed: string)
    requires BreakFree(quoted) && !SpellsADiagnostic(Join(registered, ", ")) && (feed == "" || feed == "\n")
    ensures RealError !in ReadLines(SplitLines(UnknownTableText(quoted, registered) + feed)) <==>
            AfterFirstLine(Join(registered, ", ") + feed) == ""
  {
    var head, names := Opening(quoted, registered), Join(registered, ", ") + feed;
    assert UnknownTableText(quoted, registered) + feed == head + names;
    OpeningIsBreakFree(quoted, registered);
    SplitAfterOpening(head, names);
    UncheckedByItsLaterLines(quoted, registered, feed);
    FeedSpellsNothing(Join(registered, ", "), feed);
    var lines, rest := SplitLines(head + names), SplitLines(AfterFirstLine(names));
    assert lines[1..] == rest;
    SplitLinesNonEmpty(AfterFirstLine(names));
    if rest != [] {
      assert lines[1] == rest[0];
      if Excused(rest[0]) {
        LaterLinesAreLines(names);
        ExcusedLineIsSpelled(names, 1);
      }
    }
  }

  lemma LaterLinesAreLines(s: string)
    requires AfterFirstLine(s) != ""
    ensures |SplitLines(s)| > 1 && SplitLines(s)[1] == SplitLines(AfterFirstLine(s))[0]
  {
    SplitLinesNonEmpty(AfterFirstLine(s));
  }

  /** No line break but a final one, read off the text. */
  lemma FinalBreakExactly(s: string)
    ensures AfterFirstLine(s) == "" <==>
            || s == "" || BreakFree(s[..|s| - 1])
            || (|s| > 1 && s[|s| - 2] == '\r' && s[|s| - 1] == '\n' && BreakFree(s[..|s| - 2]))
  {
    FirstLineIsBreakFree(s);
    var n := LineLength(s);
    if n == |s| {
      assert s[..n] == s;
    }
    if s != "" && BreakFree(s[..|s| - 1]) {
      if IsLineBreak(s[|s| - 1]) {
        BreakAt(s, |s| - 1);
      } else {
        LineLengthOfLine(s, "");
        assert s + "" == s;
      }
    }
    if |s| > 1 && s[|s| - 2] == '\r' && BreakFree(s[..|s| - 2]) {
      BreakAt(s, |s| - 2);
    }
  }

  lemma BreakAt(s: string, n: nat)
    requires n < |s| && BreakFree(s[..n]) && IsLineBreak(s[n])
    ensures LineLength(s) == n
  {
    LineLengthOfLine(s[..n], s[n..]);
    assert s[..n] + s[n..] == s;
  }

  /** Before another diagnostic only a lone final carriage return goes unseen. */
  lemma BreaksBeforeAFeedExactly(s: string)
    ensures AfterFirstLine(s + "\n") == "" <==>
            BreakFree(s) || (s != "" && s[|s| - 1] == '\r' && BreakFree(s[..|s| - 1]))
  {
    var fed := s + "\n";
    FinalBreakExactly(fed);
    assert fed[..|fed| - 1] == s;
    if s != "" {
      assert fed[..|fed| - 2] == s[..|s| - 1];
    }
  }

  // ---------------------------------------------------------------------------
  // The whole error
  // ---------------------------------------------------------------------------

  /** A diagnostic of rejected source: one for an unregistered table, or any other. */
  datatype Printed = ForTable(quoted: string, registered: seq<string>) | Other(diagnostic: Diagnostic)

  function Diagnosed(p: Printed): Diagnostic {
    match p
    case ForTable(quoted, registered) => Diagnostic(UnknownTableText(quoted, registered), None)
    case Other(d) => d
  }

  function AllDiagnosed(ps: seq<Printed>): seq<Diagnostic> {
    seq(|ps|, i requires 0 <= i < |ps| => Diagnosed(ps[i]))
  }

  /** The line feed that joins the diagnostic at `i` to the next one, if there is a next one. */
  function Feed(ps: seq<Printed>, i: nat): string {
    if i == |ps| - 1 then "" else "\n"
  }

  /** A table's diagnostic escapes the unknown name, and the registered names spell out no diagnostic. */
  ghost predicate NamesSpellNothing(p: Printed) {
    p.ForTable? ==> BreakFree(p.quoted) && !SpellsADiagnostic(Join(p.registered, ", "))
  }

  /** A diagnostic is excused: a table's by its names, any other by its own lines. */
  ghost predicate ExcusedAt(ps: seq<Printed>, i: nat)
    requires i < |ps|
  {
    match ps[i]
    case ForTable(_, registered) => AfterFirstLine(Join(registered, ", ") + Feed(ps, i)) == ""
    case Other(d) => RealError !in ReadLines(SplitLines(DiagnosticText(d) + Feed(ps, i)))
  }

  /**
    Among any other diagnostics, each one for an unregistered table is judged by the names it
    lists: rejected source is unchecked exactly when it nests within the limit, something was
    printed, each such diagnostic's names hold no line break but a final one, the line feed
    before the next diagnostic counted in, and no line of any other diagnostic is a real error.
   */
  lemma SourceUncheckedExactlyByNames(compiler: Compiler, source: string, ps: seq<Printed>)
    requires compiler(source) == Some(AllDiagnosed(ps)) && forall i :: 0 <= i < |ps| ==> NamesSpellNothing(ps[i])
    ensures AllExcused(CompileError(compiler, source)) <==>
            && MaxDepth(source) <= MAX_VRL_NESTING_DEPTH
            && Join(Texts(AllDiagnosed(ps)), "\n") != ""
            && forall i :: 0 <= i < |ps| ==> ExcusedAt(ps, i)
  {
    var texts := Texts(AllDiagnosed(ps));
    DiagnosticsAreJudgedSeparately(compiler, source);
    forall i | 0 <= i < |ps| ensures RealError !in ReadLines(LinesOf(texts, i)) <==> ExcusedAt(ps, i) {
      assert texts[i] == DiagnosticText(Diagnosed(ps[i]));
      assert texts[i] + "" == texts[i];
      assert LinesOf(texts, i) == SplitLines(texts[i] + Feed(ps, i));
      if ps[i].ForTable? {
        assert NamesSpellNothing(ps[i]);
        UncheckedExactlyByNames(ps[i].quoted, ps[i].registered, Feed(ps, i));
      }
    }
  }

  /** Two lookups of unknown tables, and one registered name that ends in a line feed: a real error. */
  lemma TwoTablesMisread(quoted: string, name: string)
    requires BreakFree(quoted) && BreakFree(name)
    ensures var text := UnknownTableText(quoted, [name + "\n"]);
            AllExcused(Some(text)) && !AllExcused(Some(Join([text, text], "\n")))
  {
    NameEndingInLineFeed(quoted, name);
    var text := UnknownTableText(quoted, [name + "\n"]);
    SplitAfterLineFeed(text, text);
    assert Join([text, text], "\n") == text + "\n" + text;
    BlankLine(quoted, name);
    var fed := SplitLines(text + "\n");
    assert ReadLines(fed + SplitLines(text))[1] == ReadLine(fed[1]) == RealError;
  }

  lemma BlankLine(quoted: string, name: string)
    requires BreakFree(quoted) && BreakFree(name)
    ensures var lines := SplitLines(UnknownTableText(quoted, [name + "\n"]) + "\n");
            |lines| > 1 && lines[1] == "" && ReadLine(lines[1]) == RealError
  {
    var head, names := Opening(quoted, [name + "\n"]), name + "\n" + "\n";
    assert UnknownTableText(quoted, [name + "\n"]) + "\n" == head + names;
    OpeningIsBreakFree(quoted, [name + "\n"]);
    SplitAfterOpening(head, names);
    RestOfName(names, name, "\n");
    SplitAtBreak("", "\n", "");
    assert "" + "\n" + "" == "\n";
    if Excused("") {
      ExcusedBegins("");
    }
  }

  /** One name holding a line feed and more text: its second line is nothing known, so valid VRL is reported wrong. */
  lemma BrokenTableNameIsMisread(quoted: string, first: string, second: string)
    requires BreakFree(quoted) && BreakFree(first) && BreakFree(second) && second != "" && !Excused(second)
    ensures !AllExcused(Some(UnknownTableText(quoted, [first + "\n" + second])))
    ensures AllExcused(Some(UnknownTableText(quoted, [first + "\n"])))
    ensures AllExcused(Some(UnknownTableText(quoted, [first])))
  {
    CleanNamesAreUnchecked(quoted, [first]);
    NameEndingInLineFeed(quoted, first);
    var names := first + "\n" + second;
    SplitAtBreak(first, "\n", second);
    SplitOne(second);
    NameLines(quoted, names, first, second);
  }

  lemma NameEndingInLineFeed(quoted: string, first: string)
    requires BreakFree(quoted) && BreakFree(first)
    ensures AllExcused(Some(UnknownTableText(quoted, [first + "\n"])))
  {
    NameLines(quoted, first + "\n", first, "");
    assert first + "\n" + "" == first + "\n";
  }

  lemma NameLines(quoted: string, name: string, first: string, second: string)
    requires BreakFree(quoted) && BreakFree(first) && BreakFree(second) && name == first + "\n" + second
    ensures AllExcused(Some(UnknownTableText(quoted, [name]))) <==> second == "" || Excused(second)
  {
    var head := Opening(quoted, [name]);
    assert Join([name], ", ") == name;
    OpeningIsBreakFree(quoted, [name]);
    SplitAfterOpening(head, name);
    AloneExactly(quoted, [name]);
    UncheckedByItsLaterLines(quoted, [name], "");
    assert UnknownTableText(quoted, [name]) + "" == UnknownTableText(quoted, [name]);
    RestOfName(name, first, second);
    SplitOne(second);
    TwoLinesAtMost(SplitLines(UnknownTableText(quoted, [name])), second);
  }

  lemma TwoLinesAtMost(lines: seq<string>, second: string)
    requires lines != [] && lines == [lines[0]] + WithoutEmptyLast([second])
    ensures (forall i :: 1 <= i < |lines| ==> Excused(lines[i])) <==> second == "" || Excused(second)
  {
    assert [second][..0] == [];
    if second == "" {
      assert |lines| == 1;
    } else {
      assert [second][0] != "";
      assert |lines| == 2 && lines[1] == second;
    }
  }

  lemma RestOfName(name: string, first: string, second: string)
    requires BreakFree(first) && name == first + "\n" + second
    ensures AfterFirstLine(name) == second
  {
    var tail := "\n" + second;
    assert name == first + tail;
    LineLengthAfter(first, tail);
    assert LineLength(tail) == 0;
    OpeningEndsNothing(first, tail);
    assert tail[1..] == second;
  }
}
