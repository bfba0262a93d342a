/**
  What the depth guard reports on text whose nesting is known: printed trees of
  bracket groups, and what a bracket-matching parser would push.
 */
module NestedText {
  import opened Nesting

  // ---------------------------------------------------------------------------
  // Printed trees
  // ---------------------------------------------------------------------------

  datatype Bracket = Round | Curly | Square {
    function Open(): char {
      match this case Round => '(' case Curly => '{' case Square => '['
    }

    function Close(): char {
      match this case Round => ')' case Curly => '}' case Square => ']'
    }
  }

  datatype Item =
    | Text(body: string)                   // "..."
    | Literal(prefix: char, body: string)  // r'...', s'...' or t'...'
    | Comment(body: string)                // #... and its line break
    | Identifier(name: string)
    | Group(kind: Bracket, children: seq<Item>)
  {
    /** The parts can be printed: a real prefix, an identifier's characters, a one-line comment. */
    predicate Printable() {
      match this
      case Text(_) => true
      case Literal(prefix, _) => IsLiteralPrefix(prefix)
      case Comment(body) => '\n' !in body
      case Identifier(name) => forall c <- name :: IsIdentContinue(c)
      case Group(_, children) => forall child <- children :: child.Printable()
    }
  }

  /** `body` with every backslash and every `quote` escaped. */
  function Escaped(body: string, quote: char): string {
    if body == [] then []
    else (if body[0] == quote || body[0] == '\\' then ['\\', body[0]] else [body[0]]) + Escaped(body[1..], quote)
  }

  function Print(item: Item): string {
    match item
    case Text(body) => ['"'] + Escaped(body, '"') + ['"']
    case Literal(prefix, body) => [prefix, '\''] + Escaped(body, '\'') + ['\'']
    case Comment(body) => ['#'] + body + ['\n']
    case Identifier(name) => name
    case Group(kind, children) => [kind.Open()] + PrintAll(children) + [kind.Close()]
  }

  function PrintAll(items: seq<Item>): string {
    if items == [] then []
    else if |items| == 1 then Print(items[0])
    else Print(items[0]) + ", " + PrintAll(items[1..])
  }

  function Height(item: Item): nat {
    if item.Group? then 1 + HeightAll(item.children) else 0
  }

  function HeightAll(items: seq<Item>): nat {
    if items == [] then 0 else Max(Height(items[0]), HeightAll(items[1..]))
  }

  /** The brackets of the groups alone. */
  function Brackets(item: Item): string {
    if item.Group? then [item.kind.Open()] + BracketsAll(item.children) + [item.kind.Close()] else []
  }

  function BracketsAll(items: seq<Item>): string {
    if items == [] then [] else Brackets(items[0]) + BracketsAll(items[1..])
  }

  lemma {:induction false} EscapedStaysQuoted(body: string, quote: char)
    requires quote != '\\'
    ensures Structural(Quoted(quote), Escaped(body, quote)) == []
    ensures Final(Quoted(quote), Escaped(body, quote)) == Quoted(quote)
  {
    if body != [] {
      EscapedStaysQuoted(body[1..], quote);
      var head := if body[0] == quote || body[0] == '\\' then ['\\', body[0]] else [body[0]];
      LexConcat(Quoted(quote), head, Escaped(body[1..], quote));
      if |head| == 2 {
        LexOne(Quoted(quote), head);
        LexOne(Escape(quote), head[1..]);
        assert head[1..][1..] == [];
      }
    }
  }

  lemma {:induction false} CommentStaysComment(body: string)
    requires '\n' !in body
    ensures Structural(LexState.Comment, body) == []
    ensures Final(LexState.Comment, body) == LexState.Comment
  {
    if body != [] {
      CommentStaysComment(body[1..]);
    }
  }

  lemma {:induction false} IdentStaysPlain(st: LexState, name: string)
    requires st.Plain() && forall c <- name :: IsIdentContinue(c)
    ensures Structural(st, name) == []
    ensures Final(st, name).Plain()
    decreases name
  {
    if name != [] {
      assert name[0] in name && forall c <- name[1..] :: c in name;
      IdentStaysPlain(Step(st, name[0]), name[1..]);
    }
  }

  /** From a token boundary, text wrapped in an opener and a closer of a literal carries nothing. */
  lemma Wrapped(st: LexState, opener: string, body: string, closer: char)
    requires Structural(Normal, opener) == [] && Final(Normal, opener) == st
    requires Structural(st, body) == [] && Final(st, body) == st
    requires !st.Plain() && Step(st, closer) == Normal
    ensures Structural(Normal, opener + body + [closer]) == []
    ensures Final(Normal, opener + body + [closer]) == Normal
  {
    LexConcat(Normal, opener, body);
    LexConcat(Normal, opener + body, [closer]);
    LexOne(st, [closer]);
  }

  /** A leaf that opens and closes itself: lexed from a token boundary it leaves no trace. */
  lemma LiteralIsInvisible(item: Item)
    requires item.Printable() && (item.Text? || item.Literal? || item.Comment?)
    ensures Structural(Normal, Print(item)) == []
    ensures Final(Normal, Print(item)) == Normal
  {
    match item
    case Text(body) =>
      EscapedStaysQuoted(body, '"');
      Wrapped(Quoted('"'), ['"'], Escaped(body, '"'), '"');
    case Literal(prefix, body) =>
      EscapedStaysQuoted(body, '\'');
      LexOne(Normal, [prefix, '\'']);
      LexOne(Prefix, ['\'']);
      assert [prefix, '\''][1..] == ['\''];
      Wrapped(Quoted('\''), [prefix, '\''], Escaped(body, '\''), '\'');
    case Comment(body) =>
      CommentStaysComment(body);
      Wrapped(LexState.Comment, ['#'], body, '\n');
    case _ =>
  }

  /** After any plain state, a character that cannot continue a token acts as at a boundary. */
  lemma PlainIsBoundary(st: LexState, s: string)
    requires st.Plain() && s != [] && !IsIdentContinue(s[0]) && s[0] != '\''
    ensures Structural(st, s) == Structural(Normal, s)
    ensures Final(st, s) == Final(Normal, s)
  {
    assert Step(st, s[0]) == Step(Normal, s[0]);
  }

  lemma Enclosed(kind: Bracket, inner: string)
    requires Final(Normal, inner).Plain()
    ensures var text := [kind.Open()] + inner + [kind.Close()];
            && Structural(Normal, text) == [kind.Open()] + Structural(Normal, inner) + [kind.Close()]
            && Final(Normal, text) == Normal
  {
    var open, close := [kind.Open()], [kind.Close()];
    LexOne(Normal, open);
    assert Structural(Normal, open) == open && Final(Normal, open) == Normal;
    LexConcat(Normal, open, inner);
    PlainIsBoundary(Final(Normal, inner), close);
    LexOne(Normal, close);
    assert Structural(Normal, close) == close && Final(Normal, close) == Normal;
    LexConcat(Normal, open + inner, close);
  }

  lemma {:induction false} PrintLexes(item: Item)
    requires item.Printable()
    ensures Structural(Normal, Print(item)) == Brackets(item)
    ensures Final(Normal, Print(item)).Plain()
    decreases item, 1
  {
    match item
    case Identifier(name) =>
      IdentStaysPlain(Normal, name);
    case Group(kind, children) =>
      PrintAllLexes(children, item);
      Enclosed(kind, PrintAll(children));
    case _ =>
      LiteralIsInvisible(item);
  }

  lemma Separated(first: string, separator: string, rest: string)
    requires Structural(Final(Normal, first), separator) == [] && Final(Final(Normal, first), separator) == Normal
    ensures Structural(Normal, first + separator + rest) == Structural(Normal, first) + Structural(Normal, rest)
    ensures Final(Normal, first + separator + rest) == Final(Normal, rest)
  {
    LexConcat(Normal, first, separator);
    LexConcat(Normal, first + separator, rest);
  }

  lemma Separator(st: LexState)
    requires st.Plain()
    ensures Structural(st, ", ") == [] && Final(st, ", ") == Normal
  {
    assert ", "[1..] == [' '] && [' '][1..] == [];
    LexOne(st, ", ");
    LexOne(Normal, [' ']);
  }

  lemma {:induction false} PrintAllLexes(items: seq<Item>, parent: Item)
    requires forall item <- items :: item.Printable() && item < parent
    ensures Structural(Normal, PrintAll(items)) == BracketsAll(items)
    ensures Final(Normal, PrintAll(items)).Plain()
    decreases parent, 0, |items|
  {
    if items != [] {
      assert items[0] in items && forall item <- items[1..] :: item in items;
      PrintLexes(items[0]);
      if |items| == 1 {
        assert BracketsAll(items[1..]) == [];
      } else {
        PrintAllLexes(items[1..], parent);
        Separator(Final(Normal, Print(items[0])));
        Separated(Print(items[0]), ", ", PrintAll(items[1..]));
      }
    }
  }

  lemma {:induction false} PeakOfBrackets(depth: nat, peak: nat, item: Item, rest: string)
    requires depth <= peak
    ensures Peak(depth, peak, Brackets(item) + rest) == Peak(depth, Max(peak, depth + Height(item)), rest)
    decreases item, 1
  {
    if item.Group? {
      var open, inner, tail := item.kind.Open(), BracketsAll(item.children), [item.kind.Close()] + rest;
      assert Brackets(item) + rest == [open] + (inner + tail);
      PeakOfAll(depth + 1, Max(peak, depth + 1), item.children, item, tail);
      assert tail[1..] == rest;
    } else {
      assert Brackets(item) + rest == rest;
    }
  }

  lemma {:induction false} PeakOfAll(depth: nat, peak: nat, items: seq<Item>, parent: Item, rest: string)
    requires depth <= peak && forall item <- items :: item < parent
    ensures Peak(depth, peak, BracketsAll(items) + rest) == Peak(depth, Max(peak, depth + HeightAll(items)), rest)
    decreases parent, 0, |items|
  {
    if items == [] {
      assert BracketsAll(items) + rest == rest;
    } else {
      assert items[0] in items && forall item <- items[1..] :: item in items;
      assert BracketsAll(items) + rest == Brackets(items[0]) + (BracketsAll(items[1..]) + rest);
      PeakOfBrackets(depth, peak, items[0], BracketsAll(items[1..]) + rest);
      PeakOfAll(depth, Max(peak, depth + Height(items[0])), items[1..], parent, rest);
    }
  }

  /** The depth reported for a printed tree is the tree's height. */
  lemma PrintedDepthIsHeight(item: Item)
    requires item.Printable()
    ensures MaxDepth(Print(item)) == Height(item)
  {
    PrintLexes(item);
    PeakOfBrackets(0, 0, item, []);
    assert Brackets(item) + [] == Brackets(item);
  }

  /** A printable string, raw or timestamp literal, or comment. */
  ghost predicate IsInsertable(item: Item) {
    item.Printable() && (item.Text? || item.Literal? || item.Comment?)
  }

  /** A literal or comment put in at a token boundary changes no structural bracket. */
  lemma InsertedLiteralIsInvisible(before: string, item: Item, after: string)
    requires IsInsertable(item) && Final(Normal, before) == Normal
    ensures Structural(Normal, before + Print(item) + after) == Structural(Normal, before + after)
    ensures MaxDepth(before + Print(item) + after) == MaxDepth(before + after)
  {
    LiteralIsInvisible(item);
    LexConcat(Normal, before, Print(item));
    LexConcat(Normal, before + Print(item), after);
    LexConcat(Normal, before, after);
  }

  /** After an identifier it shows: its prefix joins the identifier, its quote is stray, its bracket counts. */
  lemma BoundaryIsNeeded(before: string, prefix: char)
    requires Final(Normal, before) == Ident && IsLiteralPrefix(prefix)
    ensures Structural(Normal, before + Print(Literal(prefix, ['(']))) == Structural(Normal, before) + ['(']
  {
    var lit := Print(Literal(prefix, ['(']));
    LexConcat(Normal, before, lit);
    ShowsElsewhere(Ident, prefix);
    assert lit + [] == lit;
  }

  /** Text put in changes nothing, whatever follows it. */
  ghost predicate Invisible(before: string, item: Item) {
    forall after :: Structural(Normal, before + Print(item) + after) == Structural(Normal, before + after)
  }

  /** The places where every literal and comment can be put in unseen are exactly the token boundaries. */
  lemma InsertionIsInvisibleExactlyAtBoundaries(before: string)
    ensures (forall item :: IsInsertable(item) ==> Invisible(before, item)) <==> Final(Normal, before) == Normal
  {
    if Final(Normal, before) == Normal {
      forall item, after | IsInsertable(item)
        ensures Structural(Normal, before + Print(item) + after) == Structural(Normal, before + after)
      {
        InsertedLiteralIsInvisible(before, item, after);
      }
    } else {
      var item, after := SeenInsertion(before);
      assert Structural(Normal, before + Print(item) + after) != Structural(Normal, before + after);
      assert !Invisible(before, item);
    }
  }

  /** Away from a boundary some literal or comment shows. */
  lemma SeenInsertion(before: string) returns (item: Item, after: string)
    requires Final(Normal, before) != Normal
    ensures IsInsertable(item)
    ensures Structural(Normal, before + Print(item) + after) != Structural(Normal, before + after)
  {
    var st := Final(Normal, before);
    LiteralsCloseWithQuotes(Normal, before);
    var open: string := ['('];
    match st {
      case Comment =>
        item, after := Item.Comment([]), open;
        ShowsInComment();
      case Quoted(close) =>
        item, after := if close == '"' then Text(open) else Literal('r', open), [];
        if close == '"' {
          ShowsInText();
        } else {
          ShowsElsewhere(st, 'r');
        }
      case Escape(close) =>
        item, after := if close == '"' then Text(open) else Literal('r', open), if close == '"' then open else [];
        if close == '"' {
          ShowsAfterEscape();
        } else {
          ShowsElsewhere(st, 'r');
        }
      case _ =>
        item, after := Literal('r', open), [];
        ShowsElsewhere(st, 'r');
    }
    LexConcat(Normal, before, Print(item) + after);
    LexConcat(Normal, before, after);
    assert before + Print(item) + after == before + (Print(item) + after);
  }

  lemma {:induction false} LiteralsCloseWithQuotes(st: LexState, s: string)
    requires st.Quoted? || st.Escape? ==> st.close == '"' || st.close == '\''
    ensures var end := Final(st, s);
            end.Quoted? || end.Escape? ==> end.close == '"' || end.close == '\''
    decreases s
  {
    if s != [] {
      LiteralsCloseWithQuotes(Step(st, s[0]), s[1..]);
    }
  }

  // What the text inserted by `SeenInsertion` comes to in each state.

  lemma ShowsInComment()
    ensures Structural(LexState.Comment, Print(Item.Comment([])) + ['(']) == ['(']
    ensures Structural(LexState.Comment, ['(']) == []
  {
    assert Print(Item.Comment([])) + ['('] == ['#', '\n', '('];
    Lex3(LexState.Comment, '#', '\n', '(');
    Lex1(LexState.Comment, '(');
  }

  lemma ShowsInText()
    ensures Structural(Quoted('"'), Print(Text(['('])) + []) == ['(']
  {
    EscapedBracket('"');
    assert Print(Text(['('])) + [] == ['"', '(', '"'];
    Lex3(Quoted('"'), '"', '(', '"');
  }

  lemma ShowsAfterEscape()
    ensures Structural(Escape('"'), Print(Text(['('])) + ['(']) == ['(']
    ensures Structural(Escape('"'), ['(']) == []
  {
    EscapedBracket('"');
    assert Print(Text(['('])) == ['"', '(', '"'];
    LexConcat(Escape('"'), ['"', '(', '"'], ['(']);
    Lex3(Escape('"'), '"', '(', '"');
    Lex1(Normal, '(');
    Lex1(Escape('"'), '(');
  }

  lemma ShowsElsewhere(st: LexState, prefix: char)
    requires IsLiteralPrefix(prefix)
    requires st.Prefix? || st.Ident? || st == Quoted('\'') || st == Escape('\'')
    ensures Structural(st, Print(Literal(prefix, ['('])) + []) == ['(']
  {
    EscapedBracket('\'');
    var tail := ['\'', '(', '\''];
    assert Print(Literal(prefix, ['('])) + [] == [prefix] + tail;
    LexConcat(st, [prefix], tail);
    Lex1(st, prefix);
    StrayQuote(Step(st, prefix));
  }

  lemma StrayQuote(st: LexState)
    requires st == Ident || st == Quoted('\'')
    ensures Structural(st, ['\'', '(', '\'']) == ['(']
  {
    Lex3(st, '\'', '(', '\'');
  }

  lemma EscapedBracket(quote: char)
    requires quote != '('
    ensures Escaped(['('], quote) == ['(']
  {
    assert ['('][1..] == [];
  }

  // ---------------------------------------------------------------------------
  // A parser that matches bracket kinds
  // ---------------------------------------------------------------------------

  predicate Closes(close: char, open: char) {
    (open == '(' && close == ')') || (open == '{' && close == '}') || (open == '[' && close == ']')
  }

  lemma ClosesExactly(open: char, close: char)
    ensures Closes(close, open) <==> [open, close] in {"()", "{}", "[]"}
  {
    assert Closes(close, open) ==> [open, close][0] == open && [open, close][1] == close;
  }

  datatype Parse = Parse(highest: nat, finished: bool)

  /**
    The highest the parser's stack gets over `bs`, and whether it read all of them:
    it stops at the first closer with no opener, or an opener of another kind.
   */
  function StrictParse(stack: string, highest: nat, bs: string): Parse
    decreases bs
  {
    if bs == [] then Parse(highest, true)
    else if IsOpen(bs[0]) then StrictParse(stack + [bs[0]], Max(highest, |stack| + 1), bs[1..])
    else if stack != [] && Closes(bs[0], stack[|stack| - 1]) then StrictParse(stack[..|stack| - 1], highest, bs[1..])
    else Parse(highest, false)
  }

  /** The parser reads every printed tree through, stacking up to its height, and goes on from the same stack. */
  lemma {:induction false} ParserReadsTrees(item: Item, stack: string, highest: nat, rest: string)
    requires |stack| <= highest
    ensures StrictParse(stack, highest, Brackets(item) + rest)
            == StrictParse(stack, Max(highest, |stack| + Height(item)), rest)
    decreases item, 1
  {
    if item.Group? {
      var open, close, inner := item.kind.Open(), item.kind.Close(), BracketsAll(item.children);
      var bs := Brackets(item) + rest;
      assert bs == [open] + (inner + ([close] + rest));
      assert bs[1..] == inner + ([close] + rest);
      var pushed := stack + [open];
      ParserReadsAll(item.children, pushed, Max(highest, |stack| + 1), [close] + rest);
      assert ([close] + rest)[1..] == rest && pushed[..|pushed| - 1] == stack;
    } else {
      assert Brackets(item) + rest == rest;
    }
  }

  lemma {:induction false} ParserReadsAll(items: seq<Item>, stack: string, highest: nat, rest: string)
    requires |stack| <= highest
    ensures StrictParse(stack, highest, BracketsAll(items) + rest)
            == StrictParse(stack, Max(highest, |stack| + HeightAll(items)), rest)
    decreases items, 0
  {
    if items == [] {
      assert BracketsAll(items) + rest == rest;
    } else {
      var others := BracketsAll(items[1..]);
      assert BracketsAll(items) + rest == Brackets(items[0]) + (others + rest);
      ParserReadsTrees(items[0], stack, highest, others + rest);
      ParserReadsAll(items[1..], stack, Max(highest, |stack| + Height(items[0])), rest);
    }
  }

  /** On its own a printed tree is read to the end, and the stack rises to its height. */
  lemma ParserReadsTree(item: Item)
    ensures StrictParse([], 0, Brackets(item)) == Parse(Height(item), true)
  {
    ParserReadsTrees(item, [], 0, []);
    assert Brackets(item) + [] == Brackets(item);
  }

  lemma {:induction false} StrictStackWithinPeak(stack: string, highest: nat, bs: string)
    ensures StrictParse(stack, highest, bs).highest <= Peak(|stack|, highest, bs)
    ensures StrictParse(stack, highest, bs).finished ==>
              StrictParse(stack, highest, bs).highest == Peak(|stack|, highest, bs)
    decreases bs
  {
    if bs == [] {
    } else if IsOpen(bs[0]) {
      StrictStackWithinPeak(stack + [bs[0]], Max(highest, |stack| + 1), bs[1..]);
    } else if stack != [] && Closes(bs[0], stack[|stack| - 1]) {
      StrictStackWithinPeak(stack[..|stack| - 1], highest, bs[1..]);
    } else {
      PeakGrows(|stack|, highest, bs);
    }
  }

  /**
    A parser that matches bracket kinds stacks no more than the reported depth, and just
    that much when all brackets match; on accepted source it stays within the limit.
   */
  lemma AcceptedSourceBoundsTheStack(source: string)
    ensures var parse := StrictParse([], 0, Structural(Normal, source));
            && parse.highest <= MaxDepth(source)
            && (parse.finished ==> parse.highest == MaxDepth(source))
            && (WindowsWithin(Structural(Normal, source), MAX_VRL_NESTING_DEPTH) ==>
                  parse.highest <= MAX_VRL_NESTING_DEPTH)
  {
    StrictStackWithinPeak([], 0, Structural(Normal, source));
    PeakWithinLimit(Structural(Normal, source), MAX_VRL_NESTING_DEPTH);
  }
}
