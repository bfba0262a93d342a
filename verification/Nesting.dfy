/**
  The bracket-depth guard (vector-bindings/src/nesting.rs).

  `MaxBracketDepth` is the scanner as the source writes it: nested loops over one
  shared peekable stream.  Its specification is an automaton that sees one
  character at a time and never looks ahead.
 */
module Nesting {
  import opened Wrappers
  import opened Decimals

  /** Source nesting past this is refused unread. */
  const MAX_VRL_NESTING_DEPTH: nat := 64

  predicate IsOpen(c: char) {
    c == '(' || c == '{' || c == '['
  }

  predicate IsClose(c: char) {
    c == ')' || c == '}' || c == ']'
  }

  predicate IsBracket(c: char) {
    IsOpen(c) || IsClose(c)
  }

  /** A character that carries on an identifier. */
  predicate IsIdentContinue(c: char) {
    c == '@' || c == '_' || 'a' <= c <= 'z' || 'A' <= c <= 'Z' || '0' <= c <= '9'
  }

  /** The letters that open a literal when a quote follows at the start of a token. */
  predicate IsLiteralPrefix(c: char) {
    c == 'r' || c == 's' || c == 't'
  }

  // ---------------------------------------------------------------------------
  // The automaton
  // ---------------------------------------------------------------------------

  datatype LexState =
    | Normal               // at a token boundary
    | Prefix               // just after an `r`, `s` or `t` that began a token
    | Ident                // inside an identifier
    | Quoted(close: char)
    | Escape(close: char)  // just after a backslash inside a literal
    | Comment
  {
    /** No literal or comment is open, so a bracket here is structural. */
    predicate Plain() {
      Normal? || Prefix? || Ident?
    }
  }

  function StartToken(c: char): LexState {
    if c == '"' then Quoted('"')
    else if c == '#' then Comment
    else if IsLiteralPrefix(c) then Prefix
    else if IsIdentContinue(c) then Ident
    else Normal
  }

  function Step(st: LexState, c: char): LexState {
    match st
    case Normal => StartToken(c)
    case Prefix => if c == '\'' then Quoted('\'') else if IsIdentContinue(c) then Ident else StartToken(c)
    case Ident => if IsIdentContinue(c) then Ident else StartToken(c)
    case Quoted(close) => if c == '\\' then Escape(close) else if c == close then Normal else st
    case Escape(close) => Quoted(close)
    case Comment => if c == '\n' then Normal else Comment
  }

  function Emit(st: LexState, c: char): string {
    if st.Plain() && IsBracket(c) then [c] else []
  }

  /** The structural brackets of `s`, in order, when lexing starts in `st`. */
  function Structural(st: LexState, s: string): string
    decreases s
  {
    if s == [] then [] else Emit(st, s[0]) + Structural(Step(st, s[0]), s[1..])
  }

  /** The state lexing `s` from `st` ends in. */
  function Final(st: LexState, s: string): LexState
    decreases s
  {
    if s == [] then st else Final(Step(st, s[0]), s[1..])
  }

  lemma {:induction false} FinalConcat(st: LexState, a: string, b: string)
    ensures Final(st, a + b) == Final(Final(st, a), b)
    decreases a
  {
    if a == [] {
      assert a + b == b;
    } else {
      assert (a + b)[1..] == a[1..] + b;
      FinalConcat(Step(st, a[0]), a[1..], b);
    }
  }

  lemma {:induction false} LexConcat(st: LexState, a: string, b: string)
    ensures Structural(st, a + b) == Structural(st, a) + Structural(Final(st, a), b)
    ensures Final(st, a + b) == Final(Final(st, a), b)
    decreases a
  {
    FinalConcat(st, a, b);
    if a == [] {
      assert a + b == b;
      assert [] + Structural(st, b) == Structural(st, b);
    } else {
      assert (a + b)[1..] == a[1..] + b;
      LexConcat(Step(st, a[0]), a[1..], b);
      Associate(Emit(st, a[0]), Structural(Step(st, a[0]), a[1..]), Structural(Final(st, a), b));
    }
  }

  lemma Associate<T>(a: seq<T>, b: seq<T>, c: seq<T>)
    ensures (a + b) + c == a + (b + c)
  {
  }

  lemma Prepended<T>(x: T, rest: seq<T>)
    ensures |[x] + rest| > 0 && ([x] + rest)[0] == x && ([x] + rest)[1..] == rest
    ensures [] + rest == rest
  {
  }

  // ---------------------------------------------------------------------------
  // What the characters mean
  // ---------------------------------------------------------------------------

  lemma Lex1(st: LexState, a: char)
    ensures Structural(st, [a]) == Emit(st, a) && Final(st, [a]) == Step(st, a)
  {
    assert [a][1..] == [];
    assert Emit(st, a) + [] == Emit(st, a);
  }

  lemma Lex2(st: LexState, a: char, b: char)
    ensures Structural(st, [a, b]) == Emit(st, a) + Emit(Step(st, a), b)
    ensures Final(st, [a, b]) == Step(Step(st, a), b)
  {
    Lex1(st, a);
    Lex1(Step(st, a), b);
    LexConcat(st, [a], [b]);
    assert [a] + [b] == [a, b];
  }

  lemma Lex3(st: LexState, a: char, b: char, c: char)
    ensures Structural(st, [a, b, c]) == Emit(st, a) + Emit(Step(st, a), b) + Emit(Step(Step(st, a), b), c)
    ensures Final(st, [a, b, c]) == Step(Step(Step(st, a), b), c)
  {
    Lex2(st, a, b);
    Lex1(Step(Step(st, a), b), c);
    LexConcat(st, [a, b], [c]);
    assert [a, b] + [c] == [a, b, c];
  }

  const DIGITS := "0123456789"
  const LOWER := "abcdefghijklmnopqrstuvwxyz"
  const UPPER := "ABCDEFGHIJKLMNOPQRSTUVWXYZ"

  lemma DigitsAre(c: char)
    ensures c in DIGITS <==> '0' <= c <= '9'
  {
    if '0' <= c <= '9' {
      assert DIGITS[c as int - '0' as int] == c;
    }
  }

  lemma LowerAre(c: char)
    ensures c in LOWER <==> 'a' <= c <= 'z'
  {
    if 'a' <= c <= 'z' {
      assert LOWER[c as int - 'a' as int] == c;
    }
  }

  lemma UpperAre(c: char)
    ensures c in UPPER <==> 'A' <= c <= 'Z'
  {
    if 'A' <= c <= 'Z' {
      assert UPPER[c as int - 'A' as int] == c;
    }
  }

  /** What joins a prefix letter after it into an identifier: `@`, `_`, digits and letters. */
  predicate Joins(c: char) {
    c == '@' || c == '_' || c in DIGITS || c in LOWER || c in UPPER
  }

  lemma JoinsExactly(c: char)
    ensures Joins(c) <==> IsIdentContinue(c)
  {
    DigitsAre(c);
    LowerAre(c);
    UpperAre(c);
  }

  /** A prefix letter joins an identifier character before it; after any other it opens a literal. */
  lemma PrefixAfterExactly(c: char, p: char, rest: string)
    requires p == 'r' || p == 's' || p == 't'
    ensures Joins(c) ==> Structural(Normal, [c, p, '\''] + rest) == Structural(Normal, rest)
    ensures Final(Normal, [c, p, '\'']) == Quoted('\'') <==> !Joins(c) && c != '"' && c != '#'
  {
    JoinsExactly(c);
    Lex3(Normal, c, p, '\'');
    if IsIdentContinue(c) {
      PrefixIsJoined(c, p, rest);
    }
  }

  lemma PrefixIsJoined(c: char, p: char, rest: string)
    requires IsIdentContinue(c) && IsLiteralPrefix(p)
    ensures Structural(Normal, [c, p, '\''] + rest) == Structural(Normal, rest)
  {
    Lex3(Normal, c, p, '\'');
    LexConcat(Normal, [c, p, '\''], rest);
    var st := Step(Normal, c);
    assert Step(st, p) == Ident && Step(Ident, '\'') == Normal;
    Prepended(c, Structural(Normal, rest));
  }

  /** What opens a literal or comment at a token boundary: `"`, `#`, and one of three letters before a quote. */
  lemma OpenersExactly(c: char)
    ensures Final(Normal, [c]) == Quoted('"') <==> c == '"'
    ensures Final(Normal, [c]) == Comment <==> c == '#'
    ensures Final(Normal, [c, '\'']) == Quoted('\'') <==> c == 'r' || c == 's' || c == 't'
  {
    Lex1(Normal, c);
    Lex2(Normal, c, '\'');
  }

  /** The characters that nest, those that unnest, and all others, between two openers. */
  lemma BracketsExactly(c: char)
    requires c != '"' && c != '#'
    ensures MaxDepth(['(', c, '(']) == if c == '(' || c == '{' || c == '[' then 3
                                       else if c == ')' || c == '}' || c == ']' then 1
                                       else 2
  {
    Lex3(Normal, '(', c, '(');
    assert Structural(Normal, ['(', c, '(']) == if IsBracket(c) then ['(', c, '('] else ['(', '('];
    PeakOfThree('(', c, '(');
    PeakOfTwo(0, 0, '(', '(');
  }

  lemma PeakOfTwo(depth: nat, peak: nat, a: char, b: char)
    ensures var d := if IsOpen(a) then depth + 1 else SaturatingPred(depth);
            var d' := if IsOpen(b) then d + 1 else SaturatingPred(d);
            depth <= peak ==> Peak(depth, peak, [a, b]) == Max(Max(peak, d), d')
  {
    var ab, last := [a, b], [b];
    assert ab[0] == a && ab[1..] == last && last[1..] == [];
    var d := if IsOpen(a) then depth + 1 else SaturatingPred(depth);
    if depth <= peak {
      assert Peak(depth, peak, ab) == Peak(d, Max(peak, d), last);
      assert Peak(d, Max(peak, d), last) == Max(Max(peak, d), if IsOpen(b) then d + 1 else SaturatingPred(d));
    }
  }

  lemma PeakOfThree(a: char, b: char, c: char)
    ensures var d := if IsOpen(a) then 1 else 0;
            var d' := if IsOpen(b) then d + 1 else SaturatingPred(d);
            var d'' := if IsOpen(c) then d' + 1 else SaturatingPred(d');
            Peak(0, 0, [a, b, c]) == Max(Max(d, d'), d'')
  {
    var d: nat := if IsOpen(a) then 1 else 0;
    var abc := [a, b, c];
    assert abc[0] == a && abc[1..] == [b, c];
    assert Peak(0, 0, abc) == Peak(d, d, [b, c]);
    PeakOfTwo(d, d, b, c);
  }

  // ---------------------------------------------------------------------------
  // The saturating depth counter
  // ---------------------------------------------------------------------------

  function Max(a: int, b: int): int {
    if a < b then b else a
  }

  function SaturatingPred(depth: nat): nat {
    if depth == 0 then 0 else depth - 1
  }

  /** The counter's maximum over `bs`, from a given depth and maximum so far. */
  function Peak(depth: nat, peak: nat, bs: string): nat
    decreases bs
  {
    if bs == [] then peak
    else if IsOpen(bs[0]) then Peak(depth + 1, Max(peak, depth + 1), bs[1..])
    else Peak(SaturatingPred(depth), peak, bs[1..])
  }

  /** The depth reported for a source text. */
  function MaxDepth(source: string): nat {
    Peak(0, 0, Structural(Normal, source))
  }

  // ---------------------------------------------------------------------------
  // The scanner
  // ---------------------------------------------------------------------------

  /** A peekable iterator over the characters not yet consumed. */
  class CharStream {
    var rest: string

    constructor (source: string)
      ensures rest == source
    {
      rest := source;
    }

    method Next() returns (c: Option<char>)
      modifies this
      ensures old(rest) == [] ==> c == None && rest == []
      ensures old(rest) != [] ==> c == Some(old(rest)[0]) && rest == old(rest)[1..]
    {
      if rest == [] {
        return None;
      }
      c := Some(rest[0]);
      rest := rest[1..];
    }

    function Peek(): Option<char>
      reads this
    {
      if rest == [] then None else Some(rest[0])
    }

    /** Consumes the next character only when it satisfies `wanted`. */
    method NextIf(wanted: char -> bool) returns (taken: bool)
      modifies this
      ensures taken == (old(rest) != [] && wanted(old(rest)[0]))
      ensures rest == if taken then old(rest)[1..] else old(rest)
    {
      if Peek().Some? && wanted(Peek().value) {
        rest := rest[1..];
        return true;
      }
      return false;
    }
  }

  /** `after` is what is left of `before`. */
  ghost predicate IsRest(before: string, after: string) {
    |after| <= |before| && after == before[|before| - |after|..]
  }

  /** What was taken off `before` to leave `after`. */
  function Taken(before: string, after: string): string
    requires |after| <= |before|
  {
    before[..|before| - |after|]
  }

  /** All of `s` lies inside a literal that `close` would end. */
  ghost predicate StaysInside(close: char, s: string) {
    forall k :: 0 <= k <= |s| ==>
      Final(Quoted(close), s[..k]) == Quoted(close) || Final(Quoted(close), s[..k]) == Escape(close)
  }

  /** `s` runs up to and including the first unescaped `close`. */
  ghost predicate EndsLiteral(close: char, s: string) {
    && s != []
    && s[|s| - 1] == close
    && StaysInside(close, s[..|s| - 1])
    && Final(Quoted(close), s[..|s| - 1]) == Quoted(close)
  }

  /** How many backslashes `s` ends in. */
  function Backslashes(s: string): nat {
    if s == [] || s[|s| - 1] != '\\' then 0 else 1 + Backslashes(s[..|s| - 1])
  }

  /** Inside a literal the next character is escaped exactly after an odd number of backslashes. */
  lemma {:induction false} EscapedExactly(close: char, s: string)
    requires StaysInside(close, s) && close != '\\'
    ensures Final(Quoted(close), s) == if Backslashes(s) % 2 == 1 then Escape(close) else Quoted(close)
  {
    if s != [] {
      var n := |s| - 1;
      assert s == s[..n] + [s[n]];
      ShorterStaysInside(close, s, n);
      EscapedExactly(close, s[..n]);
      LexConcat(Quoted(close), s[..n], [s[n]]);
      assert [s[n]][1..] == [];
      assert s[..|s|] == s;
    }
  }

  lemma ShorterStaysInside(close: char, s: string, n: nat)
    requires StaysInside(close, s) && n <= |s|
    ensures StaysInside(close, s[..n])
  {
    forall k | 0 <= k <= n
      ensures Final(Quoted(close), s[..n][..k]) == Quoted(close) || Final(Quoted(close), s[..n][..k]) == Escape(close)
    {
      assert s[..n][..k] == s[..k];
    }
  }

  /** Text lies inside a literal exactly when an odd number of backslashes comes before each of its closing quotes. */
  lemma {:induction false} InsideExactly(close: char, s: string)
    requires close != '\\'
    ensures StaysInside(close, s) <==> forall k :: 0 <= k < |s| && s[k] == close ==> Backslashes(s[..k]) % 2 == 1
  {
    if s == [] {
      assert forall k :: 0 <= k <= 0 ==> s[..k] == [];
    } else {
      var n := |s| - 1;
      assert s == s[..n] + [s[n]];
      assert forall k :: 0 <= k < n ==> s[..n][k] == s[k] && s[..n][..k] == s[..k];
      InsideExactly(close, s[..n]);
      if StaysInside(close, s) {
        ShorterStaysInside(close, s, n);
        assert s[..|s|] == s;
      }
      if StaysInside(close, s[..n]) {
        EscapedExactly(close, s[..n]);
        LexConcat(Quoted(close), s[..n], [s[n]]);
        assert [s[n]][1..] == [];
        if s[n] != close || Backslashes(s[..n]) % 2 == 1 {
          StaysInsideLonger(close, s[..n], s[n]);
        }
      }
    }
  }

  lemma StaysInsideLonger(close: char, s: string, c: char)
    requires StaysInside(close, s)
    requires Final(Quoted(close), s) == Quoted(close) ==> c == '\\' || c != close
    ensures StaysInside(close, s + [c])
    ensures Final(Quoted(close), s + [c]) == Step(Final(Quoted(close), s), c)
  {
    assert s[..|s|] == s;
    LexConcat(Quoted(close), s, [c]);
    forall k | 0 <= k <= |s| + 1
      ensures Final(Quoted(close), (s + [c])[..k]) == Quoted(close)
              || Final(Quoted(close), (s + [c])[..k]) == Escape(close)
    {
      if k <= |s| {
        assert (s + [c])[..k] == s[..k];
      } else {
        assert (s + [c])[..k] == s + [c];
      }
    }
  }

  lemma {:induction false} InsideIsSilent(close: char, s: string)
    requires StaysInside(close, s)
    ensures Structural(Quoted(close), s) == []
  {
    if s != [] {
      var n := |s| - 1;
      forall k | 0 <= k <= n
        ensures Final(Quoted(close), s[..n][..k]) == Quoted(close) || Final(Quoted(close), s[..n][..k]) == Escape(close)
      {
        assert s[..n][..k] == s[..k];
      }
      InsideIsSilent(close, s[..n]);
      LexConcat(Quoted(close), s[..n], [s[n]]);
      assert s == s[..n] + [s[n]] && s[..n][..n] == s[..n];
      assert [s[n]][1..] == [];
    }
  }

  /** Lexing goes on from a token boundary after a literal's end. */
  lemma EndIsBoundary(close: char, body: string, rest: string)
    requires StaysInside(close, body) && Final(Quoted(close), body) == Quoted(close) && close != '\\'
    ensures EndsLiteral(close, body + [close])
    ensures Structural(Quoted(close), body + [close] + rest) == Structural(Normal, rest)
  {
    InsideIsSilent(close, body);
    assert (body + [close])[..|body|] == body;
    assert body + [close] + rest == body + ([close] + rest);
    LexConcat(Quoted(close), body, [close] + rest);
    assert ([close] + rest)[1..] == rest;
    LexOne(Quoted(close), [close] + rest);
  }

  /** `close`'s literal was taken off `before`: to its end, or all of it when it has none. */
  ghost predicate TookLiteral(close: char, before: string, after: string) {
    && IsRest(before, after)
    && (EndsLiteral(close, Taken(before, after)) || (after == [] && StaysInside(close, before)))
  }

  /** So far `taken` was taken off `source`, all of it inside the literal and nothing left half escaped. */
  ghost predicate TakenInside(close: char, source: string, taken: string, rest: string) {
    source == taken + rest && StaysInside(close, taken) && Final(Quoted(close), taken) == Quoted(close)
  }

  lemma TakesOne(close: char, source: string, taken: string, c: char, rest: string)
    requires TakenInside(close, source, taken, [c] + rest) && c != '\\' && c != close
    ensures TakenInside(close, source, taken + [c], rest)
  {
    StaysInsideLonger(close, taken, c);
    Associate(taken, [c], rest);
  }

  lemma TakesEscape(close: char, source: string, taken: string, c: char, rest: string)
    requires TakenInside(close, source, taken, ['\\'] + ([c] + rest))
    ensures TakenInside(close, source, taken + ['\\'] + [c], rest)
  {
    StaysInsideLonger(close, taken, '\\');
    StaysInsideLonger(close, taken + ['\\'], c);
    Associate(taken, ['\\'], [c] + rest);
    Associate(taken + ['\\'], [c], rest);
  }

  lemma TakesEnd(close: char, source: string, taken: string, rest: string)
    requires TakenInside(close, source, taken, [close] + rest) && close != '\\'
    ensures TookLiteral(close, source, rest)
    ensures Structural(Quoted(close), source) == Structural(Normal, rest)
  {
    EndIsBoundary(close, taken, rest);
    Associate(taken, [close], rest);
    assert Taken(source, rest) == taken + [close];
  }

  lemma TakesAll(close: char, source: string)
    requires StaysInside(close, source)
    ensures TookLiteral(close, source, [])
    ensures Structural(Quoted(close), source) == Structural(Normal, [])
  {
    InsideIsSilent(close, source);
  }

  /**
    Takes the text up to and including the first unescaped `close`, or all of it when there
    is none; lexing then goes on from a token boundary.
   */
  method SkipQuoted(chars: CharStream, close: char)
    modifies chars
    ensures TookLiteral(close, old(chars.rest), chars.rest)
    ensures Structural(Quoted(close), old(chars.rest)) == Structural(Normal, chars.rest)
  {
    ghost var source := chars.rest;
    ghost var taken: string := [];
    while true
      invariant TakenInside(close, source, taken, chars.rest)
      decreases |chars.rest|
    {
      ghost var before := chars.rest;
      var c := chars.Next();
      if c.None? {
        assert taken == source;
        TakesAll(close, source);
        return;
      }
      assert before == [c.value] + chars.rest;
      if c.value == '\\' {
        before := chars.rest;
        var escaped := chars.Next();
        if escaped.None? {
          StaysInsideLonger(close, taken, c.value);
          assert taken + [c.value] == source;
          TakesAll(close, source);
          return;
        }
        assert before == [escaped.value] + chars.rest;
        TakesEscape(close, source, taken, escaped.value, chars.rest);
        taken := taken + [c.value] + [escaped.value];
      } else if c.value == close {
        TakesEnd(close, source, taken, chars.rest);
        return;
      } else {
        TakesOne(close, source, taken, c.value, chars.rest);
        taken := taken + [c.value];
      }
    }
  }

  /** Characters satisfying `p` were taken off `before`. */
  ghost predicate TakenWhile(before: string, after: string, p: char -> bool) {
    IsRest(before, after) && forall i :: 0 <= i < |before| - |after| ==> p(before[i])
  }

  /** The longest stretch of such characters was. */
  ghost predicate TookWhile(before: string, after: string, p: char -> bool) {
    TakenWhile(before, after, p) && (after != [] ==> !p(after[0]))
  }

  lemma TakesAnother(before: string, after: string, p: char -> bool)
    requires TakenWhile(before, after, p) && after != [] && p(after[0])
    ensures TakenWhile(before, after[1..], p)
  {
    assert after[0] == before[|before| - |after|];
  }

  predicate InComment(c: char) {
    c != '\n'
  }

  /** What an identifier goes on with is silent, and what ends one is read as at a token boundary. */
  lemma InsideIdent(s: string)
    ensures Structural(Ident, s) == if s != [] && IsIdentContinue(s[0]) then Structural(Ident, s[1..])
                                    else Structural(Normal, s)
  {
    if s != [] {
      Prepended(s[0], Structural(Step(Ident, s[0]), s[1..]));
    }
  }

  /** The same inside a comment, up to its line feed. */
  lemma InsideComment(s: string)
    ensures Structural(Comment, s) == if s != [] && InComment(s[0]) then Structural(Comment, s[1..])
                                      else Structural(Normal, s)
  {
    if s != [] {
      Prepended(s[0], Structural(Step(Comment, s[0]), s[1..]));
      if !InComment(s[0]) {
        LineFeedIsSilent(s);
      }
    }
  }

  lemma LineFeedIsSilent(s: string)
    requires s != [] && s[0] == '\n'
    ensures Structural(Normal, s) == Structural(Normal, s[1..])
  {
    assert Step(Normal, s[0]) == Normal && Emit(Normal, s[0]) == [];
    Prepended(s[0], Structural(Normal, s[1..]));
  }

  /** Takes the rest of an identifier. */
  method SkipIdent(chars: CharStream)
    modifies chars
    ensures TookWhile(old(chars.rest), chars.rest, IsIdentContinue)
    ensures Structural(Ident, old(chars.rest)) == Structural(Normal, chars.rest)
  {
    ghost var source := chars.rest;
    var more := true;
    while more
      invariant TakenWhile(source, chars.rest, IsIdentContinue)
      invariant Structural(Ident, source) == Structural(Ident, chars.rest)
      invariant !more && chars.rest != [] ==> !IsIdentContinue(chars.rest[0])
      decreases |chars.rest|, more
    {
      ghost var before := chars.rest;
      more := chars.NextIf(IsIdentContinue);
      if more {
        TakesAnother(source, before, IsIdentContinue);
        InsideIdent(before);
      }
    }
    InsideIdent(chars.rest);
  }

  /** Takes a comment up to the line feed that ends it, which stays. */
  method SkipComment(chars: CharStream)
    modifies chars
    ensures TookWhile(old(chars.rest), chars.rest, InComment)
    ensures Structural(Comment, old(chars.rest)) == Structural(Normal, chars.rest)
  {
    ghost var source := chars.rest;
    var more := true;
    while more
      invariant TakenWhile(source, chars.rest, InComment)
      invariant Structural(Comment, source) == Structural(Comment, chars.rest)
      invariant !more && chars.rest != [] ==> !InComment(chars.rest[0])
      decreases |chars.rest|, more
    {
      ghost var before := chars.rest;
      more := chars.NextIf(InComment);
      if more {
        TakesAnother(source, before, InComment);
        InsideComment(before);
      }
    }
    InsideComment(chars.rest);
  }

  /** The scanner's match on the character `c` just taken, which may take more. */
  method ScanToken(chars: CharStream, c: char, depth: nat, maxDepth: nat) returns (depth': nat, maxDepth': nat)
    modifies chars
    ensures Peak(depth', maxDepth', Structural(Normal, chars.rest))
            == Peak(depth, maxDepth, Structural(Normal, [c] + old(chars.rest)))
    ensures |chars.rest| <= |old(chars.rest)|
  {
    depth', maxDepth' := depth, maxDepth;
    AtBoundary(c, chars.rest, depth, maxDepth);
    if IsOpen(c) {
      depth' := depth + 1;
      maxDepth' := Max(maxDepth, depth');
    } else if IsClose(c) {
      depth' := SaturatingPred(depth);
    } else if c == '"' {
      SkipQuoted(chars, '"');
    } else if c == '#' {
      SkipComment(chars);
    } else if IsLiteralPrefix(c) && chars.Peek() == Some('\'') {
      LexOne(Prefix, chars.rest);
      var _ := chars.Next();
      SkipQuoted(chars, '\'');
    } else if IsIdentContinue(c) {
      PrefixWithoutQuote(chars.rest);
      SkipIdent(chars);
    }
  }

  /**
    The scanner: nested loops with one character of lookahead compute the depth that
    the automaton and the counter define.
   */
  method MaxBracketDepth(source: string) returns (maxDepth: nat)
    ensures maxDepth == MaxDepth(source)
  {
    var chars := new CharStream(source);
    var depth: nat := 0;
    maxDepth := 0;
    while true
      invariant Peak(depth, maxDepth, Structural(Normal, chars.rest)) == MaxDepth(source)
      decreases |chars.rest|
    {
      ghost var before := chars.rest;
      var next := chars.Next();
      if next.None? {
        return;
      }
      assert before == [next.value] + chars.rest;
      depth, maxDepth := ScanToken(chars, next.value, depth, maxDepth);
    }
  }

  /** What lexing one character contributes. */
  lemma LexOne(st: LexState, s: string)
    requires s != []
    ensures st.Plain() && IsBracket(s[0]) ==>
              |Structural(st, s)| > 0 && Structural(st, s)[0] == s[0] &&
              Structural(st, s)[1..] == Structural(Normal, s[1..])
    ensures !(st.Plain() && IsBracket(s[0])) ==>
              Structural(st, s) == Structural(Step(st, s[0]), s[1..])
  {
    var rest := Structural(Step(st, s[0]), s[1..]);
    assert Structural(st, s) == Emit(st, s[0]) + rest;
    if st.Plain() && IsBracket(s[0]) {
      BracketEndsToken(st, s[0]);
    }
    Prepended(s[0], rest);
  }

  lemma BracketEndsToken(st: LexState, c: char)
    requires st.Plain() && IsBracket(c)
    ensures Step(st, c) == Normal
  {
  }

  /** What each kind of character does at a token boundary. */
  lemma AtBoundary(c: char, rest: string, depth: nat, peak: nat)
    ensures var all := Structural(Normal, [c] + rest);
            && (IsOpen(c) ==>
                  Peak(depth, peak, all) == Peak(depth + 1, Max(peak, depth + 1), Structural(Normal, rest)))
            && (IsClose(c) ==> Peak(depth, peak, all) == Peak(SaturatingPred(depth), peak, Structural(Normal, rest)))
            && (c == '"' ==> all == Structural(Quoted('"'), rest))
            && (c == '#' ==> all == Structural(Comment, rest))
            && (IsLiteralPrefix(c) ==> all == Structural(Prefix, rest))
            && (IsIdentContinue(c) && !IsLiteralPrefix(c) ==> all == Structural(Ident, rest))
            && (!IsBracket(c) && c != '"' && c != '#' && !IsIdentContinue(c) ==> all == Structural(Normal, rest))
  {
    assert ([c] + rest)[1..] == rest;
    LexOne(Normal, [c] + rest);
  }

  lemma PrefixWithoutQuote(s: string)
    ensures (s == [] || s[0] != '\'') ==> Structural(Prefix, s) == Structural(Ident, s)
  {
  }

  /** The message a source past the limit is refused with. */
  function TooDeep(depth: nat): string {
    "VRL source nests " + Decimal(depth) + " levels deep, exceeding the " +
    Decimal(MAX_VRL_NESTING_DEPTH) + "-level limit"
  }

  lemma TooDeepExactly(depth: nat)
    ensures TooDeep(depth)
            == "VRL source nests " + Decimal(depth) + " levels deep, exceeding the " + "64" + "-level limit"
  {
    assert Decimal(64) == Decimal(6) + "4" && Decimal(6) == "6";
  }

  /** No stretch of the brackets opens more than `limit` beyond what it closes. */
  ghost predicate WindowsWithin(bs: string, limit: nat) {
    forall i, j :: 0 <= i <= j <= |bs| ==> Net(bs[i..j]) <= limit
  }

  /** Source is accepted exactly when no window of its brackets nets more than the limit. */
  method CheckNestingDepth(vrlCode: string) returns (r: Result<(), string>)
    ensures r.Ok? <==> WindowsWithin(Structural(Normal, vrlCode), 64)
    ensures r.Err? ==> r.error == TooDeep(MaxDepth(vrlCode))
  {
    var maxDepth := MaxBracketDepth(vrlCode);
    PeakWithinLimit(Structural(Normal, vrlCode), MAX_VRL_NESTING_DEPTH);
    if maxDepth > MAX_VRL_NESTING_DEPTH {
      return Err(TooDeep(maxDepth));
    }
    return Ok(());
  }

  // ---------------------------------------------------------------------------
  // The saturating counter is a maximum-window-sum
  // ---------------------------------------------------------------------------

  /** Openers minus closers. */
  function Net(bs: string): int {
    if bs == [] then 0 else (if IsOpen(bs[0]) then 1 else -1) + Net(bs[1..])
  }

  /** Over brackets that is the three openers, counted, less the three closers. */
  lemma {:induction false} NetCounts(bs: string)
    requires forall b <- bs :: b in "({[)}]"
    ensures var n := multiset(bs);
            Net(bs) == (n['('] + n['{'] + n['[']) as int - (n[')'] + n['}'] + n[']']) as int
  {
    if bs != [] {
      assert bs == [bs[0]] + bs[1..];
      assert bs[0] in "({[)}]";
      assert multiset(bs) == multiset{bs[0]} + multiset(bs[1..]);
      NetCounts(bs[1..]);
    }
  }

  lemma {:induction false} StructuralIsBrackets(st: LexState, s: string)
    ensures forall b <- Structural(st, s) :: b in "({[)}]"
    decreases s
  {
    if s != [] {
      StructuralIsBrackets(Step(st, s[0]), s[1..]);
    }
  }

  lemma {:induction false} PrefixBelowPeak(depth: nat, peak: nat, bs: string, j: nat)
    requires depth <= peak && j <= |bs|
    ensures depth + Net(bs[..j]) <= Peak(depth, peak, bs)
    decreases bs
  {
    if bs == [] {
    } else {
      var d := if IsOpen(bs[0]) then depth + 1 else SaturatingPred(depth);
      if j == 0 {
        PrefixBelowPeak(d, Max(peak, d), bs[1..], 0);
        PeakGrows(d, Max(peak, d), bs[1..]);
      } else {
        assert bs[..j][1..] == bs[1..][..j - 1];
        PrefixBelowPeak(d, Max(peak, d), bs[1..], j - 1);
      }
    }
  }

  lemma {:induction false} PeakGrows(depth: nat, peak: nat, bs: string)
    ensures peak <= Peak(depth, peak, bs)
    decreases bs
  {
    if bs != [] {
      if IsOpen(bs[0]) {
        PeakGrows(depth + 1, Max(peak, depth + 1), bs[1..]);
      } else {
        PeakGrows(SaturatingPred(depth), peak, bs[1..]);
      }
    }
  }

  lemma {:induction false} WindowBelowPeak(depth: nat, peak: nat, bs: string, i: nat, j: nat)
    requires depth <= peak && i <= j <= |bs|
    ensures Net(bs[i..j]) <= Peak(depth, peak, bs)
    decreases bs
  {
    if i == 0 {
      PrefixBelowPeak(depth, peak, bs, j);
      assert bs[0..j] == bs[..j];
    } else {
      var d := if IsOpen(bs[0]) then depth + 1 else SaturatingPred(depth);
      SliceOfTail(bs, i, j);
      WindowBelowPeak(d, Max(peak, d), bs[1..], i - 1, j - 1);
    }
  }

  lemma SliceOfTail<T>(s: seq<T>, i: nat, j: nat)
    requires 1 <= i <= j <= |s|
    ensures s[i..j] == s[1..][i - 1..j - 1]
  {
    var a, b := s[i..j], s[1..][i - 1..j - 1];
    forall k | 0 <= k < |a| ensures a[k] == b[k] {
      assert b[k] == s[1..][i - 1 + k] == s[i + k];
    }
  }

  lemma {:induction false} PeakIsAttained(depth: nat, peak: nat, bs: string) returns (i: nat, j: nat)
    requires depth <= peak
    ensures i <= j <= |bs|
    ensures var p := Peak(depth, peak, bs);
            p == peak || p == depth + Net(bs[..j]) || p == Net(bs[i..j])
    decreases bs
  {
    i, j := 0, 0;
    if bs != [] {
      var d := if IsOpen(bs[0]) then depth + 1 else SaturatingPred(depth);
      var a, b := PeakIsAttained(d, Max(peak, d), bs[1..]);
      assert bs[..b + 1][1..] == bs[1..][..b];
      assert bs[1..b + 1] == bs[1..][..b];
      assert bs[a + 1..b + 1] == bs[1..][a..b];
      assert bs[..1] == [bs[0]] && Net(bs[..1][1..]) == 0;
      var p := Peak(depth, peak, bs);
      if p == Net(bs[1..][a..b]) {
        i, j := a + 1, b + 1;
      } else if p == d + Net(bs[1..][..b]) {
        i, j := 1, b + 1;
      } else if p != peak {
        i, j := 0, 1;
      }
    }
  }

  /** The saturating counter's maximum is the largest window sum. */
  lemma PeakIsLargestWindow(bs: string)
    ensures WindowsWithin(bs, Peak(0, 0, bs))
    ensures exists i, j :: 0 <= i <= j <= |bs| && Net(bs[i..j]) == Peak(0, 0, bs)
  {
    forall i, j | 0 <= i <= j <= |bs| ensures Net(bs[i..j]) <= Peak(0, 0, bs) {
      WindowBelowPeak(0, 0, bs, i, j);
    }
    var i, j := PeakIsAttained(0, 0, bs);
    assert bs[..j] == bs[0..j];
    assert Net(bs[0..0]) == 0;
  }

  lemma PeakWithinLimit(bs: string, limit: nat)
    ensures Peak(0, 0, bs) <= limit <==> WindowsWithin(bs, limit)
  {
    PeakIsLargestWindow(bs);
    var i, j :| 0 <= i <= j <= |bs| && Net(bs[i..j]) == Peak(0, 0, bs);
  }
}
