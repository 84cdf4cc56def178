/**
  The texts the two scanners of a SQL call accept, as a grammar: plain characters, balanced
  parentheses, quoted literals; and what both scanners make of a call written in it
  (ergasterion/dialect_lint.py:141-198).
*/
module CallGrammar {
  import opened Basics
  import opened Text
  import opened CallScanner

  /** A character of a literal: as it stands, after a backslash, or a single quote written twice. */
  datatype LiteralChar = Ordinary(c: char) | Escaped(c: char) | DoubledQuote

  /** A literal in single or double quotes, or one character outside any. */
  datatype Token = Bare(c: char) | Literal(quote: char, chars: seq<LiteralChar>)

  predicate IsQuote(c: char) { c == '\'' || c == '"' }

  predicate CharFits(quote: char, ch: LiteralChar) {
    match ch
    case Ordinary(c) => c != quote && c != '\\'
    case Escaped(_) => true
    case DoubledQuote => quote == '\''
  }

  predicate TokenFits(t: Token) {
    match t
    case Bare(c) => !IsQuote(c)
    case Literal(quote, chars) => IsQuote(quote) && forall i | 0 <= i < |chars| :: CharFits(quote, chars[i])
  }

  predicate SingleQuoted(t: Token) { t.Literal? && t.quote == '\'' }

  /**
    An argument inside `depth` parentheses: they balance, no comma stands outside them and the
    literals, and two single-quoted literals never meet, which would be one.
  */
  predicate Argument(tokens: seq<Token>, depth: nat) {
    if tokens == [] then depth == 0 else
    && TokenFits(tokens[0])
    && (SingleQuoted(tokens[0]) && |tokens| > 1 ==> !SingleQuoted(tokens[1]))
    && match tokens[0]
       case Literal(_, _) => Argument(tokens[1..], depth)
       case Bare(c) =>
         if c == '(' then Argument(tokens[1..], depth + 1)
         else if c == ')' then depth > 0 && Argument(tokens[1..], depth - 1)
         else (c == ',' ==> depth > 0) && Argument(tokens[1..], depth)
  }

  function WriteChar(ch: LiteralChar): string {
    match ch
    case Ordinary(c) => [c]
    case Escaped(c) => ['\\', c]
    case DoubledQuote => ['\'', '\'']
  }

  function WriteChars(chars: seq<LiteralChar>): string {
    if chars == [] then [] else WriteChar(chars[0]) + WriteChars(chars[1..])
  }

  function WriteToken(t: Token): string {
    match t
    case Bare(c) => [c]
    case Literal(quote, chars) => [quote] + WriteChars(chars) + [quote]
  }

  function Write(tokens: seq<Token>): string {
    if tokens == [] then [] else WriteToken(tokens[0]) + Write(tokens[1..])
  }

  // ---------------------------------------------------------------- one step of a scan

  /** The text reads `s` from `i` on. */
  ghost predicate Reads(text: string, i: nat, s: string) {
    i + |s| <= |text| && forall k | 0 <= k < |s| :: text[i + k] == s[k]
  }

  lemma ReadsBoth(text: string, i: nat, a: string, b: string)
    ensures Reads(text, i, a + b) <==> Reads(text, i, a) && Reads(text, i + |a|, b)
  {
    var both := a + b;
    if Reads(text, i, both) {
      assert forall k | 0 <= k < |a| :: both[k] == a[k];
      assert forall k | 0 <= k < |b| :: both[|a| + k] == b[k];
    }
  }

  lemma ReadsOne(text: string, i: nat, c: char)
    ensures Reads(text, i, [c]) <==> i < |text| && text[i] == c
  {
    assert [c][0] == c;
  }

  /** A character of a literal keeps the scan inside it. */
  lemma StaysInside(text: string, i: nat, quote: char, ch: LiteralChar, depth: nat)
    requires IsQuote(quote) && CharFits(quote, ch) && i + |WriteChar(ch)| < |text| && Reads(text, i, WriteChar(ch))
    ensures Advance(text, Cursor(i, Some(quote), depth)) == Cursor(i + |WriteChar(ch)|, Some(quote), depth)
  {
    var written := WriteChar(ch);
    assert text[i] == written[0] && (|written| == 2 ==> text[i + 1] == written[1]);
  }

  predicate Closes(text: string, i: nat, quote: char) {
    i < |text| && text[i] == quote && !(quote == '\'' && i + 1 < |text| && text[i + 1] == '\'')
  }

  lemma LeavesLiteral(text: string, i: nat, quote: char, depth: nat)
    requires IsQuote(quote) && Closes(text, i, quote)
    ensures Advance(text, Cursor(i, Some(quote), depth)) == Cursor(i + 1, None, depth)
  {}

  /** The depth after one character outside every literal. */
  function Nested(c: char, depth: int): int {
    if c == '(' then depth + 1 else if c == ')' then depth - 1 else depth
  }

  lemma StaysOutside(text: string, i: nat, depth: nat)
    requires i < |text|
    ensures Advance(text, Cursor(i, None, depth))
            == if IsQuote(text[i]) then Cursor(i + 1, Some(text[i]), depth)
               else Cursor(i + 1, None, Nested(text[i], depth))
  {}

  // ---------------------------------------------------------------- what is written is well formed

  /** A literal is scanned to its end: from inside it, the scan goes on plainly if it does after it. */
  lemma {:induction false} LiteralIsPlain(text: string, i: nat, quote: char, chars: seq<LiteralChar>, depth: nat)
    requires TokenFits(Literal(quote, chars)) && Reads(text, i, WriteChars(chars))
    requires Closes(text, i + |WriteChars(chars)|, quote)
    requires Plain(text, Cursor(i + |WriteChars(chars)| + 1, None, depth))
    ensures Plain(text, Cursor(i, Some(quote), depth))
    decreases |chars|
  {
    if chars == [] {
      LeavesLiteral(text, i, quote, depth);
    } else {
      FirstCharReads(text, i, chars);
      LiteralIsPlain(text, i + |WriteChar(chars[0])|, quote, chars[1..], depth);
      StaysInside(text, i, quote, chars[0], depth);
    }
  }

  lemma FirstCharReads(text: string, i: nat, chars: seq<LiteralChar>)
    requires chars != [] && Reads(text, i, WriteChars(chars))
    ensures Reads(text, i, WriteChar(chars[0])) && Reads(text, i + |WriteChar(chars[0])|, WriteChars(chars[1..]))
    ensures |WriteChars(chars)| == |WriteChar(chars[0])| + |WriteChars(chars[1..])|
  {
    ReadsBoth(text, i, WriteChar(chars[0]), WriteChars(chars[1..]));
  }

  function NestedBy(t: Token, depth: int): int {
    if t.Bare? then Nested(t.c, depth) else depth
  }

  /** From where an argument is written to the end of the text, the scan is plain. */
  lemma {:induction false} ArgumentIsPlain(text: string, i: nat, tokens: seq<Token>, depth: nat)
    requires Argument(tokens, depth) && Reads(text, i, Write(tokens)) && i + |Write(tokens)| == |text|
    ensures Plain(text, Cursor(i, None, depth))
    decreases |tokens|
  {
    if tokens != [] {
      FirstToken(tokens, depth);
      var next := FirstReads(text, i, tokens);
      ArgumentIsPlain(text, next, tokens[1..], NestedBy(tokens[0], depth));
      TokenIsPlain(text, i, tokens[0], depth);
    }
  }

  /** The first token of a written text, and where and how the next one starts. */
  lemma FirstReads(text: string, i: nat, tokens: seq<Token>) returns (next: nat)
    requires tokens != [] && Reads(text, i, Write(tokens)) && i + |Write(tokens)| == |text|
    ensures next == i + |WriteToken(tokens[0])| && Reads(text, i, WriteToken(tokens[0]))
    ensures Reads(text, next, Write(tokens[1..])) && next + |Write(tokens[1..])| == |text|
    ensures |tokens| > 1 && !StartsSingle(tokens[1]) ==> next < |text| && text[next] != '\''
    ensures |tokens| == 1 ==> next == |text|
  {
    next := i + |WriteToken(tokens[0])|;
    ReadsBoth(text, i, WriteToken(tokens[0]), Write(tokens[1..]));
    NextStarts(text, next, tokens[1..]);
  }

  /** What an argument says of its first token and of what follows it. */
  lemma FirstToken(tokens: seq<Token>, depth: nat)
    requires tokens != [] && Argument(tokens, depth)
    ensures TokenFits(tokens[0]) && (tokens[0] == Bare(',') ==> depth > 0)
    ensures NestedBy(tokens[0], depth) >= 0 && Argument(tokens[1..], NestedBy(tokens[0], depth))
    ensures SingleQuoted(tokens[0]) ==> tokens[1..] == [] || !StartsSingle(tokens[1])
  {}

  predicate StartsSingle(t: Token) {
    if t.Bare? then t.c == '\'' else t.quote == '\''
  }

  lemma NextStarts(text: string, i: nat, tokens: seq<Token>)
    requires Reads(text, i, Write(tokens)) && i + |Write(tokens)| == |text|
    ensures tokens == [] ==> i == |text|
    ensures tokens != [] ==> i < |text| && text[i] == if tokens[0].Bare? then tokens[0].c else tokens[0].quote
  {
    if tokens != [] { assert text[i] == Write(tokens)[0]; }
  }

  /** The scan is plain from a token on if it is plain after it. */
  lemma TokenIsPlain(text: string, i: nat, t: Token, depth: nat)
    requires TokenFits(t) && Reads(text, i, WriteToken(t)) && (t == Bare(',') ==> depth > 0)
    requires SingleQuoted(t) && i + |WriteToken(t)| < |text| ==> text[i + |WriteToken(t)|] != '\''
    requires NestedBy(t, depth) >= 0 && Plain(text, Cursor(i + |WriteToken(t)|, None, NestedBy(t, depth)))
    ensures Plain(text, Cursor(i, None, depth))
  {
    if t.Bare? {
      ReadsOne(text, i, t.c);
    } else {
      var end := LiteralAt(text, i, t);
      assert Plain(text, Cursor(end + 1, None, depth));
      LiteralIsPlain(text, i + 1, t.quote, t.chars, depth);
    }
    StaysOutside(text, i, depth);
  }

  /** Where the parts of a literal stand. */
  lemma LiteralAt(text: string, i: nat, t: Token) returns (end: nat)
    requires t.Literal? && Reads(text, i, WriteToken(t))
    ensures end == i + 1 + |WriteChars(t.chars)| == i + |WriteToken(t)| - 1 && end < |text|
    ensures text[i] == t.quote && Reads(text, i + 1, WriteChars(t.chars)) && text[end] == t.quote
  {
    end := i + 1 + |WriteChars(t.chars)|;
    ReadsBoth(text, i, [t.quote] + WriteChars(t.chars), [t.quote]);
    ReadsBoth(text, i, [t.quote], WriteChars(t.chars));
    ReadsOne(text, i, t.quote);
    ReadsOne(text, end, t.quote);
  }

  // ---------------------------------------------------------------- what is well formed is written

  /** Read a literal back from inside it. */
  lemma {:induction false} ReadLiteral(text: string, i: nat, quote: char, depth: nat)
      returns (chars: seq<LiteralChar>, end: nat)
    requires IsQuote(quote) && i <= |text| && Plain(text, Cursor(i, Some(quote), depth))
    ensures TokenFits(Literal(quote, chars)) && i <= end && Closes(text, end, quote)
    ensures end == i + |WriteChars(chars)| && Reads(text, i, WriteChars(chars))
    ensures Plain(text, Cursor(end + 1, None, depth))
    decreases |text| - i
  {
    if Closes(text, i, quote) {
      chars, end := [], i;
      LeavesLiteral(text, i, quote, depth);
    } else {
      var next := ReadChar(text, i, quote, depth);
      StaysInside(text, i, quote, next, depth);
      chars, end := ReadLiteral(text, i + |WriteChar(next)|, quote, depth);
      ReadsBoth(text, i, WriteChar(next), WriteChars(chars));
      chars := [next] + chars;
    }
  }

  lemma ReadChar(text: string, i: nat, quote: char, depth: nat) returns (ch: LiteralChar)
    requires IsQuote(quote) && i <= |text| && Plain(text, Cursor(i, Some(quote), depth)) && !Closes(text, i, quote)
    ensures CharFits(quote, ch) && i + |WriteChar(ch)| < |text| && Reads(text, i, WriteChar(ch))
  {
    ch := if text[i] == quote then DoubledQuote else if text[i] == '\\' && i + 1 < |text| then Escaped(text[i + 1])
          else Ordinary(text[i]);
    var n := Advance(text, Cursor(i, Some(quote), depth));
    assert Plain(text, n);
  }

  /** Read an argument back from the text. */
  lemma {:induction false} ReadArgument(text: string, i: nat, depth: nat) returns (tokens: seq<Token>)
    requires i <= |text| && Plain(text, Cursor(i, None, depth))
    ensures Argument(tokens, depth) && Reads(text, i, Write(tokens)) && i + |Write(tokens)| == |text|
    decreases |text| - i
  {
    if i == |text| {
      tokens := [];
    } else {
      var token := ReadToken(text, i, depth);
      var rest := ReadArgument(text, i + |WriteToken(token)|, NestedBy(token, depth));
      NextStarts(text, i + |WriteToken(token)|, rest);
      Prepends(token, rest, depth);
      ReadsPrepended(text, i, token, rest);
      tokens := [token] + rest;
    }
  }

  lemma Prepends(t: Token, rest: seq<Token>, depth: nat)
    requires TokenFits(t) && (t == Bare(',') ==> depth > 0) && NestedBy(t, depth) >= 0
    requires Argument(rest, NestedBy(t, depth)) && (SingleQuoted(t) && rest != [] ==> !SingleQuoted(rest[0]))
    ensures Argument([t] + rest, depth)
  {
    assert ([t] + rest)[1..] == rest;
  }

  lemma ReadsPrepended(text: string, i: nat, t: Token, rest: seq<Token>)
    requires Reads(text, i, WriteToken(t)) && Reads(text, i + |WriteToken(t)|, Write(rest))
    ensures Reads(text, i, Write([t] + rest)) && |Write([t] + rest)| == |WriteToken(t)| + |Write(rest)|
  {
    assert ([t] + rest)[1..] == rest;
    ReadsBoth(text, i, WriteToken(t), Write(rest));
  }

  lemma ReadToken(text: string, i: nat, depth: nat) returns (t: Token)
    requires i < |text| && Plain(text, Cursor(i, None, depth))
    ensures TokenFits(t) && Reads(text, i, WriteToken(t)) && (t == Bare(',') ==> depth > 0)
    ensures SingleQuoted(t) && i + |WriteToken(t)| < |text| ==> text[i + |WriteToken(t)|] != '\''
    ensures NestedBy(t, depth) >= 0 && i < i + |WriteToken(t)| <= |text|
    ensures Plain(text, Cursor(i + |WriteToken(t)|, None, NestedBy(t, depth)))
  {
    StaysOutside(text, i, depth);
    ReadsOne(text, i, text[i]);
    if IsQuote(text[i]) {
      var chars, end := ReadLiteral(text, i + 1, text[i], depth);
      t := Literal(text[i], chars);
      ReadsOne(text, end, text[i]);
      ReadsBoth(text, i, [text[i]], WriteChars(chars));
      ReadsBoth(text, i, [text[i]] + WriteChars(chars), [text[i]]);
    } else {
      t := Bare(text[i]);
      assert Plain(text, Cursor(i + 1, None, Nested(text[i], depth)));
    }
  }

  ghost predicate Written(text: string) {
    exists tokens :: Argument(tokens, 0) && Write(tokens) == text
  }

  /** The scanners' well-formed arguments are exactly the texts of the grammar. */
  lemma WellFormedExactly(text: string)
    ensures WellFormed(text) <==> Written(text)
  {
    if WellFormed(text) {
      var tokens := ReadArgument(text, 0, 0);
      assert text[0..|text|] == text;
    }
    if Written(text) {
      var tokens :| Argument(tokens, 0) && Write(tokens) == text;
      assert text[0..|text|] == text;
      ArgumentIsPlain(text, 0, tokens, 0);
    }
  }

  // ---------------------------------------------------------------- calls

  /** The text is a comma-separated list of written arguments, with whatever space around them. */
  ghost predicate WrittenList(body: string) {
    exists arguments: seq<string> :: arguments != [] && AllWritten(arguments) && body == Join(arguments, ',')
  }

  ghost predicate AllWritten(arguments: seq<string>) {
    forall i | 0 <= i < |arguments| :: Written(arguments[i])
  }

  lemma AllWrittenExactly(arguments: seq<string>)
    ensures AllWritten(arguments) <==> forall i | 0 <= i < |arguments| :: WellFormed(arguments[i])
  {
    forall i | 0 <= i < |arguments|
      ensures Written(arguments[i]) <==> WellFormed(arguments[i])
    {
      WellFormedExactly(arguments[i]);
    }
  }

  /** A call ends at exactly the parenthesis whose text since the opening one is a list of arguments. */
  lemma CallEndExactly(text: string, opening: nat, end: nat)
    requires opening < |text|
    ensures CallEnd(text, Cursor(opening + 1, None, 1)) == Some(end)
            <==> opening < end < |text| && text[end] == ')' && WrittenList(text[opening + 1..end])
  {
    if CallEnd(text, Cursor(opening + 1, None, 1)) == Some(end) {
      CallBodySplits(text, opening);
      var pieces := Pieces(text[opening + 1..end], OUTSIDE, 0);
      AllWrittenExactly(pieces);
    }
    if opening < end < |text| && text[end] == ')' && WrittenList(text[opening + 1..end]) {
      ListEndsCall(text, opening, end);
    }
  }

  lemma ListEndsCall(text: string, opening: nat, end: nat)
    requires opening < end < |text| && text[end] == ')' && WrittenList(text[opening + 1..end])
    ensures CallEnd(text, Cursor(opening + 1, None, 1)) == Some(end)
  {
    var body := text[opening + 1..end];
    var arguments :| arguments != [] && AllWritten(arguments) && body == Join(arguments, ',');
    AllWrittenExactly(arguments);
    JoinedIsBalanced(arguments, body, 0);
    BalancedEndsCall(text, opening + 1, end, Cursor(opening + 1, None, 1));
  }

  /** A list of written arguments splits into exactly those arguments, each stripped. */
  lemma ListSplits(arguments: seq<string>)
    requires arguments != [] && AllWritten(arguments)
    ensures StripAll(Pieces(Join(arguments, ','), OUTSIDE, 0)) == StripAll(arguments)
  {
    AllWrittenExactly(arguments);
    SplitJoined(arguments);
  }

  /** Stripping takes the white space off both ends, and nothing else. */
  lemma {:induction false} StripExactly(s: string) returns (before: string, after: string)
    ensures s == before + Strip(s) + after && Stripped(Strip(s))
    ensures forall i | 0 <= i < |before| :: IsSpace(before[i])
    ensures forall i | 0 <= i < |after| :: IsSpace(after[i])
  {
    before := StripsLeft(s);
    after := StripsRight(StripLeft(s));
    if Strip(s) != [] { assert Strip(s)[0] == StripLeft(s)[0]; }
  }

  lemma {:induction false} StripsLeft(s: string) returns (before: string)
    ensures s == before + StripLeft(s) && forall i | 0 <= i < |before| :: IsSpace(before[i])
    ensures StripLeft(s) != [] ==> !IsSpace(StripLeft(s)[0])
  {
    before := [];
    if s != [] && IsSpace(s[0]) {
      before := StripsLeft(s[1..]);
      before := [s[0]] + before;
    }
  }

  lemma {:induction false} StripsRight(s: string) returns (after: string)
    ensures s == StripRight(s) + after && forall i | 0 <= i < |after| :: IsSpace(after[i])
    ensures StripRight(s) != [] ==> !IsSpace(StripRight(s)[|StripRight(s)| - 1])
  {
    after := [];
    if s != [] && IsSpace(s[|s| - 1]) {
      after := StripsRight(s[..|s| - 1]);
      after := after + [s[|s| - 1]];
    }
  }
}
