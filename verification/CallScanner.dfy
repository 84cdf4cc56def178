/**
  The two scanners of one SQL function call: the one that finds its closing parenthesis and
  the one that splits its arguments (ergasterion/dialect_lint.py:141-198).
*/
module CallScanner {
  import opened Basics
  import opened Text

  /** Where a scan is: its position, the quote it is inside, and its parenthesis depth. */
  datatype Cursor = Cursor(index: nat, quote: Option<char>, depth: int)

  /** What both scanners do with one character, beside looking for the end or for commas. */
  function Advance(text: string, c: Cursor): (n: Cursor)
    requires c.index < |text|
    ensures c.index < n.index <= |text|
  {
    var ch, last := text[c.index], c.index + 1 == |text|;
    if c.quote.Some? then
      if ch == c.quote.value then
        if ch == '\'' && !last && text[c.index + 1] == '\'' then c.(index := c.index + 2)
        else c.(index := c.index + 1, quote := None)
      else if ch == '\\' && !last then c.(index := c.index + 2)
      else c.(index := c.index + 1)
    else if ch == '\'' || ch == '"' then c.(index := c.index + 1, quote := Some(ch))
    else if ch == '(' then c.(index := c.index + 1, depth := c.depth + 1)
    else if ch == ')' then c.(index := c.index + 1, depth := c.depth - 1)
    else c.(index := c.index + 1)
  }

  /** The first unquoted parenthesis that closes the call. */
  function CallEnd(text: string, c: Cursor): (e: Option<nat>)
    ensures e.Some? ==> c.index <= e.value < |text| && text[e.value] == ')'
    decreases |text| - c.index
  {
    if c.index >= |text| then None
    else if c.quote.None? && text[c.index] == ')' && c.depth == 1 then Some(c.index)
    else CallEnd(text, Advance(text, c))
  }

  predicate AtComma(body: string, c: Cursor) {
    c.index < |body| && c.quote.None? && body[c.index] == ',' && c.depth == 0
  }

  /** The text between top-level commas, unstripped. */
  function Pieces(body: string, c: Cursor, start: nat): (pieces: seq<string>)
    requires start <= c.index <= |body|
    ensures pieces != []
    decreases |body| - c.index
  {
    if c.index == |body| then [body[start..]]
    else if AtComma(body, c) then [body[start..c.index]] + Pieces(body, Advance(body, c), c.index + 1)
    else Pieces(body, Advance(body, c), start)
  }

  const OUTSIDE := Cursor(0, None, 0)

  // ---------------------------------------------------------------- stripping

  function StripLeft(s: string): string {
    if s != [] && IsSpace(s[0]) then StripLeft(s[1..]) else s
  }

  function StripRight(s: string): string {
    if s != [] && IsSpace(s[|s| - 1]) then StripRight(s[..|s| - 1]) else s
  }

  function Strip(s: string): string { StripRight(StripLeft(s)) }

  function StripAll(pieces: seq<string>): seq<string> {
    seq(|pieces|, i requires 0 <= i < |pieces| => Strip(pieces[i]))
  }

  predicate Stripped(s: string) {
    s != [] ==> !IsSpace(s[0]) && !IsSpace(s[|s| - 1])
  }

  // ---------------------------------------------------------------- the loops

  /** Find the matching close parenthesis while respecting quotes and nested calls. */
  method QuotedOrNestedCallEnd(text: string, opening: nat) returns (r: Option<nat>)
    requires opening < |text|
    ensures r == CallEnd(text, Cursor(opening + 1, None, 1))
  {
    var depth: int, quote: Option<char>, index := 1, None, opening + 1;
    while index < |text|
      invariant opening < index <= |text| && depth >= 1
      invariant CallEnd(text, Cursor(index, quote, depth)) == CallEnd(text, Cursor(opening + 1, None, 1))
      decreases |text| - index
    {
      var ch := text[index];
      if quote.Some? {
        if ch == quote.value {
          if quote.value == '\'' && index + 1 < |text| && text[index + 1] == '\'' {
            index := index + 2;
            continue;
          }
          quote := None;
        } else if ch == '\\' && index + 1 < |text| {
          index := index + 2;
          continue;
        }
      } else if ch == '\'' || ch == '"' {
        quote := Some(ch);
      } else if ch == '(' {
        depth := depth + 1;
      } else if ch == ')' {
        depth := depth - 1;
        if depth == 0 { return Some(index); }
      }
      index := index + 1;
    }
    return None;
  }

  /** Split one function body at commas outside quoted and nested expressions. */
  method TopLevelCallArguments(body: string) returns (arguments: seq<string>)
    ensures arguments == StripAll(Pieces(body, OUTSIDE, 0))
  {
    arguments := [];
    var start: nat, depth: int, quote: Option<char>, index: nat := 0, 0, None, 0;
    ghost var split: seq<string> := [];
    while index < |body|
      invariant start <= index <= |body|
      invariant arguments == StripAll(split)
      invariant split + Pieces(body, Cursor(index, quote, depth), start) == Pieces(body, OUTSIDE, 0)
      decreases |body| - index
    {
      var ch := body[index];
      ghost var c := Cursor(index, quote, depth);
      if quote.Some? {
        if ch == quote.value {
          if quote.value == '\'' && index + 1 < |body| && body[index + 1] == '\'' {
            index := index + 2;
            continue;
          }
          quote := None;
        } else if ch == '\\' && index + 1 < |body| {
          index := index + 2;
          continue;
        }
      } else if ch == '\'' || ch == '"' {
        quote := Some(ch);
      } else if ch == '(' {
        depth := depth + 1;
      } else if ch == ')' {
        depth := depth - 1;
      } else if ch == ',' && depth == 0 {
        ghost var rest := Pieces(body, Advance(body, c), index + 1);
        assert split + ([body[start..index]] + rest) == split + [body[start..index]] + rest;
        split := split + [body[start..index]];
        arguments := arguments + [Strip(body[start..index])];
        start := index + 1;
      }
      index := index + 1;
    }
    arguments := arguments + [Strip(body[start..])];
  }

  // ---------------------------------------------------------------- what they agree on

  /** Where a scan of the whole text ends. */
  function Final(text: string, c: Cursor): Cursor
    decreases |text| - c.index
  {
    if c.index >= |text| then c else Final(text, Advance(text, c))
  }

  predicate NeverNegative(text: string, c: Cursor)
    decreases |text| - c.index
  {
    c.depth >= 0 && (c.index >= |text| || NeverNegative(text, Advance(text, c)))
  }

  /** The same place seen from the start of a part of the text, some calls further out. */
  function Within(c: Cursor, offset: nat, calls: int): Cursor
    requires offset <= c.index
  {
    Cursor(c.index - offset, c.quote, c.depth - calls)
  }

  /** A part that ends at a comma, a parenthesis or the text's end is scanned as the text is. */
  lemma SameStep(text: string, offset: nat, end: nat, c: Cursor, calls: int)
    requires offset <= c.index < end <= |text| && (end < |text| ==> text[end] != '\'')
    ensures var n := Advance(text, c);
            if n.index <= end then Advance(text[offset..end], Within(c, offset, calls)) == Within(n, offset, calls)
            else c.quote.Some? && Advance(text[offset..end], Within(c, offset, calls))
                                  == Cursor(end - offset, c.quote, c.depth - calls)
  {
    var body := text[offset..end];
    assert body[c.index - offset] == text[c.index];
    if c.index + 1 < end {
      assert body[c.index + 1 - offset] == text[c.index + 1];
    }
  }

  /**
    The scanners move in lockstep: on the body of a call whose end was found, the splitter's
    scan ends unquoted at depth zero and never goes below zero.
  */
  lemma {:induction false} Lockstep(text: string, offset: nat, c: Cursor)
    requires offset <= c.index && c.depth >= 1 && CallEnd(text, c).Some?
    ensures var body := text[offset..CallEnd(text, c).value];
            && Final(body, Within(c, offset, 1)) == Cursor(|body|, None, 0)
            && NeverNegative(body, Within(c, offset, 1))
    decreases |text| - c.index
  {
    var end := CallEnd(text, c).value;
    if !(c.quote.None? && text[c.index] == ')' && c.depth == 1) {
      SameStep(text, offset, end, c, 1);
      Lockstep(text, offset, Advance(text, c));
    }
  }

  /** A found call's body, for the call's opening parenthesis. */
  lemma CallBodyIsBalanced(text: string, opening: nat)
    requires opening < |text| && CallEnd(text, Cursor(opening + 1, None, 1)).Some?
    ensures var body := text[opening + 1..CallEnd(text, Cursor(opening + 1, None, 1)).value];
            Final(body, OUTSIDE) == Cursor(|body|, None, 0) && NeverNegative(body, OUTSIDE)
  {
    Lockstep(text, opening + 1, Cursor(opening + 1, None, 1));
  }

  /** The unstripped pieces rejoin to the body they were split from. */
  lemma {:induction false} PiecesRejoin(body: string, c: Cursor, start: nat)
    requires start <= c.index <= |body|
    ensures Join(Pieces(body, c, start), ',') == body[start..]
    decreases |body| - c.index
  {
    if c.index < |body| {
      if AtComma(body, c) {
        var rest := Pieces(body, Advance(body, c), c.index + 1);
        PiecesRejoin(body, Advance(body, c), c.index + 1);
        assert ([body[start..c.index]] + rest)[1..] == rest;
        assert body[start..] == body[start..c.index] + [','] + body[c.index + 1..];
      } else {
        PiecesRejoin(body, Advance(body, c), start);
      }
    }
  }

  // ---------------------------------------------------------------- well-formed arguments

  /** From here to its end the text meets no top-level comma, stays balanced and ends outside. */
  predicate Plain(text: string, c: Cursor)
    decreases |text| - c.index
  {
    && c.depth >= 0
    && if c.index >= |text| then c == Cursor(|text|, None, 0)
       else !AtComma(text, c) && Plain(text, Advance(text, c))
  }

  predicate WellFormed(argument: string) { Plain(argument, OUTSIDE) }

  /** Seen inside a longer text that goes on with a comma, a well-formed argument scans alike. */
  lemma PlainStep(argument: string, body: string, start: nat, c: Cursor)
    requires start + |argument| <= |body| && body[start..start + |argument|] == argument
    requires start + |argument| < |body| ==> body[start + |argument|] == ','
    requires c.index < |argument| && Plain(argument, c)
    ensures var shifted := c.(index := start + c.index);
            var next := Advance(argument, c);
            && !AtComma(body, shifted)
            && Advance(body, shifted) == next.(index := start + next.index)
  {
    var shifted := c.(index := start + c.index);
    SameStep(body, start, start + |argument|, shifted, 0);
    assert body[start + c.index] == argument[c.index];
    assert Plain(argument, Advance(argument, c));
  }

  /** The splitter passes over a well-formed argument to the comma or the end after it. */
  lemma {:induction false} PiecesOfPlain(argument: string, body: string, start: nat, c: Cursor)
    requires start + |argument| <= |body| && body[start..start + |argument|] == argument
    requires start + |argument| < |body| ==> body[start + |argument|] == ','
    requires c.index <= |argument| && Plain(argument, c)
    ensures Pieces(body, c.(index := start + c.index), start)
            == Pieces(body, Cursor(start + |argument|, None, 0), start)
    decreases |argument| - c.index
  {
    if c.index < |argument| {
      PlainStep(argument, body, start, c);
      PiecesOfPlain(argument, body, start, Advance(argument, c));
    }
  }

  lemma JoinHead(body: string, start: nat, first: string, rest: string)
    requires start <= |body| && body[start..] == first + [','] + rest
    ensures start + |first| < |body| && body[start..start + |first|] == first && body[start + |first|] == ','
    ensures body[start + |first| + 1..] == rest
  {
    var tail := first + [','] + rest;
    assert |body| - start == |tail|;
    assert tail[..|first|] == first && tail[|first|] == ',' && tail[|first| + 1..] == rest;
    assert body[start..start + |first|] == body[start..][..|first|];
    assert body[start + |first|] == body[start..][|first|];
    assert body[start + |first| + 1..] == body[start..][|first| + 1..];
  }

  lemma {:induction false} SplitFrom(pieces: seq<string>, body: string, start: nat)
    requires pieces != [] && forall i | 0 <= i < |pieces| :: WellFormed(pieces[i])
    requires start <= |body| && body[start..] == Join(pieces, ',')
    ensures Pieces(body, Cursor(start, None, 0), start) == pieces
    decreases |pieces|
  {
    var first := pieces[0];
    assert WellFormed(first);
    if |pieces| == 1 {
      assert body[start..start + |first|] == first;
      PiecesOfPlain(first, body, start, OUTSIDE);
    } else {
      JoinHead(body, start, first, Join(pieces[1..], ','));
      PiecesOfPlain(first, body, start, OUTSIDE);
      SplitFrom(pieces[1..], body, start + |first| + 1);
      assert pieces == [first] + pieces[1..];
    }
  }

  /** Splitting the comma-join of well-formed pieces returns the pieces. */
  lemma SplitJoined(pieces: seq<string>)
    requires pieces != [] && forall i | 0 <= i < |pieces| :: WellFormed(pieces[i])
    ensures Pieces(Join(pieces, ','), OUTSIDE, 0) == pieces
  {
    SplitFrom(pieces, Join(pieces, ','), 0);
  }

  lemma StrippedStays(s: string)
    requires Stripped(s)
    ensures Strip(s) == s
  {}

  /** The arguments of a joined list of well-formed stripped arguments are the arguments. */
  lemma ArgumentsRoundTrip(arguments: seq<string>)
    requires arguments != [] && forall i | 0 <= i < |arguments| :: WellFormed(arguments[i]) && Stripped(arguments[i])
    ensures StripAll(Pieces(Join(arguments, ','), OUTSIDE, 0)) == arguments
  {
    SplitJoined(arguments);
    forall i | 0 <= i < |arguments|
      ensures Strip(arguments[i]) == arguments[i]
    {
      StrippedStays(arguments[i]);
    }
  }

  /** The first piece runs from its start to the next split or to the end of the body. */
  lemma {:induction false} FirstPiece(body: string, c: Cursor, start: nat)
    requires start <= c.index <= |body|
    ensures var first := Pieces(body, c, start)[0];
            && c.index <= start + |first| <= |body| && body[start..start + |first|] == first
            && (start + |first| < |body| ==> body[start + |first|] == ',')
    decreases |body| - c.index
  {
    if c.index < |body| && !AtComma(body, c) {
      FirstPiece(body, Advance(body, c), start);
    }
  }

  /** Where the piece stays plain after a step of the body's scan, it takes the same step. */
  lemma PieceStep(body: string, c: Cursor, start: nat, first: string)
    requires start <= c.index < start + |first| <= |body| && body[start..start + |first|] == first
    requires start + |first| < |body| ==> body[start + |first|] == ','
    requires !AtComma(body, c) && c.depth >= 0 && start <= Advance(body, c).index
    requires Plain(first, Advance(body, c).(index := Advance(body, c).index - start))
    ensures Plain(first, c.(index := c.index - start))
  {
    var n := Advance(body, c);
    SameStep(body, start, start + |first|, c, 0);
    assert first[c.index - start] == body[c.index];
    assert n.index <= start + |first|;
    assert Within(n, start, 0) == n.(index := n.index - start);
    assert Within(c, start, 0) == c.(index := c.index - start);
    assert first == body[start..start + |first|];
  }

  lemma FirstPieceIsPlain(body: string, c: Cursor, start: nat)
    requires start <= c.index < |body| && !AtComma(body, c) && c.depth >= 0
    requires start <= Advance(body, c).index <= |body|
    requires var n := Advance(body, c); Plain(Pieces(body, n, start)[0], n.(index := n.index - start))
    ensures Plain(Pieces(body, c, start)[0], c.(index := c.index - start))
  {
    FirstPiece(body, Advance(body, c), start);
    PieceStep(body, c, start, Pieces(body, c, start)[0]);
  }

  lemma {:induction false} PiecesArePlain(body: string, c: Cursor, start: nat)
    requires start <= c.index <= |body| && NeverNegative(body, c) && Final(body, c) == Cursor(|body|, None, 0)
    ensures Plain(Pieces(body, c, start)[0], c.(index := c.index - start))
    ensures forall i | 1 <= i < |Pieces(body, c, start)| :: WellFormed(Pieces(body, c, start)[i])
    decreases |body| - c.index
  {
    if c.index < |body| {
      var n := Advance(body, c);
      if AtComma(body, c) {
        PiecesArePlain(body, n, c.index + 1);
      } else {
        PiecesArePlain(body, n, start);
        FirstPieceIsPlain(body, c, start);
      }
    }
  }

  /**
    The body of every found call splits into well-formed pieces that rejoin to it, so
    splitting and joining undo each other on exactly such bodies.
  */
  lemma CallBodySplits(text: string, opening: nat)
    requires opening < |text| && CallEnd(text, Cursor(opening + 1, None, 1)).Some?
    ensures var body := text[opening + 1..CallEnd(text, Cursor(opening + 1, None, 1)).value];
            && Join(Pieces(body, OUTSIDE, 0), ',') == body
            && forall i | 0 <= i < |Pieces(body, OUTSIDE, 0)| :: WellFormed(Pieces(body, OUTSIDE, 0)[i])
  {
    var body := text[opening + 1..CallEnd(text, Cursor(opening + 1, None, 1)).value];
    CallBodyIsBalanced(text, opening);
    PiecesArePlain(body, OUTSIDE, 0);
    PiecesRejoin(body, OUTSIDE, 0);
  }

  /** The converse of the lockstep: a balanced body ends where its closing parenthesis stands. */
  lemma {:induction false} BalancedEndsCall(text: string, offset: nat, end: nat, c: Cursor)
    requires offset <= c.index <= end < |text| && text[end] == ')'
    requires var body := text[offset..end];
             && NeverNegative(body, Within(c, offset, 1))
                && Final(body, Within(c, offset, 1)) == Cursor(|body|, None, 0)
    ensures CallEnd(text, c) == Some(end)
    decreases |text| - c.index
  {
    var body, inner := text[offset..end], Within(c, offset, 1);
    if c.index < end {
      SameStep(text, offset, end, c, 1);
      var n := Advance(body, inner);
      assert body[inner.index] == text[c.index];
      assert n.index == |body| ==> Final(body, n) == n;
      BalancedEndsCall(text, offset, end, Advance(text, c));
    }
  }

  /** Past a well-formed argument, the scan of the whole text is where it would be after it. */
  lemma {:induction false} FinalOfPlain(argument: string, body: string, start: nat, c: Cursor)
    requires start + |argument| <= |body| && body[start..start + |argument|] == argument
    requires start + |argument| < |body| ==> body[start + |argument|] == ','
    requires c.index <= |argument| && Plain(argument, c)
    ensures Final(body, c.(index := start + c.index)) == Final(body, Cursor(start + |argument|, None, 0))
    ensures NeverNegative(body, Cursor(start + |argument|, None, 0))
            ==> NeverNegative(body, c.(index := start + c.index))
    decreases |argument| - c.index
  {
    if c.index < |argument| {
      PlainStep(argument, body, start, c);
      FinalOfPlain(argument, body, start, Advance(argument, c));
    }
  }

  lemma {:induction false} JoinedIsBalanced(pieces: seq<string>, body: string, start: nat)
    requires pieces != [] && forall i | 0 <= i < |pieces| :: WellFormed(pieces[i])
    requires start <= |body| && body[start..] == Join(pieces, ',')
    ensures Final(body, Cursor(start, None, 0)) == Cursor(|body|, None, 0)
            && NeverNegative(body, Cursor(start, None, 0))
    decreases |pieces|
  {
    var first := pieces[0];
    assert WellFormed(first);
    if |pieces| == 1 {
      assert body[start..start + |first|] == first;
      FinalOfPlain(first, body, start, OUTSIDE);
    } else {
      JoinHead(body, start, first, Join(pieces[1..], ','));
      FinalOfPlain(first, body, start, OUTSIDE);
      JoinedIsBalanced(pieces[1..], body, start + |first| + 1);
    }
  }

  /**
    Writing well-formed stripped arguments into a call and scanning the call finds its own
    closing parenthesis and returns the arguments, whatever text follows.
  */
  lemma CallRoundTrip(before: string, arguments: seq<string>, after: string)
    requires arguments != [] && forall i | 0 <= i < |arguments| :: WellFormed(arguments[i]) && Stripped(arguments[i])
    ensures var body := Join(arguments, ',');
            var text := before + ['('] + body + [')'] + after;
            && CallEnd(text, Cursor(|before| + 1, None, 1)) == Some(|before| + 1 + |body|)
            && text[|before| + 1..|before| + 1 + |body|] == body
            && StripAll(Pieces(body, OUTSIDE, 0)) == arguments
  {
    var body := Join(arguments, ',');
    var text := before + ['('] + body + [')'] + after;
    var offset, end := |before| + 1, |before| + 1 + |body|;
    assert text[offset..end] == body && text[end] == ')';
    JoinedIsBalanced(arguments, body, 0);
    BalancedEndsCall(text, offset, end, Cursor(offset, None, 1));
    ArgumentsRoundTrip(arguments);
  }
}
