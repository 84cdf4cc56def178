/** Decimal numerals and separated lists, with their round trips. */
module Text {
  function DigitChar(d: int): char
    requires 0 <= d < 10
  {
    (d + '0' as int) as char
  }

  predicate IsDigit(c: char) { '0' <= c <= '9' }

  predicate IsNumeral(s: string) {
    s != [] && forall i | 0 <= i < |s| :: IsDigit(s[i])
  }

  function Decimal(n: nat): string {
    if n < 10 then [DigitChar(n)] else Decimal(n / 10) + [DigitChar(n % 10)]
  }

  function NumeralValue(s: string): nat
    requires forall i | 0 <= i < |s| :: IsDigit(s[i])
  {
    if s == [] then 0
    else
      assert IsDigit(s[|s| - 1]);
      NumeralValue(s[..|s| - 1]) * 10 + (s[|s| - 1] as int - '0' as int)
  }

  lemma {:induction false} DecimalRoundTrip(n: nat)
    ensures IsNumeral(Decimal(n)) && NumeralValue(Decimal(n)) == n
  {
    if n >= 10 {
      DecimalRoundTrip(n / 10);
      assert Decimal(n)[..|Decimal(n)| - 1] == Decimal(n / 10);
    } else {
      assert NumeralValue([]) == 0;
    }
  }

  lemma {:induction false} NoLeadingZero(n: nat)
    ensures Decimal(n) != [] && (n > 0 ==> Decimal(n)[0] != '0') && (|Decimal(n)| > 1 ==> n > 0)
  {
    if n >= 10 { NoLeadingZero(n / 10); }
  }

  /** The position of the first `c` in `s`, or `|s|`. */
  function IndexOf(s: string, c: char): (i: nat)
    ensures i <= |s| && c !in s[..i] && (i < |s| ==> s[i] == c)
  {
    if s == [] || s[0] == c then 0 else
    assert s == [s[0]] + s[1..];
    1 + IndexOf(s[1..], c)
  }

  /** Python's `str.split` on a one-character separator: there is always at least one piece. */
  function Split(s: string, c: char): (pieces: seq<string>)
    ensures pieces != []
    decreases |s|
  {
    var i := IndexOf(s, c);
    if i == |s| then [s] else [s[..i]] + Split(s[i + 1..], c)
  }

  function Join(pieces: seq<string>, c: char): string
    requires pieces != []
  {
    if |pieces| == 1 then pieces[0] else pieces[0] + [c] + Join(pieces[1..], c)
  }

  lemma {:induction false} IndexOfSeparated(a: string, c: char, rest: string)
    requires c !in a
    ensures IndexOf(a, c) == |a|
    ensures IndexOf(a + [c] + rest, c) == |a|
  {
    if a != [] {
      IndexOfSeparated(a[1..], c, rest);
      assert (a + [c] + rest)[1..] == a[1..] + [c] + rest;
    }
  }

  /** Splitting a joined list of separator-free pieces returns the pieces. */
  lemma {:induction false} SplitJoin(pieces: seq<string>, c: char)
    requires pieces != [] && forall i | 0 <= i < |pieces| :: c !in pieces[i]
    ensures Split(Join(pieces, c), c) == pieces
  {
    var a := pieces[0];
    if |pieces| == 1 {
      IndexOfSeparated(a, c, []);
    } else {
      var rest := Join(pieces[1..], c);
      IndexOfSeparated(a, c, rest);
      SplitJoin(pieces[1..], c);
      assert (a + [c] + rest)[..|a|] == a && (a + [c] + rest)[|a| + 1..] == rest;
    }
  }

  // ---------------------------------------------------------------- white space

  /** The characters Python's `str.isspace` accepts. */
  predicate IsSpace(c: char) {
    || '\t' <= c <= '\r' || '\U{1c}' <= c <= ' '
    || c == '\U{85}' || c == '\U{a0}' || c == '\U{1680}' || '\U{2000}' <= c <= '\U{200a}'
    || c == '\U{2028}' || c == '\U{2029}' || c == '\U{202f}' || c == '\U{205f}' || c == '\U{3000}'
  }

  /** The 29 code points, one by one. */
  lemma SpacesExactly(c: char)
    ensures IsSpace(c) <==> c as int in {9, 10, 11, 12, 13, 28, 29, 30, 31, 32, 133, 160, 5760, 8192, 8193, 8194, 8195,
                                         8196, 8197, 8198, 8199, 8200, 8201, 8202, 8232, 8233, 8239, 8287, 12288}
  {}

  /** The length of the word a text starts with. */
  function WordLength(s: string): (n: nat)
    ensures n <= |s| && (forall i | 0 <= i < n :: !IsSpace(s[i])) && (n < |s| ==> IsSpace(s[n]))
  {
    if s == [] || IsSpace(s[0]) then 0 else 1 + WordLength(s[1..])
  }

  /** Python's `str.split` without a separator: the longest runs of characters that are no space. */
  function Words(s: string): seq<string>
    decreases |s|
  {
    if s == [] then []
    else if IsSpace(s[0]) then Words(s[1..])
    else
      assert WordLength(s) > 0;
      [s[..WordLength(s)]] + Words(s[WordLength(s)..])
  }

  predicate IsWord(s: string) {
    s != [] && forall i | 0 <= i < |s| :: !IsSpace(s[i])
  }

  lemma {:induction false} WordsAreWords(s: string)
    ensures forall i | 0 <= i < |Words(s)| :: IsWord(Words(s)[i])
    decreases |s|
  {
    if s != [] && IsSpace(s[0]) {
      WordsAreWords(s[1..]);
    } else if s != [] {
      WordsAreWords(s[WordLength(s)..]);
    }
  }

  lemma WordThenSpace(word: string, rest: string)
    requires IsWord(word) && (rest != [] ==> IsSpace(rest[0]))
    ensures WordLength(word + rest) == |word|
  {
    var s := word + rest;
    assert forall i | 0 <= i < |word| :: s[i] == word[i];
    assert rest != [] ==> s[|word|] == rest[0];
  }

  /** The words of a text of words separated by spaces are those words. */
  lemma {:induction false} WordsRoundTrip(words: seq<string>)
    requires words != [] && forall i | 0 <= i < |words| :: IsWord(words[i])
    ensures Words(Join(words, ' ')) == words
  {
    var word := words[0];
    if |words| == 1 {
      WordThenSpace(word, []);
      assert word + [] == word && word[|word|..] == [];
    } else {
      var rest := Join(words[1..], ' ');
      var s := Join(words, ' ');
      assert s == word + ([' '] + rest);
      WordThenSpace(word, [' '] + rest);
      assert s[..|word|] == word && s[|word|..] == [' '] + rest;
      assert ([' '] + rest)[1..] == rest;
      WordsRoundTrip(words[1..]);
      assert Words([' '] + rest) == Words(rest);
    }
  }
}
