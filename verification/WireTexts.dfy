/**
  The numbers a contract spells as text
  (ergasterion/framework/landing_contract.py:84-87), by the numbers they stand for.
*/
module WireTexts {
  import opened Basics
  import opened Text
  import opened Acceptance

  /** A whole number as it is written: its numeral, behind a minus where it is negative. */
  function IntegerText(n: int): string {
    if n >= 0 then Decimal(n) else "-" + Decimal(-n)
  }

  /** Without leading zeros a number is written in one way. */
  lemma {:induction false} NumeralOfValue(s: string)
    requires IsCount(s)
    ensures s == Decimal(NumeralValue(s))
  {
    var n := |s| - 1;
    if n == 0 {
      assert s[..0] == [] && NumeralValue(s) == s[0] as int - '0' as int;
      assert s == [s[0]];
    } else {
      var init := s[..n];
      NumeralOfValue(init);
      NumeralPositive(init);
      var d := s[n] as int - '0' as int;
      assert 0 <= d < 10 by { assert IsDigit(s[n]); }
      assert NumeralValue(s) == NumeralValue(init) * 10 + d;
      assert s == init + [s[n]] && DigitChar(d) == s[n];
    }
  }

  lemma {:induction false} NumeralPositive(s: string)
    requires IsNumeral(s) && s[0] != '0'
    ensures NumeralValue(s) > 0
  {
    var n := |s| - 1;
    assert IsDigit(s[0]) && IsDigit(s[n]);
    if n > 0 { NumeralPositive(s[..n]); }
  }

  lemma DecimalCounts(n: nat)
    ensures IsCount(Decimal(n)) && (n > 0 ==> Decimal(n)[0] != '0')
  {
    DecimalRoundTrip(n);
    NoLeadingZero(n);
  }

  /** A text spells a count exactly when it is the numeral of a number. */
  lemma CountExactly(s: string)
    ensures IsCount(s) <==> exists n: nat :: s == Decimal(n)
  {
    if IsCount(s) { NumeralOfValue(s); }
    if n: nat :| s == Decimal(n) { DecimalCounts(n); }
  }

  /** A text spells an integer exactly when some integer is written so; zero has no sign. */
  lemma IntegerExactly(s: string)
    ensures IsInteger(s) <==> exists n :: s == IntegerText(n)
  {
    if IsCount(s) {
      NumeralOfValue(s);
      assert s == IntegerText(NumeralValue(s));
    } else if IsInteger(s) {
      NegativeText(s);
    }
    if n :| s == IntegerText(n) { TextIsInteger(n); }
  }

  lemma NegativeText(s: string)
    requires s != [] && s[0] == '-' && IsCount(s[1..]) && s[1..] != "0"
    ensures var v: int := NumeralValue(s[1..]); s == IntegerText(-v)
  {
    NumeralOfValue(s[1..]);
    assert Decimal(0) == "0";
    assert s == [s[0]] + s[1..];
  }

  lemma TextIsInteger(n: int)
    ensures IsInteger(IntegerText(n))
  {
    if n >= 0 {
      DecimalCounts(n);
    } else {
      DecimalCounts(-n);
      assert IntegerText(n)[1..] == Decimal(-n) && Decimal(-n)[0] != '0';
    }
  }

  /** The optional minus, the whole part and, after a point, the digits of a fraction. */
  predicate SpellsDecimal(s: string, sign: string, n: nat, fraction: string) {
    && sign in {"", "-"}
    && (s == sign + Decimal(n) || (IsNumeral(fraction) && s == sign + Decimal(n) + ("." + fraction)))
  }

  lemma DecimalExactly(s: string)
    ensures IsDecimal(s) <==> exists sign, n: nat, fraction :: SpellsDecimal(s, sign, n, fraction)
  {
    if IsDecimal(s) { DecimalSpelt(s); }
    if sign, n: nat, fraction :| SpellsDecimal(s, sign, n, fraction) { SpeltIsDecimal(s, sign, n, fraction); }
  }

  lemma DecimalSpelt(s: string)
    requires IsDecimal(s)
    ensures exists sign, n: nat, fraction :: SpellsDecimal(s, sign, n, fraction)
  {
    var sign := if s != [] && s[0] == '-' then "-" else "";
    var unsigned := s[|sign|..];
    assert s == sign + unsigned;
    var n, fraction := UnsignedSpelt(unsigned);
    if unsigned != Decimal(n) { ConcatAssociates(sign, Decimal(n), "." + fraction); }
    assert SpellsDecimal(s, sign, n, fraction);
  }

  lemma UnsignedSpelt(unsigned: string) returns (n: nat, fraction: string)
    requires var point := IndexOf(unsigned, '.');
             IsCount(unsigned[..point]) && (point < |unsigned| ==> IsNumeral(unsigned[point + 1..]))
    ensures unsigned == Decimal(n) || (IsNumeral(fraction) && unsigned == Decimal(n) + ("." + fraction))
  {
    var point := IndexOf(unsigned, '.');
    n := NumeralValue(unsigned[..point]);
    NumeralOfValue(unsigned[..point]);
    if point < |unsigned| {
      fraction := unsigned[point + 1..];
      assert unsigned == unsigned[..point] + ("." + fraction);
    } else {
      fraction := "";
      assert unsigned[..point] == unsigned;
    }
  }

  lemma SpeltIsDecimal(s: string, sign: string, n: nat, fraction: string)
    requires SpellsDecimal(s, sign, n, fraction)
    ensures IsDecimal(s)
  {
    DecimalCounts(n);
    var unsigned := if s == sign + Decimal(n) then Decimal(n) else Decimal(n) + ("." + fraction);
    assert s == sign + unsigned;
    Parts(sign, unsigned);
    assert unsigned[0] == Decimal(n)[0] && unsigned[0] != '-';
    SpeltUnsigned(unsigned, n, fraction);
  }

  lemma SpeltUnsigned(unsigned: string, n: nat, fraction: string)
    requires unsigned == Decimal(n) || (IsNumeral(fraction) && unsigned == Decimal(n) + ("." + fraction))
    ensures var point := IndexOf(unsigned, '.');
            unsigned[..point] == Decimal(n) && (point < |unsigned| ==> IsNumeral(unsigned[point + 1..]))
  {
    DecimalCounts(n);
    PointAfter(Decimal(n), fraction);
  }

  lemma PointAfter(whole: string, fraction: string)
    requires '.' !in whole
    ensures var s := whole + ("." + fraction);
            IndexOf(s, '.') == |whole| && s[..|whole|] == whole && s[|whole| + 1..] == fraction
    ensures IndexOf(whole, '.') == |whole| && whole[..|whole|] == whole
  {
    IndexOfSeparated(whole, '.', fraction);
    ConcatAssociates(whole, ".", fraction);
    Parts(whole, "." + fraction);
    Parts(whole + ".", fraction);
  }

  lemma Parts(a: string, b: string)
    ensures (a + b)[..|a|] == a && (a + b)[|a|..] == b
  {}
}
