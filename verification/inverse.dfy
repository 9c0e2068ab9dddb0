/** How the two directions fit together: every canonical numeral decodes to
    its value, and decoding accepts exactly the canonical numerals. */
module Inverse {
  import opened Wrappers
  import opened Numerals
  import opened Encode
  import opened Decode
  import opened Positional

  /** The scan reads a subtractive pair in one step. */
  lemma ScanPair(a: char, b: char, rest: string)
    requires PairValue(a, b).Some?
    ensures Scan([a, b] + rest) == Plus(PairValue(a, b).value, Scan(rest))
  {
    assert ([a, b] + rest)[2..] == rest;
  }

  /** The scan reads a base symbol in one step, provided what follows does not
      start a pair with it. */
  lemma ScanSingle(c: char, rest: string)
    requires c in RomanValues
    requires |rest| > 0 ==> PairValue(c, rest[0]).None?
    ensures Scan([c] + rest) == Plus(RomanValues[c], Scan(rest))
  {
    var u := [c] + rest;
    assert u[0] == c && u[1..] == rest;
    if |rest| > 0 {
      assert u[1] == rest[0];
      assert PairValue(u[0], u[1]).None?;
    }
  }

  /** Tokens spelled in table order are read back one token at a time by the
      scan, so it finds exactly their total. */
  lemma {:induction false} ScanSpell(t: seq<Row>)
    requires Sorted(t)
    ensures Scan(Spell(t)) == Some(Total(t))
  {
    if |t| > 0 {
      var rest := t[1..];
      ScanSpell(rest);
      EntryMeaning(t[0]);
      var sym := RomanMap[t[0]].symbol;
      if |sym| == 2 {
        assert sym == [sym[0], sym[1]];
        ScanPair(sym[0], sym[1], Spell(rest));
      } else {
        if |rest| > 0 {
          NoPairAcross(t[0], rest[0]);
          SpellShape(rest);
        }
        assert sym == [sym[0]];
        ScanSingle(sym[0], Spell(rest));
      }
    }
  }

  /** Decoding the numeral of any integer in 1..3999 gives back that integer. */
  lemma RoundTrip(n: int)
    requires 1 <= n <= 3999
    ensures IntToRoman(n).Success?
    ensures RomanToInt(IntToRoman(n).value) == Success(n)
  {
    var t := Greedy(n, 0);
    GreedyShape(n);
    GreedySorted(n, 0);
    ScanSpell(t);
    SpellShape(t);
    UpperOfNumeral(Spell(t));
  }

  /** The exact acceptance set: a string decodes successfully if and only if,
      upper-cased, it is the numeral of some integer in 1..3999; and then it
      decodes to that integer. */
  lemma AcceptedExactly(s: string)
    ensures RomanToInt(s).Success? <==> exists v :: 1 <= v <= 3999 && IntToRoman(v) == Success(Upper(s))
    ensures forall v :: 1 <= v <= 3999 && IntToRoman(v) == Success(Upper(s)) ==> RomanToInt(s) == Success(v)
  {
    forall v | 1 <= v <= 3999 && IntToRoman(v) == Success(Upper(s))
      ensures RomanToInt(s) == Success(v)
    {
      RoundTrip(v);
      CaseInsensitive(s);
    }
  }

  /** The other direction of the round trip: a numeral produced by the
      encoder decodes to a value that encodes back to the same numeral. */
  lemma EncodeAfterDecode(n: int)
    requires 1 <= n <= 3999
    ensures IntToRoman(n).Success?
    ensures var s := IntToRoman(n).value;
      RomanToInt(s).Success? && IntToRoman(RomanToInt(s).value) == Success(s)
  {
    RoundTrip(n);
  }

  /** Distinct integers have distinct numerals. */
  lemma NumeralsDistinct(v: int, w: int)
    requires 1 <= v <= 3999 && 1 <= w <= 3999 && v != w
    ensures IntToRoman(v) != IntToRoman(w)
  {
    RoundTrip(v);
    RoundTrip(w);
  }

  /** Worked examples: 1994 in both directions, out-of-range inputs, and
      three non-canonical strings. */
  lemma Example1994()
    ensures IntToRoman(1994) == Success("MCMXCIV")
  {
    GreedyIsPositional(1994);
    assert DigitPattern(9, 'C', 'D', 'M') == "CM";
    assert DigitPattern(9, 'X', 'L', 'C') == "XC";
    assert DigitPattern(4, 'I', 'V', 'X') == "IV";
    assert Repeat('M', 1) == "M";
    assert PositionalNumeral(1994) == "M" + "CM" + "XC" + "IV" == "MCMXCIV";
  }

  lemma ExampleLower()
    ensures RomanToInt("mcmxciv") == Success(1994)
  {
    Example1994();
    RoundTrip(1994);
    CaseInsensitive("mcmxciv");
    assert Upper("mcmxciv") == "MCMXCIV";
  }

  lemma ExampleOutOfRange()
    ensures IntToRoman(0).Failure? && IntToRoman(4000).Failure? && IntToRoman(-5).Failure?
  {
  }

  lemma ExampleFour()
    ensures IntToRoman(4) == Success("IV")
  {
    assert PositionalNumeral(4) == "IV" by {
      assert DigitPattern(0, 'C', 'D', 'M') == DigitPattern(0, 'X', 'L', 'C') == "";
      assert DigitPattern(4, 'I', 'V', 'X') == "IV";
    }
    GreedyIsPositional(4);
  }

  lemma ExampleTen()
    ensures IntToRoman(10) == Success("X")
  {
    assert PositionalNumeral(10) == "X" by {
      assert DigitPattern(0, 'C', 'D', 'M') == DigitPattern(0, 'I', 'V', 'X') == "";
      assert DigitPattern(1, 'X', 'L', 'C') == "X";
    }
    GreedyIsPositional(10);
  }

  lemma ExampleHundredOne()
    ensures IntToRoman(101) == Success("CI")
  {
    assert PositionalNumeral(101) == "CI" by {
      assert DigitPattern(0, 'X', 'L', 'C') == "";
      assert DigitPattern(1, 'C', 'D', 'M') == "C";
      assert DigitPattern(1, 'I', 'V', 'X') == "I";
    }
    GreedyIsPositional(101);
  }

  /** A run of one base symbol is never read as a pair, so the scan simply
      adds up its copies, however many there are. */
  lemma {:induction false} ScanRun(c: char, m: nat)
    requires c in RomanValues
    ensures Scan(Repeat(c, m)) == Some(m * RomanValues[c])
  {
    if m > 0 {
      ScanRun(c, m - 1);
      var rest := Repeat(c, m - 1);
      assert Repeat(c, m) == [c] + rest;
      assert |rest| > 0 ==> rest[0] == c;
      ScanSingle(c, rest);
      assert m * RomanValues[c] == RomanValues[c] + (m - 1) * RomanValues[c];
    } else {
      assert Repeat(c, m) == "";
    }
  }

  /** A string whose scan total has a different numeral is rejected. */
  lemma NotCanonicalRejected(s: string, v: nat, numeral: string)
    requires Scan(Upper(s)) == Some(v) && IntToRoman(v) == Success(numeral) && numeral != Upper(s)
    ensures RomanToInt(s) == Failure(MalformedNumeral)
  {
  }

  /** "IIII" sums to 4, whose numeral is IV: rejected as non-canonical. */
  lemma ExampleFourOnes()
    ensures RomanToInt("IIII").Failure?
  {
    assert Upper("IIII") == "IIII" by { UpperOfNumeral("IIII"); }
    assert Scan("IIII") == Some(4) by {
      ScanRun('I', 4);
      assert Repeat('I', 4) == "IIII";
    }
    ExampleFour();
    NotCanonicalRejected("IIII", 4, "IV");
  }

  /** "VV" sums to 10, whose numeral is X: rejected as non-canonical. */
  lemma ExampleTwoFives()
    ensures RomanToInt("VV").Failure?
  {
    assert Upper("VV") == "VV" by { UpperOfNumeral("VV"); }
    assert Scan("VV") == Some(10) by {
      ScanRun('V', 2);
      assert Repeat('V', 2) == "VV";
    }
    ExampleTen();
    NotCanonicalRejected("VV", 10, "X");
  }

  /** I before C is not a subtractive pair, so "IC" sums to 101, whose
      numeral is CI: rejected as non-canonical. */
  lemma ExampleOneBeforeHundred()
    ensures RomanToInt("IC").Failure?
  {
    ExampleHundredOne();
    assert Upper("IC") == "IC" by { UpperOfNumeral("IC"); }
    assert Scan("IC") == Some(101);
    NotCanonicalRejected("IC", 101, "CI");
  }
}
