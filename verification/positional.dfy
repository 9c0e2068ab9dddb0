/** An independent description of the canonical numerals: the thousands as a
    run of M, then one digit pattern for each of the hundreds, tens and units.
    The greedy walk over the table produces exactly this text. */
module Positional {
  import opened Wrappers
  import opened Numerals
  import opened Encode

  /** `k` copies of `c`. */
  function Repeat(c: char, k: nat): (s: string)
    ensures |s| == k
    ensures forall i :: 0 <= i < k ==> s[i] == c
  {
    if k == 0 then "" else [c] + Repeat(c, k - 1)
  }

  /** The numeral pattern of one decimal digit `d`, given the symbols for one,
      five and ten units of its position. */
  function DigitPattern(d: nat, one: char, five: char, ten: char): string
    requires d <= 9
  {
    if d == 9 then [one, ten]
    else if d >= 5 then [five] + Repeat(one, d - 5)
    else if d == 4 then [one, five]
    else Repeat(one, d)
  }

  /** The canonical numeral of `n`, digit by digit. */
  function PositionalNumeral(n: int): string
    requires 0 <= n <= 3999
  {
    var belowThousand := n % 1000;
    var belowHundred := belowThousand % 100;
    Repeat('M', n / 1000)
      + DigitPattern(belowThousand / 100, 'C', 'D', 'M')
      + DigitPattern(belowHundred / 10, 'X', 'L', 'C')
      + DigitPattern(belowHundred % 10, 'I', 'V', 'X')
  }

  /** `m` copies of table row `k`. */
  function Rows(k: nat, m: nat): (t: seq<Row>)
    requires k < |RomanMap|
    ensures |t| == m
  {
    if m == 0 then [] else [k] + Rows(k, m - 1)
  }

  /** The walk passes over a row whose value exceeds what is left. */
  lemma GreedySkip(n: nat, k: nat)
    requires k < |RomanMap| && n < RomanMap[k].value
    ensures Greedy(n, k) == Greedy(n, k + 1)
  {
  }

  /** The walk emits a row whose value fits in what is left, and stays on it. */
  lemma GreedyEmit(n: nat, k: nat)
    requires k < |RomanMap| && n >= RomanMap[k].value
    ensures Greedy(n, k) == [k] + Greedy(n - RomanMap[k].value, k)
  {
  }

  lemma PeelMultiple(m: nat, v: nat, r: nat)
    requires m > 0
    ensures m * v + r - v == (m - 1) * v + r && m * v + r >= v
  {
  }

  /** The walk emits row `k` once for every whole multiple of its value. */
  lemma {:induction false} GreedyRepeat(m: nat, r: nat, k: Row)
    ensures Greedy(m * RomanMap[k].value + r, k) == Rows(k, m) + Greedy(r, k)
  {
    var v := RomanMap[k].value;
    var n := m * v + r;
    if m > 0 {
      PeelMultiple(m, v, r);
      GreedyEmit(n, k);
      GreedyRepeat(m - 1, r, k);
      assert Rows(k, m) + Greedy(r, k) == [k] + (Rows(k, m - 1) + Greedy(r, k));
    } else {
      assert Rows(k, m) + Greedy(r, k) == Greedy(r, k);
    }
  }

  /** The rows the walk emits for digit `d` in the position whose rows start
      at `b` (nine units, five, four, one). */
  function DigitRows(d: nat, b: nat): (t: seq<Row>)
    requires d <= 9 && b + 3 < |RomanMap|
  {
    if d == 9 then [b]
    else if d >= 5 then [b + 1] + Rows(b + 3, d - 5)
    else if d == 4 then [b + 2]
    else Rows(b + 3, d)
  }

  /** A decimal position of the table: rows b..b+3 are worth 9, 5, 4 and 1
      units of `u`. */
  predicate IsDecade(b: nat, u: nat) {
    && b + 3 < |RomanMap|
    && RomanMap[b].value == 9 * u
    && RomanMap[b + 1].value == 5 * u
    && RomanMap[b + 2].value == 4 * u
    && RomanMap[b + 3].value == u
  }

  /** Below the one-unit row of a position, the walk moves straight on to
      the next position. */
  lemma PassDecade(r: nat, b: nat, u: nat)
    requires IsDecade(b, u) && r < u
    ensures Greedy(r, b) == Greedy(r, b + 4)
  {
    GreedySkip(r, b);
    GreedySkip(r, b + 1);
    GreedySkip(r, b + 2);
    GreedySkip(r, b + 3);
  }

  /** Digit 9: the nine-unit row once. */
  lemma GreedyNine(r: nat, b: nat, u: nat)
    requires IsDecade(b, u) && r < u
    ensures Greedy(9 * u + r, b) == DigitRows(9, b) + Greedy(r, b + 4)
  {
    GreedyEmit(9 * u + r, b);
    PassDecade(r, b, u);
  }

  /** Digits 5 to 8: the five-unit row, then one-unit rows. */
  lemma GreedyFiveToEight(d: nat, r: nat, b: nat, u: nat)
    requires 5 <= d <= 8 && IsDecade(b, u) && r < u
    ensures Greedy(d * u + r, b) == DigitRows(d, b) + Greedy(r, b + 4)
  {
    assert d * u + r == 5 * u + ((d - 5) * u + r) by {
      assert d * u == (d - 5) * u + 5 * u;
    }
    GreedyFivePlus(d - 5, r, b, u);
  }

  /** The five-unit row once, then `m` one-unit rows. */
  lemma GreedyFivePlus(m: nat, r: nat, b: nat, u: nat)
    requires m <= 3 && IsDecade(b, u) && r < u
    ensures Greedy(5 * u + (m * u + r), b) == [b + 1] + Rows(b + 3, m) + Greedy(r, b + 4)
  {
    var tail := Greedy(r, b + 4);
    assert m * u <= 3 * u;
    GreedyFive(m * u + r, b, u);
    assert Greedy(m * u + r, b + 3) == Rows(b + 3, m) + tail by {
      GreedyRepeat(m, r, b + 3);
      GreedySkip(r, b + 3);
    }
    assert [b + 1] + Rows(b + 3, m) + tail == [b + 1] + (Rows(b + 3, m) + tail);
  }

  /** The five-unit row once, after which the walk goes on from the one-unit
      row with the rest. */
  lemma GreedyFive(rest: nat, b: nat, u: nat)
    requires IsDecade(b, u) && rest < 4 * u
    ensures Greedy(5 * u + rest, b) == [b + 1] + Greedy(rest, b + 3)
  {
    GreedySkip(5 * u + rest, b);
    GreedyEmit(5 * u + rest, b + 1);
    GreedySkip(rest, b + 1);
    GreedySkip(rest, b + 2);
  }

  lemma GreedyFour(r: nat, b: nat, u: nat)
    requires IsDecade(b, u) && r < u
    ensures Greedy(4 * u + r, b) == DigitRows(4, b) + Greedy(r, b + 4)
  {
    GreedySkip(4 * u + r, b);
    GreedySkip(4 * u + r, b + 1);
    GreedyEmit(4 * u + r, b + 2);
    GreedySkip(r, b + 2);
    GreedySkip(r, b + 3);
  }

  /** Digits 0 to 3: that many one-unit rows. */
  lemma GreedyUpToThree(d: nat, r: nat, b: nat, u: nat)
    requires d <= 3 && IsDecade(b, u) && r < u
    ensures Greedy(d * u + r, b) == DigitRows(d, b) + Greedy(r, b + 4)
  {
    assert d * u + r < 4 * u;
    GreedySkip(d * u + r, b);
    GreedySkip(d * u + r, b + 1);
    GreedySkip(d * u + r, b + 2);
    GreedyRepeat(d, r, b + 3);
    GreedySkip(r, b + 3);
  }

  /** Over one decimal position the walk emits the digit's rows and moves on
      to the next position with only the lower digits left. */
  lemma GreedyDigit(d: nat, r: nat, b: nat, u: nat)
    requires d <= 9 && IsDecade(b, u) && r < u
    ensures Greedy(d * u + r, b) == DigitRows(d, b) + Greedy(r, b + 4)
  {
    if d == 9 {
      GreedyNine(r, b, u);
    } else if d >= 5 {
      GreedyFiveToEight(d, r, b, u);
    } else if d == 4 {
      GreedyFour(r, b, u);
    } else {
      GreedyUpToThree(d, r, b, u);
    }
  }

  /** Spelling `m` copies of a one-character row repeats its character. */
  lemma {:induction false} SpellRows(k: nat, m: nat)
    requires k < |RomanMap| && |RomanMap[k].symbol| == 1
    ensures Spell(Rows(k, m)) == Repeat(RomanMap[k].symbol[0], m)
  {
    if m > 0 {
      SpellRows(k, m - 1);
    }
  }

  /** The spelled rows of a digit are its digit pattern. */
  lemma SpellDigit(d: nat, b: nat)
    requires d <= 9 && b in {1, 5, 9}
    ensures Spell(DigitRows(d, b)) ==
      DigitPattern(d, RomanMap[b + 3].symbol[0], RomanMap[b + 1].symbol[0], RomanMap[b].symbol[1])
  {
    SpellRows(b + 3, d);
    if 5 <= d < 9 {
      SpellRows(b + 3, d - 5);
      SpellAppend([b + 1], Rows(b + 3, d - 5));
    }
  }

  /** The decimal digits of an integer in 0..3999. */
  lemma DecimalDigits(n: int) returns (a: nat, h: nat, t: nat, o: nat)
    requires 0 <= n <= 3999
    ensures a == n / 1000 && h == n % 1000 / 100 && t == n % 1000 % 100 / 10 && o == n % 1000 % 100 % 10
    ensures a <= 3 && h <= 9 && t <= 9 && o <= 9
    ensures n == 1000 * a + 100 * h + 10 * t + o
  {
    var r1 := n % 1000;
    var r2 := r1 % 100;
    a, h, t, o := n / 1000, r1 / 100, r2 / 10, r2 % 10;
    assert n == 1000 * a + r1;
    assert r1 == 100 * h + r2;
    assert r2 == 10 * t + o;
  }

  /** Below a thousand, the walk from the CM row emits the rows of the
      hundreds, tens and units digits in turn. */
  lemma GreedyBelowThousand(h: nat, t: nat, o: nat)
    requires h <= 9 && t <= 9 && o <= 9
    ensures Greedy(100 * h + 10 * t + o, 1) == DigitRows(h, 1) + DigitRows(t, 5) + DigitRows(o, 9)
  {
    assert IsDecade(1, 100) && IsDecade(5, 10) && IsDecade(9, 1);
    GreedyDigit(h, 10 * t + o, 1, 100);
    GreedyDigit(t, o, 5, 10);
    GreedyDigit(o, 0, 9, 1);
  }

  /** The greedy walk emits the thousands as M rows, then the rows of each
      lower digit in turn. */
  lemma GreedyByDigits(a: nat, h: nat, t: nat, o: nat)
    requires h <= 9 && t <= 9 && o <= 9
    ensures Greedy(1000 * a + 100 * h + 10 * t + o, 0) ==
      Rows(0, a) + DigitRows(h, 1) + DigitRows(t, 5) + DigitRows(o, 9)
  {
    var rest := 100 * h + 10 * t + o;
    GreedyRepeat(a, rest, 0);
    GreedySkip(rest, 0);
    GreedyBelowThousand(h, t, o);
  }

  /** Spelled out, those rows are the run of M followed by the three digit
      patterns. */
  lemma SpellByDigits(a: nat, h: nat, t: nat, o: nat)
    requires h <= 9 && t <= 9 && o <= 9
    ensures Spell(Rows(0, a) + DigitRows(h, 1) + DigitRows(t, 5) + DigitRows(o, 9)) ==
      Repeat('M', a) + DigitPattern(h, 'C', 'D', 'M') + DigitPattern(t, 'X', 'L', 'C') + DigitPattern(o, 'I', 'V', 'X')
  {
    SpellRows(0, a);
    SpellDigit(h, 1);
    SpellDigit(t, 5);
    SpellDigit(o, 9);
    SpellAppend(Rows(0, a), DigitRows(h, 1));
    SpellAppend(Rows(0, a) + DigitRows(h, 1), DigitRows(t, 5));
    SpellAppend(Rows(0, a) + DigitRows(h, 1) + DigitRows(t, 5), DigitRows(o, 9));
  }

  /** The greedy numeral of every integer in 1..3999 is its digit-by-digit
      numeral. */
  lemma GreedyIsPositional(n: int)
    requires 1 <= n <= 3999
    ensures IntToRoman(n) == Success(PositionalNumeral(n))
  {
    var a, h, t, o := DecimalDigits(n);
    GreedyByDigits(a, h, t, o);
    SpellByDigits(a, h, t, o);
  }
}
