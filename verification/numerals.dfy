/** The two constant tables of the converter (app.py:8-19), the error kinds it
    reports, and the "token" view of a numeral: a sequence of row indices into
    the greedy table, spelled out by concatenating the rows' symbols. */
module Numerals {
  import opened Wrappers

  /** The ways a conversion or a form submission can fail. The source reports
      each as a message string; only the kind matters here. */
  datatype Error =
    | EmptyInput             // nothing was typed into the form
    | InvalidConversionType  // the direction selector is neither to_roman nor to_int
    | NotAnInteger           // the to_roman input did not parse as an integer
    | OutOfRange             // integer outside 1..3999
    | MalformedNumeral       // unknown character or non-canonical numeral

  /** A row of the greedy table: a value and the numeral text that spells it. */
  datatype Entry = Entry(value: nat, symbol: string)

  /** The greedy table, strictly descending by value: the seven base symbols
      interleaved with the six subtractive pairs. */
  const RomanMap: seq<Entry> := [
    Entry(1000, "M"), Entry(900, "CM"), Entry(500, "D"), Entry(400, "CD"),
    Entry(100, "C"), Entry(90, "XC"), Entry(50, "L"), Entry(40, "XL"),
    Entry(10, "X"), Entry(9, "IX"), Entry(5, "V"), Entry(4, "IV"),
    Entry(1, "I")
  ]

  /** The value of each of the seven base symbols. */
  const RomanValues: map<char, nat> :=
    map['I' := 1, 'V' := 5, 'X' := 10, 'L' := 50, 'C' := 100, 'D' := 500, 'M' := 1000]

  /** The value the scanner adds for a two-character subtractive pair, or None
      when the two characters are not one of CM, CD, XC, XL, IX, IV. A pair is
      always a smaller base symbol before a larger one and is worth their
      difference. */
  function PairValue(a: char, b: char): (r: Option<nat>)
    ensures r.Some? ==> a in RomanValues && b in RomanValues
    ensures r.Some? ==> RomanValues[a] < RomanValues[b] && r.value == RomanValues[b] - RomanValues[a]
  {
    if a == 'C' && b == 'M' then Some(900)
    else if a == 'C' && b == 'D' then Some(400)
    else if a == 'X' && b == 'C' then Some(90)
    else if a == 'X' && b == 'L' then Some(40)
    else if a == 'I' && b == 'X' then Some(9)
    else if a == 'I' && b == 'V' then Some(4)
    else None
  }

  /** The pairs the scanner recognises are exactly the two-character rows of
      the greedy table. */
  lemma PairsAreRows(a: char, b: char)
    ensures PairValue(a, b).Some? <==> exists k: Row :: RomanMap[k].symbol == [a, b]
  {
    if a == 'C' && b == 'M' { assert RomanMap[1].symbol == [a, b]; }
    else if a == 'C' && b == 'D' { assert RomanMap[3].symbol == [a, b]; }
    else if a == 'X' && b == 'C' { assert RomanMap[5].symbol == [a, b]; }
    else if a == 'X' && b == 'L' { assert RomanMap[7].symbol == [a, b]; }
    else if a == 'I' && b == 'X' { assert RomanMap[9].symbol == [a, b]; }
    else if a == 'I' && b == 'V' { assert RomanMap[11].symbol == [a, b]; }
  }

  /** Facts about the greedy table that the proofs rely on. */
  lemma TableShape()
    ensures |RomanMap| == 13
    ensures forall i, j :: 0 <= i < j < |RomanMap| ==> RomanMap[i].value > RomanMap[j].value
    ensures RomanMap[|RomanMap| - 1].value == 1
  {
  }

  /** Every row means what the scanner reads it as: a single symbol has its
      base value, and a two-character row is a subtractive pair of that value. */
  lemma EntryMeaning(k: nat)
    requires k < |RomanMap|
    ensures 1 <= |RomanMap[k].symbol| <= 2
    ensures |RomanMap[k].symbol| == 1 ==>
      RomanMap[k].symbol[0] in RomanValues && RomanValues[RomanMap[k].symbol[0]] == RomanMap[k].value
    ensures |RomanMap[k].symbol| == 2 ==>
      PairValue(RomanMap[k].symbol[0], RomanMap[k].symbol[1]) == Some(RomanMap[k].value)
  {
  }

  /** A single-symbol row is never followed, in table order, by a row whose
      first character would form a subtractive pair with it. This is why a
      numeral spelled in table order is read back token by token. */
  lemma NoPairAcross(a: nat, b: nat)
    requires a <= b < |RomanMap|
    requires |RomanMap[a].symbol| == 1
    ensures PairValue(RomanMap[a].symbol[0], RomanMap[b].symbol[0]).None?
  {
  }

  /** Every character of a table symbol is one of the seven base symbols. */
  lemma SymbolAlphabet(k: nat)
    requires k < |RomanMap|
    ensures forall i :: 0 <= i < |RomanMap[k].symbol| ==> RomanMap[k].symbol[i] in RomanValues
  {
  }

  /** An index of a row of the greedy table. */
  type Row = k: nat | k < 13

  /** Tokens appear in table order, so their values never increase. Stated
      on neighbours, one step at a time. */
  predicate Sorted(t: seq<Row>) {
    |t| <= 1 || (t[0] <= t[1] && Sorted(t[1..]))
  }

  /** Sorted on neighbours means sorted on every pair. */
  lemma {:induction false} SortedPairwise(t: seq<Row>)
    requires Sorted(t)
    ensures forall i, j :: 0 <= i < j < |t| ==> t[i] <= t[j]
  {
    if |t| > 1 {
      SortedPairwise(t[1..]);
      assert forall j :: 1 <= j < |t| ==> t[j] == t[1..][j - 1];
    }
  }

  /** The numeral text of a token sequence: the rows' symbols concatenated. */
  function Spell(t: seq<Row>): string {
    if |t| == 0 then "" else RomanMap[t[0]].symbol + Spell(t[1..])
  }

  /** A spelled numeral has one or two characters per token, all of them base
      symbols, and starts with the first character of its first token. */
  lemma {:induction false} SpellShape(t: seq<Row>)
    ensures |t| <= |Spell(t)| <= 2 * |t|
    ensures forall i :: 0 <= i < |Spell(t)| ==> Spell(t)[i] in RomanValues
    ensures |t| > 0 ==> Spell(t)[0] == RomanMap[t[0]].symbol[0]
  {
    if |t| > 0 {
      EntryMeaning(t[0]);
      SymbolAlphabet(t[0]);
      SpellShape(t[1..]);
      var sym := RomanMap[t[0]].symbol;
      assert forall i :: |sym| <= i < |Spell(t)| ==> Spell(t)[i] == Spell(t[1..])[i - |sym|];
    }
  }

  /** The sum of the table values of a token sequence. */
  function Total(t: seq<Row>): nat
  {
    if |t| == 0 then 0 else RomanMap[t[0]].value + Total(t[1..])
  }

  /** Spelling distributes over concatenation of token sequences. */
  lemma {:induction false} SpellAppend(a: seq<Row>, b: seq<Row>)
    ensures Spell(a + b) == Spell(a) + Spell(b)
  {
    if |a| > 0 {
      assert (a + b)[1..] == a[1..] + b;
      SpellAppend(a[1..], b);
    } else {
      assert a + b == b;
    }
  }
}
