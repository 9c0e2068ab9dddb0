/** Roman numeral to integer: upper-case, scan left to right preferring
    subtractive pairs, then accept only a canonical numeral (app.py:33-61). */
module Decode {
  import opened Wrappers
  import opened Numerals
  import opened Encode

  predicate IsLower(c: char) {
    'a' <= c <= 'z'
  }

  /** ASCII upper-casing of one character: lower-case letters move to their
      capitals, every other character is left alone. */
  function UpperChar(c: char): (u: char)
    ensures !IsLower(u)
    ensures !IsLower(c) ==> u == c
    ensures IsLower(c) ==> 'A' <= u <= 'Z' && u as int + 32 == c as int
  {
    if IsLower(c) then (c as int - 32) as char else c
  }

  /** Upper-casing of a whole string, character by character. */
  function Upper(s: string): (u: string)
    ensures |u| == |s|
    ensures forall i :: 0 <= i < |s| ==> u[i] == UpperChar(s[i])
  {
    if |s| == 0 then "" else [UpperChar(s[0])] + Upper(s[1..])
  }

  /** Upper-casing twice is upper-casing once. */
  lemma UpperIdempotent(s: string)
    ensures Upper(Upper(s)) == Upper(s)
  {
  }

  /** A string made only of base symbols is already upper case. */
  lemma UpperOfNumeral(s: string)
    requires forall i :: 0 <= i < |s| ==> s[i] in RomanValues
    ensures Upper(s) == s
  {
  }

  /** Adds `total` to a scan result; a failed scan stays failed. */
  function Plus(total: nat, o: Option<nat>): Option<nat> {
    match o
    case None => None
    case Some(v) => Some(total + v)
  }

  lemma PlusShift(total: nat, v: nat, o: Option<nat>)
    ensures Plus(total, Plus(v, o)) == Plus(total + v, o)
  {
  }

  /** The value the left-to-right scan reads from `u`, or None when it meets a
      character that neither starts a subtractive pair nor is a base symbol.
      At each position a pair is tried before a single symbol. */
  function Scan(u: string): (r: Option<nat>)
    decreases |u|
  {
    if |u| == 0 then Some(0)
    else if 2 <= |u| && PairValue(u[0], u[1]).Some? then Plus(PairValue(u[0], u[1]).value, Scan(u[2..]))
    else if u[0] in RomanValues then Plus(RomanValues[u[0]], Scan(u[1..]))
    else None
  }

  /** The scan fails exactly when some character of `u` is not one of the
      seven base symbols: a foreign character can never be swallowed as the
      second half of a pair, since both halves of a pair are base symbols. */
  lemma {:induction false} ScanFailsExactly(u: string)
    ensures Scan(u).Some? <==> forall i :: 0 <= i < |u| ==> u[i] in RomanValues
    decreases |u|
  {
    if |u| > 0 {
      if 2 <= |u| && PairValue(u[0], u[1]).Some? {
        ScanFailsExactly(u[2..]);
        assert forall i :: 2 <= i < |u| ==> u[i] == u[2..][i - 2];
      } else {
        ScanFailsExactly(u[1..]);
        assert forall i :: 1 <= i < |u| ==> u[i] == u[1..][i - 1];
      }
    }
  }

  /** The converter's entry point. Succeeds with value `v` only when `v` is in
      range and the canonical numeral for `v` is exactly the upper-cased input. */
  function RomanToInt(s: string): (r: Result<nat, Error>)
    ensures r.Failure? ==> r.error == MalformedNumeral
    ensures r.Success? ==> 1 <= r.value <= 3999 && IntToRoman(r.value) == Success(Upper(s))
  {
    var u := Upper(s);
    match Scan(u)
    case None => Failure(MalformedNumeral)
    case Some(total) =>
      if IntToRoman(total) == Success(u) then Success(total) else Failure(MalformedNumeral)
  }

  /** Case does not matter: a string and its upper-cased form decode alike. */
  lemma CaseInsensitive(s: string)
    ensures RomanToInt(s) == RomanToInt(Upper(s))
  {
    UpperIdempotent(s);
  }

  /** A character that is not a base symbol after upper-casing makes the
      conversion fail, wherever it stands. */
  lemma ForeignCharRejected(s: string, i: nat)
    requires i < |s| && UpperChar(s[i]) !in RomanValues
    ensures RomanToInt(s) == Failure(MalformedNumeral)
  {
    ScanFailsExactly(Upper(s));
  }

  /** The empty string has no canonical value and is rejected. */
  lemma EmptyRejected()
    ensures RomanToInt("") == Failure(MalformedNumeral)
  {
  }

  /** One step of the scan read at position `i` of `u`. */
  lemma ScanAt(u: string, i: nat)
    requires i < |u|
    ensures Scan(u[i..]) ==
      if i + 1 < |u| && PairValue(u[i], u[i + 1]).Some? then
        Plus(PairValue(u[i], u[i + 1]).value, Scan(u[i + 2..]))
      else if u[i] in RomanValues then Plus(RomanValues[u[i]], Scan(u[i + 1..]))
      else None
  {
    var rest := u[i..];
    assert rest[0] == u[i];
    if i + 1 < |u| {
      assert rest[1] == u[i + 1] && rest[2..] == u[i + 2..];
    }
    assert rest[1..] == u[i + 1..];
  }

  /** The source's index-based scanning loop. The index stays within the
      string, and the running total plus what the rest of the string scans to
      is always what the whole string scans to. */
  method ScanLoop(u: string) returns (r: Option<nat>)
    ensures r == Scan(u)
  {
    var total: nat := 0;
    var i := 0;
    assert u[i..] == u;
    while i < |u|
      invariant 0 <= i <= |u|
      invariant Scan(u) == Plus(total, Scan(u[i..]))
      decreases |u| - i
    {
      ScanAt(u, i);
      if i + 1 < |u| && PairValue(u[i], u[i + 1]).Some? {
        var v := PairValue(u[i], u[i + 1]).value;
        PlusShift(total, v, Scan(u[i + 2..]));
        total := total + v;
        i := i + 2;
      } else if u[i] in RomanValues {
        PlusShift(total, RomanValues[u[i]], Scan(u[i + 1..]));
        total := total + RomanValues[u[i]];
        i := i + 1;
      } else {
        return None;
      }
    }
    assert u[i..] == "";
    return Some(total);
  }

  /** The whole conversion as the source runs it: upper-case, scan, then
      re-encode the total and compare. */
  method RomanToIntLoop(s: string) returns (r: Result<nat, Error>)
    ensures r == RomanToInt(s)
  {
    var u := Upper(s);
    var scanned := ScanLoop(u);
    if scanned.None? {
      return Failure(MalformedNumeral);
    }
    var canonical := IntToRomanLoop(scanned.value);
    if canonical == Success(u) {
      return Success(scanned.value);
    }
    return Failure(MalformedNumeral);
  }
}
