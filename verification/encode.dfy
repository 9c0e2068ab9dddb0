/** Integer to Roman numeral by greedy subtraction over the table (app.py:21-31). */
module Encode {
  import opened Wrappers
  import opened Numerals

  /** The rows the greedy walk emits for `n`, starting at table row `k`: while
      `n` is at least the row's value the row is emitted and its value
      subtracted; otherwise the walk moves to the next row. */
  function Greedy(n: nat, k: nat): seq<Row>
    requires k <= |RomanMap|
    decreases |RomanMap| - k, n
  {
    if k == |RomanMap| then []
    else if n >= RomanMap[k].value then
      TableShape();
      [k] + Greedy(n - RomanMap[k].value, k)
    else
      TableShape();
      Greedy(n, k + 1)
  }

  /** From any row up to the last (value 1) the walk leaves nothing over: the
      values of the rows it emits add up to exactly `n`. */
  lemma {:induction false} GreedyTotal(n: nat, k: nat)
    requires k < |RomanMap|
    ensures Total(Greedy(n, k)) == n
    decreases |RomanMap| - k, n
  {
    TableShape();
    if n >= RomanMap[k].value {
      GreedyTotal(n - RomanMap[k].value, k);
      assert Greedy(n, k)[1..] == Greedy(n - RomanMap[k].value, k);
    } else if k + 1 < |RomanMap| {
      GreedyTotal(n, k + 1);
    }
  }

  /** The rows the walk emits are in table order, starting no earlier than `k`. */
  lemma {:induction false} GreedySorted(n: nat, k: nat)
    requires k <= |RomanMap|
    ensures Sorted(Greedy(n, k))
    ensures |Greedy(n, k)| > 0 ==> k <= Greedy(n, k)[0]
    decreases |RomanMap| - k, n
  {
    TableShape();
    if k < |RomanMap| {
      if n >= RomanMap[k].value {
        GreedySorted(n - RomanMap[k].value, k);
        assert Greedy(n, k)[1..] == Greedy(n - RomanMap[k].value, k);
      } else {
        GreedySorted(n, k + 1);
      }
    }
  }

  /** The numeral for `num`, or OutOfRange exactly when `num` lies outside
      1..3999. A numeral is never empty and uses only the seven base symbols. */
  function IntToRoman(num: int): (r: Result<string, Error>)
    ensures r.Failure? <==> !(1 <= num <= 3999)
    ensures r.Failure? ==> r.error == OutOfRange
    ensures r.Success? ==> 0 < |r.value| && forall i :: 0 <= i < |r.value| ==> r.value[i] in RomanValues
  {
    if !(1 <= num <= 3999) then Failure(OutOfRange)
    else
      GreedyTotal(num, 0);
      SpellShape(Greedy(num, 0));
      Success(Spell(Greedy(num, 0)))
  }

  /** The numeral for a valid input is the spelling of a sequence of table rows
      in table order, hence in non-increasing order of value, whose values add
      up to the input: the greedy walk ends with nothing left over. */
  lemma GreedyShape(num: int)
    requires 1 <= num <= 3999
    ensures var t := Greedy(num, 0);
      && 0 < |t|
      && Total(t) == num
      && (forall i, j :: 0 <= i < j < |t| ==> RomanMap[t[i]].value >= RomanMap[t[j]].value)
      && IntToRoman(num) == Success(Spell(t))
  {
    TableShape();
    GreedyTotal(num, 0);
    GreedySorted(num, 0);
    SortedPairwise(Greedy(num, 0));
  }

  /** One step of the inner loop: emitting row `k` and subtracting its value
      leaves the rest of the walk unchanged. */
  lemma EmitStep(emitted: seq<Row>, n: nat, k: nat)
    requires k < |RomanMap| && n >= RomanMap[k].value
    ensures emitted + Greedy(n, k) == (emitted + [k]) + Greedy(n - RomanMap[k].value, k)
  {
  }

  /** The source's nested loops: for each row in order, emit its symbol while
      the remainder is at least its value. */
  method IntToRomanLoop(num: int) returns (r: Result<string, Error>)
    ensures r == IntToRoman(num)
  {
    if !(1 <= num <= 3999) {
      return Failure(OutOfRange);
    }
    var out := "";
    var n: nat := num;
    ghost var emitted: seq<Row> := [];
    for k := 0 to |RomanMap|
      invariant out == Spell(emitted)
      invariant emitted + Greedy(n, k) == Greedy(num, 0)
    {
      while n >= RomanMap[k].value
        invariant out == Spell(emitted)
        invariant emitted + Greedy(n, k) == Greedy(num, 0)
        decreases n
      {
        TableShape();
        SpellAppend(emitted, [k]);
        EmitStep(emitted, n, k);
        out := out + RomanMap[k].symbol;
        emitted := emitted + [k];
        n := n - RomanMap[k].value;
      }
    }
    assert emitted == Greedy(num, 0);
    return Success(out);
  }
}
