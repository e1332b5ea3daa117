/** The table-driven Roman numeral converter: for 1..3999 it repeatedly
    subtracts the largest table value that still fits and appends that
    value's symbol; outside that range it gives the empty string. */
module RomanNumerals {

  /** `ROMAN_MAP`: values with their symbols, largest first, including the
      six subtractive pairs. */
  const RomanMap: seq<(Positive, string)> := [
    (1000, "M"), (900, "CM"), (500, "D"), (400, "CD"),
    (100, "C"), (90, "XC"), (50, "L"), (40, "XL"),
    (10, "X"), (9, "IX"), (5, "V"), (4, "IV"), (1, "I")
  ]

  /** The table's values are positive. */
  type Positive = n: nat | n >= 1 witness 1

  /** Position of (1, "I"), the last table entry. */
  const One: nat := 12

  /** A position in `RomanMap`. */
  type Position = k: nat | k < 13

  /** The table's values strictly decrease and every symbol is non-empty. */
  lemma {:induction false} RomanMapShape()
    ensures |RomanMap| == One + 1 && RomanMap[One] == (1, "I")
    ensures forall i, j :: 0 <= i < j < |RomanMap| ==> RomanMap[i].0 > RomanMap[j].0
    ensures forall i :: 0 <= i < |RomanMap| ==> RomanMap[i].0 >= 1 && |RomanMap[i].1| > 0
  {
    var v := seq(|RomanMap|, i requires 0 <= i < |RomanMap| => RomanMap[i].0);
    assert v == [1000, 900, 500, 400, 100, 90, 50, 40, 10, 9, 5, 4, 1];
  }

  /** Concatenation of the symbols of a list of table positions. */
  function Spell(tokens: seq<Position>): string
  {
    if tokens == [] then ""
    else Spell(tokens[..|tokens| - 1]) + RomanMap[tokens[|tokens| - 1]].1
  }

  /** Sum of the values of a list of table positions. */
  function Value(tokens: seq<Position>): nat
  {
    if tokens == [] then 0
    else Value(tokens[..|tokens| - 1]) + RomanMap[tokens[|tokens| - 1]].0
  }

  /** The table positions the greedy loop emits for `remaining`, starting at
      table position `i`: take entry `i` while it fits, then move on. */
  function Greedy(remaining: nat, i: nat): seq<Position>
    requires i <= |RomanMap|
    decreases |RomanMap| - i, remaining
  {
    if i == |RomanMap| then []
    else if remaining >= RomanMap[i].0 then [i] + Greedy(remaining - RomanMap[i].0, i)
    else Greedy(remaining, i + 1)
  }

  /** Greedy emission never goes back up the table: positions start at `i`
      and never decrease. */
  lemma {:induction false} GreedyOrdered(remaining: nat, i: nat)
    requires i <= |RomanMap|
    ensures forall k :: 0 <= k < |Greedy(remaining, i)| ==> i <= Greedy(remaining, i)[k]
    ensures forall k, l :: 0 <= k < l < |Greedy(remaining, i)| ==> Greedy(remaining, i)[k] <= Greedy(remaining, i)[l]
    decreases |RomanMap| - i, remaining
  {
    RomanMapShape();
    if i == |RomanMap| {
    } else if remaining >= RomanMap[i].0 {
      GreedyOrdered(remaining - RomanMap[i].0, i);
    } else {
      GreedyOrdered(remaining, i + 1);
    }
  }

  /** Entries too large for `remaining` are passed over without emitting:
      when entry `j - 1` is too large, so are all before it. */
  lemma {:induction false} GreedySkip(remaining: nat, i: nat, j: nat)
    requires i <= j <= |RomanMap|
    requires i < j ==> RomanMap[j - 1].0 > remaining
    ensures Greedy(remaining, i) == Greedy(remaining, j)
    decreases j - i
  {
    if i < j {
      RomanMapShape();
      assert RomanMap[i].0 >= RomanMap[j - 1].0;
      GreedySkip(remaining, i + 1, j);
    }
  }

  /** The table positions making up the numeral of `num`. */
  function Tokens(num: int): (tokens: seq<Position>)
  {
    if num <= 0 || num >= 4000 then [] else Greedy(num, 0)
  }

  /** What `toRoman(num)` returns. */
  function Roman(num: int): string
  {
    Spell(Tokens(num))
  }

  /** Greedy emission from any position up to that of "I" accounts for all of
      `remaining`: nothing is left over, since "I" fits any positive rest. */
  lemma {:induction false} GreedySum(remaining: nat, i: nat)
    requires i <= One
    ensures Value(Greedy(remaining, i)) == remaining
    decreases One - i, remaining
  {
    RomanMapShape();
    var v := RomanMap[i].0;
    if remaining >= v {
      GreedySum(remaining - v, i);
      var rest := Greedy(remaining - v, i);
      ValuePrepend(i, rest);
    } else if i < One {
      GreedySum(remaining, i + 1);
    } else {
      // Below the value 1 of "I" nothing is left, and nothing more is emitted.
      assert remaining == 0 && Greedy(remaining, i) == [];
    }
  }

  /** Prepending a position adds its value. */
  lemma {:induction false} ValuePrepend(t: Position, tokens: seq<Position>)
    ensures Value([t] + tokens) == RomanMap[t].0 + Value(tokens)
    decreases |tokens|
  {
    if tokens != [] {
      var n := |tokens|;
      assert ([t] + tokens)[..n] == [t] + tokens[..n - 1];
      ValuePrepend(t, tokens[..n - 1]);
    } else {
      assert ([t] + tokens)[..0] == [];
    }
  }

  /** Prepending a position prepends its symbol. */
  lemma {:induction false} SpellPrepend(t: Position, tokens: seq<Position>)
    ensures Spell([t] + tokens) == RomanMap[t].1 + Spell(tokens)
    decreases |tokens|
  {
    if tokens != [] {
      var n := |tokens|;
      assert ([t] + tokens)[..n] == [t] + tokens[..n - 1];
      SpellPrepend(t, tokens[..n - 1]);
    } else {
      assert ([t] + tokens)[..0] == [];
    }
  }

  /** For 1..3999 the symbol values of the numeral sum to the number; the
      symbols are table entries emitted in non-increasing value order. */
  lemma RomanValue(num: int)
    requires 1 <= num <= 3999
    ensures Value(Tokens(num)) == num
    ensures forall k, l :: 0 <= k < l < |Tokens(num)| ==> RomanMap[Tokens(num)[k]].0 >= RomanMap[Tokens(num)[l]].0
  {
    GreedySum(num, 0);
    GreedyOrdered(num, 0);
    RomanMapShape();
  }

  /** A non-empty list of positions spells a non-empty string. */
  lemma {:induction false} SpellNonEmpty(tokens: seq<Position>)
    requires tokens != []
    ensures |Spell(tokens)| >= |RomanMap[tokens[|tokens| - 1]].1| > 0
  {
    RomanMapShape();
  }

  /** Every number in 1..3999 gets a non-empty numeral, and every number
      outside it the empty string. */
  lemma RomanNonEmptyExactlyInRange(num: int)
    ensures Roman(num) != "" <==> 1 <= num <= 3999
  {
    if 1 <= num <= 3999 {
      RomanValue(num);
      SpellNonEmpty(Tokens(num));
    }
  }

  /** Worked examples of the subtractive pairs: 4 is "IV", 9 is "IX". */
  lemma RomanFourAndNine()
    ensures Roman(4) == "IV"
    ensures Roman(9) == "IX"
  {
    assert Greedy(0, 9) == [];
    assert Tokens(9) == [9];
    assert Spell([9]) == "IX";
    assert Greedy(0, 11) == [];
    assert Tokens(4) == [11];
    assert Spell([11]) == "IV";
  }

  /** The greedy run for 1994 emits M, CM, XC and IV. */
  lemma TokensOfNineteenNinetyFour()
    ensures Tokens(1994) == [0] + ([1] + ([5] + [11]))
  {
    assert Greedy(0, 11) == [];
    assert Greedy(4, 5) == [11];
    assert Greedy(94, 1) == [5, 11];
    assert Greedy(994, 0) == [1, 5, 11];
  }

  /** 1994 is M + CM + XC + IV. */
  lemma RomanNineteenNinetyFour()
    ensures Roman(1994) == "MCMXCIV"
  {
    TokensOfNineteenNinetyFour();
    SpellPrepend(0, [1] + ([5] + [11]));
    SpellPrepend(1, [5] + [11]);
    SpellPrepend(5, [11]);
    SpellPrepend(11, []);
    assert [11] == [11] + [];
  }

  /** The loop's invariant: `tokens` emitted so far, spelled by `result`,
      accounting for `num - remaining`, and the greedy run from (`remaining`,
      `i`) completes them to the numeral of `num`. */
  ghost predicate LoopInvariant(num: int, result: string, remaining: nat, i: nat, tokens: seq<Position>)
  {
    && i <= |RomanMap|
    && result == Spell(tokens)
    && remaining + Value(tokens) == num
    && tokens + Greedy(remaining, i) == Tokens(num)
  }

  /** Emitting entry `i` when it fits keeps the invariant. */
  lemma EmitKeepsInvariant(num: int, result: string, remaining: nat, i: nat, tokens: seq<Position>)
    requires i < |RomanMap| && LoopInvariant(num, result, remaining, i, tokens)
    requires remaining >= RomanMap[i].0
    ensures RomanMap[i].0 >= 1
    ensures LoopInvariant(num, result + RomanMap[i].1, remaining - RomanMap[i].0, i, tokens + [i])
  {
    RomanMapShape();
    assert (tokens + [i])[..|tokens|] == tokens;
    assert Greedy(remaining, i) == [i] + Greedy(remaining - RomanMap[i].0, i);
    assert (tokens + [i]) + Greedy(remaining - RomanMap[i].0, i) == tokens + Greedy(remaining, i);
  }

  /** Moving past entry `i` when it no longer fits keeps the invariant. */
  lemma AdvanceKeepsInvariant(num: int, result: string, remaining: nat, i: nat, tokens: seq<Position>)
    requires i < |RomanMap| && LoopInvariant(num, result, remaining, i, tokens)
    requires remaining < RomanMap[i].0
    ensures LoopInvariant(num, result, remaining, i + 1, tokens)
  {
  }

  /** Once the table is exhausted the emitted tokens are the whole numeral. */
  lemma InvariantAtEnd(num: int, result: string, remaining: nat, tokens: seq<Position>)
    requires LoopInvariant(num, result, remaining, |RomanMap|, tokens)
    ensures result == Roman(num)
  {
    assert Greedy(remaining, |RomanMap|) == [];
    assert tokens == Tokens(num);
  }

  /** `toRoman`: the greedy loop over `ROMAN_MAP`. */
  method ToRoman(num: int) returns (result: string)
    ensures result == Roman(num)
    ensures (num <= 0 || num >= 4000) ==> result == ""
  {
    if num <= 0 || num >= 4000 {
      return "";
    }
    result := "";
    var remaining: nat := num;
    ghost var tokens: seq<Position> := [];
    for i := 0 to |RomanMap|
      invariant LoopInvariant(num, result, remaining, i, tokens)
    {
      var value := RomanMap[i].0;
      var symbol := RomanMap[i].1;
      while remaining >= value
        invariant LoopInvariant(num, result, remaining, i, tokens)
        decreases remaining
      {
        EmitKeepsInvariant(num, result, remaining, i, tokens);
        result := result + symbol;
        remaining := remaining - value;
        tokens := tokens + [i];
      }
      AdvanceKeepsInvariant(num, result, remaining, i, tokens);
    }
    InvariantAtEnd(num, result, remaining, tokens);
  }
}
