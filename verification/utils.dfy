/** The small helpers of the shared utility file: a Roman numeral lookup
    table for 0..10 and the suffix that names an honors course by its
    position in the honors track ("I", "I Laboratory", "II", ..., "Project"). */
module Utils {
  import RomanNumerals

  /** The lookup table; position 0 is the empty string. */
  const RomanTable: seq<string> := ["", "I", "II", "III", "IV", "V", "VI", "VII", "VIII", "IX", "X"]

  /** `toRoman(num)`: a plain table lookup, defined for 0..10 only (any other
      index reads past the table). */
  function ToRoman(num: int): (r: string)
    requires 0 <= num < |RomanTable|
    ensures r == "" <==> num == 0
    ensures |r| <= 4
  {
    RomanTable[num]
  }

  /** On 1..10 the table gives the same numerals as the greedy converter. */
  lemma TableAgreesWithGreedy(num: int)
    requires 1 <= num <= 10
    ensures ToRoman(num) == RomanNumerals.Roman(num)
  {
    if num <= 3 {
      RomanNumerals.GreedySkip(num, 0, 12);
      UnitsAgree(num);
    } else if num == 4 || num == 9 {
      RomanNumerals.RomanFourAndNine();
    } else if num <= 8 {
      RomanNumerals.GreedySkip(num, 0, 10);
      FivesAgree(num);
    } else {
      RomanNumerals.GreedySkip(10, 0, 8);
      RomanNumerals.GreedySkip(0, 8, 13);
      assert RomanNumerals.Greedy(10, 8) == [8] + RomanNumerals.Greedy(0, 8);
      RomanNumerals.SpellPrepend(8, []);
    }
  }

  /** 0..3 are spelled with "I" only. */
  lemma {:induction false} UnitsAgree(num: int)
    requires 0 <= num <= 3
    ensures RomanNumerals.Spell(RomanNumerals.Greedy(num, 12)) == RomanTable[num]
  {
    if num == 0 {
      assert RomanNumerals.Greedy(0, 12) == RomanNumerals.Greedy(0, 13);
    } else {
      assert RomanNumerals.Greedy(num, 12) == [12] + RomanNumerals.Greedy(num - 1, 12);
      RomanNumerals.SpellPrepend(12, RomanNumerals.Greedy(num - 1, 12));
      UnitsAgree(num - 1);
      TableStep(num, 1, "I");
    }
  }

  /** 5..8 are spelled "V" followed by "I"s. */
  lemma FivesAgree(num: int)
    requires 5 <= num <= 8
    ensures RomanNumerals.Spell(RomanNumerals.Greedy(num, 10)) == RomanTable[num]
  {
    assert RomanNumerals.Greedy(num, 10) == [10] + RomanNumerals.Greedy(num - 5, 10);
    RomanNumerals.GreedySkip(num - 5, 10, 12);
    RomanNumerals.SpellPrepend(10, RomanNumerals.Greedy(num - 5, 12));
    UnitsAgree(num - 5);
    TableStep(num, 5, "V");
  }

  /** The table entries of 1..3 and of 5..8 add one letter to the entry
      one ("I") or five ("V") below. */
  lemma TableStep(num: int, below: int, letter: string)
    requires (below == 1 && letter == "I" && 1 <= num <= 3) || (below == 5 && letter == "V" && 5 <= num <= 8)
    ensures RomanTable[num] == letter + RomanTable[num - below]
  {
    if num == 1 {} else if num == 2 {} else if num == 3 {} else if num == 5 {} else if num == 6 {} else if num == 7 {} else {}
  }

  /** `x >> 1`: JavaScript's arithmetic shift halves and rounds toward minus
      infinity, which is what Euclidean division by 2 does for every int32. */
  function ShiftRightOne(x: int): int
  {
    x / 2
  }

  /** `x & 1`: the lowest two's-complement bit, the Euclidean remainder by 2. */
  function LowBit(x: int): int
  {
    x % 2
  }

  /** The indices `getSuffix` can handle: 7, or any index whose numeral
      position `(i >> 1) + 1` lies in the table (that is, -2..19). */
  predicate SuffixDefined(courseIndex: int)
  {
    courseIndex == 7 || 0 <= ShiftRightOne(courseIndex) + 1 < |RomanTable|
  }

  /** What `getSuffix(courseIndex)` returns. */
  function Suffix(courseIndex: int): (r: string)
    requires SuffixDefined(courseIndex)
    ensures |r| >= 1 && r[0] == ' '
    ensures courseIndex == 7 ==> r == " Project"
  {
    if courseIndex == 7 then " Project"
    else " " + ToRoman(ShiftRightOne(courseIndex) + 1) + (if LowBit(courseIndex) == 1 then " Laboratory" else "")
  }

  /** Every index of a track of up to twenty courses is handled. */
  lemma SuffixDefinedOnTwentyCourses(courseIndex: int)
    requires 0 <= courseIndex <= 19
    ensures SuffixDefined(courseIndex)
  {
  }

  /** Indices 2k and 2k + 1 share a numeral: the odd one is the laboratory of
      the even one (except around 7, which is the project). */
  lemma LaboratoryFollowsLecture(k: int)
    requires SuffixDefined(2 * k) && 2 * k + 1 != 7
    ensures SuffixDefined(2 * k + 1)
    ensures Suffix(2 * k + 1) == Suffix(2 * k) + " Laboratory"
  {
    assert ShiftRightOne(2 * k + 1) == ShiftRightOne(2 * k) == k;
    assert LowBit(2 * k + 1) == 1 && LowBit(2 * k) == 0;
  }

  /** Apart from index 7, " Laboratory" is appended exactly to odd indices. */
  lemma LaboratoryIffOdd(courseIndex: int)
    requires SuffixDefined(courseIndex) && courseIndex != 7
    ensures var r := Suffix(courseIndex);
            (|r| >= 11 && r[|r| - 11..] == " Laboratory") <==> LowBit(courseIndex) == 1
  {
    var numeral := ToRoman(ShiftRightOne(courseIndex) + 1);
    var r := Suffix(courseIndex);
    if LowBit(courseIndex) == 1 {
      assert r == (" " + numeral) + " Laboratory";
      assert r[|r| - 11..] == " Laboratory";
    } else {
      assert r == " " + numeral;
      assert |r| <= 5;
    }
  }

  /** Apart from index 7, the numeral is that of `(i >> 1) + 1` as the greedy
      converter spells it, so the lecture/laboratory pair k gets numeral k + 1. */
  lemma SuffixNumeral(courseIndex: int)
    requires 0 <= courseIndex <= 19 && courseIndex != 7
    ensures Suffix(courseIndex) == " " + RomanNumerals.Roman(courseIndex / 2 + 1)
                                   + (if courseIndex % 2 == 1 then " Laboratory" else "")
  {
    var n := courseIndex / 2 + 1;
    assert 1 <= n <= 10 && ShiftRightOne(courseIndex) + 1 == n;
    TableAgreesWithGreedy(n);
    assert Suffix(courseIndex) == " " + ToRoman(n) + (if LowBit(courseIndex) == 1 then " Laboratory" else "");
  }

  /** `getSuffix`: builds the suffix step by step, returning early for the
      project at index 7. */
  method GetSuffix(courseIndex: int) returns (suffix: string)
    requires SuffixDefined(courseIndex)
    ensures suffix == Suffix(courseIndex)
  {
    suffix := " ";
    if courseIndex == 7 {
      suffix := suffix + "Project";
      return suffix;
    }
    suffix := suffix + ToRoman(ShiftRightOne(courseIndex) + 1);
    if LowBit(courseIndex) == 1 {
      suffix := suffix + " Laboratory";
    }
  }

  /** Index 7 names the project. */
  lemma ProjectAtSeven()
    ensures Suffix(7) == " Project"
  {
  }
}
