/** Keyboard navigation in the program picker sheet: the arrow keys and the
    letter keys w/s and i/k move the focus through the list of program links,
    wrapping around at both ends. */
module FlowsheetHeader {
  import opened Prelude

  /** The keys the handler reacts to (and whose default it prevents). */
  predicate IsNavigationKey(key: string)
  {
    key in ["ArrowDown", "ArrowUp", "w", "s", "i", "k"]
  }

  /** The keys that move down; the other navigation keys move up. */
  predicate IsDownKey(key: string)
  {
    key in ["ArrowDown", "s", "k"]
  }

  /** `items.indexOf(x)`: the first position holding `x`, or -1. */
  function IndexOf<T(==)>(items: seq<T>, x: T): (r: int)
    ensures -1 <= r < |items|
    ensures r >= 0 ==> items[r] == x && forall j :: 0 <= j < r ==> items[j] != x
    ensures r == -1 <==> x !in items
  {
    match FirstIndex(items, (e: T) => e == x)
    case Some(i) => i
    case None => assert forall j :: 0 <= j < |items| ==> items[j] != x; -1
  }

  /** The wrap-around step from `current` in a list of `count` items. */
  function NextIndex(down: bool, current: nat, count: nat): (r: nat)
    requires current < count
    ensures r < count
    ensures down ==> r == (current + 1) % count
    ensures !down ==> r == (current + count - 1) % count
  {
    if down then
      if current < count - 1 then ModSmall(current + 1, count); current + 1
      else ModOnce(0, count); 0
    else
      if current > 0 then ModOnce(current - 1, count); current - 1
      else ModSmall(count - 1, count); count - 1
  }

  /** A number below the modulus is its own remainder. */
  lemma ModSmall(x: int, n: int)
    requires 0 <= x < n
    ensures x % n == x
  {
  }

  /** Adding the modulus once does not change the remainder. */
  lemma ModOnce(x: int, n: int)
    requires 0 <= x < n
    ensures (x + n) % n == x && (n + x) % n == x
  {
    assert (x + n) / n == 1;
  }

  /** What a key press does: nothing at all, or the default is prevented and
      the focus moves to the item at `focus` (if any). */
  datatype KeyOutcome = Unhandled | Handled(focus: Option<nat>)

  /** `handleSheetKeyDown` with `items` the registered links in order and
      `active` the focused element. */
  function HandleSheetKeyDown<T(==)>(key: string, items: seq<T>, active: T): (r: KeyOutcome)
    ensures r == Unhandled <==> !IsNavigationKey(key)
    ensures IsNavigationKey(key) && active !in items ==> r == Handled(None)
    ensures IsNavigationKey(key) && active in items ==> r.Handled? && r.focus.Some?
    ensures r.Handled? && r.focus.Some? ==>
              && active in items
              && r.focus.value < |items|
              && (IsDownKey(key) ==> r.focus.value == (IndexOf(items, active) + 1) % |items|)
              && (!IsDownKey(key) ==> r.focus.value == (IndexOf(items, active) + |items| - 1) % |items|)
  {
    if !IsNavigationKey(key) then Unhandled
    else
      var currentIndex := IndexOf(items, active);
      if currentIndex == -1 then Handled(None)
      else Handled(Some(NextIndex(IsDownKey(key), currentIndex, |items|)))
  }

  /** A step down undone by a step up, and a step up undone by a step down. */
  lemma DownUpInverse(current: nat, count: nat)
    requires current < count
    ensures NextIndex(false, NextIndex(true, current, count), count) == current
    ensures NextIndex(true, NextIndex(false, current, count), count) == current
  {
  }

  /** With distinct items (the links are registered once each), pressing a
      down key and then an up key, or the other way round, gives the focus
      back to the item it started on. */
  lemma KeyPressesUndo<T>(items: seq<T>, start: nat, first: string, second: string)
    requires forall i, j :: 0 <= i < j < |items| ==> items[i] != items[j]
    requires start < |items|
    requires IsNavigationKey(first) && IsNavigationKey(second)
    requires IsDownKey(first) != IsDownKey(second)
    ensures var r1 := HandleSheetKeyDown(first, items, items[start]);
            && r1.Handled? && r1.focus.Some?
            && var r2 := HandleSheetKeyDown(second, items, items[r1.focus.value]);
               r2 == Handled(Some(start))
  {
    DistinctIndexOf(items, start);
    var r1 := HandleSheetKeyDown(first, items, items[start]);
    DistinctIndexOf(items, r1.focus.value);
    DownUpInverse(start, |items|);
  }

  /** In a list without repeats, `indexOf` finds the position of each item. */
  lemma DistinctIndexOf<T>(items: seq<T>, i: nat)
    requires forall a, b :: 0 <= a < b < |items| ==> items[a] != items[b]
    requires i < |items|
    ensures IndexOf(items, items[i]) == i
  {
  }

  /** `k` steps in one direction. */
  function Steps(down: bool, k: nat, current: nat, count: nat): (r: nat)
    requires current < count
    ensures r < count
  {
    if k == 0 then current else NextIndex(down, Steps(down, k - 1, current, count), count)
  }

  /** Steps compose: `a` steps followed by `b` steps are `a + b` steps. */
  lemma {:induction false} StepsCompose(down: bool, a: nat, b: nat, current: nat, count: nat)
    requires current < count
    ensures Steps(down, a + b, current, count) == Steps(down, b, Steps(down, a, current, count), count)
  {
    if b > 0 {
      StepsCompose(down, a, b - 1, current, count);
    }
  }

  /** Down steps that stay inside the list just count upwards. */
  lemma {:induction false} StepsDownNoWrap(k: nat, current: nat, count: nat)
    requires current + k < count
    ensures Steps(true, k, current, count) == current + k
  {
    if k > 0 {
      StepsDownNoWrap(k - 1, current, count);
    }
  }

  /** A full round of `count` down steps returns to the starting item: the
      last item wraps to the first and the list is walked again. */
  lemma FullRound(current: nat, count: nat)
    requires current < count
    ensures Steps(true, count, current, count) == current
  {
    var toLast := count - 1 - current;
    StepsDownNoWrap(toLast, current, count);
    assert Steps(true, toLast + 1, current, count) == 0;
    StepsCompose(true, toLast + 1, current, current, count);
    StepsDownNoWrap(current, 0, count);
  }
}
