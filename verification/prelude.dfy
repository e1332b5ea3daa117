/** Small helpers shared by the other modules: an optional value and the
    "in-order sub-list" relation that a JavaScript `filter` establishes. */
module Prelude {

  /** A value that may be absent, for JavaScript's `null` / `undefined`. */
  datatype Option<+T> = None | Some(value: T)

  /** `sub` can be obtained from `s` by deleting elements, keeping the order
      of the ones that remain. Read from the back: either the last elements
      are matched with each other, or the last element of `s` is dropped. */
  ghost predicate IsSubsequence<T>(sub: seq<T>, s: seq<T>)
    decreases |s|
  {
    || sub == []
    || (&& s != []
        && (|| (sub[|sub| - 1] == s[|s| - 1] && IsSubsequence(sub[..|sub| - 1], s[..|s| - 1]))
            || IsSubsequence(sub, s[..|s| - 1])))
  }

  /** Index of the first element satisfying `p`, searching from `from` on:
      the common core of JavaScript's `find` and `indexOf`. */
  function FirstIndexFrom<T>(s: seq<T>, p: T -> bool, from: nat): (r: Option<nat>)
    requires from <= |s|
    ensures r.Some? ==> from <= r.value < |s| && p(s[r.value])
    ensures r.Some? ==> forall j :: from <= j < r.value ==> !p(s[j])
    ensures r.None? ==> forall j :: from <= j < |s| ==> !p(s[j])
    decreases |s| - from
  {
    if from == |s| then None
    else if p(s[from]) then Some(from)
    else FirstIndexFrom(s, p, from + 1)
  }

  /** Index of the first element of `s` satisfying `p`, if there is one. */
  function FirstIndex<T>(s: seq<T>, p: T -> bool): (r: Option<nat>)
    ensures r.Some? ==> r.value < |s| && p(s[r.value])
    ensures r.Some? ==> forall j :: 0 <= j < r.value ==> !p(s[j])
    ensures r.None? <==> forall j :: 0 <= j < |s| ==> !p(s[j])
  {
    FirstIndexFrom(s, p, 0)
  }

  /** A prefix one longer is the prefix extended by the next element. */
  lemma PrefixExtend<T>(s: seq<T>, n: nat)
    requires n < |s|
    ensures s[..n + 1] == s[..n] + [s[n]]
  {
  }
}
