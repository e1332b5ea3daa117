/** The program index pages group the catalog by department: a reduce
    buckets the programs into an object keyed by department name, pushing
    each program onto its bucket, and the object's keys are then sorted.
    Both landing pages (flowsheets and calculators) run the same code. */
module Departments {
  import opened Prelude
  import opened FlowsheetTypes

  // ---------------------------------------------------------------------
  // Specification of the buckets
  // ---------------------------------------------------------------------

  /** The programs of department `d`, in catalog order. */
  function InDepartment(programs: seq<Program>, d: string): (r: seq<Program>)
    ensures |r| <= |programs|
    ensures forall p :: p in r <==> p in programs && p.department == d
    ensures (forall p :: p in programs ==> p.department != d) ==> r == []
  {
    if programs == [] then []
    else
      var last := programs[|programs| - 1];
      InDepartment(programs[..|programs| - 1], d) + (if last.department == d then [last] else [])
  }

  /** The order in which departments are first met: the key order of the
      accumulator object (insertion order). */
  function DepartmentOrder(programs: seq<Program>): (r: seq<string>)
    ensures forall d :: d in r <==> exists p :: p in programs && p.department == d
    ensures Distinct(r)
  {
    if programs == [] then []
    else
      var last := programs[|programs| - 1];
      var keys := DepartmentOrder(programs[..|programs| - 1]);
      if last.department in keys then keys else keys + [last.department]
  }

  /** No element occurs twice. */
  predicate Distinct(s: seq<string>)
  {
    forall i, j :: 0 <= i < j < |s| ==> s[i] != s[j]
  }

  /** The sum of the bucket sizes of the departments `keys`. */
  function TotalSize(programs: seq<Program>, keys: seq<string>): nat
  {
    if keys == [] then 0
    else TotalSize(programs, keys[..|keys| - 1]) + |InDepartment(programs, keys[|keys| - 1])|
  }

  // ---------------------------------------------------------------------
  // Properties of the buckets
  // ---------------------------------------------------------------------

  /** Every program lands in the bucket of its own department. */
  lemma OwnDepartment(programs: seq<Program>, p: Program)
    requires p in programs
    ensures p.department in DepartmentOrder(programs)
    ensures p in InDepartment(programs, p.department)
  {
  }

  /** A bucket keeps the catalog order of its programs. */
  lemma {:induction false} InDepartmentKeepsOrder(programs: seq<Program>, d: string)
    ensures IsSubsequence(InDepartment(programs, d), programs)
    decreases |programs|
  {
    if programs != [] {
      var init := programs[..|programs| - 1];
      var last := programs[|programs| - 1];
      InDepartmentKeepsOrder(init, d);
      var r := InDepartment(programs, d);
      if last.department == d {
        assert r[..|r| - 1] == InDepartment(init, d);
      } else {
        assert r == InDepartment(init, d);
      }
    }
  }

  /** Every department with a key has at least one program. */
  lemma NoEmptyBucket(programs: seq<Program>, d: string)
    requires d in DepartmentOrder(programs)
    ensures InDepartment(programs, d) != []
  {
    var p :| p in programs && p.department == d;
    assert p in InDepartment(programs, d);
  }

  /** Appending a program grows its own bucket by it and leaves the others. */
  lemma InDepartmentAppend(programs: seq<Program>, p: Program, d: string)
    ensures InDepartment(programs + [p], d)
            == InDepartment(programs, d) + (if p.department == d then [p] else [])
  {
    assert (programs + [p])[..|programs|] == programs;
  }

  /** After appending `p`, the total over `keys` grows by the number of
      times `p`'s department occurs in `keys`. */
  lemma {:induction false} TotalSizeAppend(programs: seq<Program>, p: Program, keys: seq<string>)
    ensures TotalSize(programs + [p], keys)
            == TotalSize(programs, keys) + multiset(keys)[p.department]
    decreases |keys|
  {
    if keys != [] {
      var init := keys[..|keys| - 1];
      var k := keys[|keys| - 1];
      assert keys == init + [k];
      TotalSizeAppend(programs, p, init);
      InDepartmentAppend(programs, p, k);
    }
  }

  /** A department without programs adds nothing to the total. */
  lemma TotalSizeNewKey(programs: seq<Program>, keys: seq<string>, d: string)
    requires forall p :: p in programs ==> p.department != d
    ensures TotalSize(programs, keys + [d]) == TotalSize(programs, keys)
  {
    assert (keys + [d])[..|keys|] == keys;
  }

  /** A distinct sequence holds each of its elements exactly once. */
  lemma {:induction false} DistinctOnce(s: seq<string>, x: string)
    requires Distinct(s)
    ensures multiset(s)[x] == (if x in s then 1 else 0)
    decreases |s|
  {
    if s != [] {
      var init := s[..|s| - 1];
      assert s == init + [s[|s| - 1]];
      DistinctOnce(init, x);
    }
  }

  /** A program of a department not met before opens a bucket of one. */
  lemma PartitionStepNewKey(init: seq<Program>, p: Program)
    requires p.department !in DepartmentOrder(init)
    ensures TotalSize(init + [p], DepartmentOrder(init) + [p.department])
            == TotalSize(init, DepartmentOrder(init)) + 1
  {
    var keys := DepartmentOrder(init);
    assert (keys + [p.department])[..|keys|] == keys;
    TotalSizeAppend(init, p, keys);
    assert multiset(keys)[p.department] == 0;
    InDepartmentAppend(init, p, p.department);
  }

  /** A program of a department already met grows that one bucket by one. */
  lemma PartitionStepOldKey(init: seq<Program>, p: Program)
    requires p.department in DepartmentOrder(init)
    ensures TotalSize(init + [p], DepartmentOrder(init)) == TotalSize(init, DepartmentOrder(init)) + 1
  {
    TotalSizeAppend(init, p, DepartmentOrder(init));
    DistinctOnce(DepartmentOrder(init), p.department);
  }

  /** The bucket sizes add up to the number of programs: no program is lost
      and none is pushed twice. */
  lemma {:induction false} BucketsPartitionPrograms(programs: seq<Program>)
    ensures TotalSize(programs, DepartmentOrder(programs)) == |programs|
    decreases |programs|
  {
    if programs != [] {
      var init := programs[..|programs| - 1];
      var p := programs[|programs| - 1];
      assert programs == init + [p];
      BucketsPartitionPrograms(init);
      DepartmentOrderAppend(init, p);
      if p.department in DepartmentOrder(init) {
        PartitionStepOldKey(init, p);
      } else {
        PartitionStepNewKey(init, p);
      }
    }
  }

  // ---------------------------------------------------------------------
  // The reduce
  // ---------------------------------------------------------------------

  /** The accumulator after the programs `done`: its keys in insertion
      order and each key's bucket. */
  ghost predicate Accumulated(done: seq<Program>, groups: map<string, seq<Program>>, keys: seq<string>)
  {
    && keys == DepartmentOrder(done)
    && (forall d :: d in groups <==> d in keys)
    && (forall d :: d in groups ==> groups[d] == InDepartment(done, d))
  }

  /** A department is added to the keys when it is first met. */
  lemma DepartmentOrderAppend(done: seq<Program>, program: Program)
    ensures DepartmentOrder(done + [program])
            == if program.department in DepartmentOrder(done) then DepartmentOrder(done)
               else DepartmentOrder(done) + [program.department]
  {
    assert (done + [program])[..|done|] == done;
  }

  /** One step of the reduce: `ready` is the accumulator once the bucket of
      the program's department exists (created empty if the department is
      new); pushing the program onto that bucket gives the accumulator for
      one more program. */
  lemma PushKeepsAccumulated(done: seq<Program>, groups: map<string, seq<Program>>, keys: seq<string>, program: Program,
                             ready: map<string, seq<Program>>, keys': seq<string>)
    requires Accumulated(done, groups, keys)
    requires ready == if program.department in groups then groups else groups[program.department := []]
    requires keys' == if program.department in groups then keys else keys + [program.department]
    ensures program.department in ready
    ensures Accumulated(done + [program], ready[program.department := ready[program.department] + [program]], keys')
  {
    var next := ready[program.department := ready[program.department] + [program]];
    DepartmentOrderAppend(done, program);
    forall d | d in next
      ensures next[d] == InDepartment(done + [program], d)
    {
      InDepartmentAppend(done, program, d);
    }
  }

  /** The reduce over the catalog: `groups` is the accumulator object and
      `keys` its keys in insertion order. A department's bucket is created
      empty the first time the department is met, then the program is
      pushed onto it. */
  method GroupByDepartment(programs: seq<Program>) returns (groups: map<string, seq<Program>>, keys: seq<string>)
    ensures keys == DepartmentOrder(programs)
    ensures forall d :: d in groups <==> d in keys
    ensures forall d :: d in groups ==> groups[d] == InDepartment(programs, d)
  {
    groups := map[];
    keys := [];
    for n := 0 to |programs|
      invariant Accumulated(programs[..n], groups, keys)
    {
      var program := programs[n];
      var dept := program.department;
      ghost var groups0, keys0 := groups, keys;
      if dept !in groups {
        groups := groups[dept := []];
        keys := keys + [dept];
      }
      PushKeepsAccumulated(programs[..n], groups0, keys0, program, groups, keys);
      groups := groups[dept := groups[dept] + [program]];
      PrefixExtend(programs, n);
    }
    assert programs[..|programs|] == programs;
  }

  // ---------------------------------------------------------------------
  // String order and the key sort
  // ---------------------------------------------------------------------

  /** The default `sort` order on strings: lexicographic by character, a
      proper prefix coming first. */
  predicate LexLess(a: string, b: string)
    decreases |a|
  {
    b != [] && (a == [] || a[0] < b[0] || (a[0] == b[0] && LexLess(a[1..], b[1..])))
  }

  /** Less than or equal in the string order. */
  predicate LexLeq(a: string, b: string)
  {
    a == b || LexLess(a, b)
  }

  /** No string precedes itself. */
  lemma {:induction false} LexLessIrreflexive(a: string)
    ensures !LexLess(a, a)
    decreases |a|
  {
    if a != [] {
      LexLessIrreflexive(a[1..]);
    }
  }

  /** The order is transitive. */
  lemma {:induction false} LexLessTransitive(a: string, b: string, c: string)
    requires LexLess(a, b) && LexLess(b, c)
    ensures LexLess(a, c)
    decreases |a|
  {
    if a != [] && a[0] == b[0] && b[0] == c[0] {
      LexLessTransitive(a[1..], b[1..], c[1..]);
    }
  }

  /** Any two strings are equal or ordered one way. */
  lemma {:induction false} LexLessTotal(a: string, b: string)
    ensures a == b || LexLess(a, b) || LexLess(b, a)
    decreases |a|
  {
    if a != [] && b != [] && a[0] == b[0] {
      LexLessTotal(a[1..], b[1..]);
      if a[1..] == b[1..] {
        assert a == [a[0]] + a[1..] && b == [b[0]] + b[1..];
      }
    }
  }

  /** Ascending in the string order. */
  predicate Ascending(s: seq<string>)
  {
    forall i, j :: 0 <= i < j < |s| ==> LexLeq(s[i], s[j])
  }

  /** Insert `x` into an ascending list before the first element not below it. */
  function Insert(x: string, s: seq<string>): (r: seq<string>)
    ensures multiset(r) == multiset(s) + multiset{x}
    ensures |r| == |s| + 1
  {
    if s == [] then [x]
    else if !LexLess(s[0], x) then [x] + s
    else
      assert s == [s[0]] + s[1..];
      [s[0]] + Insert(x, s[1..])
  }

  /** Insertion keeps a list ascending. */
  lemma {:induction false} InsertAscending(x: string, s: seq<string>)
    requires Ascending(s)
    ensures Ascending(Insert(x, s))
    decreases |s|
  {
    var r := Insert(x, s);
    if s == [] {
    } else if !LexLess(s[0], x) {
      LexLessTotal(s[0], x);
      forall j | 1 <= j < |r|
        ensures LexLeq(r[0], r[j])
      {
        assert r[j] == s[j - 1];
        if s[j - 1] != s[0] {
          assert LexLess(s[0], s[j - 1]);
          if x != s[0] {
            LexLessTransitive(x, s[0], s[j - 1]);
          }
        }
      }
    } else {
      var rest := Insert(x, s[1..]);
      InsertAscending(x, s[1..]);
      forall j | 0 <= j < |rest|
        ensures LexLeq(s[0], rest[j])
      {
        assert rest[j] in multiset(rest);
        if rest[j] != x {
          assert rest[j] in multiset(s[1..]);
          var k :| 0 <= k < |s[1..]| && s[1..][k] == rest[j];
          assert s[1 + k] == rest[j];
        }
      }
      assert r == [s[0]] + rest;
    }
  }

  /** `keys.sort()` with the default comparator: the result is the ascending
      arrangement of the keys (the engine's sort algorithm is not modelled,
      only its result, which the order determines). */
  function SortStrings(keys: seq<string>): (r: seq<string>)
    ensures multiset(r) == multiset(keys)
    ensures |r| == |keys|
  {
    if keys == [] then []
    else
      assert keys == keys[..|keys| - 1] + [keys[|keys| - 1]];
      Insert(keys[|keys| - 1], SortStrings(keys[..|keys| - 1]))
  }

  /** The sort gives an ascending list. */
  lemma {:induction false} SortStringsAscending(keys: seq<string>)
    ensures Ascending(SortStrings(keys))
    decreases |keys|
  {
    if keys != [] {
      SortStringsAscending(keys[..|keys| - 1]);
      InsertAscending(keys[|keys| - 1], SortStrings(keys[..|keys| - 1]));
    }
  }

  /** Two equal entries at different positions make a count of two. */
  lemma TwiceInMultiset(t: seq<string>, i: nat, j: nat)
    requires i < j < |t|
    ensures t[i] == t[j] ==> multiset(t)[t[i]] >= 2
  {
    assert t == t[..i] + [t[i]] + t[i + 1..j] + [t[j]] + t[j + 1..];
  }

  /** A list with the multiset of a distinct list is distinct itself. */
  lemma DistinctByMultiset(s: seq<string>, t: seq<string>)
    requires Distinct(s) && multiset(t) == multiset(s)
    ensures Distinct(t)
  {
    forall i, j | 0 <= i < j < |t|
      ensures t[i] != t[j]
    {
      TwiceInMultiset(t, i, j);
      DistinctOnce(s, t[i]);
    }
  }

  /** Sorting the department keys: ascending without repeats, hence strictly
      ascending, and holding exactly the departments of the catalog. */
  lemma SortedDepartments(programs: seq<Program>)
    ensures var sorted := SortStrings(DepartmentOrder(programs));
            && Ascending(sorted)
            && Distinct(sorted)
            && (forall i, j :: 0 <= i < j < |sorted| ==> LexLess(sorted[i], sorted[j]))
            && (forall d :: d in sorted <==> exists p :: p in programs && p.department == d)
  {
    var keys := DepartmentOrder(programs);
    var sorted := SortStrings(keys);
    SortStringsAscending(keys);
    DistinctByMultiset(keys, sorted);
    forall d
      ensures d in sorted <==> d in keys
    {
      assert d in sorted <==> d in multiset(sorted);
      assert d in keys <==> d in multiset(keys);
    }
  }

  // ---------------------------------------------------------------------
  // The index page
  // ---------------------------------------------------------------------

  /** The total over a concatenation of key lists is the sum of the totals. */
  lemma {:induction false} TotalSizeConcat(programs: seq<Program>, u: seq<string>, v: seq<string>)
    ensures TotalSize(programs, u + v) == TotalSize(programs, u) + TotalSize(programs, v)
    decreases |v|
  {
    if v == [] {
      assert u + v == u;
    } else {
      var init := v[..|v| - 1];
      assert (u + v)[..|u + v| - 1] == u + init;
      TotalSizeConcat(programs, u, init);
    }
  }

  /** Taking out the key at position `i` takes out its bucket size. */
  lemma TotalSizeRemove(programs: seq<Program>, a: seq<string>, i: nat)
    requires i < |a|
    ensures TotalSize(programs, a)
            == TotalSize(programs, a[..i] + a[i + 1..]) + |InDepartment(programs, a[i])|
  {
    assert a == (a[..i] + [a[i]]) + a[i + 1..];
    TotalSizeConcat(programs, a[..i] + [a[i]], a[i + 1..]);
    TotalSizeConcat(programs, a[..i], [a[i]]);
    TotalSizeConcat(programs, a[..i], a[i + 1..]);
    assert [a[i]][..0] == [];
  }

  /** Taking one occurrence of `x` out of a list takes it out of its multiset. */
  lemma MultisetRemove(a: seq<string>, i: nat)
    requires i < |a|
    ensures multiset(a[..i] + a[i + 1..]) == multiset(a) - multiset{a[i]}
  {
    assert a == a[..i] + [a[i]] + a[i + 1..];
  }

  /** The total does not depend on the order of the keys. */
  lemma {:induction false} TotalSizePermutation(programs: seq<Program>, a: seq<string>, b: seq<string>)
    requires multiset(a) == multiset(b)
    ensures TotalSize(programs, a) == TotalSize(programs, b)
    decreases |b|
  {
    if b == [] {
      assert |multiset(a)| == 0;
    } else {
      var x := b[|b| - 1];
      var init := b[..|b| - 1];
      assert b == init + [x];
      assert x in multiset(a);
      var i :| 0 <= i < |a| && a[i] == x;
      MultisetRemove(a, i);
      assert multiset(init) == multiset(b) - multiset{x};
      TotalSizePermutation(programs, a[..i] + a[i + 1..], init);
      TotalSizeRemove(programs, a, i);
    }
  }

  /** What both index pages compute before rendering: `groupedPrograms`, the
      reduce's buckets, and `sortedDepartments`, its keys sorted. Every
      program is in its department's bucket, buckets keep catalog order and
      are never empty, their sizes add up to the catalog's, and the sorted
      keys are strictly ascending and are exactly the bucket keys. */
  method IndexPage(catalog: seq<Program>) returns (groupedPrograms: map<string, seq<Program>>, sortedDepartments: seq<string>)
    ensures forall d :: d in groupedPrograms <==> exists p :: p in catalog && p.department == d
    ensures forall d :: d in groupedPrograms ==> groupedPrograms[d] == InDepartment(catalog, d) && groupedPrograms[d] != []
    ensures forall p :: p in catalog ==> p.department in groupedPrograms && p in groupedPrograms[p.department]
    ensures sortedDepartments == SortStrings(DepartmentOrder(catalog))
    ensures forall i, j :: 0 <= i < j < |sortedDepartments| ==> LexLess(sortedDepartments[i], sortedDepartments[j])
    ensures forall d :: d in sortedDepartments <==> d in groupedPrograms
    ensures TotalSize(catalog, sortedDepartments) == |catalog|
  {
    var keys;
    groupedPrograms, keys := GroupByDepartment(catalog);
    sortedDepartments := SortStrings(keys);
    SortedDepartments(catalog);
    BucketsPartitionPrograms(catalog);
    TotalSizePermutation(catalog, keys, sortedDepartments);
    forall d | d in groupedPrograms
      ensures groupedPrograms[d] != []
    {
      NoEmptyBucket(catalog, d);
    }
  }
}
