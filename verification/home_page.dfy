/** The flowsheet page: the program picker, the flattened course grid, the
    hovered course and the prerequisite / postrequisite lines drawn from it.

    The derived values (current program, flattened semesters and courses,
    number of grid rows, postrequisite list, status of a card) are pure
    functions. The page state (selected program, hovered course, the list of
    lines and the set of mounted cards) lives in the class `FlowsheetPage`,
    whose methods are the page's state transitions. */
module HomePage {
  import opened Prelude
  import opened FlowsheetTypes

  /** How a card is highlighted. */
  datatype CourseStatus = Default | Hovered | Prereq | Postreq

  datatype LineKind = PrereqLine | PostreqLine

  /** A connector between two cards, without its screen geometry: a
      prerequisite line runs from the prerequisite to the hovered card, a
      postrequisite line from the hovered card to the postrequisite. */
  datatype Connection = Connection(from: string, to: string, kind: LineKind)

  /** JavaScript truthiness of the hovered id: `null` and "" both mean that
      nothing is hovered. */
  predicate IsHovering(hovered: Option<string>)
  {
    hovered.Some? && hovered.value != ""
  }

  // ---------------------------------------------------------------------
  // Derived data
  // ---------------------------------------------------------------------

  /** `programs.find(p => p.id === selectedId) || programs[0]`. */
  function CurrentProgram(programs: seq<Program>, selectedId: string): (p: Program)
    requires |programs| > 0
    ensures p in programs
    ensures forall i :: 0 <= i < |programs| && programs[i].id == selectedId ==> p.id == selectedId
    ensures (forall i :: 0 <= i < |programs| ==> programs[i].id != selectedId) ==> p == programs[0]
    ensures (exists i :: 0 <= i < |programs| && programs[i].id == selectedId) ==>
              exists k :: 0 <= k < |programs| && programs[k] == p
                          && forall j :: 0 <= j < k ==> programs[j].id != selectedId
  {
    match FirstIndex(programs, (q: Program) => q.id == selectedId)
    case Some(i) => programs[i]
    case None => programs[0]
  }

  /** `years.flatMap(y => y.semesters)`. */
  function FlatSemesters(years: seq<Year>): (r: seq<Semester>)
    ensures forall s :: s in r <==> exists y :: y in years && s in y.semesters
  {
    if years == [] then [] else years[0].semesters + FlatSemesters(years[1..])
  }

  /** `semesters.flatMap(s => s.courses)`. */
  function AllCourses(semesters: seq<Semester>): (r: seq<Course>)
    ensures forall c :: c in r <==> exists s :: s in semesters && c in s.courses
  {
    if semesters == [] then [] else semesters[0].courses + AllCourses(semesters[1..])
  }

  /** Flattening distributes over concatenation of semester lists, so the
      courses appear semester by semester in display order. */
  lemma {:induction false} AllCoursesAppend(a: seq<Semester>, b: seq<Semester>)
    ensures AllCourses(a + b) == AllCourses(a) + AllCourses(b)
  {
    if a == [] {
      assert a + b == b;
    } else {
      assert (a + b)[1..] == a[1..] + b;
      AllCoursesAppend(a[1..], b);
    }
  }

  /** The same for years. */
  lemma {:induction false} FlatSemestersAppend(a: seq<Year>, b: seq<Year>)
    ensures FlatSemesters(a + b) == FlatSemesters(a) + FlatSemesters(b)
  {
    if a == [] {
      assert a + b == b;
    } else {
      assert (a + b)[1..] == a[1..] + b;
      FlatSemestersAppend(a[1..], b);
    }
  }

  /** One semester flattens to its own course list, in its own order; with
      `AllCoursesAppend` this fixes the flat list to be the semesters'
      course lists one after another. */
  lemma AllCoursesSingle(s: Semester)
    ensures AllCourses([s]) == s.courses
  {
    assert [s][1..] == [];
  }

  /** One year flattens to its own semester list, in its own order. */
  lemma FlatSemestersSingle(y: Year)
    ensures FlatSemesters([y]) == y.semesters
  {
    assert [y][1..] == [];
  }

  /** The number of courses in all semesters together. */
  function TotalCourses(semesters: seq<Semester>): nat
  {
    if semesters == [] then 0 else |semesters[0].courses| + TotalCourses(semesters[1..])
  }

  /** Nothing is lost or duplicated by flattening: the flat list is as long as
      all semesters together. */
  lemma {:induction false} AllCoursesLength(semesters: seq<Semester>)
    ensures |AllCourses(semesters)| == TotalCourses(semesters)
  {
    if semesters != [] {
      AllCoursesLength(semesters[1..]);
    }
  }

  /** `Math.max(...semesters.map(s => s.courses.length), 5)`: the number of
      grid rows, large enough for the longest semester and never below 5. */
  function MaxRows(semesters: seq<Semester>): (r: nat)
    ensures r >= 5
    ensures forall s :: s in semesters ==> |s.courses| <= r
    ensures r == 5 || exists s :: s in semesters && |s.courses| == r
  {
    if semesters == [] then 5
    else
      var rest := MaxRows(semesters[1..]);
      if |semesters[0].courses| > rest then |semesters[0].courses| else rest
  }

  /** `allCourses.find(c => c.id === id)`. */
  function FindCourse(courses: seq<Course>, id: string): (r: Option<Course>)
    ensures r.Some? ==> r.value in courses && r.value.id == id
    ensures r.None? <==> forall c :: c in courses ==> c.id != id
    ensures r.Some? ==> exists k :: 0 <= k < |courses| && courses[k] == r.value
                                    && forall j :: 0 <= j < k ==> courses[j].id != id
  {
    match FirstIndex(courses, (c: Course) => c.id == id)
    case Some(i) => Some(courses[i])
    case None =>
      assert forall j :: 0 <= j < |courses| ==> courses[j].id != id;
      None
  }

  /** `allCourses.filter(c => c.prereqs.includes(activeId))`: every course
      that names the active course as a prerequisite, in catalog order. */
  function Postreqs(courses: seq<Course>, activeId: string): (r: seq<Course>)
    ensures |r| <= |courses|
    ensures forall c :: c in r <==> c in courses && activeId in c.prereqs
    ensures (forall c :: c in courses ==> activeId !in c.prereqs) ==> r == []
  {
    if courses == [] then []
    else
      var init := courses[..|courses| - 1];
      var last := courses[|courses| - 1];
      assert courses == init + [last];
      Postreqs(init, activeId) + (if activeId in last.prereqs then [last] else [])
  }

  /** The filter keeps catalog order, and keeps every kept course as often as
      the catalog lists it. */
  lemma {:induction false} PostreqsKeepOrderAndCount(courses: seq<Course>, activeId: string)
    ensures IsSubsequence(Postreqs(courses, activeId), courses)
    ensures forall c: Course :: activeId in c.prereqs ==>
              multiset(Postreqs(courses, activeId))[c] == multiset(courses)[c]
    ensures forall c: Course :: activeId !in c.prereqs ==> multiset(Postreqs(courses, activeId))[c] == 0
    decreases |courses|
  {
    if courses != [] {
      var init := courses[..|courses| - 1];
      var last := courses[|courses| - 1];
      assert courses == init + [last];
      PostreqsKeepOrderAndCount(init, activeId);
      var rest := Postreqs(init, activeId);
      if activeId in last.prereqs {
        assert Postreqs(courses, activeId) == rest + [last];
        assert (rest + [last])[..|rest|] == rest;
      } else {
        assert Postreqs(courses, activeId) == rest;
      }
    }
  }

  /** `getCourseStatus`: a hovered card is "hovered"; otherwise a card named in
      the hovered course's prerequisites is "prereq", one that names the
      hovered course is "postreq", and everything else is "default". With
      nothing hovered, or a hovered id that no course of the program has,
      every other card is "default". */
  function GetCourseStatus(current: Course, hovered: Option<string>, allCourses: seq<Course>): (r: CourseStatus)
    ensures !IsHovering(hovered) ==> r == Default
    ensures r == Hovered <==> IsHovering(hovered) && current.id == hovered.value
    ensures (IsHovering(hovered) && current.id != hovered.value && FindCourse(allCourses, hovered.value).None?)
              ==> r == Default
    ensures r == Prereq <==>
              && IsHovering(hovered) && current.id != hovered.value
              && FindCourse(allCourses, hovered.value).Some?
              && current.id in FindCourse(allCourses, hovered.value).value.prereqs
    ensures r == Postreq <==>
              && IsHovering(hovered) && current.id != hovered.value
              && FindCourse(allCourses, hovered.value).Some?
              && current.id !in FindCourse(allCourses, hovered.value).value.prereqs
              && hovered.value in current.prereqs
  {
    if !IsHovering(hovered) then Default
    else if current.id == hovered.value then Hovered
    else
      match FindCourse(allCourses, hovered.value)
      case None => Default
      case Some(active) =>
        if current.id in active.prereqs then Prereq
        else if active.id in current.prereqs then Postreq
        else Default
  }

  /** The postrequisite list and the "postreq" status agree: a course of the
      program that is neither the hovered one nor one of its prerequisites is
      classified "postreq" exactly when the filter keeps it. */
  lemma PostreqStatusAgreesWithFilter(current: Course, hovered: string, allCourses: seq<Course>)
    requires hovered != ""
    requires FindCourse(allCourses, hovered).Some?
    requires current in allCourses
    requires current.id != hovered
    requires current.id !in FindCourse(allCourses, hovered).value.prereqs
    ensures GetCourseStatus(current, Some(hovered), allCourses) == Postreq <==> current in Postreqs(allCourses, hovered)
  {
  }

  // ---------------------------------------------------------------------
  // Connector lines
  // ---------------------------------------------------------------------

  /** One prerequisite line per listed prerequisite that has a mounted card,
      in the order the prerequisites are listed. */
  function PrereqLines(prereqs: seq<string>, mounted: set<string>, active: string): (r: seq<Connection>)
    ensures |r| <= |prereqs|
    ensures (forall p :: p in prereqs ==> p !in mounted) ==> r == []
  {
    if prereqs == [] then []
    else
      var init := prereqs[..|prereqs| - 1];
      var last := prereqs[|prereqs| - 1];
      PrereqLines(init, mounted, active) + (if last in mounted then [Connection(last, active, PrereqLine)] else [])
  }

  /** Every prerequisite line runs from a mounted, listed prerequisite to the
      hovered card, and every mounted listed prerequisite gets one. */
  lemma {:induction false} PrereqLinesExactly(prereqs: seq<string>, mounted: set<string>, active: string)
    ensures forall line :: line in PrereqLines(prereqs, mounted, active) <==>
              line.kind == PrereqLine && line.to == active && line.from in mounted && line.from in prereqs
    decreases |prereqs|
  {
    if prereqs != [] {
      var init := prereqs[..|prereqs| - 1];
      var last := prereqs[|prereqs| - 1];
      assert prereqs == init + [last];
      PrereqLinesExactly(init, mounted, active);
    }
  }

  /** One line per listed prerequisite with a mounted card: the line from
      `p` occurs as often as `p` is listed when `p` is mounted, else never. */
  lemma {:induction false} PrereqLinesCount(prereqs: seq<string>, mounted: set<string>, active: string)
    ensures forall p :: multiset(PrereqLines(prereqs, mounted, active))[Connection(p, active, PrereqLine)]
                        == if p in mounted then multiset(prereqs)[p] else 0
    decreases |prereqs|
  {
    if prereqs != [] {
      var init := prereqs[..|prereqs| - 1];
      var last := prereqs[|prereqs| - 1];
      assert prereqs == init + [last];
      PrereqLinesCount(init, mounted, active);
    }
  }

  /** One postrequisite line per postrequisite course that has a mounted card. */
  function PostreqLines(posts: seq<Course>, mounted: set<string>, active: string): (r: seq<Connection>)
    ensures |r| <= |posts|
    ensures (forall c :: c in posts ==> c.id !in mounted) ==> r == []
  {
    if posts == [] then []
    else
      var init := posts[..|posts| - 1];
      var last := posts[|posts| - 1];
      PostreqLines(init, mounted, active) + (if last.id in mounted then [Connection(active, last.id, PostreqLine)] else [])
  }

  /** Every postrequisite line runs from the hovered card to a mounted
      postrequisite, and every mounted postrequisite gets one. */
  lemma {:induction false} PostreqLinesExactly(posts: seq<Course>, mounted: set<string>, active: string)
    ensures forall line :: line in PostreqLines(posts, mounted, active) <==>
              && line.kind == PostreqLine && line.from == active && line.to in mounted
              && exists c :: c in posts && c.id == line.to
    decreases |posts|
  {
    if posts != [] {
      var init := posts[..|posts| - 1];
      var last := posts[|posts| - 1];
      assert posts == init + [last];
      PostreqLinesExactly(init, mounted, active);
    }
  }

  /** The ids of a list of courses, in order. */
  function CourseIds(posts: seq<Course>): (r: seq<string>)
    ensures |r| == |posts|
    ensures forall k :: 0 <= k < |posts| ==> r[k] == posts[k].id
  {
    if posts == [] then [] else CourseIds(posts[..|posts| - 1]) + [posts[|posts| - 1].id]
  }

  /** One line per postrequisite with a mounted card: the line to `t` occurs
      as often as postrequisites with id `t` are listed when `t` is mounted,
      else never. */
  lemma {:induction false} PostreqLinesCount(posts: seq<Course>, mounted: set<string>, active: string)
    ensures forall t :: multiset(PostreqLines(posts, mounted, active))[Connection(active, t, PostreqLine)]
                        == if t in mounted then multiset(CourseIds(posts))[t] else 0
    decreases |posts|
  {
    if posts != [] {
      var init := posts[..|posts| - 1];
      var last := posts[|posts| - 1];
      assert posts == init + [last];
      PostreqLinesCount(init, mounted, active);
    }
  }

  /** The lines for a hovered course whose card is mounted: its prerequisite
      lines (none when the id is unknown to the program), then its
      postrequisite lines. */
  function Lines(hovered: string, allCourses: seq<Course>, mounted: set<string>): seq<Connection>
  {
    HoveredPrereqLines(hovered, allCourses, mounted) + PostreqLines(Postreqs(allCourses, hovered), mounted, hovered)
  }

  /** `activeCourse?.prereqs.forEach(...)`: no lines when the program has no
      course with the hovered id. */
  function HoveredPrereqLines(hovered: string, allCourses: seq<Course>, mounted: set<string>): seq<Connection>
  {
    match FindCourse(allCourses, hovered)
    case Some(active) => PrereqLines(active.prereqs, mounted, hovered)
    case None => []
  }

  /** Exactly these lines are drawn: a prerequisite line from each mounted
      card listed among the hovered course's prerequisites, and a
      postrequisite line to each mounted card of a course that lists the
      hovered course. */
  lemma LinesExactly(hovered: string, allCourses: seq<Course>, mounted: set<string>)
    ensures forall line :: line in Lines(hovered, allCourses, mounted) <==>
              || (&& line.kind == PrereqLine && line.to == hovered && line.from in mounted
                  && FindCourse(allCourses, hovered).Some?
                  && line.from in FindCourse(allCourses, hovered).value.prereqs)
              || (&& line.kind == PostreqLine && line.from == hovered && line.to in mounted
                  && exists c :: c in allCourses && c.id == line.to && hovered in c.prereqs)
  {
    var posts := Postreqs(allCourses, hovered);
    PostreqLinesExactly(posts, mounted, hovered);
    match FindCourse(allCourses, hovered)
    case Some(active) => PrereqLinesExactly(active.prereqs, mounted, hovered);
    case None =>
  }

  /** The line-calculation effect's loops: one `forEach` over the hovered
      course's prerequisites and one over its postrequisites, each pushing a
      line for every partner card that is mounted. */
  method BuildConnections(hovered: string, allCourses: seq<Course>, mounted: set<string>)
    returns (conns: seq<Connection>)
    ensures conns == Lines(hovered, allCourses, mounted)
  {
    conns := [];
    var activeCourse := FindCourse(allCourses, hovered);
    if activeCourse.Some? {
      conns := PushPrereqLines(conns, activeCourse.value.prereqs, mounted, hovered);
      assert [] + PrereqLines(activeCourse.value.prereqs, mounted, hovered)
             == PrereqLines(activeCourse.value.prereqs, mounted, hovered);
    }
    assert conns == HoveredPrereqLines(hovered, allCourses, mounted);
    var posts := Postreqs(allCourses, hovered);
    conns := PushPostreqLines(conns, posts, mounted, hovered);
  }

  /** The first `forEach`: push a prerequisite line for every listed
      prerequisite whose card is mounted. */
  method PushPrereqLines(start: seq<Connection>, prereqs: seq<string>, mounted: set<string>, active: string)
    returns (conns: seq<Connection>)
    ensures conns == start + PrereqLines(prereqs, mounted, active)
  {
    conns := start;
    var i := 0;
    while i < |prereqs|
      invariant 0 <= i <= |prereqs|
      invariant conns == start + PrereqLines(prereqs[..i], mounted, active)
    {
      assert prereqs[..i + 1][..i] == prereqs[..i];
      if prereqs[i] in mounted {
        conns := conns + [Connection(prereqs[i], active, PrereqLine)];
      }
      i := i + 1;
    }
    assert prereqs[..i] == prereqs;
  }

  /** The second `forEach`: push a postrequisite line for every
      postrequisite whose card is mounted. */
  method PushPostreqLines(start: seq<Connection>, posts: seq<Course>, mounted: set<string>, active: string)
    returns (conns: seq<Connection>)
    ensures conns == start + PostreqLines(posts, mounted, active)
  {
    conns := start;
    var j := 0;
    while j < |posts|
      invariant 0 <= j <= |posts|
      invariant conns == start + PostreqLines(posts[..j], mounted, active)
    {
      assert posts[..j + 1][..j] == posts[..j];
      if posts[j].id in mounted {
        conns := conns + [Connection(active, posts[j].id, PostreqLine)];
      }
      j := j + 1;
    }
    assert posts[..j] == posts;
  }

  // ---------------------------------------------------------------------
  // Page state
  // ---------------------------------------------------------------------

  /** The page component: the catalog it was built with and the state its
      setters change. `cardRefs` is the set of course ids whose card element
      is currently registered (the keys of the `cardRefs` map). */
  class FlowsheetPage {
    const programs: seq<Program>
    var selectedProgramId: string
    var hoveredCourseId: Option<string>
    var connections: seq<Connection>
    var cardRefs: set<string>

    ghost predicate Valid()
      reads this
    {
      |programs| > 0
    }

    /** Initial state: the first program, nothing hovered, no lines, no cards. */
    constructor (catalog: seq<Program>)
      requires |catalog| > 0
      ensures Valid()
      ensures programs == catalog && selectedProgramId == catalog[0].id
      ensures hoveredCourseId == None && connections == [] && cardRefs == {}
    {
      programs := catalog;
      selectedProgramId := catalog[0].id;
      hoveredCourseId := None;
      connections := [];
      cardRefs := {};
    }

    function Current(): Program
      reads this
      requires Valid()
    {
      CurrentProgram(programs, selectedProgramId)
    }

    function Courses(): seq<Course>
      reads this
      requires Valid()
    {
      AllCourses(FlatSemesters(Current().years))
    }

    /** The status a card is rendered with. */
    function Status(c: Course): CourseStatus
      reads this
      requires Valid()
    {
      GetCourseStatus(c, hoveredCourseId, Courses())
    }

    /** Choosing a program in the picker. When the id changes, the reset
        effect clears the hovered id, the lines and the card registry. */
    method SelectProgram(id: string)
      requires Valid()
      modifies this
      ensures Valid() && selectedProgramId == id
      ensures id != old(selectedProgramId) ==>
                hoveredCourseId == None && connections == [] && cardRefs == {}
      ensures id == old(selectedProgramId) ==>
                hoveredCourseId == old(hoveredCourseId) && connections == old(connections)
                && cardRefs == old(cardRefs)
    {
      if id != selectedProgramId {
        selectedProgramId := id;
        hoveredCourseId := None;
        connections := [];
        cardRefs := {};
      }
    }

    /** `onMouseEnter`: the card under the mouse becomes the hovered one. */
    method MouseEnter(id: string)
      modifies this`hoveredCourseId
      ensures hoveredCourseId == Some(id)
    {
      hoveredCourseId := Some(id);
    }

    /** `onMouseLeave`: nothing is hovered any more. */
    method MouseLeave()
      modifies this`hoveredCourseId
      ensures hoveredCourseId == None
    {
      hoveredCourseId := None;
    }

    /** `onClick` (tap to toggle): clicking the hovered card clears the hover,
        clicking any other card hovers it. */
    method Click(id: string)
      modifies this`hoveredCourseId
      ensures old(hoveredCourseId) == Some(id) ==> hoveredCourseId == None
      ensures old(hoveredCourseId) != Some(id) ==> hoveredCourseId == Some(id)
    {
      if hoveredCourseId == Some(id) {
        hoveredCourseId := None;
      } else {
        hoveredCourseId := Some(id);
      }
    }

    /** The ref callback with an element: the card is registered. */
    method MountCard(id: string)
      modifies this`cardRefs
      ensures cardRefs == old(cardRefs) + {id}
    {
      cardRefs := cardRefs + {id};
    }

    /** The ref callback with `null`: the card is unregistered. */
    method UnmountCard(id: string)
      modifies this`cardRefs
      ensures cardRefs == old(cardRefs) - {id}
    {
      cardRefs := cardRefs - {id};
    }

    /** The line-calculation effect. With nothing hovered the lines are
        cleared; when the hovered card is not registered the effect returns
        early and the previous lines stay; otherwise the lines are rebuilt. */
    method RecalculateLines()
      requires Valid()
      modifies this`connections
      ensures !IsHovering(hoveredCourseId) ==> connections == []
      ensures IsHovering(hoveredCourseId) && hoveredCourseId.value !in cardRefs ==>
                connections == old(connections)
      ensures IsHovering(hoveredCourseId) && hoveredCourseId.value in cardRefs ==>
                connections == Lines(hoveredCourseId.value, Courses(), cardRefs)
    {
      if !IsHovering(hoveredCourseId) {
        connections := [];
        return;
      }
      var hovered := hoveredCourseId.value;
      if hovered !in cardRefs {
        return;
      }
      connections := BuildConnections(hovered, Courses(), cardRefs);
    }
  }
}
