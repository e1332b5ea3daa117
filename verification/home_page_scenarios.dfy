/** Worked examples on a slice of the program catalog: the first program
    (Computer Science BS), whose courses form the chains c1 -> c3,
    c2 -> c4 -> c6 and c3, c4 -> c5 -> c7. */
module HomePageScenarios {
  import opened Prelude
  import opened FlowsheetTypes
  import opened HomePage

  const C1: Course := Course("c1", "MTH 141", "Calculus I", 4.0, [])
  const C2: Course := Course("c2", "CSE 115", "Intro to CS I", 4.0, [])
  const C3: Course := Course("c3", "MTH 142", "Calculus II", 4.0, ["c1"])
  const C4: Course := Course("c4", "CSE 116", "Intro to CS II", 4.0, ["c2"])
  const C5: Course := Course("c5", "CSE 250", "Data Structures", 4.0, ["c4", "c3"])
  const C6: Course := Course("c6", "CSE 220", "Systems Programming", 4.0, ["c4"])
  const C7: Course := Course("c7", "CSE 331", "Algo & Complexity", 4.0, ["c5"])

  const S1: Semester := Semester("y1s1", "Fall", [C1, C2])
  const S2: Semester := Semester("y1s2", "Spring", [C3, C4])
  const S3: Semester := Semester("y2s1", "Fall", [C5, C6])
  const S4: Semester := Semester("y2s2", "Spring", [C7])

  const Year1: Year := Year("y1", "Year 1", [S1, S2])
  const Year2: Year := Year("y2", "Year 2", [S3, S4])

  /** The program's courses in grid order. */
  const CseBsCourses: seq<Course> := [C1, C2, C3, C4, C5, C6, C7]

  const CseBs: Program := Program("cse-bs", "Computer Science BS", "Computer Science & Engineering", [Year1, Year2])

  const CardIds: set<string> := {"c1", "c2", "c3", "c4", "c5", "c6", "c7"}

  /** The semesters come year by year. */
  lemma CseBsSemesters()
    ensures FlatSemesters(CseBs.years) == [S1, S2, S3, S4]
  {
    assert CseBs.years[1..] == [Year2];
    assert [Year2][1..] == [];
    assert FlatSemesters([Year2]) == [S3, S4] + FlatSemesters([]);
    assert FlatSemesters(CseBs.years) == [S1, S2] + FlatSemesters([Year2]);
  }

  /** The courses come semester by semester. */
  lemma CseBsAllCourses()
    ensures AllCourses([S1, S2, S3, S4]) == CseBsCourses
  {
    assert [S1, S2, S3, S4][1..] == [S2, S3, S4];
    assert [S2, S3, S4][1..] == [S3, S4];
    assert [S3, S4][1..] == [S4];
    assert [S4][1..] == [];
    assert AllCourses([S4]) == [C7] + AllCourses([]);
    assert AllCourses([S3, S4]) == [C5, C6] + AllCourses([S4]);
    assert AllCourses([S2, S3, S4]) == [C3, C4] + AllCourses([S3, S4]);
    assert AllCourses([S1, S2, S3, S4]) == [C1, C2] + AllCourses([S2, S3, S4]);
  }

  /** No semester has more than two courses, so the grid keeps five rows. */
  lemma CseBsRows()
    ensures MaxRows([S1, S2, S3, S4]) == 5
  {
    assert [S1, S2, S3, S4][1..] == [S2, S3, S4];
    assert [S2, S3, S4][1..] == [S3, S4];
    assert [S3, S4][1..] == [S4];
    assert [S4][1..] == [];
  }

  /** The flattened course list runs year by year, semester by semester,
      and the grid keeps its minimum of five rows. */
  lemma CseBsLayout()
    ensures |FlatSemesters(CseBs.years)| == 4
    ensures AllCourses(FlatSemesters(CseBs.years)) == CseBsCourses
    ensures MaxRows(FlatSemesters(CseBs.years)) == 5
  {
    CseBsSemesters();
    CseBsAllCourses();
    CseBsRows();
  }

  /** c5 is found at position 4. */
  lemma FindDataStructures()
    ensures FindCourse(CseBsCourses, "c5") == Some(C5)
  {
    assert CseBsCourses[4] == C5;
    assert FirstIndex(CseBsCourses, (c: Course) => c.id == "c5") == Some(4);
  }

  /** Hovering Data Structures (c5): its prerequisites c4 and c3 are "prereq",
      Algo & Complexity (c7) is "postreq", the rest is "default". */
  lemma HoverDataStructuresStatus()
    ensures var all := CseBsCourses;
            && GetCourseStatus(C5, Some("c5"), all) == Hovered
            && GetCourseStatus(C4, Some("c5"), all) == Prereq
            && GetCourseStatus(C3, Some("c5"), all) == Prereq
            && GetCourseStatus(C7, Some("c5"), all) == Postreq
            && GetCourseStatus(C1, Some("c5"), all) == Default
            && GetCourseStatus(C2, Some("c5"), all) == Default
            && GetCourseStatus(C6, Some("c5"), all) == Default
  {
    var all := CseBsCourses;
    FindDataStructures();
  }

  /** Only Algo & Complexity (c7) names c5 as a prerequisite. */
  lemma PostreqsOfDataStructures()
    ensures Postreqs(CseBsCourses, "c5") == [C7]
  {
    var all := CseBsCourses;
    var init := all[..6];
    assert init == [C1, C2, C3, C4, C5, C6];
    assert Postreqs(init, "c5") == [];
    assert all == init + [C7];
  }

  /** c5 lists c4 then c3; both cards are mounted, so both get a line. */
  lemma DataStructuresPrereqLines()
    ensures PrereqLines(["c4", "c3"], CardIds, "c5")
            == [Connection("c4", "c5", PrereqLine), Connection("c3", "c5", PrereqLine)]
  {
    assert ["c4", "c3"][..1] == ["c4"];
    assert ["c4"][..0] == [];
    assert "c4" in CardIds && "c3" in CardIds;
  }

  /** With every card mounted, hovering c5 draws c4 -> c5, c3 -> c5 (in the
      order c5 lists them) and c5 -> c7. */
  lemma HoverDataStructuresLines()
    ensures Lines("c5", CseBsCourses, CardIds) == [
              Connection("c4", "c5", PrereqLine),
              Connection("c3", "c5", PrereqLine),
              Connection("c5", "c7", PostreqLine)]
  {
    var all := CseBsCourses;
    FindDataStructures();
    DataStructuresPrereqLines();
    assert HoveredPrereqLines("c5", all, CardIds)
           == [Connection("c4", "c5", PrereqLine), Connection("c3", "c5", PrereqLine)];
    PostreqsOfDataStructures();
    assert PostreqLines([C7], CardIds, "c5") == [Connection("c5", "c7", PostreqLine)] by {
      assert [C7][..0] == [];
      assert "c7" in CardIds;
    }
  }

  /** Free-text prerequisites (Machine Learning lists "Linear Algebra",
      "Probability", "Statistics") have no card, so no line is drawn. */
  lemma FreeTextPrereqsDrawNoLines()
    ensures PrereqLines(["Linear Algebra", "Probability", "Statistics"], {"R5CO3001T", "R5CO3002T", "R5CO3003T"}, "R5CO3002T") == []
  {
  }
}
