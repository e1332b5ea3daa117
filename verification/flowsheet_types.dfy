/** The catalog records shared by every page: a course card, a semester
    column, a year, and a degree program with its department. */
module FlowsheetTypes {

  /** One course card. `prereqs` lists the ids of prerequisite courses; in
      the catalog some entries are free text ("Linear Algebra") that no card
      carries. Credits may be fractional (1.5) and no code does arithmetic on
      them, so they are kept as a plain field. */
  datatype Course = Course(id: string, code: string, title: string, credits: real, prereqs: seq<string>)

  /** A semester column, e.g. "Fall" (the source field `label`; `label` is a Dafny keyword). */
  datatype Semester = Semester(id: string, caption: string, courses: seq<Course>)

  /** A year, holding its semesters in display order. */
  datatype Year = Year(id: string, caption: string, semesters: seq<Semester>)

  /** A degree program as listed in the program catalog. */
  datatype Program = Program(id: string, name: string, department: string, years: seq<Year>)
}
