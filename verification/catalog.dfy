/** The plain data the eligibility engine and the progress views work on:
    prerequisite expressions, course records, the official curriculum
    ("malla") and a student's history snapshot. */
module Catalog {
  import opened Basics

  /** A prerequisite expression. A bare string is `Simple`; an object is a
      `Record` whose three optional fields are string-valued (`code`,
      `requirement`) or an array (`options`), so that the engine's own
      dispatch (an `options` array first, then a non-empty `code`, otherwise
      invalid) decides what kind of expression it is. Entries of other JSON
      shapes (null, numbers, strings where an array is expected) are not
      represented. */
  datatype Prereq =
    | Simple(id: string)
    | Record(code: Option<string>, requirement: Option<string>, options: Options)

  /** The `options` field of a prerequisite object: absent, or an array of
      alternative expressions. */
  datatype Options = Absent | Listed(items: seq<Prereq>)

  /** A co-requisite: a bare code or an object whose `code` field may be missing. */
  datatype Coreq = CoreqCode(id: string) | CoreqRecord(code: Option<string>)

  /** A course record. `prereq` and `coreq` may be absent (`None`) or empty. */
  datatype Course = Course(
    code: string,
    name: string,
    credits: int,
    prereq: Option<seq<Prereq>>,
    coreq: Option<seq<Coreq>>)

  /** The three history lists of a student (`completedCourses`,
      `currentCourses`, `seenCourses`). They are arrays searched with
      `includes`, so order and duplicates are kept. */
  datatype Snapshot = Snapshot(completed: seq<string>, current: seq<string>, seen: seq<string>)

  /** A code the student has any history for. */
  predicate Touched(s: Snapshot, code: string)
  {
    code in s.completed || code in s.current || code in s.seen
  }

  /** No code is in two history lists at once: the shape the status
      transitions maintain (the engine itself never relies on it). */
  predicate Exclusive(s: Snapshot)
  {
    && (forall c :: c in s.completed ==> c !in s.current && c !in s.seen)
    && (forall c :: c in s.current ==> c !in s.seen)
  }

  /** One semester of the official curriculum (`numero`, `nombre`, `materias`). */
  datatype Semester = Semester(number: int, title: string, courses: seq<Course>)

  /** The English track: ordered level codes (`niveles`) and `creditosPorNivel`. */
  datatype English = English(levels: seq<string>, creditsPerLevel: int)

  /** Required number of electives of one kind (`cantidad`) and the credits
      each one is worth (`creditosPorMateria`). */
  datatype Quota = Quota(count: int, creditsEach: int)

  /** The elective requirements: complementary (`EC-`) and professional (`EP-`). */
  datatype Electives = Electives(complementary: Quota, professional: Quota)

  /** A curriculum. `ingles` and `electivas` may be absent. */
  datatype Malla = Malla(semesters: seq<Semester>, english: Option<English>, electives: Option<Electives>)

  /** All semester courses, semester by semester, in catalog order. */
  function SemesterCourses(sems: seq<Semester>): seq<Course>
  {
    if |sems| == 0 then [] else sems[0].courses + SemesterCourses(sems[1..])
  }
}
