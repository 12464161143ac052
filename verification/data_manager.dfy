/** Validation of a curriculum file and of an imported user-data file, over
    a model of parsed JSON values and JavaScript truthiness. */
module DataManager {
  import opened Basics

  /** A parsed JSON value. */
  datatype Json =
    | JNull
    | JBool(b: bool)
    | JNum(n: real)
    | JStr(s: string)
    | JArr(items: seq<Json>)
    | JObj(fields: map<string, Json>)

  /** `v[key]` on a non-null value: only objects carry the keys read here;
      anything else gives `undefined` (`None`). */
  function Get(v: Json, key: string): (r: Option<Json>)
    ensures r.Some? <==> v.JObj? && key in v.fields
  {
    if v.JObj? && key in v.fields then Some(v.fields[key]) else None
  }

  /** JavaScript truthiness: `undefined`, `null`, `false`, `0` and `""` are
      falsy; every array and object is truthy. */
  predicate Truthy(v: Option<Json>)
  {
    match v
    case None => false
    case Some(JNull) => false
    case Some(JBool(b)) => b
    case Some(JNum(n)) => n != 0.0
    case Some(JStr(s)) => s != ""
    case Some(JArr(_)) => true
    case Some(JObj(_)) => true
  }

  // ---------------------------------------------------------------------
  // validateMallaData
  // ---------------------------------------------------------------------

  /** The exceptions `validateMallaData` can end with. `TypeError` stands
      for the runtime error of reading a field of `null` or calling
      `forEach` on something that is not an array. */
  datatype MallaError =
    | MissingCareer              // "Falta información de carrera"
    | MissingSemesters           // "Falta información de semestres"
    | InvalidSemester            // "Semestre inválido"
    | InvalidCourse(code: Option<Json>) // "Materia inválida: <code>"
    | TypeError

  /** `items.forEach(check)` where `check` throws: the first item's error. */
  function FirstError(items: seq<Json>, check: Json -> Option<MallaError>): (r: Option<MallaError>)
    ensures r.None? <==> forall i :: 0 <= i < |items| ==> check(items[i]).None?
    ensures r.Some? ==>
              exists i :: 0 <= i < |items| && r == check(items[i]) &&
                forall j :: 0 <= j < i ==> check(items[j]).None?
    decreases |items|
  {
    if |items| == 0 then None
    else if check(items[0]).Some? then check(items[0])
    else
      var rest := FirstError(items[1..], check);
      assert forall i :: 1 <= i < |items| ==> items[i] == items[1..][i - 1];
      if rest.Some? then
        var k :| 0 <= k < |items[1..]| && rest == check(items[1..][k]) &&
                 forall j :: 0 <= j < k ==> check(items[1..][j]).None?;
        assert rest == check(items[k + 1]);
        rest
      else
        rest
  }

  /** The check applied to one course. */
  function CourseError(c: Json): Option<MallaError>
  {
    if c.JNull? then Some(TypeError)
    else if !Truthy(Get(c, "code")) || !Truthy(Get(c, "name")) || !Truthy(Get(c, "credits")) then
      Some(InvalidCourse(Get(c, "code")))
    else None
  }

  /** The check applied to one semester, including its courses. */
  function SemesterError(v: Json): Option<MallaError>
  {
    if v.JNull? then Some(TypeError)
    else if !Truthy(Get(v, "numero")) || !Truthy(Get(v, "materias")) then Some(InvalidSemester)
    else
      match Get(v, "materias").value
      case JArr(courses) => FirstError(courses, CourseError)
      case _ => Some(TypeError)
  }

  /** `validateMallaData`: the data itself when it passes, otherwise the
      first failure in document order. */
  function ValidateMallaData(data: Json): (r: Result<Json, MallaError>)
    ensures r.Success? ==> r.value == data
    ensures !data.JNull? && !Truthy(Get(data, "carrera")) ==> r == Failure(MissingCareer)
    ensures Truthy(Get(data, "carrera")) && !(Get(data, "semesters").Some? && Get(data, "semesters").value.JArr?) ==>
              r == Failure(MissingSemesters)
  {
    if data.JNull? then Failure(TypeError)
    else if !Truthy(Get(data, "carrera")) then Failure(MissingCareer)
    else
      match Get(data, "semesters")
      case Some(JArr(sems)) =>
        (match FirstError(sems, SemesterError)
         case Some(e) => Failure(e)
         case None => Success(data))
      case _ => Failure(MissingSemesters)
  }

  /** A well-formed course: an object whose `code`, `name` and `credits` are truthy. */
  predicate WellFormedCourse(c: Json)
  {
    && c.JObj?
    && "code" in c.fields && Truthy(Some(c.fields["code"]))
    && "name" in c.fields && Truthy(Some(c.fields["name"]))
    && "credits" in c.fields && Truthy(Some(c.fields["credits"]))
  }

  /** A well-formed semester: an object with a truthy `numero` and an array
      `materias` of well-formed courses. */
  predicate WellFormedSemester(v: Json)
  {
    && v.JObj?
    && "numero" in v.fields && Truthy(Some(v.fields["numero"]))
    && "materias" in v.fields && v.fields["materias"].JArr?
    && forall k :: 0 <= k < |v.fields["materias"].items| ==> WellFormedCourse(v.fields["materias"].items[k])
  }

  /** A well-formed curriculum: an object with a truthy `carrera` and an
      array `semesters` of well-formed semesters. */
  predicate WellFormedMalla(d: Json)
  {
    && d.JObj?
    && "carrera" in d.fields && Truthy(Some(d.fields["carrera"]))
    && "semesters" in d.fields && d.fields["semesters"].JArr?
    && forall i :: 0 <= i < |d.fields["semesters"].items| ==> WellFormedSemester(d.fields["semesters"].items[i])
  }

  lemma CourseErrorIff(c: Json)
    ensures CourseError(c).None? <==> WellFormedCourse(c)
  {
  }

  lemma SemesterErrorIff(v: Json)
    ensures SemesterError(v).None? <==> WellFormedSemester(v)
  {
    if v.JObj? && "materias" in v.fields && v.fields["materias"].JArr? {
      var cs := v.fields["materias"].items;
      forall k | 0 <= k < |cs| {
        CourseErrorIff(cs[k]);
      }
    }
  }

  /** Validation accepts exactly the well-formed curricula. */
  lemma ValidateAcceptsWellFormed(data: Json)
    ensures ValidateMallaData(data).Success? <==> WellFormedMalla(data)
  {
    if data.JObj? && "semesters" in data.fields && data.fields["semesters"].JArr? {
      var sems := data.fields["semesters"].items;
      forall i | 0 <= i < |sems| {
        SemesterErrorIff(sems[i]);
      }
    }
  }

  /** A course worth 0 credits fails validation: 0 is falsy. */
  lemma ZeroCreditCourseRejected(code: string)
    requires code != ""
    ensures var course := JObj(map["code" := JStr(code), "name" := JStr("N"), "credits" := JNum(0.0)]);
            var sem := JObj(map["numero" := JNum(1.0), "materias" := JArr([course])]);
            var data := JObj(map["carrera" := JStr("C"), "semesters" := JArr([sem])]);
            ValidateMallaData(data) == Failure(InvalidCourse(Some(JStr(code))))
  {
    var course := JObj(map["code" := JStr(code), "name" := JStr("N"), "credits" := JNum(0.0)]);
    var sem := JObj(map["numero" := JNum(1.0), "materias" := JArr([course])]);
    assert CourseError(course) == Some(InvalidCourse(Some(JStr(code))));
    assert SemesterError(sem) == Some(InvalidCourse(Some(JStr(code))));
  }

  // ---------------------------------------------------------------------
  // importUserData
  // ---------------------------------------------------------------------

  /** The shape `importUserData` checks: `completedCourses` is an array. */
  predicate HasCompletedList(data: Json)
  {
    data.JObj? && "completedCourses" in data.fields && data.fields["completedCourses"].JArr?
  }

  /** Whether the import succeeded, and the value written under the user's key. */
  datatype ImportOutcome = ImportOutcome(ok: bool, stored: Option<Json>)

  /** `importUserData`: any exception, including the storage refusing the
      write (`storageAccepts` false), is caught and reported as `false`. */
  function ImportUserData(data: Json, storageAccepts: bool): (r: ImportOutcome)
    ensures r.ok <==> HasCompletedList(data) && storageAccepts
    ensures r.ok ==> r.stored == Some(data)
    ensures !r.ok ==> r.stored.None?
  {
    if data.JNull? then ImportOutcome(false, None)
    else
      var list := Get(data, "completedCourses");
      if !Truthy(list) || !list.value.JArr? then ImportOutcome(false, None)
      else if !storageAccepts then ImportOutcome(false, None)
      else ImportOutcome(true, Some(data))
  }

  /** Only the shape of `completedCourses` is checked: its entries and every
      other field are stored unexamined. */
  lemma ImportChecksOnlyTheList()
    ensures ImportUserData(JObj(map["completedCourses" := JArr([JNum(1.0), JNull])]), true).ok
    ensures !ImportUserData(JObj(map["completedCourses" := JStr("MAT-1")]), true).ok
  {
  }
}
