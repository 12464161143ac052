/** The application's own edits of a student's history: the status
    transitions of a course card, the combined course list the engine is
    queried against, and the deletion of electives and custom courses. */
module History {
  import opened Basics
  import opened Decimal
  import opened Catalog
  import opened PrereqEngine
  import opened EngineProperties

  // ---------------------------------------------------------------------
  // markAs
  // ---------------------------------------------------------------------

  /** The status argument of `markAs`: 'approved', 'current', 'seen', or
      'none' (any other string behaves as 'none'). */
  datatype Mark = ToApproved | ToCurrent | ToSeen | ToNone

  /** Drops `code` from all three history lists. */
  function Forget(s: Snapshot, code: string): (r: Snapshot)
    ensures !Touched(r, code)
    ensures && Without(r.completed, code) == Without(s.completed, code)
            && Without(r.current, code) == Without(s.current, code)
            && Without(r.seen, code) == Without(s.seen, code)
    ensures forall c :: c != code ==>
              && (c in r.completed <==> c in s.completed)
              && (c in r.current <==> c in s.current)
              && (c in r.seen <==> c in s.seen)
  {
    WithoutIdempotent(s.completed, code);
    WithoutIdempotent(s.current, code);
    WithoutIdempotent(s.seen, code);
    Snapshot(Without(s.completed, code), Without(s.current, code), Without(s.seen, code))
  }

  /** `xs` after `filter(c => c !== code)` and, when `push` holds, `push(code)`. */
  function Retarget(xs: seq<string>, code: string, push: bool): (r: seq<string>)
    ensures Count(r, code) == (if push then 1 else 0)
    ensures push ==> |r| > 0 && r[|r| - 1] == code
    ensures Without(r, code) == Without(xs, code)
    ensures forall c :: c != code ==> (c in r <==> c in xs)
  {
    var kept := Without(xs, code);
    CountZero(kept, code);
    WithoutIdempotent(xs, code);
    if push then
      CountAppend(kept, [code], code);
      WithoutAppend(kept, [code], code);
      assert Without([code], code) == [];
      kept + [code]
    else
      kept
  }

  /** `markAs(code, status)`: the code leaves every list and is appended to
      the one the status names. */
  function MarkAs(s: Snapshot, code: string, m: Mark): (r: Snapshot)
    ensures Count(r.completed, code) == (if m == ToApproved then 1 else 0)
    ensures Count(r.current, code) == (if m == ToCurrent then 1 else 0)
    ensures Count(r.seen, code) == (if m == ToSeen then 1 else 0)
    ensures forall c :: c != code ==>
              && (c in r.completed <==> c in s.completed)
              && (c in r.current <==> c in s.current)
              && (c in r.seen <==> c in s.seen)
    ensures && Without(r.completed, code) == Without(s.completed, code)
            && Without(r.current, code) == Without(s.current, code)
            && Without(r.seen, code) == Without(s.seen, code)
  {
    Snapshot(
      Retarget(s.completed, code, m == ToApproved),
      Retarget(s.current, code, m == ToCurrent),
      Retarget(s.seen, code, m == ToSeen))
  }

  /** The transitions keep every code in at most one history list. */
  lemma MarkAsKeepsExclusive(s: Snapshot, code: string, m: Mark)
    requires Exclusive(s)
    ensures Exclusive(MarkAs(s, code, m))
  {
    var r := MarkAs(s, code, m);
    CountZero(r.completed, code);
    CountZero(r.current, code);
    CountZero(r.seen, code);
  }

  /** After `markAs` the course shows exactly the status it was given; after
      'none' it shows no history status at all. */
  lemma MarkAsSetsStatus(code: string, catalog: seq<Course>, s: Snapshot, m: Mark)
    ensures var st := GetCourseStatus(code, catalog, MarkAs(s, code, m));
            match m
            case ToApproved => st == Approved
            case ToCurrent => st == Current
            case ToSeen => st == Seen
            case ToNone => st in {Available, Locked, Unknown}
  {
    var r := MarkAs(s, code, m);
    CountZero(r.completed, code);
    CountZero(r.current, code);
    CountZero(r.seen, code);
  }

  /** Only the last transition of a course matters. */
  lemma MarkAsLastWins(s: Snapshot, code: string, m1: Mark, m2: Mark)
    ensures MarkAs(MarkAs(s, code, m1), code, m2) == MarkAs(s, code, m2)
  {
  }

  /** The history status that a mark reproduces. */
  function MarkOf(status: CourseStatus): Mark
  {
    match status
    case Approved => ToApproved
    case Current => ToCurrent
    case Seen => ToSeen
    case _ => ToNone
  }

  // ---------------------------------------------------------------------
  // createCourseActions
  // ---------------------------------------------------------------------

  /** One button of a course card: the mark it applies and whether it is enabled. */
  datatype Action = Action(target: Mark, enabled: bool)

  predicate HasHistory(status: CourseStatus)
  {
    status == Approved || status == Current || status == Seen
  }

  /** The buttons a course card offers for a status: approved can only be
      unmarked; current and seen can move to each other's neighbours or be
      cleared; any other status offers 'current', disabled unless available. */
  function CourseActions(status: CourseStatus, availability: Availability): (r: seq<Action>)
    ensures status == Approved ==> r == [Action(ToNone, true)]
    ensures status == Current ==> r == [Action(ToApproved, true), Action(ToSeen, true), Action(ToNone, true)]
    ensures status == Seen ==> r == [Action(ToApproved, true), Action(ToCurrent, true), Action(ToNone, true)]
    ensures !HasHistory(status) ==> r == [Action(ToCurrent, availability.Available())]
    ensures |r| > 0
    ensures forall i :: 0 <= i < |r| ==> r[i].target != MarkOf(status)
    ensures HasHistory(status) <==> (exists i :: 0 <= i < |r| && r[i].target == ToNone)
    ensures (exists i :: 0 <= i < |r| && !r[i].enabled) <==> !HasHistory(status) && !availability.Available()
    ensures !HasHistory(status) ==> forall i :: 0 <= i < |r| ==> r[i].target == ToCurrent
    ensures status != Approved ==> exists i :: 0 <= i < |r| && r[i].target != ToNone
  {
    var r := match status
      case Approved => [Action(ToNone, true)]
      case Current => [Action(ToApproved, true), Action(ToSeen, true), Action(ToNone, true)]
      case Seen => [Action(ToApproved, true), Action(ToCurrent, true), Action(ToNone, true)]
      case _ => [Action(ToCurrent, availability.Available())];
    assert r[0] in r;
    assert HasHistory(status) ==> r[|r| - 1].target == ToNone;
    r
  }

  /** Every button a card offers really changes the course's status. */
  lemma ActionsChangeStatus(code: string, catalog: seq<Course>, s: Snapshot, availability: Availability)
    ensures var st := GetCourseStatus(code, catalog, s);
            forall a :: a in CourseActions(st, availability) ==>
              GetCourseStatus(code, catalog, MarkAs(s, code, a.target)) != st
  {
    var st := GetCourseStatus(code, catalog, s);
    forall a | a in CourseActions(st, availability)
      ensures GetCourseStatus(code, catalog, MarkAs(s, code, a.target)) != st
    {
      MarkAsSetsStatus(code, catalog, s, a.target);
    }
  }

  // ---------------------------------------------------------------------
  // getAllCourses
  // ---------------------------------------------------------------------

  /** The English levels as courses: level `i` (named from 1) requires the
      previous level's code; the first level has an empty prerequisite list. */
  function EnglishLevels(e: English): (r: seq<Course>)
    ensures |r| == |e.levels|
    ensures forall i :: 0 <= i < |r| ==>
              && r[i].code == e.levels[i]
              && r[i].name == "Inglés Nivel " + Text(i + 1)
              && r[i].credits == e.creditsPerLevel
              && r[i].coreq.None?
              && r[i].prereq == Some(if i > 0 then [Simple(e.levels[i - 1])] else [])
  {
    seq(|e.levels|, i requires 0 <= i < |e.levels| =>
      Course(e.levels[i], "Inglés Nivel " + Text(i + 1), e.creditsPerLevel,
             Some(if i > 0 then [Simple(e.levels[i - 1])] else []), None))
  }

  /** The English levels form a chain: the first is always available, and
      each later level is available exactly when the previous level has any
      history. */
  lemma EnglishChainAvailability(e: English, i: nat, s: Snapshot)
    requires i < |e.levels|
    ensures var a := CheckAvailability(EnglishLevels(e)[i], s);
            && (i == 0 ==> a == NoPrereqs)
            && (a.Available() <==> i == 0 || Touched(s, e.levels[i - 1]))
  {
    var c := EnglishLevels(e)[i];
    AvailabilityFollowsRules(c, s);
    if i > 0 {
      assert c.prereq.value == [Simple(e.levels[i - 1])];
      assert AllMet(c.prereq.value, s) <==> Meets(Simple(e.levels[i - 1]), s);
    }
  }

  /** Every course the engine is asked about: the semester courses, the
      English levels, the student's electives, then their custom courses (when
      that list exists). The curriculum must carry its English track. */
  function AllCourses(m: Malla, electives: seq<Course>, custom: Option<seq<Course>>): (r: seq<Course>)
    requires m.english.Some?
    ensures |r| == |SemesterCourses(m.semesters)| + |m.english.value.levels| + |electives| +
                   (if custom.Some? then |custom.value| else 0)
    ensures forall c :: c in r <==>
              c in SemesterCourses(m.semesters) || c in EnglishLevels(m.english.value) ||
              c in electives || (custom.Some? && c in custom.value)
  {
    SemesterCourses(m.semesters) + EnglishLevels(m.english.value) + electives +
      (if custom.Some? then custom.value else [])
  }

  /** `find` on a concatenation looks in the second part only when the first
      has no match. */
  lemma FindAppend(a: seq<Course>, b: seq<Course>, code: string)
    ensures Find(a + b, code) == if Find(a, code).Some? then Find(a, code) else Find(b, code)
  {
    if Find(a, code).None? {
      var r := Find(a + b, code);
      if r.Some? {
        var i :| 0 <= i < |a + b| && (a + b)[i] == r.value &&
                 forall j :: 0 <= j < i ==> (a + b)[j].code != code;
        assert forall j :: 0 <= j < |b| ==> b[j] == (a + b)[|a| + j];
        FindUnique(b, code, r.value, i - |a|);
      } else {
        assert forall j :: 0 <= j < |b| ==> b[j] == (a + b)[|a| + j];
      }
    } else {
      var r := Find(a, code);
      var i :| 0 <= i < |a| && a[i] == r.value && forall j :: 0 <= j < i ==> a[j].code != code;
      FindUnique(a + b, code, r.value, i);
    }
  }

  /** The first course with a code is the one `find` returns. */
  lemma FindUnique(catalog: seq<Course>, code: string, c: Course, i: int)
    requires 0 <= i < |catalog| && catalog[i] == c && c.code == code
    requires forall j :: 0 <= j < i ==> catalog[j].code != code
    ensures Find(catalog, code) == Some(c)
  {
    var r := Find(catalog, code);
    var k :| 0 <= k < |catalog| && catalog[k] == r.value && forall j :: 0 <= j < k ==> catalog[j].code != code;
    assert !(k < i) && !(i < k);
  }

  /** Course lookups give precedence to the curriculum, then the English
      levels, then electives, then custom courses: an elective or custom
      course that reuses an official code is never the one looked up. */
  lemma AllCoursesLookup(m: Malla, electives: seq<Course>, custom: Option<seq<Course>>, code: string)
    requires m.english.Some?
    ensures var sem := Find(SemesterCourses(m.semesters), code);
            var eng := Find(EnglishLevels(m.english.value), code);
            var ele := Find(electives, code);
            var cus := if custom.Some? then Find(custom.value, code) else None;
            Find(AllCourses(m, electives, custom), code) ==
              if sem.Some? then sem else if eng.Some? then eng else if ele.Some? then ele else cus
  {
    var a := SemesterCourses(m.semesters);
    var b := EnglishLevels(m.english.value);
    var d: seq<Course> := if custom.Some? then custom.value else [];
    FindAppend(a + b + electives, d, code);
    FindAppend(a + b, electives, code);
    FindAppend(a, b, code);
  }

  // ---------------------------------------------------------------------
  // deleteElectiva / deleteCustomCourse
  // ---------------------------------------------------------------------

  /** The persisted part of the application state these operations touch. */
  datatype UserState = UserState(history: Snapshot, electives: seq<Course>, customCourses: seq<Course>)

  /** The courses of `cs` whose code is not `code`, in order. */
  function DropCode(cs: seq<Course>, code: string): (r: seq<Course>)
    ensures forall c :: c in r <==> c in cs && c.code != code
    ensures forall c :: Count(r, c) == (if c.code != code then Count(cs, c) else 0)
    ensures Subseq(r, cs)
  {
    Filter((c: Course) => c.code != code, cs)
  }

  /** `deleteElectiva(code)`: when confirmed, the electives with that code
      go and the code is dropped from every history list; custom courses are
      untouched. Declining the confirmation changes nothing. */
  function DeleteElectiva(st: UserState, code: string, confirmed: bool): (r: UserState)
    ensures !confirmed ==> r == st
    ensures r.customCourses == st.customCourses
    ensures confirmed ==> forall c :: c in r.electives <==> c in st.electives && c.code != code
    ensures Subseq(r.electives, st.electives)
    ensures confirmed ==> forall c :: Count(r.electives, c) == (if c.code != code then Count(st.electives, c) else 0)
    ensures confirmed ==> r.history == Forget(st.history, code)
    ensures confirmed ==> !Touched(r.history, code)
    ensures forall c :: c != code ==> (Touched(r.history, c) <==> Touched(st.history, c))
  {
    SubseqRefl(st.electives);
    SubseqRefl(st.customCourses);
    if !confirmed then st
    else
      UserState(Forget(st.history, code), DropCode(st.electives, code), st.customCourses)
  }

  /** `deleteCustomCourse(code)`: the same as deleting an elective, on the
      custom course list. */
  function DeleteCustomCourse(st: UserState, code: string, confirmed: bool): (r: UserState)
    ensures !confirmed ==> r == st
    ensures r.electives == st.electives
    ensures confirmed ==> forall c :: c in r.customCourses <==> c in st.customCourses && c.code != code
    ensures Subseq(r.customCourses, st.customCourses)
    ensures confirmed ==> forall c :: Count(r.customCourses, c) == (if c.code != code then Count(st.customCourses, c) else 0)
    ensures confirmed ==> r.history == Forget(st.history, code)
    ensures confirmed ==> !Touched(r.history, code)
    ensures forall c :: c != code ==> (Touched(r.history, c) <==> Touched(st.history, c))
  {
    SubseqRefl(st.electives);
    SubseqRefl(st.customCourses);
    if !confirmed then st
    else
      UserState(Forget(st.history, code), st.electives, DropCode(st.customCourses, code))
  }

  /** A confirmed deletion of a code the curriculum does not define leaves no
      trace of it: the code is unknown to the engine, unless another elective
      or custom course still carries it. */
  lemma DeletedElectiveIsUnknown(m: Malla, st: UserState, code: string)
    requires m.english.Some?
    requires Find(SemesterCourses(m.semesters), code).None?
    requires Find(EnglishLevels(m.english.value), code).None?
    requires forall c :: c in st.customCourses ==> c.code != code
    ensures var r := DeleteElectiva(st, code, true);
            GetCourseStatus(code, AllCourses(m, r.electives, Some(r.customCourses)), r.history) == Unknown
  {
    var r := DeleteElectiva(st, code, true);
    AllCoursesLookup(m, r.electives, Some(r.customCourses), code);
    NotFoundWithout(r.electives, code);
    NotFoundWithout(r.customCourses, code);
  }

  lemma NotFoundWithout(cs: seq<Course>, code: string)
    requires forall c :: c in cs ==> c.code != code
    ensures Find(cs, code).None?
  {
    assert forall i :: 0 <= i < |cs| ==> cs[i] in cs;
  }
}
