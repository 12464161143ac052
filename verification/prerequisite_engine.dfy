/** The prerequisite / eligibility engine: side-effect-free evaluation of a
    course's prerequisite and co-requisite declarations against a student's
    history snapshot. */
module PrereqEngine {
  import opened Basics
  import opened Catalog

  /** The history tier through which a prerequisite was met (`condition`). */
  datatype Condition = CondApproved | CondCurrent | CondSeen

  /** The two risk warnings a bare-code prerequisite can carry. */
  datatype Warning =
    | InProgress       // "Prerequisito en curso actualmente"
    | SeenNotApproved  // "Prerequisito visto pero no aprobado"

  /** Why a prerequisite is not met (`reason`). */
  datatype Reason =
    | NotMet                          // "No cumple con prerequisito"
    | Requires(requirement: string)   // "Requiere: <requirement>"
    | NoOptionMet                     // "Ninguna opción de prerequisito cumplida"
    | InvalidPrereq                   // "Prerequisito inválido"

  /** The result of resolving one prerequisite expression. An unmet option
      group carries its whole option list for display. */
  datatype Status =
    | Satisfied(condition: Condition, warning: Option<Warning>)
    | Unsatisfied(reason: Reason, missing: Option<string>, options: Option<seq<Prereq>>)

  /** The requirement a qualified prerequisite names: an absent or empty
      `requirement` means "approved". */
  function Requirement(req: Option<string>): string
  {
    if req.Some? && req.value != "" then req.value else "approved"
  }

  // ---------------------------------------------------------------------
  // Reference semantics: when is a prerequisite met at all?
  // ---------------------------------------------------------------------

  /** The history tiers each requirement accepts; any other requirement
      string accepts nothing. */
  predicate Accepts(requirement: string, code: string, s: Snapshot)
  {
    match requirement
    case "approved" => code in s.completed
    case "current" => code in s.completed || code in s.current
    case "seen" => Touched(s, code)
    case _ => false
  }

  /** Declarative meaning of a prerequisite expression: a bare code is met by
      any history, a group by any of its options, a qualified record by the
      tiers its requirement accepts, and anything else never. */
  predicate Meets(p: Prereq, s: Snapshot)
    decreases p
  {
    match p
    case Simple(c) => Touched(s, c)
    case Record(code, req, opts) =>
      if opts.Listed? then
        exists j :: 0 <= j < |opts.items| && Meets(opts.items[j], s)
      else
        code.Some? && code.value != "" && Accepts(Requirement(req), code.value, s)
  }

  // ---------------------------------------------------------------------
  // getPrereqStatus
  // ---------------------------------------------------------------------

  /** A bare course code: completed, then current, then seen; first match wins. */
  function SimpleStatus(code: string, s: Snapshot): (r: Status)
    ensures code in s.completed ==> r == Satisfied(CondApproved, None)
    ensures code !in s.completed && code in s.current ==> r == Satisfied(CondCurrent, Some(InProgress))
    ensures code !in s.completed && code !in s.current && code in s.seen ==>
              r == Satisfied(CondSeen, Some(SeenNotApproved))
    ensures !Touched(s, code) ==> r == Unsatisfied(NotMet, Some(code), None)
  {
    if code in s.completed then Satisfied(CondApproved, None)
    else if code in s.current then Satisfied(CondCurrent, Some(InProgress))
    else if code in s.seen then Satisfied(CondSeen, Some(SeenNotApproved))
    else Unsatisfied(NotMet, Some(code), None)
  }

  /** A `{code, requirement}` record. Satisfaction never carries a warning,
      and the condition reported is the requirement itself. */
  function QualifiedStatus(code: string, requirement: string, s: Snapshot): (r: Status)
    ensures r.Satisfied? <==> Accepts(requirement, code, s)
    ensures r.Satisfied? ==> r.warning.None?
    ensures r.Satisfied? && requirement == "approved" ==> r.condition == CondApproved
    ensures r.Satisfied? && requirement == "current" ==> r.condition == CondCurrent
    ensures r.Satisfied? && requirement == "seen" ==> r.condition == CondSeen
    ensures r.Unsatisfied? ==> r == Unsatisfied(Requires(requirement), Some(code), None)
  {
    if requirement == "approved" && code in s.completed then
      Satisfied(CondApproved, None)
    else if requirement == "current" && (code in s.current || code in s.completed) then
      Satisfied(CondCurrent, None)
    else if requirement == "seen" && (code in s.seen || code in s.current || code in s.completed) then
      Satisfied(CondSeen, None)
    else
      Unsatisfied(Requires(requirement), Some(code), None)
  }

  /** Resolves one prerequisite expression. An object with an `options`
      field is a group whatever else it holds; otherwise a non-empty `code`
      makes it qualified; otherwise it is invalid. */
  function PrereqStatus(p: Prereq, s: Snapshot): (r: Status)
    ensures r.Satisfied? && r.warning == Some(InProgress) ==> r.condition == CondCurrent
    ensures r.Satisfied? && r.warning == Some(SeenNotApproved) ==> r.condition == CondSeen
    ensures r.Satisfied? && r.condition == CondApproved ==> r.warning.None?
    ensures p.Record? && p.options.Absent? && (p.code.None? || p.code.value == "") ==>
              r == Unsatisfied(InvalidPrereq, None, None)
    decreases p, 1, 0
  {
    match p
    case Simple(c) => SimpleStatus(c, s)
    case Record(code, req, opts) =>
      if opts.Listed? then FirstSatisfied(p, opts.items, 0, s)
      else if code.Some? && code.value != "" then QualifiedStatus(code.value, Requirement(req), s)
      else Unsatisfied(InvalidPrereq, None, None)
  }

  /** The options of group `p` from index `i` on: the first satisfied
      option's result verbatim, or "no option met" with the full list. */
  function FirstSatisfied(p: Prereq, opts: seq<Prereq>, i: nat, s: Snapshot): (r: Status)
    requires p.Record? && p.options == Listed(opts) && i <= |opts|
    ensures r.Satisfied? && r.warning == Some(InProgress) ==> r.condition == CondCurrent
    ensures r.Satisfied? && r.warning == Some(SeenNotApproved) ==> r.condition == CondSeen
    ensures r.Satisfied? && r.condition == CondApproved ==> r.warning.None?
    ensures r.Unsatisfied? ==> r == Unsatisfied(NoOptionMet, None, Some(opts))
    decreases p, 0, |opts| - i
  {
    if i == |opts| then Unsatisfied(NoOptionMet, None, Some(opts))
    else
      var st := PrereqStatus(opts[i], s);
      if st.Satisfied? then st else FirstSatisfied(p, opts, i + 1, s)
  }

  // ---------------------------------------------------------------------
  // checkCorequisites
  // ---------------------------------------------------------------------

  /** The code a co-requisite names (`typeof c === 'string' ? c : c.code`). */
  function CoreqKey(c: Coreq): (r: Option<string>)
    ensures c.CoreqCode? ==> r == Some(c.id)
    ensures c.CoreqRecord? ==> r == c.code
  {
    match c
    case CoreqCode(id) => Some(id)
    case CoreqRecord(code) => code
  }

  function CoreqKeys(coreqs: seq<Coreq>): (r: seq<Option<string>>)
    ensures |r| == |coreqs|
    ensures forall i :: 0 <= i < |coreqs| ==> r[i] == CoreqKey(coreqs[i])
  {
    seq(|coreqs|, i requires 0 <= i < |coreqs| => CoreqKey(coreqs[i]))
  }

  /** A co-requisite is met only by a completed or a current course; a seen
      course does not count. */
  predicate CoreqMet(key: Option<string>, s: Snapshot)
  {
    key.Some? && (key.value in s.completed || key.value in s.current)
  }

  /** Result of `checkCorequisites`: each issue is the failing code (the
      fixed reason text is left implicit). */
  datatype CoreqCheck = CoreqCheck(satisfied: bool, issues: seq<Option<string>>)

  function CheckCorequisites(coreqs: seq<Coreq>, s: Snapshot): (r: CoreqCheck)
    ensures r.satisfied <==> forall i :: 0 <= i < |coreqs| ==> CoreqMet(CoreqKey(coreqs[i]), s)
    ensures r.satisfied <==> |r.issues| == 0
    ensures forall k :: k in r.issues ==> !CoreqMet(k, s)
    ensures forall i :: 0 <= i < |coreqs| && !CoreqMet(CoreqKey(coreqs[i]), s) ==>
              CoreqKey(coreqs[i]) in r.issues
    ensures forall k :: Count(r.issues, k) == (if CoreqMet(k, s) then 0 else Count(CoreqKeys(coreqs), k))
    ensures Subseq(r.issues, CoreqKeys(coreqs))
  {
    var keys := CoreqKeys(coreqs);
    var issues := Filter(k => !CoreqMet(k, s), keys);
    assert |issues| > 0 ==> issues[0] in keys && !CoreqMet(issues[0], s);
    assert forall i :: 0 <= i < |coreqs| && !CoreqMet(CoreqKey(coreqs[i]), s) ==> keys[i] in issues;
    CoreqCheck(|issues| == 0, issues)
  }

  // ---------------------------------------------------------------------
  // checkAvailability
  // ---------------------------------------------------------------------

  /** How a prerequisite is named in `blockedBy`/`warnings`
      (`prereq.code || prereq`): its non-empty `code`, else the expression. */
  datatype Label = CodeLabel(code: string) | ExprLabel(expr: Prereq)

  function LabelOf(p: Prereq): (r: Label)
    ensures p.Simple? ==> r == CodeLabel(p.id)
    ensures p.Record? ==> (r.CodeLabel? <==> p.code.Some? && p.code.value != "")
    ensures r.CodeLabel? && p.Record? ==> r.code == p.code.value
    ensures r.ExprLabel? ==> r.expr == p
  {
    match p
    case Simple(c) => CodeLabel(c)
    case Record(code, _, _) =>
      if code.Some? && code.value != "" then CodeLabel(code.value) else ExprLabel(p)
  }

  datatype Blocked = Blocked(code: Label, reason: Reason)
  datatype Flag = Flag(code: Label, warning: Warning)

  /** The unmet prerequisites of `ps`, in order. */
  function BlockedBy(ps: seq<Prereq>, s: Snapshot): (r: seq<Blocked>)
    ensures |r| <= |ps|
    decreases |ps|
  {
    if |ps| == 0 then []
    else
      var st := PrereqStatus(ps[0], s);
      var rest := BlockedBy(ps[1..], s);
      (if st.Unsatisfied? then [Blocked(LabelOf(ps[0]), st.reason)] else []) + rest
  }

  /** The satisfied-with-warning prerequisites of `ps`, in order. */
  function Warnings(ps: seq<Prereq>, s: Snapshot): (r: seq<Flag>)
    ensures |r| <= |ps|
    decreases |ps|
  {
    if |ps| == 0 then []
    else
      var st := PrereqStatus(ps[0], s);
      var rest := Warnings(ps[1..], s);
      (if st.Satisfied? && st.warning.Some? then [Flag(LabelOf(ps[0]), st.warning.value)] else []) + rest
  }

  /** The verdict of `checkAvailability`, one constructor per `reason`. */
  datatype Availability =
    | NoPrereqs                                                         // "Sin prerequisitos"
    | CoreqsUnmet(blockedBy: seq<Blocked>, coreqIssues: seq<Option<string>>) // "Co-requisitos no cumplidos"
    | PrereqsUnmet(blockedBy: seq<Blocked>)                             // "Prerequisitos no cumplidos"
    | PrereqsMet(warnings: seq<Flag>)                                   // "Prerequisitos cumplidos"
  {
    predicate Available()
    {
      NoPrereqs? || PrereqsMet?
    }

    /** `blockedBy || []` */
    function Blockers(): seq<Blocked>
    {
      if CoreqsUnmet? || PrereqsUnmet? then blockedBy else []
    }
  }

  /** A missing or empty prerequisite list. */
  predicate NoPrereqList(c: Course)
  {
    c.prereq.None? || |c.prereq.value| == 0
  }

  /** A present, non-empty co-requisite list. */
  predicate HasCoreqs(c: Course)
  {
    c.coreq.Some? && |c.coreq.value| > 0
  }

  function CheckAvailability(c: Course, s: Snapshot): (r: Availability)
    ensures r.NoPrereqs? <==> NoPrereqList(c)
    ensures r.CoreqsUnmet? <==> !NoPrereqList(c) && HasCoreqs(c) && !CheckCorequisites(c.coreq.value, s).satisfied
    ensures r.PrereqsUnmet? ==> |r.blockedBy| > 0
  {
    if NoPrereqList(c) then NoPrereqs
    else
      var ps := c.prereq.value;
      var blocked := BlockedBy(ps, s);
      var warnings := Warnings(ps, s);
      if HasCoreqs(c) && !CheckCorequisites(c.coreq.value, s).satisfied then
        CoreqsUnmet(blocked, CheckCorequisites(c.coreq.value, s).issues)
      else if |blocked| > 0 then
        PrereqsUnmet(blocked)
      else
        PrereqsMet(warnings)
  }

  // ---------------------------------------------------------------------
  // Derived queries
  // ---------------------------------------------------------------------

  /** `allCourses.find(c => c.code === code)`: the first course with that code. */
  function Find(catalog: seq<Course>, code: string): (r: Option<Course>)
    ensures r.None? <==> forall i :: 0 <= i < |catalog| ==> catalog[i].code != code
    ensures r.Some? ==> r.value.code == code && r.value in catalog
    ensures r.Some? ==>
              (exists i :: 0 <= i < |catalog| && catalog[i] == r.value &&
                 forall j :: 0 <= j < i ==> catalog[j].code != code)
    decreases |catalog|
  {
    if |catalog| == 0 then None
    else if catalog[0].code == code then Some(catalog[0])
    else
      var r := Find(catalog[1..], code);
      assert forall i :: 1 <= i < |catalog| ==> catalog[i] == catalog[1..][i - 1];
      r
  }

  /** The single-label view of a course (`getCourseStatus`). */
  datatype CourseStatus = Approved | Current | Seen | Available | Locked | Unknown

  function GetCourseStatus(code: string, catalog: seq<Course>, s: Snapshot): (r: CourseStatus)
    ensures r == Approved <==> code in s.completed
    ensures r == Current <==> code !in s.completed && code in s.current
    ensures r == Seen <==> code !in s.completed && code !in s.current && code in s.seen
    ensures r == Unknown <==> !Touched(s, code) && Find(catalog, code).None?
    ensures r == Available <==>
              !Touched(s, code) && Find(catalog, code).Some? &&
              CheckAvailability(Find(catalog, code).value, s).Available()
    ensures r == Locked <==>
              !Touched(s, code) && Find(catalog, code).Some? &&
              !CheckAvailability(Find(catalog, code).value, s).Available()
  {
    if code in s.completed then Approved
    else if code in s.current then Current
    else if code in s.seen then Seen
    else
      match Find(catalog, code)
      case None => Unknown
      case Some(c) => if CheckAvailability(c, s).Available() then Available else Locked
  }

  /** `getAvailableCourses`: the catalog courses that are not completed and
      are available, in catalog order. */
  function GetAvailableCourses(catalog: seq<Course>, s: Snapshot): (r: seq<Course>)
    ensures Subseq(r, catalog)
    ensures forall c :: c in r <==>
              c in catalog && c.code !in s.completed && CheckAvailability(c, s).Available()
    ensures forall c :: Count(r, c) ==
              if c.code !in s.completed && CheckAvailability(c, s).Available() then Count(catalog, c) else 0
  {
    Filter((c: Course) => c.code !in s.completed && CheckAvailability(c, s).Available(), catalog)
  }

  /** One entry of `validateCurrentCourses`' `errors`. */
  datatype BatchError = BatchError(code: string, name: string, issues: seq<Blocked>)

  datatype Validation = Validation(valid: bool, errors: seq<BatchError>)

  /** The snapshot a batch is judged against: `currentCourses` replaced by
      the batch, not extended with it. */
  function WithBatch(s: Snapshot, batch: seq<string>): Snapshot
  {
    s.(current := batch)
  }

  /** A code of the batch that is in the catalog and not available against `trial`. */
  predicate Rejected(code: string, catalog: seq<Course>, trial: Snapshot)
  {
    Find(catalog, code).Some? && !CheckAvailability(Find(catalog, code).value, trial).Available()
  }

  /** The error entry, if any, for one code of the batch. */
  function ErrorFor(code: string, catalog: seq<Course>, trial: Snapshot): (r: seq<BatchError>)
    ensures |r| <= 1
    ensures |r| == 1 <==> Rejected(code, catalog, trial)
    ensures |r| == 1 ==> r[0] == BatchError(code, Find(catalog, code).value.name,
                                            CheckAvailability(Find(catalog, code).value, trial).Blockers())
  {
    match Find(catalog, code)
    case None => []
    case Some(c) =>
      var a := CheckAvailability(c, trial);
      if a.Available() then [] else [BatchError(code, c.name, a.Blockers())]
  }

  function BatchErrors(codes: seq<string>, catalog: seq<Course>, trial: Snapshot): (r: seq<BatchError>)
    ensures |r| == 0 <==> forall i :: 0 <= i < |codes| ==> !Rejected(codes[i], catalog, trial)
    ensures forall e :: e in r ==> e.code in codes && Rejected(e.code, catalog, trial)
    decreases |codes|
  {
    if |codes| == 0 then []
    else
      var rest := BatchErrors(codes[1..], catalog, trial);
      assert forall i :: 1 <= i < |codes| ==> codes[i] == codes[1..][i - 1];
      ErrorFor(codes[0], catalog, trial) + rest
  }

  /** `validateCurrentCourses`: every catalog course of the batch is judged
      with the whole batch as the current courses; unknown codes are skipped. */
  function ValidateCurrentCourses(codes: seq<string>, catalog: seq<Course>, s: Snapshot): (r: Validation)
    ensures r.valid <==> |r.errors| == 0
    ensures r.valid <==> forall i :: 0 <= i < |codes| ==> !Rejected(codes[i], catalog, WithBatch(s, codes))
    ensures forall e :: e in r.errors ==> e.code in codes && Find(catalog, e.code).Some?
  {
    var errors := BatchErrors(codes, catalog, WithBatch(s, codes));
    Validation(|errors| == 0, errors)
  }
}
