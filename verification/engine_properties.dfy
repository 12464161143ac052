/** Properties of the eligibility engine that relate several of its
    functions, or relate them to the declarative reading of the rules. */
module EngineProperties {
  import opened Basics
  import opened Catalog
  import opened PrereqEngine

  // ---------------------------------------------------------------------
  // Resolution agrees with the declarative rules
  // ---------------------------------------------------------------------

  /** A prerequisite resolves to "satisfied" exactly when the declarative
      rules say it is met; in particular an option group is satisfied iff
      some option (recursively) is. */
  lemma {:induction false} StatusMatchesMeets(p: Prereq, s: Snapshot)
    ensures PrereqStatus(p, s).Satisfied? <==> Meets(p, s)
    decreases p, 1, 0
  {
    match p
    case Simple(_) =>
    case Record(code, req, opts) =>
      if opts.Listed? {
        FirstSatisfiedMatchesMeets(p, opts.items, 0, s);
      }
  }

  lemma {:induction false} FirstSatisfiedMatchesMeets(p: Prereq, opts: seq<Prereq>, i: nat, s: Snapshot)
    requires p.Record? && p.options == Listed(opts) && i <= |opts|
    ensures FirstSatisfied(p, opts, i, s).Satisfied? <==> exists j :: i <= j < |opts| && Meets(opts[j], s)
    decreases p, 0, |opts| - i
  {
    if i < |opts| {
      StatusMatchesMeets(opts[i], s);
      FirstSatisfiedMatchesMeets(p, opts, i + 1, s);
    }
  }

  /** An option group returns the result of its first satisfied option
      unchanged (condition and warning included); when none is satisfied it
      reports "no option met" together with the whole option list. */
  lemma GroupYieldsFirstSatisfiedOption(p: Prereq, s: Snapshot)
    requires p.Record? && p.options.Listed?
    ensures var r := PrereqStatus(p, s);
            var opts := p.options.items;
            r.Satisfied? ==>
              exists j :: 0 <= j < |opts| && r == PrereqStatus(opts[j], s) &&
                forall k :: 0 <= k < j ==> PrereqStatus(opts[k], s).Unsatisfied?
    ensures PrereqStatus(p, s).Unsatisfied? ==>
              PrereqStatus(p, s) == Unsatisfied(NoOptionMet, None, Some(p.options.items))
  {
    FirstSatisfiedIsFirst(p, p.options.items, 0, s);
  }

  lemma {:induction false} FirstSatisfiedIsFirst(p: Prereq, opts: seq<Prereq>, i: nat, s: Snapshot)
    requires p.Record? && p.options == Listed(opts) && i <= |opts|
    ensures var r := FirstSatisfied(p, opts, i, s);
            r.Satisfied? ==>
              exists j :: i <= j < |opts| && r == PrereqStatus(opts[j], s) &&
                forall k :: i <= k < j ==> PrereqStatus(opts[k], s).Unsatisfied?
    decreases |opts| - i
  {
    if i < |opts| && PrereqStatus(opts[i], s).Unsatisfied? {
      FirstSatisfiedIsFirst(p, opts, i + 1, s);
    }
  }

  /** An empty option list is never satisfied. */
  lemma EmptyGroupNeverSatisfied(code: Option<string>, req: Option<string>, s: Snapshot)
    ensures PrereqStatus(Record(code, req, Listed([])), s) == Unsatisfied(NoOptionMet, None, Some([]))
  {
  }

  /** A prerequisite object with an `options` field is resolved as a group:
      its `code` and `requirement` fields are ignored. */
  lemma OptionsShadowCode(code: Option<string>, req: Option<string>, opts: seq<Prereq>, s: Snapshot)
    ensures PrereqStatus(Record(code, req, Listed(opts)), s) == PrereqStatus(Record(None, None, Listed(opts)), s)
  {
    FirstSatisfiedIgnoresOwner(Record(code, req, Listed(opts)), Record(None, None, Listed(opts)), opts, 0, s);
  }

  lemma {:induction false} FirstSatisfiedIgnoresOwner(p: Prereq, q: Prereq, opts: seq<Prereq>, i: nat, s: Snapshot)
    requires p.Record? && p.options == Listed(opts) && i <= |opts|
    requires q.Record? && q.options == Listed(opts)
    ensures FirstSatisfied(p, opts, i, s) == FirstSatisfied(q, opts, i, s)
    decreases |opts| - i
  {
    if i < |opts| {
      FirstSatisfiedIgnoresOwner(p, q, opts, i + 1, s);
    }
  }

  /** A qualified prerequisite with no (or an empty) requirement behaves as
      requirement "approved": only a completed course satisfies it. */
  lemma RequirementDefaultsToApproved(code: string, s: Snapshot)
    requires code != ""
    ensures PrereqStatus(Record(Some(code), None, Absent), s)
         == PrereqStatus(Record(Some(code), Some(""), Absent), s)
         == PrereqStatus(Record(Some(code), Some("approved"), Absent), s)
    ensures PrereqStatus(Record(Some(code), None, Absent), s).Satisfied? <==> code in s.completed
  {
  }

  /** Requirements are ordered by strictness: whatever satisfies "approved"
      satisfies "current", whatever satisfies "current" satisfies "seen";
      a requirement outside the three is never satisfied. */
  lemma RequirementsNest(code: string, req: string, s: Snapshot)
    ensures QualifiedStatus(code, "approved", s).Satisfied? ==> QualifiedStatus(code, "current", s).Satisfied?
    ensures QualifiedStatus(code, "current", s).Satisfied? ==> QualifiedStatus(code, "seen", s).Satisfied?
    ensures req != "approved" && req != "current" && req != "seen" ==>
              QualifiedStatus(code, req, s) == Unsatisfied(Requires(req), Some(code), None)
  {
  }

  /** The asymmetry between the two code forms: `{code, requirement: "seen"}`
      is satisfied by exactly the histories that satisfy the bare code, but
      only the bare code attaches a warning when the course is not completed. */
  lemma QualifiedSeenNeverWarns(code: string, s: Snapshot)
    requires code != ""
    ensures var q := PrereqStatus(Record(Some(code), Some("seen"), Absent), s);
            var b := PrereqStatus(Simple(code), s);
            && (q.Satisfied? <==> b.Satisfied?)
            && (q.Satisfied? ==> q.warning.None?)
            && (b.Satisfied? ==> (b.warning.Some? <==> code !in s.completed))
  {
  }

  // ---------------------------------------------------------------------
  // Availability
  // ---------------------------------------------------------------------

  /** The prerequisites of a course all meet the declarative rules. */
  predicate AllMet(ps: seq<Prereq>, s: Snapshot)
  {
    forall i :: 0 <= i < |ps| ==> Meets(ps[i], s)
  }

  /** The co-requisites of a course (if it declares any) are all met. */
  predicate CoreqsHold(c: Course, s: Snapshot)
  {
    !HasCoreqs(c) || forall j :: 0 <= j < |c.coreq.value| ==> CoreqMet(CoreqKey(c.coreq.value[j]), s)
  }

  /** A course is available iff it has no prerequisite list at all (its
      co-requisites are then never looked at), or all its prerequisites are
      met and its co-requisites hold. */
  lemma AvailabilityFollowsRules(c: Course, s: Snapshot)
    ensures CheckAvailability(c, s).Available() <==>
              NoPrereqList(c) || (AllMet(c.prereq.value, s) && CoreqsHold(c, s))
  {
    if !NoPrereqList(c) {
      var ps := c.prereq.value;
      BlockedByExact(ps, s);
      forall i | 0 <= i < |ps| {
        StatusMatchesMeets(ps[i], s);
      }
    }
  }

  /** What a verdict carries: a pass lists exactly the warnings of its
      prerequisites, all of which are satisfied; either failure carries the
      full block list of its prerequisites; a co-requisite failure carries
      the co-requisite issues. */
  lemma AvailabilityContents(c: Course, s: Snapshot)
    ensures CheckAvailability(c, s).PrereqsMet? ==>
              && CheckAvailability(c, s).warnings == Warnings(c.prereq.value, s)
              && forall i :: 0 <= i < |c.prereq.value| ==> PrereqStatus(c.prereq.value[i], s).Satisfied?
    ensures CheckAvailability(c, s).CoreqsUnmet? || CheckAvailability(c, s).PrereqsUnmet? ==>
              CheckAvailability(c, s).blockedBy == BlockedBy(c.prereq.value, s)
    ensures CheckAvailability(c, s).CoreqsUnmet? ==>
              CheckAvailability(c, s).coreqIssues == CheckCorequisites(c.coreq.value, s).issues
  {
    if !NoPrereqList(c) {
      BlockedByExact(c.prereq.value, s);
    }
  }

  /** A co-requisite failure is what gets reported, even when every
      prerequisite passes; the prerequisite block list then is empty. */
  lemma CoreqFailureTakesPrecedence(c: Course, s: Snapshot)
    requires !NoPrereqList(c) && AllMet(c.prereq.value, s)
    requires HasCoreqs(c) && !CoreqsHold(c, s)
    ensures CheckAvailability(c, s) == CoreqsUnmet([], CheckCorequisites(c.coreq.value, s).issues)
  {
    var ps := c.prereq.value;
    BlockedByExact(ps, s);
    forall i | 0 <= i < |ps| {
      StatusMatchesMeets(ps[i], s);
    }
  }

  /** The block and warning lists are computed prerequisite by prerequisite:
      the lists of a concatenation are the concatenations of the lists, so
      each keeps exactly the entries of its prerequisites, in order. */
  lemma OutcomesDistribute(a: seq<Prereq>, b: seq<Prereq>, s: Snapshot)
    ensures BlockedBy(a + b, s) == BlockedBy(a, s) + BlockedBy(b, s)
    ensures Warnings(a + b, s) == Warnings(a, s) + Warnings(b, s)
  {
    BlockedByDistributes(a, b, s);
    WarningsDistribute(a, b, s);
  }

  lemma {:induction false} BlockedByDistributes(a: seq<Prereq>, b: seq<Prereq>, s: Snapshot)
    ensures BlockedBy(a + b, s) == BlockedBy(a, s) + BlockedBy(b, s)
    decreases |a|
  {
    if |a| == 0 {
      assert a + b == b;
    } else {
      var ab := a + b;
      assert ab[0] == a[0];
      assert ab[1..] == a[1..] + b;
      BlockedByDistributes(a[1..], b, s);
      BlockedByUnfold(ab, s);
      BlockedByUnfold(a, s);
    }
  }

  lemma BlockedByUnfold(ps: seq<Prereq>, s: Snapshot)
    requires |ps| > 0
    ensures BlockedBy(ps, s) == BlockedBy([ps[0]], s) + BlockedBy(ps[1..], s)
  {
    assert [ps[0]][1..] == [];
  }

  lemma {:induction false} WarningsDistribute(a: seq<Prereq>, b: seq<Prereq>, s: Snapshot)
    ensures Warnings(a + b, s) == Warnings(a, s) + Warnings(b, s)
    decreases |a|
  {
    if |a| == 0 {
      assert a + b == b;
    } else {
      var ab := a + b;
      assert ab[0] == a[0];
      assert ab[1..] == a[1..] + b;
      WarningsDistribute(a[1..], b, s);
      WarningsUnfold(ab, s);
      WarningsUnfold(a, s);
    }
  }

  lemma WarningsUnfold(ps: seq<Prereq>, s: Snapshot)
    requires |ps| > 0
    ensures Warnings(ps, s) == Warnings([ps[0]], s) + Warnings(ps[1..], s)
  {
    assert [ps[0]][1..] == [];
  }

  /** `blockedBy` lists exactly the unmet prerequisites: it is empty iff all
      are satisfied, holds an entry (label and reason) for each unmet one,
      and nothing else. */
  lemma {:induction false} BlockedByExact(ps: seq<Prereq>, s: Snapshot)
    ensures |BlockedBy(ps, s)| == 0 <==> forall i :: 0 <= i < |ps| ==> PrereqStatus(ps[i], s).Satisfied?
    ensures forall i :: 0 <= i < |ps| && PrereqStatus(ps[i], s).Unsatisfied? ==>
              Blocked(LabelOf(ps[i]), PrereqStatus(ps[i], s).reason) in BlockedBy(ps, s)
    ensures forall b :: b in BlockedBy(ps, s) ==>
              exists i :: 0 <= i < |ps| && PrereqStatus(ps[i], s).Unsatisfied? &&
                b == Blocked(LabelOf(ps[i]), PrereqStatus(ps[i], s).reason)
    decreases |ps|
  {
    if |ps| > 0 {
      BlockedByExact(ps[1..], s);
      assert forall i :: 1 <= i < |ps| ==> ps[i] == ps[1..][i - 1];
      var r := BlockedBy(ps, s);
      forall b | b in r
        ensures exists i :: 0 <= i < |ps| && PrereqStatus(ps[i], s).Unsatisfied? &&
                  b == Blocked(LabelOf(ps[i]), PrereqStatus(ps[i], s).reason)
      {
        if b !in BlockedBy(ps[1..], s) {
          assert PrereqStatus(ps[0], s).Unsatisfied?;
        } else {
          var j :| 0 <= j < |ps[1..]| && PrereqStatus(ps[1..][j], s).Unsatisfied? &&
                    b == Blocked(LabelOf(ps[1..][j]), PrereqStatus(ps[1..][j], s).reason);
          assert ps[j + 1] == ps[1..][j];
        }
      }
    }
  }

  /** `warnings` lists exactly the prerequisites satisfied with a warning,
      each with its label and warning, and nothing else. */
  lemma {:induction false} WarningsExact(ps: seq<Prereq>, s: Snapshot)
    ensures |Warnings(ps, s)| == 0 <==>
              forall i :: 0 <= i < |ps| ==> !(PrereqStatus(ps[i], s).Satisfied? && PrereqStatus(ps[i], s).warning.Some?)
    ensures forall i :: 0 <= i < |ps| && PrereqStatus(ps[i], s).Satisfied? && PrereqStatus(ps[i], s).warning.Some? ==>
              Flag(LabelOf(ps[i]), PrereqStatus(ps[i], s).warning.value) in Warnings(ps, s)
    ensures forall f :: f in Warnings(ps, s) ==>
              exists i :: 0 <= i < |ps| && LabelOf(ps[i]) == f.code &&
                PrereqStatus(ps[i], s).Satisfied? && PrereqStatus(ps[i], s).warning == Some(f.warning)
    decreases |ps|
  {
    if |ps| > 0 {
      WarningsExact(ps[1..], s);
      assert forall i :: 1 <= i < |ps| ==> ps[i] == ps[1..][i - 1];
      var r := Warnings(ps, s);
      forall f | f in r
        ensures exists i :: 0 <= i < |ps| && LabelOf(ps[i]) == f.code &&
                  PrereqStatus(ps[i], s).Satisfied? && PrereqStatus(ps[i], s).warning == Some(f.warning)
      {
        if f !in Warnings(ps[1..], s) {
          assert PrereqStatus(ps[0], s).Satisfied?;
        } else {
          var j :| 0 <= j < |ps[1..]| && LabelOf(ps[1..][j]) == f.code &&
                    PrereqStatus(ps[1..][j], s).Satisfied? && PrereqStatus(ps[1..][j], s).warning == Some(f.warning);
          assert ps[j + 1] == ps[1..][j];
        }
      }
    }
  }

  /** Only bare codes met through the current or seen tier produce warnings:
      a prerequisite list of completed bare codes is available with none. */
  lemma CompletedPrereqsGiveNoWarnings(c: Course, s: Snapshot)
    requires !NoPrereqList(c) && !HasCoreqs(c)
    requires forall i :: 0 <= i < |c.prereq.value| ==>
               c.prereq.value[i].Simple? && c.prereq.value[i].id in s.completed
    ensures CheckAvailability(c, s) == PrereqsMet([])
  {
    var ps := c.prereq.value;
    BlockedByExact(ps, s);
    WarningsExact(ps, s);
  }

  // ---------------------------------------------------------------------
  // Derived queries
  // ---------------------------------------------------------------------

  /** No two catalog entries share a code. */
  predicate UniqueCodes(catalog: seq<Course>)
  {
    forall i, j :: 0 <= i < |catalog| && 0 <= j < |catalog| && catalog[i].code == catalog[j].code ==> i == j
  }

  /** With unique codes, the bulk query and the single-label status agree:
      every listed course is available unless it is already current or seen,
      and every course whose status is `Available` is listed. */
  lemma AvailableCoursesAgreeWithStatus(catalog: seq<Course>, s: Snapshot, c: Course)
    requires UniqueCodes(catalog) && c in catalog
    ensures c in GetAvailableCourses(catalog, s) ==>
              GetCourseStatus(c.code, catalog, s) in {Available, Current, Seen}
    ensures GetCourseStatus(c.code, catalog, s) == Available ==> c in GetAvailableCourses(catalog, s)
  {
    var f := Find(catalog, c.code);
    var i :| 0 <= i < |catalog| && catalog[i] == f.value;
    var k :| 0 <= k < |catalog| && catalog[k] == c;
    assert i == k;
  }

  /** Each batch error names a rejected catalog course of the batch, with
      that course's name and its prerequisite block list, and every rejected
      code of the batch has its error. */
  lemma {:induction false} BatchErrorsExact(codes: seq<string>, catalog: seq<Course>, trial: Snapshot)
    ensures forall e :: e in BatchErrors(codes, catalog, trial) ==>
              Find(catalog, e.code).Some? &&
              e == BatchError(e.code, Find(catalog, e.code).value.name,
                              CheckAvailability(Find(catalog, e.code).value, trial).Blockers())
    ensures forall i :: 0 <= i < |codes| && Rejected(codes[i], catalog, trial) ==>
              BatchError(codes[i], Find(catalog, codes[i]).value.name,
                         CheckAvailability(Find(catalog, codes[i]).value, trial).Blockers())
                in BatchErrors(codes, catalog, trial)
  {
    BatchErrorsSound(codes, catalog, trial);
    BatchErrorsComplete(codes, catalog, trial);
  }

  lemma {:induction false} BatchErrorsSound(codes: seq<string>, catalog: seq<Course>, trial: Snapshot)
    ensures forall e :: e in BatchErrors(codes, catalog, trial) ==>
              Find(catalog, e.code).Some? &&
              e == BatchError(e.code, Find(catalog, e.code).value.name,
                              CheckAvailability(Find(catalog, e.code).value, trial).Blockers())
    decreases |codes|
  {
    if |codes| > 0 {
      BatchErrorsSound(codes[1..], catalog, trial);
    }
  }

  lemma BatchErrorsComplete(codes: seq<string>, catalog: seq<Course>, trial: Snapshot)
    ensures forall i :: 0 <= i < |codes| && Rejected(codes[i], catalog, trial) ==>
              BatchError(codes[i], Find(catalog, codes[i]).value.name,
                         CheckAvailability(Find(catalog, codes[i]).value, trial).Blockers())
                in BatchErrors(codes, catalog, trial)
  {
    var f := (code: string) => ErrorFor(code, catalog, trial);
    BatchErrorsFlat(codes, catalog, trial, f);
    forall i | 0 <= i < |codes| && Rejected(codes[i], catalog, trial)
      ensures BatchError(codes[i], Find(catalog, codes[i]).value.name,
                         CheckAvailability(Find(catalog, codes[i]).value, trial).Blockers())
                in BatchErrors(codes, catalog, trial)
    {
      FlatMapContains(f, codes, i);
      assert f(codes[i])[0] in f(codes[i]);
    }
  }

  /** Errors are reported code by code: the errors of a concatenated batch
      are those of its first part followed by those of its second, so the
      list holds one entry per rejected occurrence, in batch order. */
  lemma BatchErrorsAppend(a: seq<string>, b: seq<string>, catalog: seq<Course>, trial: Snapshot)
    ensures BatchErrors(a + b, catalog, trial) == BatchErrors(a, catalog, trial) + BatchErrors(b, catalog, trial)
  {
    var f := (code: string) => ErrorFor(code, catalog, trial);
    BatchErrorsFlat(a + b, catalog, trial, f);
    BatchErrorsFlat(a, catalog, trial, f);
    BatchErrorsFlat(b, catalog, trial, f);
    FlatMapAppend(f, a, b);
  }

  /** The batch's errors are the error entries of its codes, one after the
      other. */
  lemma {:induction false} BatchErrorsFlat(codes: seq<string>, catalog: seq<Course>, trial: Snapshot,
                                           f: string -> seq<BatchError>)
    requires forall code :: f(code) == ErrorFor(code, catalog, trial)
    ensures BatchErrors(codes, catalog, trial) == FlatMap(f, codes)
    decreases |codes|
  {
    if |codes| > 0 {
      BatchErrorsFlat(codes[1..], catalog, trial, f);
    }
  }

  /** A batch made only of codes missing from the catalog is always valid. */
  lemma UnknownCodesAreSkipped(codes: seq<string>, catalog: seq<Course>, s: Snapshot)
    requires forall i :: 0 <= i < |codes| ==> Find(catalog, codes[i]).None?
    ensures ValidateCurrentCourses(codes, catalog, s) == Validation(true, [])
  {
  }
}
