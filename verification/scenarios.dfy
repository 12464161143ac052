/** Worked examples of the engine's documented behaviour, each on concrete
    courses and snapshots. */
module Scenarios {
  import opened Basics
  import opened Catalog
  import opened PrereqEngine

  const Empty := Snapshot([], [], [])

  /** A course with a single bare prerequisite seen but not approved is
      available, with the "seen but not approved" warning. */
  lemma SeenPrereqWarns()
    ensures CheckAvailability(Course("X", "X", 3, Some([Simple("Y")]), Some([])), Snapshot([], [], ["Y"]))
         == PrereqsMet([Flag(CodeLabel("Y"), SeenNotApproved)])
  {
  }

  /** A group whose options are all unmet blocks the course; the block
      names the group itself and the group's status carries both options. */
  lemma UnmetGroupBlocks()
    ensures var g := Record(None, None, Listed([Simple("A"), Simple("B")]));
            && PrereqStatus(g, Empty) == Unsatisfied(NoOptionMet, None, Some([Simple("A"), Simple("B")]))
            && CheckAvailability(Course("X", "X", 3, Some([g]), None), Empty)
               == PrereqsUnmet([Blocked(ExprLabel(g), NoOptionMet)])
  {
  }

  /** A completed course is never offered, even though it would be
      available; the course it unlocks is offered, a locked one is not. */
  lemma CompletedCourseNotOffered()
    ensures var a := Course("A", "A", 3, Some([]), None);
            var b := Course("B", "B", 3, Some([Simple("A")]), None);
            var c := Course("C", "C", 3, Some([Simple("Z")]), None);
            var r := GetAvailableCourses([a, b, c], Snapshot(["A"], [], []));
            CheckAvailability(a, Snapshot(["A"], [], [])).Available() && a !in r && b in r && c !in r
  {
  }

  /** Two courses that are each other's co-requisite (and whose shared
      prerequisite is completed) pass validation together, but neither
      passes alone. */
  lemma MutualCoreqsValidTogether()
    ensures var a := Course("A", "A", 3, Some([Simple("P")]), Some([CoreqCode("B")]));
            var b := Course("B", "B", 3, Some([Simple("P")]), Some([CoreqCode("A")]));
            var s := Snapshot(["P"], [], []);
            && ValidateCurrentCourses(["A", "B"], [a, b], s).valid
            && !ValidateCurrentCourses(["A"], [a, b], s).valid
            && !ValidateCurrentCourses(["B"], [a, b], s).valid
  {
    var a := Course("A", "A", 3, Some([Simple("P")]), Some([CoreqCode("B")]));
    var b := Course("B", "B", 3, Some([Simple("P")]), Some([CoreqCode("A")]));
    var s := Snapshot(["P"], [], []);
    assert Find([a, b], "A") == Some(a);
    assert Find([a, b], "B") == Some(b);
    MutualPair(a, b, s);
    MutualPair(b, a, s);
    var both := ["A", "B"];
    assert !Rejected(both[0], [a, b], WithBatch(s, both));
    assert !Rejected(both[1], [a, b], WithBatch(s, both));
    assert Rejected("A", [a, b], WithBatch(s, ["A"]));
    assert Rejected("B", [a, b], WithBatch(s, ["B"]));
  }

  /** One course of a mutual pair: available when both are current, not
      when only itself is. */
  lemma MutualPair(x: Course, y: Course, s: Snapshot)
    requires x.prereq == Some([Simple("P")]) && x.coreq == Some([CoreqCode(y.code)])
    requires s.completed == ["P"] && x.code != y.code && y.code != "P"
    ensures CheckAvailability(x, s.(current := [x.code, y.code])).Available()
    ensures CheckAvailability(x, s.(current := [y.code, x.code])).Available()
    ensures !CheckAvailability(x, s.(current := [x.code])).Available()
  {
    assert "P" in s.completed;
  }

  /** With no prerequisite list the co-requisites are never consulted, so a
      course whose only rule is a co-requisite passes validation alone. */
  lemma CoreqIgnoredWithoutPrereqs()
    ensures var a := Course("A", "A", 3, Some([]), Some([CoreqCode("B")]));
            var b := Course("B", "B", 3, None, Some([CoreqCode("A")]));
            && ValidateCurrentCourses(["A"], [a, b], Empty).valid
            && ValidateCurrentCourses(["B"], [a, b], Empty).valid
  {
  }

  /** The batch replaces the current courses: a co-requisite that is current
      in the snapshot but not in the batch does not count. */
  lemma BatchReplacesCurrent()
    ensures var a := Course("A", "A", 3, Some([Simple("P")]), Some([CoreqCode("B")]));
            var s := Snapshot(["P"], ["B"], []);
            && CheckAvailability(a, s).Available()
            && !ValidateCurrentCourses(["A"], [a], s).valid
  {
  }

  /** A seen course never satisfies a co-requisite. */
  lemma SeenCoreqNotEnough()
    ensures var a := Course("A", "A", 3, Some([Simple("P")]), Some([CoreqRecord(Some("B"))]));
            CheckAvailability(a, Snapshot(["P"], [], ["B"])) == CoreqsUnmet([], [Some("B")])
  {
  }

  /** History overrides structure: a completed course reports `Approved`
      although its own prerequisites are unmet. */
  lemma CompletedOverridesLocked()
    ensures var a := Course("A", "A", 3, Some([Simple("Z")]), None);
            && !CheckAvailability(a, Snapshot(["A"], [], [])).Available()
            && GetCourseStatus("A", [a], Snapshot(["A"], [], [])) == Approved
  {
  }
}
