/** The student's own arrangement of the curriculum: a map from semester
    number to the course codes placed in that semester. */
module PersonalGrid {
  import opened Basics
  import opened Catalog

  /** `personalGrid`. Its keys are semester numbers (the source's object keys
      are their decimal text, which is one-to-one on integers). */
  type Grid = map<int, seq<string>>

  function Codes(cs: seq<Course>): (r: seq<string>)
    ensures |r| == |cs| && forall i :: 0 <= i < |cs| ==> r[i] == cs[i].code
  {
    seq(|cs|, i requires 0 <= i < |cs| => cs[i].code)
  }

  // ---------------------------------------------------------------------
  // initializePersonalGrid
  // ---------------------------------------------------------------------

  /** `initializePersonalGrid`: every semester's course codes under its
      number, in catalog order; when two semesters share a number the later
      one wins. */
  function InitializePersonalGrid(sems: seq<Semester>): (g: Grid)
    ensures g.Keys == set i | 0 <= i < |sems| :: sems[i].number
    decreases |sems|
  {
    if |sems| == 0 then map[]
    else
      var init := sems[..|sems| - 1];
      var last := sems[|sems| - 1];
      var g := InitializePersonalGrid(init);
      assert forall i :: 0 <= i < |init| ==> init[i] == sems[i];
      g[last.number := Codes(last.courses)]
  }

  /** Each number holds the codes of the last semester that carries it. */
  lemma {:induction false} InitialGridContents(sems: seq<Semester>, i: nat)
    requires i < |sems|
    requires forall j :: i < j < |sems| ==> sems[j].number != sems[i].number
    ensures InitializePersonalGrid(sems)[sems[i].number] == Codes(sems[i].courses)
    decreases |sems|
  {
    if i < |sems| - 1 {
      var init := sems[..|sems| - 1];
      assert init[i] == sems[i];
      InitialGridContents(init, i);
    }
  }

  /** With distinct semester numbers, every curriculum course code is placed
      exactly where the curriculum puts it. */
  lemma InitialGridFollowsCurriculum(sems: seq<Semester>)
    requires forall i, j :: 0 <= i < j < |sems| ==> sems[i].number != sems[j].number
    ensures forall i :: 0 <= i < |sems| ==> InitializePersonalGrid(sems)[sems[i].number] == Codes(sems[i].courses)
  {
    forall i | 0 <= i < |sems|
      ensures InitializePersonalGrid(sems)[sems[i].number] == Codes(sems[i].courses)
    {
      InitialGridContents(sems, i);
    }
  }

  /** The grid `render` shows: the stored one, or a fresh copy of the
      curriculum when none is stored or it has no semesters. */
  function GridToRender(stored: Option<Grid>, sems: seq<Semester>): (g: Grid)
    ensures stored.Some? && |stored.value| > 0 ==> g == stored.value
    ensures stored.None? || |stored.value| == 0 ==> g == InitializePersonalGrid(sems)
  {
    if stored.None? || |stored.value| == 0 then InitializePersonalGrid(sems) else stored.value
  }

  // ---------------------------------------------------------------------
  // moveCourse
  // ---------------------------------------------------------------------

  /** `moveCourse(code, target)`: the code is filtered out of every semester
      and appended to the target semester, which is created if missing. */
  function MoveCourse(g: Grid, code: string, target: int): (r: Grid)
    ensures r.Keys == g.Keys + {target}
  {
    var cleared := map k | k in g :: Without(g[k], code);
    var base := if target in cleared then cleared[target] else [];
    cleared[target := base + [code]]
  }

  /** After a move the code sits exactly once in the grid: at the end of the
      target semester, and nowhere else. */
  lemma MoveLeavesOneCopy(g: Grid, code: string, target: int)
    ensures var r := MoveCourse(g, code, target);
            && Count(r[target], code) == 1
            && r[target][|r[target]| - 1] == code
            && forall k :: k in r && k != target ==> code !in r[k]
  {
    var r := MoveCourse(g, code, target);
    var base := if target in g then Without(g[target], code) else [];
    assert r[target] == base + [code];
    CountZero(base, code);
    CountAppend(base, [code], code);
  }

  /** A move changes no other code's place: every semester keeps the other
      codes it had, in the same order. */
  lemma MoveKeepsOthers(g: Grid, code: string, target: int)
    ensures var r := MoveCourse(g, code, target);
            forall k :: k in g ==> Without(r[k], code) == Without(g[k], code)
    ensures var r := MoveCourse(g, code, target);
            target !in g ==> Without(r[target], code) == []
  {
    var r := MoveCourse(g, code, target);
    forall k | k in g
      ensures Without(r[k], code) == Without(g[k], code)
    {
      WithoutIdempotent(g[k], code);
      if k == target {
        WithoutAppend(Without(g[k], code), [code], code);
        assert Without([code], code) == [];
      }
    }
    if target !in g {
      assert r[target] == [code];
      assert Without([code], code) == [];
    }
  }

  /** Dropping a course on the same semester twice is the same as once. */
  lemma MoveIdempotent(g: Grid, code: string, target: int)
    ensures MoveCourse(MoveCourse(g, code, target), code, target) == MoveCourse(g, code, target)
  {
    var r := MoveCourse(g, code, target);
    var r2 := MoveCourse(r, code, target);
    forall k | k in r
      ensures r2[k] == r[k]
    {
      if k == target {
        var base := if target in g then Without(g[target], code) else [];
        WithoutAppend(base, [code], code);
        assert Without([code], code) == [];
        WithoutAbsent(base, code);
      } else {
        WithoutAbsent(r[k], code);
      }
    }
  }

  /** Only the last move of a course matters; all the first move leaves
      behind is its target semester, possibly empty. */
  lemma MoveLastWins(g: Grid, code: string, t1: int, t2: int)
    ensures MoveCourse(MoveCourse(g, code, t1), code, t2) == MoveCourse(g[t1 := if t1 in g then g[t1] else []], code, t2)
  {
    var g1 := g[t1 := if t1 in g then g[t1] else []];
    var r := MoveCourse(MoveCourse(g, code, t1), code, t2);
    var q := MoveCourse(g1, code, t2);
    assert r.Keys == q.Keys;
    forall k | k in r
      ensures r[k] == q[k]
    {
      MoveLastWinsAt(g, g1, code, t1, t2, k);
    }
  }

  lemma MoveLastWinsAt(g: Grid, g1: Grid, code: string, t1: int, t2: int, k: int)
    requires g1 == g[t1 := if t1 in g then g[t1] else []]
    requires k in g1 || k == t2
    ensures MoveCourse(MoveCourse(g, code, t1), code, t2)[k] == MoveCourse(g1, code, t2)[k]
  {
    var m := MoveCourse(g, code, t1);
    MoveAt(m, code, t2, k);
    MoveAt(g1, code, t2, k);
    if k == t1 {
      MovedTargetCleared(g, code, t1);
    } else if k in g {
      MoveAt(g, code, t1, k);
      WithoutIdempotent(g[k], code);
    }
  }

  /** What a move leaves in semester `k`. */
  lemma MoveAt(g: Grid, code: string, target: int, k: int)
    requires k in g || k == target
    ensures MoveCourse(g, code, target)[k] ==
              if k == target then (if target in g then Without(g[target], code) else []) + [code]
              else Without(g[k], code)
  {
  }

  /** The target semester of a move, cleared of the code again, is the
      original semester cleared of it (or empty if it was missing). */
  lemma MovedTargetCleared(g: Grid, code: string, t: int)
    ensures Without(MoveCourse(g, code, t)[t], code) == Without(if t in g then g[t] else [], code)
  {
    var base := if t in g then Without(g[t], code) else [];
    assert MoveCourse(g, code, t)[t] == base + [code];
    WithoutAppend(base, [code], code);
    assert Without([code], code) == [];
    WithoutAbsent(base, code);
    if t in g {
      WithoutIdempotent(g[t], code);
    }
  }
}
