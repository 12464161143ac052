/** The progress view: per-semester statistics, the overall totals over the
    curriculum, the English track and the electives, the pending-course list
    and the colour band of a percentage. */
module Progress {
  import opened Basics
  import opened Catalog

  // ---------------------------------------------------------------------
  // calculateSemesterStats
  // ---------------------------------------------------------------------

  /** Where a course falls in the semester statistics: the first history
      list holding its code, in the order completed, current, seen. */
  datatype Bucket = InCompleted | InCurrent | InSeen | Untouched

  function BucketOf(c: Course, s: Snapshot): Bucket
  {
    if c.code in s.completed then InCompleted
    else if c.code in s.current then InCurrent
    else if c.code in s.seen then InSeen
    else Untouched
  }

  /** The counters of `calculateSemesterStats` (the percentage is left out). */
  datatype SemesterStats = SemesterStats(
    total: nat, approved: nat, current: nat, seen: nat, totalCredits: int, credits: int)

  const NoStats := SemesterStats(0, 0, 0, 0, 0, 0)

  /** The counters after one more course. */
  function Step(t: SemesterStats, c: Course, s: Snapshot): SemesterStats
  {
    var u := t.(total := t.total + 1, totalCredits := t.totalCredits + c.credits);
    match BucketOf(c, s)
    case InCompleted => u.(approved := u.approved + 1, credits := u.credits + c.credits)
    case InCurrent => u.(current := u.current + 1)
    case InSeen => u.(seen := u.seen + 1)
    case Untouched => u
  }

  /** The counters over a list of courses, taken in order. */
  function Tally(cs: seq<Course>, s: Snapshot): (r: SemesterStats)
    ensures r.total == |cs|
    ensures r.approved + r.current + r.seen <= r.total
    decreases |cs|
  {
    if |cs| == 0 then NoStats else Step(Tally(cs[..|cs| - 1], s), cs[|cs| - 1], s)
  }

  /** `calculateSemesterStats`: the number of courses, how many are
      approved, in progress and only seen (each course counted once, in that
      order of precedence), all credits and the approved credits. */
  method CalculateSemesterStats(sem: Semester, s: Snapshot) returns (r: SemesterStats)
    ensures r == Tally(sem.courses, s)
    ensures r.total == |sem.courses|
    ensures r.approved + r.current + r.seen <= r.total
  {
    var cs := sem.courses;
    var approved, current, seen, totalCredits, credits := 0, 0, 0, 0, 0;
    var j := 0;
    while j < |cs|
      invariant 0 <= j <= |cs|
      invariant Tally(cs[..j], s) == SemesterStats(j, approved, current, seen, totalCredits, credits)
    {
      assert cs[..j + 1][..j] == cs[..j];
      var c := cs[j];
      totalCredits := totalCredits + c.credits;
      if c.code in s.completed {
        approved := approved + 1;
        credits := credits + c.credits;
      } else if c.code in s.current {
        current := current + 1;
      } else if c.code in s.seen {
        seen := seen + 1;
      }
      j := j + 1;
    }
    assert cs[..j] == cs;
    r := SemesterStats(|cs|, approved, current, seen, totalCredits, credits);
  }

  /** The counters of two course lists side by side. */
  function Combine(a: SemesterStats, b: SemesterStats): SemesterStats
  {
    SemesterStats(a.total + b.total, a.approved + b.approved, a.current + b.current,
                  a.seen + b.seen, a.totalCredits + b.totalCredits, a.credits + b.credits)
  }

  /** The statistics of a concatenation are the sum of the parts': the
      overall semester totals are the sum of the per-semester ones. */
  lemma {:induction false} TallyAppend(a: seq<Course>, b: seq<Course>, s: Snapshot)
    ensures Tally(a + b, s) == Combine(Tally(a, s), Tally(b, s))
    decreases |b|
  {
    if |b| == 0 {
      assert a + b == a;
    } else {
      var b', x := b[..|b| - 1], b[|b| - 1];
      assert b == b' + [x];
      assert a + b == (a + b') + [x];
      TallyAppend(a, b', s);
      TallySnoc(a + b', x, s);
      TallySnoc(b', x, s);
      StepCombine(Tally(a, s), Tally(b', s), x, s);
    }
  }

  lemma TallySnoc(cs: seq<Course>, x: Course, s: Snapshot)
    ensures Tally(cs + [x], s) == Step(Tally(cs, s), x, s)
  {
    assert (cs + [x])[..|cs|] == cs;
  }

  lemma StepCombine(t: SemesterStats, u: SemesterStats, c: Course, s: Snapshot)
    ensures Step(Combine(t, u), c, s) == Combine(t, Step(u, c, s))
  {
  }

  /** A semester is fully approved exactly when every course code is completed. */
  lemma {:induction false} AllApprovedIff(cs: seq<Course>, s: Snapshot)
    ensures Tally(cs, s).approved == |cs| <==> forall i :: 0 <= i < |cs| ==> cs[i].code in s.completed
    decreases |cs|
  {
    if |cs| > 0 {
      AllApprovedIff(cs[..|cs| - 1], s);
      assert forall i :: 0 <= i < |cs| - 1 ==> cs[..|cs| - 1][i] == cs[i];
    }
  }

  /** With non-negative course credits, the approved credits never exceed
      the semester's credits. */
  lemma {:induction false} CreditsBounded(cs: seq<Course>, s: Snapshot)
    requires forall i :: 0 <= i < |cs| ==> cs[i].credits >= 0
    ensures 0 <= Tally(cs, s).credits <= Tally(cs, s).totalCredits
    decreases |cs|
  {
    if |cs| > 0 {
      CreditsBounded(cs[..|cs| - 1], s);
    }
  }

  // ---------------------------------------------------------------------
  // renderSemesterDetails: the pending list
  // ---------------------------------------------------------------------

  function PendingIn(s: Snapshot): Course -> bool
  {
    (c: Course) => c.code !in s.completed && c.code !in s.current
  }

  /** The semester's courses neither completed nor in progress, in order. */
  function Pending(sem: Semester, s: Snapshot): (r: seq<Course>)
    ensures forall c :: c in r <==> c in sem.courses && c.code !in s.completed && c.code !in s.current
    ensures forall c :: Count(r, c) ==
              (if c.code !in s.completed && c.code !in s.current then Count(sem.courses, c) else 0)
    ensures Subseq(r, sem.courses)
  {
    Filter(PendingIn(s), sem.courses)
  }

  /** The pending list holds exactly the courses the statistics count as
      neither approved nor current; the seen ones are among them. */
  lemma PendingMatchesStats(sem: Semester, s: Snapshot)
    ensures var t := Tally(sem.courses, s);
            && |Pending(sem, s)| == t.total - t.approved - t.current
            && t.seen <= |Pending(sem, s)|
  {
    PendingCount(sem.courses, s);
  }

  lemma {:induction false} PendingCount(cs: seq<Course>, s: Snapshot)
    ensures var t := Tally(cs, s);
            |Filter(PendingIn(s), cs)| == t.total - t.approved - t.current
    decreases |cs|
  {
    if |cs| > 0 {
      var init := cs[..|cs| - 1];
      PendingCount(init, s);
      assert init + [cs[|cs| - 1]] == cs;
      FilterSnoc(PendingIn(s), init, cs[|cs| - 1]);
    }
  }

  // ---------------------------------------------------------------------
  // calculateStats
  // ---------------------------------------------------------------------

  /** The four running totals of `calculateStats`. */
  datatype Totals = Totals(courses: int, credits: int, approved: int, approvedCredits: int)

  function Plus(a: Totals, b: Totals): Totals
  {
    Totals(a.courses + b.courses, a.credits + b.credits, a.approved + b.approved,
           a.approvedCredits + b.approvedCredits)
  }

  /** The semester part: every semester course, approved when its code is completed. */
  function SemesterPart(sems: seq<Semester>, s: Snapshot): Totals
  {
    TotalsOf(Tally(SemesterCourses(sems), s))
  }

  /** Number of entries of `codes` that occur in `list`. */
  function Occurring(codes: seq<string>, list: seq<string>): (n: nat)
    ensures n <= |codes|
    decreases |codes|
  {
    if |codes| == 0 then 0
    else Occurring(codes[..|codes| - 1], list) + (if codes[|codes| - 1] in list then 1 else 0)
  }

  /** The English part: every level counts, at `creditsPerLevel` credits,
      and is approved when its code is completed. */
  function EnglishPart(english: Option<English>, s: Snapshot): Totals
  {
    match english
    case None => Totals(0, 0, 0, 0)
    case Some(e) =>
      var n := Occurring(e.levels, s.completed);
      Totals(|e.levels|, |e.levels| * e.creditsPerLevel, n, n * e.creditsPerLevel)
  }

  /** `code.startsWith(prefix)`. */
  predicate StartsWith(code: string, prefix: string)
  {
    |prefix| <= |code| && code[..|prefix|] == prefix
  }

  /** Number of completed codes that start with `prefix`, duplicates included. */
  function Prefixed(codes: seq<string>, prefix: string): (n: nat)
    ensures n <= |codes|
    decreases |codes|
  {
    if |codes| == 0 then 0
    else Prefixed(codes[..|codes| - 1], prefix) + (if StartsWith(codes[|codes| - 1], prefix) then 1 else 0)
  }

  /** The electives part: the required counts contribute courses and
      credits; every completed code with an `EC-` or `EP-` prefix counts as
      an approved elective of that kind, with no cap at the required count. */
  function ElectivePart(electives: Option<Electives>, s: Snapshot): Totals
  {
    match electives
    case None => Totals(0, 0, 0, 0)
    case Some(el) =>
      var ec := Prefixed(s.completed, "EC-");
      var ep := Prefixed(s.completed, "EP-");
      Totals(el.complementary.count + el.professional.count,
             el.complementary.count * el.complementary.creditsEach +
               el.professional.count * el.professional.creditsEach,
             ec + ep,
             ec * el.complementary.creditsEach + ep * el.professional.creditsEach)
  }

  /** The result of `calculateStats` (the percentage is left out). */
  datatype Stats = Stats(
    totalCourses: int, totalCredits: int, totalApproved: int, approvedCredits: int,
    currentCourses: nat, seenCourses: nat)

  /** `calculateStats`: the semester, English and elective parts added up,
      and the sizes of the current and seen lists. */
  method CalculateStats(m: Malla, s: Snapshot) returns (st: Stats)
    ensures st.currentCourses == |s.current| && st.seenCourses == |s.seen|
    ensures var t := Plus(Plus(SemesterPart(m.semesters, s), EnglishPart(m.english, s)),
                          ElectivePart(m.electives, s));
            && st.totalCourses == t.courses && st.totalCredits == t.credits
            && st.totalApproved == t.approved && st.approvedCredits == t.approvedCredits
  {
    var t := SemesterTotals(m.semesters, s);
    if m.english.Some? {
      var e := EnglishTotals(m.english.value, s);
      t := Plus(t, e);
    } else {
      t := Plus(t, Totals(0, 0, 0, 0));
    }
    if m.electives.Some? {
      var el := ElectiveTotals(m.electives.value, s);
      t := Plus(t, el);
    } else {
      t := Plus(t, Totals(0, 0, 0, 0));
    }
    st := Stats(t.courses, t.credits, t.approved, t.approvedCredits, |s.current|, |s.seen|);
  }

  lemma SemesterCoursesSnoc(sems: seq<Semester>, x: Semester)
    ensures SemesterCourses(sems + [x]) == SemesterCourses(sems) + x.courses
    decreases |sems|
  {
    if |sems| == 0 {
      assert sems + [x] == [x];
      assert [x][1..] == [];
    } else {
      assert (sems + [x])[1..] == sems[1..] + [x];
      SemesterCoursesSnoc(sems[1..], x);
    }
  }

  /** The curriculum totals grow semester by semester by exactly that
      semester's own statistics, so they agree with the per-semester view. */
  lemma SemesterPartAddsSemesterStats(sems: seq<Semester>, x: Semester, s: Snapshot)
    ensures SemesterPart(sems + [x], s) == Plus(SemesterPart(sems, s), TotalsOf(Tally(x.courses, s)))
  {
    var before := SemesterCourses(sems);
    SemesterCoursesSnoc(sems, x);
    assert SemesterCourses(sems + [x]) == before + x.courses;
    TallyAppend(before, x.courses, s);
    TotalsOfCombine(Tally(before, s), Tally(x.courses, s));
  }

  lemma TotalsOfCombine(a: SemesterStats, b: SemesterStats)
    ensures TotalsOf(Combine(a, b)) == Plus(TotalsOf(a), TotalsOf(b))
  {
  }

  /** The semester loop of `calculateStats`. */
  method SemesterTotals(sems: seq<Semester>, s: Snapshot) returns (t: Totals)
    ensures t == SemesterPart(sems, s)
  {
    t := Totals(0, 0, 0, 0);
    var i := 0;
    while i < |sems|
      invariant 0 <= i <= |sems|
      invariant t == SemesterPart(sems[..i], s)
    {
      t := AddCourses(t, sems[i].courses, s, SemesterCourses(sems[..i]));
      assert sems[..i + 1] == sems[..i] + [sems[i]];
      SemesterCoursesSnoc(sems[..i], sems[i]);
      i := i + 1;
    }
    assert sems[..i] == sems;
  }

  function TotalsOf(u: SemesterStats): Totals
  {
    Totals(u.total, u.totalCredits, u.approved, u.credits)
  }

  /** The course loop inside the semester loop of `calculateStats`:
      continues the totals of the courses `done` with the courses `cs`. */
  method AddCourses(t: Totals, cs: seq<Course>, s: Snapshot, ghost done: seq<Course>) returns (r: Totals)
    requires t == TotalsOf(Tally(done, s))
    ensures r == TotalsOf(Tally(done + cs, s))
  {
    var courses, credits, approved, approvedCredits := t.courses, t.credits, t.approved, t.approvedCredits;
    var j := 0;
    assert done + cs[..j] == done;
    while j < |cs|
      invariant 0 <= j <= |cs|
      invariant Totals(courses, credits, approved, approvedCredits) == TotalsOf(Tally(done + cs[..j], s))
    {
      assert done + cs[..j + 1] == (done + cs[..j]) + [cs[j]];
      TallySnoc(done + cs[..j], cs[j], s);
      courses := courses + 1;
      credits := credits + cs[j].credits;
      if cs[j].code in s.completed {
        approved := approved + 1;
        approvedCredits := approvedCredits + cs[j].credits;
      }
      j := j + 1;
    }
    assert cs[..j] == cs;
    r := Totals(courses, credits, approved, approvedCredits);
  }

  /** The English loop of `calculateStats`. */
  method EnglishTotals(e: English, s: Snapshot) returns (t: Totals)
    ensures t == EnglishPart(Some(e), s)
  {
    var levels := e.levels;
    var courses := |levels|;
    var credits := |levels| * e.creditsPerLevel;
    var approved, approvedCredits := 0, 0;
    var k := 0;
    while k < |levels|
      invariant 0 <= k <= |levels|
      invariant approved == Occurring(levels[..k], s.completed)
      invariant approvedCredits == approved * e.creditsPerLevel
    {
      assert levels[..k + 1][..k] == levels[..k];
      if levels[k] in s.completed {
        approved := approved + 1;
        approvedCredits := approvedCredits + e.creditsPerLevel;
      }
      k := k + 1;
    }
    assert levels[..k] == levels;
    t := Totals(courses, credits, approved, approvedCredits);
  }

  /** The elective loop of `calculateStats`: `EC-` is tested before `EP-`. */
  method ElectiveTotals(el: Electives, s: Snapshot) returns (t: Totals)
    ensures t == ElectivePart(Some(el), s)
  {
    var ec := el.complementary;
    var ep := el.professional;
    var courses := ec.count + ep.count;
    var credits := ec.count * ec.creditsEach + ep.count * ep.creditsEach;
    var approved, approvedCredits := 0, 0;
    ghost var nc, np := 0, 0;
    var codes := s.completed;
    var k := 0;
    while k < |codes|
      invariant 0 <= k <= |codes|
      invariant nc == Prefixed(codes[..k], "EC-") && np == Prefixed(codes[..k], "EP-")
      invariant approved == nc + np
      invariant approvedCredits == nc * ec.creditsEach + np * ep.creditsEach
    {
      PrefixedSnoc(codes, k, "EC-");
      PrefixedSnoc(codes, k, "EP-");
      var code := codes[k];
      if StartsWith(code, "EC-") {
        PrefixesExclusive(code);
        MulSucc(nc, ec.creditsEach);
        approved := approved + 1;
        approvedCredits := approvedCredits + ec.creditsEach;
        nc := nc + 1;
      } else if StartsWith(code, "EP-") {
        MulSucc(np, ep.creditsEach);
        approved := approved + 1;
        approvedCredits := approvedCredits + ep.creditsEach;
        np := np + 1;
      }
      k := k + 1;
    }
    assert codes[..k] == codes;
    t := Totals(courses, credits, approved, approvedCredits);
  }

  lemma PrefixedSnoc(codes: seq<string>, k: nat, prefix: string)
    requires k < |codes|
    ensures Prefixed(codes[..k + 1], prefix) ==
              Prefixed(codes[..k], prefix) + (if StartsWith(codes[k], prefix) then 1 else 0)
  {
    assert codes[..k + 1][..k] == codes[..k];
  }

  lemma MulSucc(n: int, x: int)
    ensures (n + 1) * x == n * x + x
  {
  }

  /** No code starts with both elective prefixes. */
  lemma PrefixesExclusive(code: string)
    requires StartsWith(code, "EC-")
    ensures !StartsWith(code, "EP-")
  {
    assert code[1] == "EC-"[1];
  }

  /** Without electives the approved count never exceeds the course count. */
  lemma ApprovedWithinCurriculum(m: Malla, s: Snapshot)
    ensures var t := Plus(SemesterPart(m.semesters, s), EnglishPart(m.english, s));
            0 <= t.approved <= t.courses
  {
  }

  /** Approved electives are not capped at the required count: two
      completed `EC-` codes against a quota of one complementary elective
      give two approved electives out of one. */
  lemma ElectivesNotCapped()
    ensures var t := ElectivePart(Some(Electives(Quota(1, 3), Quota(0, 3))), Snapshot(["EC-1", "EC-2"], [], []));
            t.approved == 2 && t.courses == 1 && t.approvedCredits == 6 && t.credits == 3
  {
    PrefixedExample();
  }

  lemma PrefixedExample()
    ensures Prefixed(["EC-1", "EC-2"], "EC-") == 2
    ensures Prefixed(["EC-1", "EC-2"], "EP-") == 0
  {
    var codes := ["EC-1", "EC-2"];
    assert codes[..1] == ["EC-1"] && codes[..1][..0] == [];
    assert "EC-1"[..3] == "EC-" && "EC-2"[..3] == "EC-";
    assert "EC-1"[1] != "EP-"[1] && "EC-2"[1] != "EP-"[1];
  }

  // ---------------------------------------------------------------------
  // getProgressClass
  // ---------------------------------------------------------------------

  datatype ProgressClass = Minimal | Low | Medium | High | Complete

  /** The band of a rounded percentage; `NaN` (an empty semester, `None`)
      falls through every comparison to the lowest band. */
  function GetProgressClass(percent: Option<int>): (r: ProgressClass)
    ensures r == Complete <==> percent == Some(100)
    ensures r == High <==> percent.Some? && 75 <= percent.value && percent.value != 100
    ensures r == Medium <==> percent.Some? && 50 <= percent.value < 75
    ensures r == Low <==> percent.Some? && 25 <= percent.value < 50
    ensures r == Minimal <==> percent.None? || percent.value < 25
  {
    match percent
    case None => Minimal
    case Some(p) =>
      if p == 100 then Complete
      else if p >= 75 then High
      else if p >= 50 then Medium
      else if p >= 25 then Low
      else Minimal
  }

  function Rank(c: ProgressClass): nat
  {
    match c
    case Minimal => 0
    case Low => 1
    case Medium => 2
    case High => 3
    case Complete => 4
  }

  /** Up to 100 percent, a higher percentage never gets a lower band. */
  lemma ProgressClassMonotone(p: int, q: int)
    requires p <= q <= 100
    ensures Rank(GetProgressClass(Some(p))) <= Rank(GetProgressClass(Some(q)))
  {
  }
}
