/** The weekly timetable: "HH:MM" times as minutes, the hourly rows of the
    grid, and the checks a class goes through before it is added. */
module Schedule {
  import opened Basics
  import opened Decimal

  // ---------------------------------------------------------------------
  // String splitting
  // ---------------------------------------------------------------------

  /** `s.split(sep)` for a one-character separator: always at least one
      piece, none containing the separator. */
  function Split(s: string, sep: char): (parts: seq<string>)
    ensures |parts| >= 1
    ensures forall i :: 0 <= i < |parts| ==> sep !in parts[i]
    decreases |s|
  {
    if |s| == 0 then [""]
    else
      var rest := Split(s[1..], sep);
      if s[0] == sep then [""] + rest
      else
        assert forall i :: 1 <= i < |rest| ==> sep !in rest[i];
        [[s[0]] + rest[0]] + rest[1..]
  }

  /** `parts.join(sep)`. */
  function Join(parts: seq<string>, sep: char): string
    requires |parts| >= 1
    decreases |parts|
  {
    if |parts| == 1 then parts[0] else parts[0] + [sep] + Join(parts[1..], sep)
  }

  /** Splitting loses nothing: joining the pieces gives the text back. */
  lemma {:induction false} JoinSplit(s: string, sep: char)
    ensures Join(Split(s, sep), sep) == s
    decreases |s|
  {
    if |s| > 0 {
      JoinSplit(s[1..], sep);
      var rest := Split(s[1..], sep);
      if s[0] != sep {
        var parts := Split(s, sep);
        assert parts[1..] == rest[1..];
        if |rest| > 1 {
          assert Join(rest, sep) == rest[0] + [sep] + Join(rest[1..], sep);
        }
      }
    }
  }

  /** A separator-free prefix joins the first piece of what follows it. */
  lemma {:induction false} SplitFreePrefix(a: string, t: string, sep: char)
    requires sep !in a
    ensures Split(a + t, sep) == [a + Split(t, sep)[0]] + Split(t, sep)[1..]
    decreases |a|
  {
    if |a| > 0 {
      var p := Split(t, sep);
      assert (a + t)[1..] == a[1..] + t;
      SplitFreePrefix(a[1..], t, sep);
      var rest := Split(a[1..] + t, sep);
      assert rest[0] == a[1..] + p[0] && rest[1..] == p[1..];
      assert [a[0]] + (a[1..] + p[0]) == a + p[0];
    } else {
      var p := Split(t, sep);
      assert a + t == t && a + p[0] == p[0];
      assert p == [p[0]] + p[1..];
    }
  }

  /** Splitting undoes joining when no piece holds the separator. */
  lemma {:induction false} SplitJoin(parts: seq<string>, sep: char)
    requires |parts| >= 1
    requires forall i :: 0 <= i < |parts| ==> sep !in parts[i]
    ensures Split(Join(parts, sep), sep) == parts
    decreases |parts|
  {
    if |parts| == 1 {
      SplitFreePrefix(parts[0], "", sep);
      assert parts[0] + "" == parts[0];
    } else {
      var tail := Join(parts[1..], sep);
      SplitJoin(parts[1..], sep);
      SplitFreePrefix(parts[0], [sep] + tail, sep);
      assert Split([sep] + tail, sep) == [""] + Split(tail, sep);
      assert parts[0] + "" == parts[0];
      assert parts[0] + [sep] + tail == parts[0] + ([sep] + tail);
      assert ([sep] + tail)[1..] == tail;
      assert parts == [parts[0]] + parts[1..];
    }
  }

  // ---------------------------------------------------------------------
  // timeToMinutes
  // ---------------------------------------------------------------------

  /** `Number(text)` on the forms times take: a string of decimal digits
      (the empty string is 0); any other text reads as `NaN` (`None`). */
  function ToNumber(t: string): (r: Option<nat>)
    ensures r.Some? <==> AllDigits(t)
  {
    if AllDigits(t) then Some(Value(t)) else None
  }

  /** `timeToMinutes`: hours times 60 plus minutes. A missing minutes field
      or an unreadable field gives `NaN` (`None`); fields after the second
      are ignored. */
  function TimeToMinutes(time: string): (r: Option<int>)
    ensures r.Some? ==> r.value >= 0
    ensures var parts := Split(time, ':');
            r.Some? <==> |parts| >= 2 && AllDigits(parts[0]) && AllDigits(parts[1])
  {
    var parts := Split(time, ':');
    if |parts| < 2 then None
    else
      match (ToNumber(parts[0]), ToNumber(parts[1]))
      case (Some(h), Some(m)) => Some(h * 60 + m)
      case _ => None
  }

  /** The "HH:MM" label of a minute of the day, as the timetable rows print
      it: `String(h).padStart(2, '0') + ':' + String(m).padStart(2, '0')`. */
  function FormatMinutes(t: nat): string
  {
    Pad2(t / 60) + ":" + Pad2(t % 60)
  }

  /** Any hour/minute pair written with `padStart` reads back as its minutes. */
  lemma HourMinuteReadsBack(h: nat, m: nat)
    ensures TimeToMinutes(Pad2(h) + ":" + Pad2(m)) == Some(h * 60 + m)
  {
    var parts := [Pad2(h), Pad2(m)];
    NoColonInDigits(Pad2(h));
    NoColonInDigits(Pad2(m));
    SplitJoin(parts, ':');
    assert Join(parts, ':') == Pad2(h) + ":" + Pad2(m);
  }

  /** A row label reads back as the minute it was printed from. */
  lemma FormatMinutesReadsBack(t: nat)
    ensures TimeToMinutes(FormatMinutes(t)) == Some(t)
    ensures t < 6000 ==> |FormatMinutes(t)| == 5
  {
    HourMinuteReadsBack(t / 60, t % 60);
  }

  lemma NoColonInDigits(s: string)
    requires AllDigits(s)
    ensures ':' !in s
  {
    assert forall i :: 0 <= i < |s| ==> IsDigit(s[i]) && s[i] != ':';
  }

  /** `a < b` for two `timeToMinutes` results: any comparison with `NaN` is false. */
  predicate Before(a: Option<int>, b: Option<int>)
  {
    a.Some? && b.Some? && a.value < b.value
  }

  // ---------------------------------------------------------------------
  // generateTimeSlots
  // ---------------------------------------------------------------------

  /** The number of hourly rows from minute `s` up to (not including) minute `e`. */
  function RowCount(s: int, e: int): nat
  {
    if s < e then (e - s + 59) / 60 else 0
  }

  /** `generateTimeSlots(start, end)`: one label per hour from `start`
      while before `end`; no rows when either time is unreadable. */
  method GenerateTimeSlots(start: string, end: string) returns (slots: seq<string>)
    ensures !Before(TimeToMinutes(start), TimeToMinutes(end)) ==> slots == []
    ensures Before(TimeToMinutes(start), TimeToMinutes(end)) ==>
              var s := TimeToMinutes(start).value;
              var e := TimeToMinutes(end).value;
              && |slots| == RowCount(s, e)
              && forall i :: 0 <= i < |slots| ==>
                   s + 60 * i < e && slots[i] == FormatMinutes(s + 60 * i)
  {
    var cur := TimeToMinutes(start);
    var fin := TimeToMinutes(end);
    if cur.None? || fin.None? {
      slots := [];
    } else {
      var s, e := cur.value, fin.value;
      slots := Rows(s, e, FormatMinutes);
      assert forall i :: 0 <= i < |slots| ==> slots[i] == FormatMinutes(s + 60 * i);
    }
  }

  /** The loop of `generateTimeSlots`: from minute `s`, one row label per
      hour while before minute `e`. */
  method Rows(s: nat, e: int, labelOf: nat -> string) returns (slots: seq<string>)
    ensures |slots| == RowCount(s, e)
    ensures forall i :: 0 <= i < |slots| ==> s + 60 * i < e && slots[i] == labelOf(s + 60 * i)
  {
    slots := [];
    var c := s;
    while c < e
      invariant c == s + 60 * |slots|
      invariant |slots| > 0 ==> c - 60 < e
      invariant forall i :: 0 <= i < |slots| ==> s + 60 * i < e && slots[i] == labelOf(s + 60 * i)
      decreases e - c
    {
      slots := slots + [labelOf(c)];
      c := c + 60;
    }
    RowCountExact(s, e, |slots|);
  }

  lemma RowCountExact(s: int, e: int, k: nat)
    requires k == 0 ==> e <= s
    requires k > 0 ==> s + 60 * (k - 1) < e <= s + 60 * k
    ensures RowCount(s, e) == k
  {
    if k > 0 {
      assert 60 * k <= e - s + 59 < 60 * (k + 1);
    }
  }

  // ---------------------------------------------------------------------
  // saveScheduleItem
  // ---------------------------------------------------------------------

  /** A class in the timetable. `color` and `opacity` are presentation only. */
  datatype ScheduleItem = ScheduleItem(code: string, day: string, start: string, end: string,
                                       room: string, teacher: string)

  /** The conflict test of `saveScheduleItem`: same day, and each class
      starts before the other ends. */
  predicate Overlaps(x: ScheduleItem, y: ScheduleItem): (b: bool)
    ensures b ==> x.day == y.day
    ensures b ==> && TimeToMinutes(x.start).Some? && TimeToMinutes(x.end).Some?
                  && TimeToMinutes(y.start).Some? && TimeToMinutes(y.end).Some?
  {
    && x.day == y.day
    && Before(TimeToMinutes(x.start), TimeToMinutes(y.end))
    && Before(TimeToMinutes(y.start), TimeToMinutes(x.end))
  }

  /** A minute both classes occupy (start included, end excluded). */
  predicate SharedMinute(x: ScheduleItem, y: ScheduleItem, t: int)
    requires TimeToMinutes(x.start).Some? && TimeToMinutes(x.end).Some?
    requires TimeToMinutes(y.start).Some? && TimeToMinutes(y.end).Some?
  {
    && TimeToMinutes(x.start).value <= t < TimeToMinutes(x.end).value
    && TimeToMinutes(y.start).value <= t < TimeToMinutes(y.end).value
  }

  /** The conflict test is symmetric for every pair of classes, including
      those with unreadable or reversed times. */
  lemma OverlapsSymmetric(x: ScheduleItem, y: ScheduleItem)
    ensures Overlaps(x, y) <==> Overlaps(y, x)
  {
  }

  /** For classes whose end is after their start, the conflict test is
      exactly "same day and some minute in common". */
  lemma OverlapMeansSharedMinute(x: ScheduleItem, y: ScheduleItem)
    requires Before(TimeToMinutes(x.start), TimeToMinutes(x.end))
    requires Before(TimeToMinutes(y.start), TimeToMinutes(y.end))
    ensures Overlaps(x, y) <==> x.day == y.day && exists t :: SharedMinute(x, y, t)
  {
    var s1, e1 := TimeToMinutes(x.start).value, TimeToMinutes(x.end).value;
    var s2, e2 := TimeToMinutes(y.start).value, TimeToMinutes(y.end).value;
    if Overlaps(x, y) {
      var t := if s1 < s2 then s2 else s1;
      assert SharedMinute(x, y, t);
    }
  }

  predicate Conflicts(schedule: seq<ScheduleItem>, item: ScheduleItem)
  {
    exists j :: 0 <= j < |schedule| && Overlaps(item, schedule[j])
  }

  datatype SaveError =
    | MissingFields    // "Completa día y horario"
    | EndNotAfterStart // "La hora de fin debe ser mayor"

  datatype SaveResult =
    | Refused(error: SaveError)       // a warning toast, nothing stored
    | Declined                        // the overlap confirmation was declined
    | Saved(schedule: seq<ScheduleItem>)

  /** The checks of `saveScheduleItem` once the class fields are collected:
      day, start and end must be non-empty; end must not be at or before
      start; an overlap with a class already on the timetable needs the
      student's confirmation; the class is then appended. */
  function SaveScheduleItem(schedule: seq<ScheduleItem>, item: ScheduleItem, confirmed: bool): (r: SaveResult)
    ensures r == Refused(MissingFields) <==> item.day == "" || item.start == "" || item.end == ""
    ensures r == Refused(EndNotAfterStart) <==>
              item.day != "" && item.start != "" && item.end != "" &&
              TimeToMinutes(item.start).Some? && TimeToMinutes(item.end).Some? &&
              TimeToMinutes(item.end).value <= TimeToMinutes(item.start).value
    ensures r.Declined? <==> !r.Refused? && Conflicts(schedule, item) && !confirmed
    ensures r.Saved? ==> r.schedule == schedule + [item]
  {
    if item.day == "" || item.start == "" || item.end == "" then Refused(MissingFields)
    else if
      var s := TimeToMinutes(item.start);
      var e := TimeToMinutes(item.end);
      s.Some? && e.Some? && e.value <= s.value
    then Refused(EndNotAfterStart)
    else if Conflicts(schedule, item) && !confirmed then Declined
    else Saved(schedule + [item])
  }

  /** No two classes of the timetable overlap. */
  predicate ConflictFree(schedule: seq<ScheduleItem>)
  {
    forall i, j :: 0 <= i < j < |schedule| ==> !Overlaps(schedule[j], schedule[i])
  }

  /** Without confirmations the timetable never acquires an overlap. */
  lemma UnconfirmedSavesKeepConflictFree(schedule: seq<ScheduleItem>, item: ScheduleItem)
    requires ConflictFree(schedule)
    ensures var r := SaveScheduleItem(schedule, item, false);
            r.Saved? ==> ConflictFree(r.schedule)
  {
    var r := SaveScheduleItem(schedule, item, false);
    if r.Saved? {
      var t := r.schedule;
      forall i, j | 0 <= i < j < |t| ensures !Overlaps(t[j], t[i])
      {
        if j == |schedule| {
          assert t[j] == item && t[i] == schedule[i];
        }
      }
    }
  }

  /** A time field holding only `NaN` is not refused by the order check:
      a class whose end time is unreadable passes it. */
  lemma UnreadableEndPassesOrderCheck(schedule: seq<ScheduleItem>)
    ensures var item := ScheduleItem("X", "Lunes", "08:00", "10", "", "");
            SaveScheduleItem(schedule, item, true).Saved?
  {
    SplitFreePrefix("10", "", ':');
    assert "10" + "" == "10";
  }
}
