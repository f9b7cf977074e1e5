/**
 Whole schedules of pkg/gofr/cron_scheduler.go and the tick that decides whether a job fires.
 */
module CronFiring {
  import opened Options
  import opened Strings
  import opened CronSchedule

  /** The parsed sets; sec is absent in a five-part schedule. */
  datatype Job = Job(
    sec: Option<set<int>>,
    min: set<int>,
    hour: set<int>,
    day: set<int>,
    month: set<int>,
    dow: set<int>
  )

  datatype Tick = Tick(sec: int, min: int, hour: int, day: int, month: int, dow: int)

  /** What getTick extracts from a time. */
  predicate RealTick(t: Tick) {
    && 0 <= t.sec <= 59 && 0 <= t.min <= 59 && 0 <= t.hour <= 23
    && 1 <= t.day <= 31 && 1 <= t.month <= 12 && 0 <= t.dow <= 6
  }

  // ----- parseSchedule -----

  predicate IsSpace(c: char) { c == ' ' || c == '\t' || c == '\n' || c == '\r' || c as int == 12 }

  /** Tab, line feed, form feed, carriage return and blank, as in the pattern "\\s". */
  lemma SpacesAre(c: char)
    ensures IsSpace(c) <==> c as int in {9, 10, 12, 13, 32}
  {
  }

  /** Runs of white space become one space. */
  function Collapse(s: string): string {
    if s == "" then ""
    else
      var rest := Collapse(s[1..]);
      if !IsSpace(s[0]) then [s[0]] + rest
      else if rest != "" && rest[0] == ' ' then rest
      else " " + rest
  }

  function Parts(s: string): seq<string> { Split(Trim(Collapse(s), ' '), ' ') }

  /** The bounds of the five fields, minute first. */
  const BOUNDS := [(0, 59), (0, 23), (1, 31), (1, 12), (0, 6)]

  /** The bounds of each part, with the seconds in front when there are six. */
  function BoundsOf(n: nat): seq<(int, int)>
    requires n == 5 || n == 6
  {
    if n == 6 then [(0, 59)] + BOUNDS else BOUNDS
  }

  /** What parsing a schedule comes to: its sets, an error, or a loop that never returns. */
  datatype Parse = Parsed(fields: seq<set<int>>) | Bad | Hangs

  /** The parts in turn, up to the first that is rejected or hangs. */
  ghost function FieldsOf(parts: seq<string>, bounds: seq<(int, int)>): Parse
    requires |parts| == |bounds|
  {
    if parts == [] then Parsed([])
    else
      var n := |parts| - 1;
      var before := FieldsOf(parts[..n], bounds[..n]);
      if !before.Parsed? then before
      else
        match FieldOf(parts[n], bounds[n].0, bounds[n].1)
        case Ok(f) => Parsed(before.fields + [f])
        case Rejected => Bad
        case Diverges => Hangs
  }

  ghost function ScheduleOf(parts: seq<string>): Parse {
    if |parts| == 5 || |parts| == 6 then FieldsOf(parts, BoundsOf(|parts|)) else Bad
  }

  /** Each part is accepted, with the field of its place. */
  ghost predicate AllAccepted(parts: seq<string>, bounds: seq<(int, int)>, fields: seq<set<int>>)
    requires |parts| == |bounds|
  {
    && |fields| == |parts|
    && forall k | 0 <= k < |parts| :: FieldOf(parts[k], bounds[k].0, bounds[k].1) == Ok(fields[k])
  }

  /** Parsing succeeds exactly when every part does. */
  lemma {:induction false} ParsedIff(parts: seq<string>, bounds: seq<(int, int)>, fields: seq<set<int>>)
    requires |parts| == |bounds|
    ensures FieldsOf(parts, bounds) == Parsed(fields) <==> AllAccepted(parts, bounds, fields)
  {
    hide FieldOf;
    if parts != [] {
      var n := |parts| - 1;
      if FieldsOf(parts, bounds) == Parsed(fields) {
        var before := FieldsOf(parts[..n], bounds[..n]);
        ParsedIff(parts[..n], bounds[..n], before.fields);
      }
      if AllAccepted(parts, bounds, fields) {
        ParsedIff(parts[..n], bounds[..n], fields[..n]);
        assert fields[..n] + [fields[n]] == fields;
      }
    }
  }

  /** The n-th part hangs and all before it are accepted. */
  ghost predicate HangsAt(parts: seq<string>, bounds: seq<(int, int)>, n: nat)
    requires |parts| == |bounds| && forall b | b in bounds :: 0 <= b.0
  {
    && n < |parts| && ZeroStep(parts[n], bounds[n].0, bounds[n].1)
    && FieldsOf(parts[..n], bounds[..n]).Parsed?
  }

  lemma HangsAtFront(parts: seq<string>, bounds: seq<(int, int)>, m: nat, n: nat)
    requires |parts| == |bounds| && n < m <= |parts| && forall b | b in bounds :: 0 <= b.0
    ensures HangsAt(parts[..m], bounds[..m], n) <==> HangsAt(parts, bounds, n)
  {
    hide ZeroStep, FieldsOf;
    assert parts[..m][..n] == parts[..n] && bounds[..m][..n] == bounds[..n];
  }

  /** Parsing hangs exactly when a part does that no rejected part precedes. */
  lemma {:induction false} HangsExactly(parts: seq<string>, bounds: seq<(int, int)>)
    requires |parts| == |bounds| && forall b | b in bounds :: 0 <= b.0 && b.1 < 0x1_0000
    ensures FieldsOf(parts, bounds).Hangs? <==> exists n: nat :: HangsAt(parts, bounds, n)
  {
    hide FieldOf, ZeroStep;
    if parts != [] {
      var m := |parts| - 1;
      HangsIff(parts[m], bounds[m].0, bounds[m].1);
      HangsExactly(parts[..m], bounds[..m]);
      forall n: nat | n < m ensures HangsAt(parts[..m], bounds[..m], n) <==> HangsAt(parts, bounds, n) {
        HangsAtFront(parts, bounds, m, n);
      }
      LastPart(parts, bounds);
    }
  }

  lemma {:induction false} LastPart(parts: seq<string>, bounds: seq<(int, int)>)
    requires |parts| == |bounds| > 0 && forall b | b in bounds :: 0 <= b.0 && b.1 < 0x1_0000
    ensures var m := |parts| - 1;
            && (HangsAt(parts, bounds, m) <==>
                  FieldsOf(parts, bounds).Hangs? && FieldsOf(parts[..m], bounds[..m]).Parsed?)
            && (FieldsOf(parts[..m], bounds[..m]).Hangs? ==> FieldsOf(parts, bounds).Hangs?)
  {
    hide FieldOf, ZeroStep;
    var m := |parts| - 1;
    HangsIff(parts[m], bounds[m].0, bounds[m].1);
  }

  /** The job before the merge. */
  function JobOf(fields: seq<set<int>>): Job
    requires |fields| == 5 || |fields| == 6
  {
    if |fields| == 6 then Job(Some(fields[0]), fields[1], fields[2], fields[3], fields[4], fields[5])
    else Job(None, fields[0], fields[1], fields[2], fields[3], fields[4])
  }

  /** The job of a schedule that is accepted, before the merge. */
  ghost predicate Accepted(parts: seq<string>, j: Job) {
    exists fields | |fields| == 5 || |fields| == 6 :: ScheduleOf(parts) == Parsed(fields) && j == JobOf(fields)
  }

  /** mergeDays: decided by how many values each set holds. */
  function MergeDays(j: Job): Job {
    if ClearsWeekdays(j) then j.(dow := {})
    else if ClearsDays(j) then j.(day := {})
    else j
  }

  predicate ClearsWeekdays(j: Job) { |j.day| < 31 && |j.dow| == 7 }

  predicate ClearsDays(j: Job) { |j.dow| < 7 && |j.day| == 31 }

  /** Returns on every text but those HangsExactly describes. */
  method ParseSchedule(s: string) returns (job: Option<Job>)
    requires !ScheduleOf(Parts(s)).Hangs?
    ensures job.Some? <==> ScheduleOf(Parts(s)).Parsed?
    ensures job.Some? ==> exists j :: Accepted(Parts(s), j) && job.value == MergeDays(j)
  {
    hide FieldOf;
    var parts := Parts(s);
    if |parts| != 5 && |parts| != 6 {
      return None;
    }
    var bounds := BoundsOf(|parts|);
    var fields: seq<set<int>> := [];
    for k := 0 to |parts|
      invariant FieldsOf(parts[..k], bounds[..k]) == Parsed(fields) && |fields| == k
    {
      assert parts[..k + 1][..k] == parts[..k] && bounds[..k + 1][..k] == bounds[..k];
      StopsAt(parts, bounds, k + 1);
      HangsIff(parts[k], bounds[k].0, bounds[k].1);
      var out := ParsePart(parts[k], bounds[k].0, bounds[k].1);
      if out.Rejected? {
        return None;
      }
      fields := fields + [out.field];
    }
    assert parts[..|parts|] == parts && bounds[..|parts|] == bounds;
    assert Accepted(parts, JobOf(fields));
    job := Some(MergeDays(JobOf(fields)));
  }

  lemma {:induction false} StopsAt(parts: seq<string>, bounds: seq<(int, int)>, n: nat)
    requires |parts| == |bounds| && n <= |parts|
    ensures !FieldsOf(parts[..n], bounds[..n]).Parsed? ==> FieldsOf(parts, bounds) == FieldsOf(parts[..n], bounds[..n])
    decreases |parts|
  {
    hide FieldOf;
    if n == |parts| {
      assert parts[..n] == parts && bounds[..n] == bounds;
    } else {
      var m := |parts| - 1;
      assert parts[..m][..n] == parts[..n] && bounds[..m][..n] == bounds[..n];
      StopsAt(parts[..m], bounds[..m], n);
    }
  }

  predicate JobInBounds(j: Job) {
    && (j.sec.Some? ==> InBounds(j.sec.value, 0, 59)) && InBounds(j.min, 0, 59) && InBounds(j.hour, 0, 23)
    && InBounds(j.day, 1, 31) && InBounds(j.month, 1, 12) && InBounds(j.dow, 0, 6)
  }

  /** Every step keeps its loop inside its range. */
  predicate AllProper(parts: seq<string>)
    requires |parts| == 5 || |parts| == 6
  {
    forall k | 0 <= k < |parts| :: StepsProper(parts[k], BoundsOf(|parts|)[k].0, BoundsOf(|parts|)[k].1)
  }

  /** The sets of an accepted schedule all lie inside their fields if and only if all its steps are proper. */
  lemma ScheduleInBounds(parts: seq<string>, j: Job)
    requires Accepted(parts, j)
    ensures |parts| == 5 || |parts| == 6
    ensures JobInBounds(j) <==> AllProper(parts)
    ensures AllProper(parts) ==> JobInBounds(MergeDays(j))
  {
    hide FieldOf, StepsProper, FieldsOf;
    var fields :| (|fields| == 5 || |fields| == 6) && ScheduleOf(parts) == Parsed(fields) && j == JobOf(fields);
    var bounds := BoundsOf(|parts|);
    ParsedIff(parts, bounds, fields);
    forall k | 0 <= k < |parts|
      ensures InBounds(fields[k], bounds[k].0, bounds[k].1) <==> StepsProper(parts[k], bounds[k].0, bounds[k].1)
    {
      FieldInBounds(parts[k], bounds[k].0, bounds[k].1);
    }
    assert JobInBounds(j) <==> forall k | 0 <= k < |parts| :: InBounds(fields[k], bounds[k].0, bounds[k].1) by {
      hide InBounds;
      JobIsFields(fields);
    }
  }

  lemma JobIsFields(fields: seq<set<int>>)
    requires |fields| == 5 || |fields| == 6
    ensures var bounds := BoundsOf(|fields|);
            JobInBounds(JobOf(fields)) <==> forall k | 0 <= k < |fields| ::
              InBounds(fields[k], bounds[k].0, bounds[k].1)
  {
    hide InBounds;
    var bounds := BoundsOf(|fields|);
    if forall k | 0 <= k < |fields| :: InBounds(fields[k], bounds[k].0, bounds[k].1) {
      assert InBounds(fields[0], bounds[0].0, bounds[0].1) && InBounds(fields[1], bounds[1].0, bounds[1].1);
      assert InBounds(fields[2], bounds[2].0, bounds[2].1) && InBounds(fields[3], bounds[3].0, bounds[3].1);
      assert InBounds(fields[4], bounds[4].0, bounds[4].1);
      if |fields| == 6 { assert InBounds(fields[5], bounds[5].0, bounds[5].1); }
    }
  }

  // ----- tick -----

  predicate Fires(j: Job, t: Tick) {
    && t.min in j.min && t.hour in j.hour
    && (t.day in j.day || t.dow in j.dow)
    && t.month in j.month
    && (if j.sec.Some? then t.sec in j.sec.value else t.sec == 0)
  }

  lemma {:induction false} BetweenSize(lo: int, hi: int)
    requires lo <= hi + 1
    ensures |Between(lo, hi)| == hi - lo + 1
    decreases hi - lo
  {
    if lo <= hi {
      BetweenSize(lo, hi - 1);
      assert Between(lo, hi) == Between(lo, hi - 1) + {hi} by {
        assert Within(lo, hi, hi);
        forall i ensures i in Between(lo, hi) <==> i in Between(lo, hi - 1) || i == hi {
          assert Within(lo, hi, i) <==> Within(lo, hi - 1, i) || i == hi;
        }
      }
    } else {
      assert Between(lo, hi) == {};
    }
  }

  lemma SubsetOfSameSize(a: set<int>, b: set<int>)
    requires a <= b && |a| == |b|
    ensures a == b
  {
    assert |b - a| == |b| - |a|;
    assert b == a + (b - a);
  }

  /** A set inside a range is as large as the range exactly when it is the whole range. */
  lemma FullIffSize(f: set<int>, lo: int, hi: int)
    requires lo <= hi && InBounds(f, lo, hi)
    ensures |f| <= hi - lo + 1
    ensures |f| == hi - lo + 1 <==> forall i | lo <= i <= hi :: i in f
  {
    var full := Between(lo, hi);
    BetweenSize(lo, hi);
    assert forall i | i in f :: Within(lo, hi, i);
    assert f <= full;
    assert |full - f| == |full| - |f|;
    if |f| == |full| {
      SubsetOfSameSize(f, full);
      forall i | lo <= i <= hi ensures i in f { assert Within(lo, hi, i); }
    }
    if forall i | lo <= i <= hi :: i in f {
      assert full <= f;
    }
  }

  /** The set leaves out some value of its field. */
  predicate Restricted(f: set<int>, lo: int, hi: int) { exists i | lo <= i <= hi :: i !in f }

  /**
   The day rule of crontab: the restricted one of day and weekday, either when both are, every day when
   neither is.
   */
  predicate DayRule(j: Job, t: Tick) {
    var day, dow := Restricted(j.day, 1, 31), Restricted(j.dow, 0, 6);
    && (day ==> t.day in j.day || (dow && t.dow in j.dow))
    && (!day && dow ==> t.dow in j.dow)
  }

  /** The merge, which looks only at sizes, clears a set exactly when the rule says it is the unrestricted one. */
  predicate MergeAgrees(j: Job) {
    && (ClearsWeekdays(j) <==> Restricted(j.day, 1, 31) && !Restricted(j.dow, 0, 6))
    && (ClearsDays(j) <==> Restricted(j.dow, 0, 6) && !Restricted(j.day, 1, 31))
  }

  predicate DayMatches(j: Job, t: Tick) { t.day in j.day || t.dow in j.dow }

  /** Fields that name anything name a value of their own. */
  ghost predicate NamesReal(j: Job) {
    && (j.day != {} ==> exists i | 1 <= i <= 31 :: i in j.day)
    && (j.dow != {} ==> exists i | 0 <= i <= 6 :: i in j.dow)
  }

  /** A field without a gap is at least as large as its range. */
  lemma NoGapSize(f: set<int>, lo: int, hi: int)
    requires lo <= hi && !Restricted(f, lo, hi)
    ensures |f| >= hi - lo + 1
  {
    BetweenSize(lo, hi);
    assert Between(lo, hi) <= f;
    assert f == Between(lo, hi) + (f - Between(lo, hi));
  }

  ghost predicate DayRuleKept(j: Job) {
    forall t | RealTick(t) :: DayMatches(MergeDays(j), t) <==> DayRule(j, t)
  }

  lemma AgreesKeeps(j: Job, t: Tick)
    requires MergeAgrees(j) && RealTick(t)
    ensures DayMatches(MergeDays(j), t) <==> DayRule(j, t)
  {
  }

  /**
   Exactly when: after the merge the days are right at every real tick if and only if the sizes tell which
   set is restricted.
   */
  lemma DayRuleIff(j: Job)
    requires NamesReal(j)
    ensures DayRuleKept(j) <==> MergeAgrees(j)
  {
    if MergeAgrees(j) {
      forall t | RealTick(t) ensures DayMatches(MergeDays(j), t) <==> DayRule(j, t) { AgreesKeeps(j, t); }
    } else {
      var t := WrongDay(j);
    }
  }

  lemma WrongDay(j: Job) returns (t: Tick)
    requires NamesReal(j) && !MergeAgrees(j)
    ensures RealTick(t) && DayMatches(MergeDays(j), t) != DayRule(j, t)
  {
    var day, dow := 1, 0;
    if Restricted(j.day, 1, 31) {
      if ClearsDays(j) && Restricted(j.dow, 0, 6) {
        day :| 1 <= day <= 31 && day in j.day;
      } else {
        day :| 1 <= day <= 31 && day !in j.day;
      }
    } else {
      NoGapSize(j.day, 1, 31);
    }
    if Restricted(j.dow, 0, 6) {
      if ClearsWeekdays(j) && Restricted(j.day, 1, 31) {
        dow :| 0 <= dow <= 6 && dow in j.dow;
      } else {
        dow :| 0 <= dow <= 6 && dow !in j.dow;
      }
    } else {
      NoGapSize(j.dow, 0, 6);
    }
    t := Tick(0, 0, 0, day, 1, dow);
  }

  /** Sets inside their fields always agree: only an overflowing step can mislead the merge. */
  lemma ProperAgrees(j: Job)
    requires InBounds(j.day, 1, 31) && InBounds(j.dow, 0, 6)
    ensures MergeAgrees(j)
  {
    FullIffSize(j.day, 1, 31);
    FullIffSize(j.dow, 0, 6);
  }

  lemma AcceptedNamesReal(parts: seq<string>, j: Job)
    requires Accepted(parts, j)
    ensures NamesReal(j)
  {
    hide FieldOf, FieldsOf;
    var fields :| (|fields| == 5 || |fields| == 6) && ScheduleOf(parts) == Parsed(fields) && j == JobOf(fields);
    var bounds := BoundsOf(|parts|);
    ParsedIff(parts, bounds, fields);
    var k := |parts| - 3;
    if fields[k] != {} { FieldHasReal(parts[k], 1, 31); }
    if fields[k + 2] != {} { FieldHasReal(parts[k + 2], 0, 6); }
  }

  /** What a schedule promises at a tick: minute, hour, month and second match and the day rule holds. */
  predicate Promised(j: Job, t: Tick) {
    && t.min in j.min && t.hour in j.hour && t.month in j.month
    && (if j.sec.Some? then t.sec in j.sec.value else t.sec == 0)
    && DayRule(j, t)
  }

  /**
   For every accepted schedule: the job fires at exactly the promised real ticks if the merge's sizes
   agree, which they do whenever the day and weekday steps are proper; and its days are right at
   every real tick only if they agree.
   */
  lemma FiresExactly(parts: seq<string>, j: Job)
    requires Accepted(parts, j)
    ensures MergeAgrees(j) ==> forall t | RealTick(t) :: Fires(MergeDays(j), t) <==> Promised(j, t)
    ensures MergeAgrees(j) <==> DayRuleKept(j)
    ensures AllProper(parts) ==> MergeAgrees(j)
  {
    ScheduleInBounds(parts, j);
    if AllProper(parts) { ProperAgrees(j); }
    AcceptedNamesReal(parts, j);
    DayRuleIff(j);
    if MergeAgrees(j) {
      forall t | RealTick(t) ensures Fires(MergeDays(j), t) <==> Promised(j, t) {
        AgreesKeeps(j, t);
      }
    }
  }
}
