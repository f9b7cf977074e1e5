/**
 Which cron texts are accepted, and as what, said on the text alone: the grammar the parser of
 pkg/gofr/cron_scheduler.go accepts, no more and no less.
 */
module CronGrammar {
  import opened Options
  import opened Strings
  import opened CronSchedule
  import opened CronText
  import opened CronFiring

  // ----- Items -----

  /** The text is digits, a dash and digits, and names the values from the first number to the second. */
  ghost predicate RangeText(s: string, x: string, y: string) {
    AllDigits(x) && AllDigits(y) && s == x + "-" + y
  }

  /** The text is digits with an optional sign, and names that number. */
  ghost predicate NumberText(s: string, v: int) {
    || (AllDigits(s) && v == DigitsValue(s))
    || (s != "" && s[0] == '+' && AllDigits(s[1..]) && v == DigitsValue(s[1..]))
    || (s != "" && s[0] == '-' && AllDigits(s[1..]) && v == -(DigitsValue(s[1..]) as int))
  }

  /** The range starts at lo or above and ends at hi or below; it may be empty. */
  ghost predicate RangeWithin(s: string, lo: int, hi: int, x: string, y: string) {
    RangeText(s, x, y) && lo <= DigitsValue(x) && DigitsValue(y) <= hi
  }

  ghost predicate ItemText(s: string, lo: int, hi: int) {
    (exists x, y :: RangeWithin(s, lo, hi, x, y)) || exists v :: NumberText(s, v) && lo <= v <= hi
  }

  ghost predicate ItemNames(s: string, i: int) {
    || (exists x, y :: RangeText(s, x, y) && DigitsValue(x) <= i <= DigitsValue(y))
    || NumberText(s, i)
  }

  lemma RangeUnique(s: string, x: string, y: string)
    requires RangeText(s, x, y)
    ensures MatchRange(s) == Some((x, y))
  {
    RangeOf(x, y);
  }

  lemma MatchRangeIff(s: string)
    ensures MatchRange(s).Some? <==> exists x, y :: RangeText(s, x, y)
    ensures MatchRange(s).Some? ==> RangeText(s, MatchRange(s).value.0, MatchRange(s).value.1)
  {
    if x, y :| RangeText(s, x, y) { RangeUnique(s, x, y); }
    if MatchRange(s).Some? { assert RangeText(s, MatchRange(s).value.0, MatchRange(s).value.1); }
  }

  lemma NumberIff(s: string, v: int)
    requires -MAX_INT <= v <= MAX_INT
    ensures Atoi(s) == Some(v) <==> NumberText(s, v)
  {
    if s != "" && (s[0] == '+' || s[0] == '-') {
      assert !IsDigit(s[0]);
    }
  }

  lemma NumberNoRange(s: string, v: int)
    requires NumberText(s, v)
    ensures MatchRange(s).None?
  {
    if AllDigits(s) {
      NoRange(s);
    } else {
      assert DigitRun(s) == 0;
    }
  }

  /**
   An item is accepted if and only if it is a range whose ends lie within the field or an optionally signed
   number of the field, and it then adds the values it names.
   */
  lemma ItemIff(s: string, lo: int, hi: int)
    requires 0 <= lo < 0x1_0000 && hi < 0x1_0000
    ensures ItemField(s, lo, hi).Ok? <==> ItemText(s, lo, hi)
    ensures !ItemField(s, lo, hi).Diverges?
    ensures ItemField(s, lo, hi).Ok? ==> forall i :: i in ItemField(s, lo, hi).field <==> ItemNames(s, i)
  {
    hide MatchRange, Atoi, DigitsValue;
    MatchRangeIff(s);
    match MatchRange(s)
    case Some((x, y)) =>
      forall x', y' | RangeText(s, x', y') ensures x' == x && y' == y { RangeUnique(s, x', y'); }
      forall v ensures !NumberText(s, v) { if NumberText(s, v) { NumberNoRange(s, v); } }
      RangeNames(s, lo, hi, x, y);
    case None =>
      forall v | lo <= v <= hi ensures Atoi(s) == Some(v) <==> NumberText(s, v) { NumberIff(s, v); }
      NumberOne(s);
  }

  lemma NumberOne(s: string)
    ensures forall v, w | NumberText(s, v) && NumberText(s, w) :: v == w
  {
    if s != "" && (s[0] == '+' || s[0] == '-') { assert !IsDigit(s[0]); }
  }

  lemma RangeNames(s: string, lo: int, hi: int, x: string, y: string)
    requires 0 <= lo < 0x1_0000 && hi < 0x1_0000 && RangeText(s, x, y)
    ensures (Saturated(x) < lo || Saturated(y) > hi) <==> !RangeWithin(s, lo, hi, x, y)
    ensures RangeWithin(s, lo, hi, x, y) ==>
              forall i :: i in Between(Saturated(x), Saturated(y)) <==> DigitsValue(x) <= i <= DigitsValue(y)
  {
    hide DigitsValue;
    forall i ensures i in Between(Saturated(x), Saturated(y)) <==> Saturated(x) <= i <= Saturated(y) {
      assert Within(Saturated(x), Saturated(y), i) <==> Saturated(x) <= i <= Saturated(y);
    }
  }

  // ----- Lists -----

  ghost predicate ListNames(parts: seq<string>, i: int) {
    exists k | 0 <= k < |parts| :: ItemNames(parts[k], i)
  }

  ghost predicate AllItems(parts: seq<string>, lo: int, hi: int) {
    forall k | 0 <= k < |parts| :: ItemText(parts[k], lo, hi)
  }

  lemma {:induction false} ItemsIff(parts: seq<string>, lo: int, hi: int)
    requires 0 <= lo < 0x1_0000 && hi < 0x1_0000
    ensures ItemsField(parts, lo, hi).Ok? <==> AllItems(parts, lo, hi)
    ensures !ItemsField(parts, lo, hi).Diverges?
    ensures ItemsField(parts, lo, hi).Ok? ==> forall i :: i in ItemsField(parts, lo, hi).field <==> ListNames(parts, i)
  {
    hide ItemField, ItemNames, ItemText;
    if parts != [] {
      var n := |parts| - 1;
      ItemsIff(parts[..n], lo, hi);
      ItemIff(parts[n], lo, hi);
      assert AllItems(parts, lo, hi) <==> AllItems(parts[..n], lo, hi) && ItemText(parts[n], lo, hi);
      forall i ensures ListNames(parts, i) <==> ListNames(parts[..n], i) || ItemNames(parts[n], i) {
        ListNamesLast(parts, i);
      }
    }
  }

  lemma ListNamesLast(parts: seq<string>, i: int)
    requires parts != []
    ensures var n := |parts| - 1; ListNames(parts, i) <==> ListNames(parts[..n], i) || ItemNames(parts[n], i)
  {
    hide ItemNames;
    var n := |parts| - 1;
    if k :| 0 <= k < |parts| && ItemNames(parts[k], i) { assert k < n ==> parts[..n][k] == parts[k]; }
    if k :| 0 <= k < n && ItemNames(parts[..n][k], i) { assert ItemNames(parts[k], i); }
  }

  // ----- Steps -----

  /** The text ends in a slash and digits, up to a trailer in which no other slash stands before a digit. */
  ghost predicate StepText(s: string, range: string, step: string, trailer: string) {
    && AllDigits(step) && s == range + "/" + step + trailer
    && (trailer != "" ==> !IsDigit(trailer[0])) && NoStepFrom(trailer, 0)
  }

  lemma {:induction false} LastSlashIsLast(s: string, k: nat)
    requires k <= |s| && forall i | k <= i < |s| - 1 :: !(s[i] == '/' && IsDigit(s[i + 1]))
    ensures LastSlash(s, k).Some? ==> NoStepFrom(s, LastSlash(s, k).value + 1)
    ensures LastSlash(s, k).None? ==> NoStepFrom(s, 0)
  {
    if k > 0 && !(s[k - 1] == '/' && k < |s| && IsDigit(s[k])) { LastSlashIsLast(s, k - 1); }
  }

  lemma StepFound(s: string) returns (trailer: string)
    requires MatchStep(s).Some?
    ensures StepText(s, MatchStep(s).value.0, MatchStep(s).value.1, trailer)
  {
    hide LastSlash, DigitRun;
    var i := LastSlash(s, |s|).value;
    LastSlashIsSlash(s, |s|);
    LastSlashIsLast(s, |s|);
    var rest := s[i + 1..];
    var n := DigitRun(rest);
    trailer := rest[n..];
    assert IsDigit(rest[0]);
    assert s == s[..i] + "/" + rest[..n] + trailer;
    forall j | 0 <= j < |trailer| - 1 ensures !(trailer[j] == '/' && IsDigit(trailer[j + 1])) {
      assert s[i + 1 + n + j] == trailer[j] && s[i + 1 + n + j + 1] == trailer[j + 1];
    }
  }

  lemma NoStepFound(s: string)
    ensures MatchStep(s).None? <==> NoStepFrom(s, 0)
  {
    LastSlashIsLast(s, |s|);
    if LastSlash(s, |s|).Some? { LastSlashIsSlash(s, |s|); }
  }

  /** What a stepped part's range stands for: the whole field, or the range written. */
  ghost predicate StepsOver(range: string, lo: int, hi: int, a: int, b: int) {
    || ((range == "" || range == "*") && a == lo && b == hi)
    || (exists x, y :: RangeWithin(range, lo, hi, x, y) && a == Capped(DigitsValue(x)) && b == DigitsValue(y))
  }

  /** A number too large for 64 bits is read as the largest. */
  function Capped(n: nat): nat { if n > MAX_INT then MAX_INT else n }

  lemma StepRangeIff(range: string, lo: int, hi: int, a: int, b: int)
    requires 0 <= lo < 0x1_0000 && hi < 0x1_0000
    ensures StepRange(range, lo, hi) == Some((a, b)) <==> StepsOver(range, lo, hi, a, b)
  {
    hide MatchRange, DigitsValue;
    MatchRangeIff(range);
    if x, y :| RangeText(range, x, y) { RangeUnique(range, x, y); assert '-' in range && '-' !in "*"; }
    forall x, y | RangeText(range, x, y) ensures MatchRange(range) == Some((x, y)) { RangeUnique(range, x, y); }
  }

  // ----- Parts -----

  /** The part's text, and what parsing it comes to. */
  ghost predicate PartReads(s: string, lo: int, hi: int, out: Outcome) {
    || (s == "*" && out == LoopField(lo, hi, 1))
    || (exists range, step, trailer, a, b ::
          StepText(s, range, step, trailer) && StepsOver(range, lo, hi, a, b)
          && out == LoopField(a, b, Capped(DigitsValue(step))))
    || (s != "*" && NoStepFrom(s, 0) && ListReads(s, lo, hi, out))
  }

  /** A list whose items all fit, which names at least one value. */
  ghost predicate ListReads(s: string, lo: int, hi: int, out: Outcome) {
    && out.Ok? && out.field != {} && AllItems(Split(s, ','), lo, hi)
    && forall i :: i in out.field <==> ListNames(Split(s, ','), i)
  }

  lemma ListIff(s: string, lo: int, hi: int, out: Outcome)
    requires 0 <= lo < 0x1_0000 && hi < 0x1_0000 && s != "*" && MatchStep(s).None?
    ensures FieldOf(s, lo, hi) == out && !out.Rejected? <==> ListReads(s, lo, hi, out)
  {
    hide ItemsField, AllItems, ListNames, MatchStep, Split;
    var parts := Split(s, ',');
    ItemsIff(parts, lo, hi);
    if ListReads(s, lo, hi, out) {
      forall i ensures i in ItemsField(parts, lo, hi).field <==> i in out.field {
        assert i in ItemsField(parts, lo, hi).field <==> ListNames(parts, i);
      }
    }
  }

  lemma StepIff(s: string, lo: int, hi: int, out: Outcome)
    requires 0 <= lo < 0x1_0000 && hi < 0x1_0000 && s != "*" && MatchStep(s).Some?
    ensures FieldOf(s, lo, hi) == out && !out.Rejected? <==> PartReads(s, lo, hi, out)
  {
    hide MatchStep, StepRange, LoopField, DigitsValue, StepText, StepsOver, ListReads;
    NoStepFound(s);
    var (range, step) := MatchStep(s).value;
    var t := StepFound(s);
    forall r', s', t' | StepText(s, r', s', t') ensures r' == range && s' == step { StepUnique(s, r', s', t'); }
    forall a, b ensures StepRange(range, lo, hi) == Some((a, b)) <==> StepsOver(range, lo, hi, a, b) {
      StepRangeIff(range, lo, hi, a, b);
    }
    if FieldOf(s, lo, hi) == out && !out.Rejected? {
      var (a, b) := StepRange(range, lo, hi).value;
      assert StepText(s, range, step, t) && StepsOver(range, lo, hi, a, b);
    }
    assert forall a, b, n :: !LoopField(a, b, n).Rejected? by { NeverRejected(); }
  }

  lemma NeverRejected()
    ensures forall a, b, n :: !LoopField(a, b, n).Rejected?
  {
  }

  lemma StepUnique(s: string, range: string, step: string, trailer: string)
    requires StepText(s, range, step, trailer)
    ensures MatchStep(s) == Some((range, step))
  {
    StepOf(range, step, trailer);
  }

  /**
   A part is read as something, a set or a loop that never ends, if and only if its text says so; any
   other is rejected.
   */
  lemma PartIff(s: string, lo: int, hi: int, out: Outcome)
    requires 0 <= lo < 0x1_0000 && hi < 0x1_0000
    ensures FieldOf(s, lo, hi) == out && !out.Rejected? <==> PartReads(s, lo, hi, out)
  {
    hide LoopField, StepsOver, ListReads, MatchStep, StepText;
    NoStepFound(s);
    if s == "*" { assert NoStepFrom(s, 0); }
    forall r, n, t | MatchStep(s).None? ensures !StepText(s, r, n, t) {
      if StepText(s, r, n, t) { StepUnique(s, r, n, t); }
    }
    NeverRejected();
    if s != "*" && MatchStep(s).Some? {
      StepIff(s, lo, hi, out);
    } else if s != "*" {
      ListIff(s, lo, hi, out);
    }
  }

  // ----- Schedules -----

  /**
   A schedule is accepted if and only if it has five parts, each accepted for its field (minute 0-59, hour
   0-23, day 1-31, month 1-12, weekday 0-6), or six, the first for the second (0-59); and its sets are
   those the parts read as.
   */
  lemma ScheduleIff(parts: seq<string>, fields: seq<set<int>>)
    ensures ScheduleOf(parts) == Parsed(fields) <==>
              && |fields| == |parts|
              && (|parts| == 5 || |parts| == 6)
              && (|parts| == 6 ==> PartReads(parts[0], 0, 59, Ok(fields[0])))
              && var k := |parts| - 5;
              && PartReads(parts[k], 0, 59, Ok(fields[k])) && PartReads(parts[k + 1], 0, 23, Ok(fields[k + 1]))
              && PartReads(parts[k + 2], 1, 31, Ok(fields[k + 2])) && PartReads(parts[k + 3], 1, 12, Ok(fields[k + 3]))
              && PartReads(parts[k + 4], 0, 6, Ok(fields[k + 4]))
  {
    hide PartReads, FieldOf, FieldsOf;
    if (|parts| == 5 || |parts| == 6) && |fields| == |parts| {
      var bounds := BoundsOf(|parts|);
      ParsedIff(parts, bounds, fields);
      forall k | 0 <= k < |parts|
        ensures FieldOf(parts[k], bounds[k].0, bounds[k].1) == Ok(fields[k]) <==>
                  PartReads(parts[k], bounds[k].0, bounds[k].1, Ok(fields[k]))
      {
        PartIff(parts[k], bounds[k].0, bounds[k].1, Ok(fields[k]));
      }
      assert AllAccepted(parts, bounds, fields) <==>
               forall k | 0 <= k < |parts| :: PartReads(parts[k], bounds[k].0, bounds[k].1, Ok(fields[k]));
    } else if |parts| == 5 || |parts| == 6 {
      ParsedIff(parts, BoundsOf(|parts|), fields);
    }
  }
}
