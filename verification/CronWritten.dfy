/**
 End to end: from a schedule as a person writes it, with any white space between its parts, to the
 ticks at which the job fires.
 */
module CronWritten {
  import opened Options
  import opened Strings
  import opened CronSchedule
  import opened CronText
  import opened CronFiring

  predicate Solid(p: string) { p != "" && forall k | 0 <= k < |p| :: !IsSpace(p[k]) }

  predicate Blank(g: string) { g != "" && forall k | 0 <= k < |g| :: IsSpace(g[k]) }

  /** The parts with a gap after each but the last. */
  function Spaced(parts: seq<string>, gaps: seq<string>): string
    requires parts != [] && |gaps| == |parts| - 1
  {
    if |parts| == 1 then parts[0] else parts[0] + gaps[0] + Spaced(parts[1..], gaps[1..])
  }

  lemma {:induction false} CollapseSolid(p: string, rest: string)
    requires forall k | 0 <= k < |p| :: !IsSpace(p[k])
    ensures Collapse(p + rest) == p + Collapse(rest)
  {
    if p == "" {
      assert p + rest == rest;
    } else {
      assert (p + rest)[1..] == p[1..] + rest && !IsSpace((p + rest)[0]);
      CollapseSolid(p[1..], rest);
      assert [p[0]] + (p[1..] + Collapse(rest)) == p + Collapse(rest);
    }
  }

  lemma {:induction false} CollapseGap(g: string, rest: string)
    requires Blank(g) && rest != "" && !IsSpace(rest[0])
    ensures Collapse(g + rest) == " " + Collapse(rest)
  {
    assert IsSpace((g + rest)[0]);
    if |g| == 1 {
      assert (g + rest)[1..] == rest;
    } else {
      assert (g + rest)[1..] == g[1..] + rest;
      CollapseGap(g[1..], rest);
    }
  }

  lemma {:induction false} CollapseBlank(g: string)
    requires Blank(g)
    ensures Collapse(g) == " "
  {
    if |g| == 1 {
      assert g[1..] == "";
    } else {
      CollapseBlank(g[1..]);
    }
  }

  /** No white space, or some. */
  predicate Space(g: string) { g == "" || Blank(g) }

  function OneSpace(g: string): string { if g == "" then "" else " " }

  lemma {:induction false} CollapseSpaced(parts: seq<string>, gaps: seq<string>, trail: string)
    requires parts != [] && |gaps| == |parts| - 1 && Space(trail)
    requires (forall p | p in parts :: Solid(p)) && (forall g | g in gaps :: Blank(g))
    ensures Collapse(Spaced(parts, gaps) + trail) == Join(parts, ' ') + OneSpace(trail)
    ensures Spaced(parts, gaps) != "" && !IsSpace(Spaced(parts, gaps)[0])
  {
    assert Solid(parts[0]);
    if |parts| == 1 {
      CollapseSolid(parts[0], trail);
      if trail != "" { CollapseBlank(trail); }
    } else {
      var rest := Spaced(parts[1..], gaps[1..]) + trail;
      CollapseSpaced(parts[1..], gaps[1..], trail);
      assert Blank(gaps[0]);
      assert Spaced(parts, gaps) + trail == parts[0] + (gaps[0] + rest);
      CollapseSolid(parts[0], gaps[0] + rest);
      CollapseGap(gaps[0], rest);
      assert parts[0] + (" " + (Join(parts[1..], ' ') + OneSpace(trail))) == Join(parts, ' ') + OneSpace(trail);
    }
  }

  lemma {:induction false} JoinEnds(parts: seq<string>)
    requires parts != [] && forall p | p in parts :: Solid(p)
    ensures var s := Join(parts, ' '); s != "" && s[0] != ' ' && s[|s| - 1] != ' '
  {
    assert Solid(parts[0]);
    if |parts| > 1 { JoinEnds(parts[1..]); }
  }

  lemma TrimEnds(lead: string, s: string, trail: string)
    requires s != "" && s[0] != ' ' && s[|s| - 1] != ' '
    ensures Trim(OneSpace(lead) + s + OneSpace(trail), ' ') == s
  {
    var l, t := OneSpace(lead), OneSpace(trail);
    assert (" " + (s + t))[1..] == s + t && (s + " ")[..|s|] == s;
    assert l + s + t == l + (s + t);
    assert TrimLeft(s + t, ' ') == s + t && TrimRight(s, ' ') == s;
    assert TrimLeft(l + (s + t), ' ') == s + t by { if l == "" { assert l + (s + t) == s + t; } }
    assert TrimRight(s + t, ' ') == s by {
      if t == "" { assert s + t == s; } else { assert (s + t)[|s|] == ' ' && (s + t)[..|s|] == s; }
    }
  }

  /** White space between the parts, before them or after them is read past. */
  lemma {:induction false} PartsOf(lead: string, parts: seq<string>, gaps: seq<string>, trail: string)
    requires parts != [] && |gaps| == |parts| - 1 && Space(lead) && Space(trail)
    requires (forall p | p in parts :: Solid(p)) && (forall g | g in gaps :: Blank(g))
    ensures Parts(lead + Spaced(parts, gaps) + trail) == parts
  {
    hide Join, Split, Spaced, Trim, Collapse, Solid, Blank;
    CollapseAround(lead, parts, gaps, trail);
    JoinEnds(parts);
    TrimEnds(lead, Join(parts, ' '), trail);
    forall p | p in parts ensures ' ' !in p { SolidNoSpace(p); }
    SplitJoin(parts, ' ');
  }

  lemma SolidNoSpace(p: string)
    requires Solid(p)
    ensures ' ' !in p
  {
  }

  lemma {:induction false} CollapseAround(lead: string, parts: seq<string>, gaps: seq<string>, trail: string)
    requires parts != [] && |gaps| == |parts| - 1 && Space(lead) && Space(trail)
    requires (forall p | p in parts :: Solid(p)) && (forall g | g in gaps :: Blank(g))
    ensures Collapse(lead + Spaced(parts, gaps) + trail) == OneSpace(lead) + Join(parts, ' ') + OneSpace(trail)
  {
    hide Join, Spaced, Collapse, Solid;
    var text := Spaced(parts, gaps) + trail;
    CollapseSpaced(parts, gaps, trail);
    assert lead + Spaced(parts, gaps) + trail == lead + text;
    if lead == "" {
      assert lead + text == text;
    } else {
      CollapseGap(lead, text);
    }
    assert OneSpace(lead) + (Join(parts, ' ') + OneSpace(trail)) == OneSpace(lead) + Join(parts, ' ') + OneSpace(trail);
  }

  lemma DecSolid(n: nat)
    ensures Solid(Dec(n))
  {
    DecDigits(n);
    assert forall k | 0 <= k < |Dec(n)| :: IsDigit(Dec(n)[k]);
  }

  lemma {:induction false} ItemsSolid(items: seq<Item>)
    ensures forall p | p in WriteItems(items) :: Solid(p)
  {
    if items != [] {
      var n := |items| - 1;
      ItemsSolid(items[..n]);
      match items[n]
      case Single(v) => DecSolid(v);
      case Span(a, b) => DecSolid(a); DecSolid(b);
    }
  }

  lemma {:induction false} JoinSolid(parts: seq<string>)
    requires parts != [] && forall p | p in parts :: Solid(p)
    ensures Solid(Join(parts, ','))
  {
    assert Solid(parts[0]);
    if |parts| > 1 { JoinSolid(parts[1..]); }
  }

  lemma WrittenSolid(e: Expr)
    requires e.Items? ==> e.items != []
    ensures Solid(Write(e))
  {
    match e
    case Any =>
    case Every(n) => DecSolid(n);
    case SpanEvery(a, b, n) => DecSolid(a); DecSolid(b); DecSolid(n);
    case Items(items) =>
      WriteItemsSize(items);
      ItemsSolid(items);
      JoinSolid(WriteItems(items));
  }

  // ----- Schedules -----

  /** The expressions name values of their fields, in steps that keep their loops inside them. */
  predicate AllFit(sec: Option<Expr>, es: seq<Expr>) {
    && |es| == 5 && (sec.Some? ==> Fits(sec.value, 0, 59) && Proper(sec.value, 0, 59))
    && forall k | 0 <= k < 5 :: Fits(es[k], BOUNDS[k].0, BOUNDS[k].1) && Proper(es[k], BOUNDS[k].0, BOUNDS[k].1)
  }

  function WrittenParts(sec: Option<Expr>, es: seq<Expr>): seq<string>
    requires AllFit(sec, es)
  {
    assert Fits(es[0], 0, 59) && Fits(es[1], 0, 23) && Fits(es[2], 1, 31) && Fits(es[3], 1, 12) && Fits(es[4], 0, 6);
    (if sec.Some? then [Write(sec.value)] else [])
      + [Write(es[0]), Write(es[1]), Write(es[2]), Write(es[3]), Write(es[4])]
  }

  /** The job whose sets are what the expressions name. */
  function Named(sec: Option<Expr>, es: seq<Expr>): Job
    requires |es| == 5
  {
    Job(if sec.Some? then Some(Meaning(sec.value, 0, 59)) else None,
        Meaning(es[0], 0, 59), Meaning(es[1], 0, 23),
        Meaning(es[2], 1, 31), Meaning(es[3], 1, 12), Meaning(es[4], 0, 6))
  }

  lemma WrittenJob(sec: Option<Expr>, es: seq<Expr>)
    requires AllFit(sec, es)
    ensures Accepted(WrittenParts(sec, es), Named(sec, es))
  {
    hide FieldOf, Meaning, Write, Fits, Proper, FieldsOf;
    var parts := WrittenParts(sec, es);
    var all := (if sec.Some? then [sec.value] else []) + es;
    var bounds := BoundsOf(|parts|);
    var fields := seq(|parts|, k requires 0 <= k < |parts| => Meaning(all[k], bounds[k].0, bounds[k].1));
    forall k | 0 <= k < |parts| ensures FieldOf(parts[k], bounds[k].0, bounds[k].1) == Ok(fields[k]) {
      assert Fits(all[k], bounds[k].0, bounds[k].1) && Proper(all[k], bounds[k].0, bounds[k].1);
      PartRoundTrip(all[k], bounds[k].0, bounds[k].1);
    }
    ParsedIff(parts, bounds, fields);
    assert JobOf(fields) == Named(sec, es);
  }

  lemma MeaningInBounds(e: Expr, lo: int, hi: int)
    requires Fits(e, lo, hi) && 0 <= lo && hi < 0x1_0000
    ensures InBounds(Meaning(e, lo, hi), lo, hi)
  {
    if e.Items? {
      ItemsRead(e.items, lo, hi);
      ItemsInBounds(WriteItems(e.items), lo, hi);
    }
  }

  /**
   A schedule written out with any white space around its parts fires at exactly the ticks its
   expressions name: minute, hour, month and second in their sets (second 0 when none is written), and
   the day rule of crontab: the restricted one of day and weekday, either if both are restricted.
   */
  lemma {:induction false} WrittenScheduleFires(
    sec: Option<Expr>, es: seq<Expr>, lead: string, gaps: seq<string>, trail: string, t: Tick
  )
    requires AllFit(sec, es) && RealTick(t) && Space(lead) && Space(trail)
    requires |gaps| == |WrittenParts(sec, es)| - 1 && forall g | g in gaps :: Blank(g)
    ensures Accepted(Parts(lead + Spaced(WrittenParts(sec, es), gaps) + trail), Named(sec, es))
    ensures var days, weekdays := Meaning(es[2], 1, 31), Meaning(es[4], 0, 6);
            Fires(MergeDays(Named(sec, es)), t) <==>
              && t.min in Meaning(es[0], 0, 59) && t.hour in Meaning(es[1], 0, 23) && t.month in Meaning(es[3], 1, 12)
              && (if sec.Some? then t.sec in Meaning(sec.value, 0, 59) else t.sec == 0)
              && (Restricted(days, 1, 31) ==> t.day in days || (Restricted(weekdays, 0, 6) && t.dow in weekdays))
              && (!Restricted(days, 1, 31) && Restricted(weekdays, 0, 6) ==> t.dow in weekdays)
  {
    hide Meaning, ScheduleOf, Parts, Spaced, MergeDays, Fires, Restricted, Write, Fits, CronText.Proper, InBounds;
    var parts := WrittenParts(sec, es);
    forall p | p in parts ensures Solid(p) {
      PartSolid(sec, es, p);
    }
    PartsOf(lead, parts, gaps, trail);
    WrittenJob(sec, es);
    assert Fits(es[2], BOUNDS[2].0, BOUNDS[2].1) && Fits(es[4], BOUNDS[4].0, BOUNDS[4].1);
    MeaningInBounds(es[2], 1, 31);
    MeaningInBounds(es[4], 0, 6);
    ProperAgrees(Named(sec, es));
    FiresExactly(parts, Named(sec, es));
  }

  lemma PartSolid(sec: Option<Expr>, es: seq<Expr>, p: string)
    requires AllFit(sec, es) && p in WrittenParts(sec, es)
    ensures Solid(p)
  {
    hide Solid, Write;
    assert Fits(es[0], 0, 59) && Fits(es[1], 0, 23) && Fits(es[2], 1, 31) && Fits(es[3], 1, 12) && Fits(es[4], 0, 6);
    if sec.Some? { WrittenSolid(sec.value); }
    WrittenSolid(es[0]); WrittenSolid(es[1]); WrittenSolid(es[2]); WrittenSolid(es[3]); WrittenSolid(es[4]);
  }

  // ----- A step that misleads the merge -----

  const FAR := MAX_INT + 1

  /** Saturday alone with the largest step is read as four weekdays and three values that are none. */
  lemma SevenValues()
    ensures LoopField(6, 6, MAX_INT) == Ok({6, 5 - FAR, 4, 3 - FAR, 2, 1 - FAR, 0})
  {
    assert Visit(6, MAX_INT, 0) == 6;
    assert Visit(6, MAX_INT, 1) == 5 - FAR;
    assert Visit(6, MAX_INT, 2) == 4;
    assert Visit(6, MAX_INT, 3) == 3 - FAR;
    assert Visit(6, MAX_INT, 4) == 2;
    assert Visit(6, MAX_INT, 5) == 1 - FAR;
    assert Visit(6, MAX_INT, 6) == 0;
    assert Visit(6, MAX_INT, 7) == MAX_INT;
    LoopFieldAt(6, 6, MAX_INT, 7);
  }

  /** The first of the month or Saturdays, with the largest step written after the Saturday. */
  function FirstOrSaturdayParts(): seq<string> {
    ["*", "*", Write(Items([Single(1)])), "*", Write(SpanEvery(6, 6, MAX_INT))]
  }

  function FirstOrSaturdayFields(): seq<set<int>> {
    [Stepped(0, 59, 1), Stepped(0, 23, 1), {1}, Stepped(1, 12, 1), {6, 5 - FAR, 4, 3 - FAR, 2, 1 - FAR, 0}]
  }

  lemma FirstReads()
    ensures FieldOf(Write(Items([Single(1)])), 1, 31) == Ok({1})
  {
    var one := [Single(1)];
    assert one[..0] == [];
    assert ItemsMeaning(one) == {1};
    ListReads(one, 1, 31);
  }

  lemma SaturdayReads()
    ensures FieldOf(Write(SpanEvery(6, 6, MAX_INT)), 0, 6) == Ok({6, 5 - FAR, 4, 3 - FAR, 2, 1 - FAR, 0})
  {
    hide FieldOf, LoopField, Write;
    var e := SpanEvery(6, 6, MAX_INT);
    StepReads(e, "", 0, 6);
    assert Write(e) + "" == Write(e);
    SevenValues();
  }

  lemma FirstOrSaturdayAccepted()
    ensures Accepted(FirstOrSaturdayParts(), JobOf(FirstOrSaturdayFields()))
  {
    hide LoopField, Write, FieldsOf, MatchStep, Stepped;
    var parts, fields := FirstOrSaturdayParts(), FirstOrSaturdayFields();
    ProperField(0, 59, 1);
    ProperField(0, 23, 1);
    ProperField(1, 12, 1);
    FirstReads();
    SaturdayReads();
    ParsedIff(parts, BOUNDS, fields);
  }

  /**
   The first of the month or Saturdays: the schedule is accepted, its weekday set has seven values, so
   the merge drops it, and the job stays silent on a Saturday the day rule names.
   */
  lemma LargestStepLosesWeekday()
    ensures exists j, t ::
              Accepted(FirstOrSaturdayParts(), j) && RealTick(t) && Promised(j, t) && !Fires(MergeDays(j), t)
  {
    hide Accepted, FirstOrSaturdayParts;
    FirstOrSaturdayAccepted();
    var j := JobOf(FirstOrSaturdayFields());
    assert j.day == {1} && j.dow == {6, 5 - FAR, 4, 3 - FAR, 2, 1 - FAR, 0};
    assert |j.dow| == 7;
    var t := Tick(0, 0, 0, 2, 1, 6);
    assert 2 !in j.day && 1 !in j.dow;
    assert OnStep(0, 1, 0) && OnStep(1, 1, 1);
    assert Promised(j, t) && !Fires(MergeDays(j), t);
  }
}
