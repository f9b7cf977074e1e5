/**
 One part of a cron schedule of pkg/gofr/cron_scheduler.go: from its text to a set of integers, with the
 64-bit arithmetic of the loop that fills a stepped field.
 */
module CronSchedule {
  import opened Options
  import opened Strings

  const MAX_INT := 0x7fff_ffff_ffff_ffff

  // ----- Go's int arithmetic and number parsing -----

  /** Addition of 64-bit signed integers. */
  function AddInt(a: int, b: int): int {
    var sum := a + b;
    if sum > MAX_INT then sum - 0x1_0000_0000_0000_0000 else sum
  }

  predicate IsDigit(c: char) { '0' <= c <= '9' }

  predicate AllDigits(s: string) { s != "" && forall k | 0 <= k < |s| :: IsDigit(s[k]) }

  function DigitsValue(s: string): nat
    requires forall k | 0 <= k < |s| :: IsDigit(s[k])
  {
    if s == "" then 0
    else
      assert IsDigit(s[|s| - 1]);
      10 * DigitsValue(s[..|s| - 1]) + (s[|s| - 1] as int - '0' as int)
  }

  /** strconv.Atoi on digits with its error ignored: too large a number comes back as the largest. */
  function Saturated(s: string): (n: nat)
    requires AllDigits(s)
    ensures n <= MAX_INT
  {
    if DigitsValue(s) > MAX_INT then MAX_INT else DigitsValue(s)
  }

  /** strconv.Atoi with its error checked. */
  function Atoi(s: string): Option<int> {
    var body := if s != "" && (s[0] == '+' || s[0] == '-') then s[1..] else s;
    if !AllDigits(body) then None
    else
      var v: int := if s[0] == '-' then -(DigitsValue(body) as int) else DigitsValue(body);
      if -MAX_INT - 1 <= v <= MAX_INT then Some(v) else None
  }

  // ----- The two patterns -----

  /** How many digits the text starts with. */
  function DigitRun(s: string): (n: nat)
    ensures n <= |s| && forall k | 0 <= k < n :: IsDigit(s[k])
    ensures n < |s| ==> !IsDigit(s[n])
  {
    if s == "" || !IsDigit(s[0]) then 0 else 1 + DigitRun(s[1..])
  }

  /** "^(digits)-(digits)$" */
  function MatchRange(s: string): (m: Option<(string, string)>)
    ensures m.Some? ==> AllDigits(m.value.0) && AllDigits(m.value.1) && s == m.value.0 + "-" + m.value.1
  {
    var n := DigitRun(s);
    if n > 0 && n < |s| && s[n] == '-' && AllDigits(s[n + 1..]) then Some((s[..n], s[n + 1..])) else None
  }

  /** The last '/' that a digit follows, at or before position k. */
  function LastSlash(s: string, k: nat): Option<nat>
    requires k <= |s|
  {
    if k == 0 then None
    else if s[k - 1] == '/' && k < |s| && IsDigit(s[k]) then Some(k - 1)
    else LastSlash(s, k - 1)
  }

  /** "(.*)/(digits)", searched greedily and anchored at neither end: what follows the digits is ignored. */
  function MatchStep(s: string): (m: Option<(string, string)>)
    ensures m.Some? ==> AllDigits(m.value.1) && m.value.0 + "/" + m.value.1 <= s
  {
    match LastSlash(s, |s|)
    case None => None
    case Some(i) =>
      LastSlashIsSlash(s, |s|);
      var rest := s[i + 1..];
      var n := DigitRun(rest);
      assert IsDigit(rest[0]);
      Some((s[..i], rest[..n]))
  }

  lemma {:induction false} LastSlashIsSlash(s: string, k: nat)
    requires k <= |s| && LastSlash(s, k).Some?
    ensures var i := LastSlash(s, k).value; i + 1 < |s| && s[i] == '/' && IsDigit(s[i + 1])
  {
    if !(s[k - 1] == '/' && k < |s| && IsDigit(s[k])) { LastSlashIsSlash(s, k - 1); }
  }

  // ----- getDefaultJobField -----

  /** The k-th value the loop variable takes. */
  function Visit(lo: int, step: nat, k: nat): int {
    if k == 0 then lo else AddInt(Visit(lo, step, k - 1), step)
  }

  ghost predicate Ends(lo: int, hi: int, step: nat) {
    exists k: nat :: Visit(lo, step, k) > hi
  }

  /** No value the loop reaches before it ends lies below its start. */
  ghost predicate StaysAbove(lo: int, hi: int, step: nat) {
    forall k: nat | (forall j: nat | j <= k :: Visit(lo, step, j) <= hi) :: Visit(lo, step, k) >= lo
  }

  /** The range is empty, or the step is positive and does not overflow at once. */
  predicate ProperStep(lo: int, hi: int, step: nat) {
    lo > hi || (step >= 1 && lo + step <= MAX_INT)
  }

  /** Climbing from lo in proper steps passes hi, never wrapping on the way. */
  lemma {:induction false} Climb(lo: int, hi: int, step: nat, k: nat) returns (n: nat)
    requires 0 <= lo <= hi < 0x1_0000 && 1 <= step && lo + step <= MAX_INT
    requires lo <= Visit(lo, step, k) && (k == 0 || Visit(lo, step, k) <= hi + step || Visit(lo, step, k) > hi)
    requires k > 0 ==> Visit(lo, step, k) >= lo + step
    ensures Visit(lo, step, n) > hi
    decreases hi - Visit(lo, step, k)
  {
    if Visit(lo, step, k) > hi {
      n := k;
    } else {
      assert Visit(lo, step, k + 1) == Visit(lo, step, k) + step;
      n := Climb(lo, hi, step, k + 1);
    }
  }

  lemma {:induction false} NeverBelow(lo: int, hi: int, step: nat, k: nat)
    requires 0 <= lo <= hi < 0x1_0000 && 1 <= step && lo + step <= MAX_INT
    requires forall j: nat | j <= k :: Visit(lo, step, j) <= hi
    ensures lo <= Visit(lo, step, k) && (k > 0 ==> lo + step <= Visit(lo, step, k))
  {
    if k > 0 { NeverBelow(lo, hi, step, k - 1); }
  }

  lemma {:induction false} StepZero(lo: int, k: nat)
    requires lo <= MAX_INT
    ensures Visit(lo, 0, k) == lo
  {
    if k > 0 { StepZero(lo, k - 1); }
  }

  /** How far below 2^63 a step lies; from lo >= Shortfall a step overflows. */
  function Shortfall(step: nat): int { MAX_INT + 1 - step }

  /**
   From x, an overflowing step of 2^63 - d goes to x - d - 2^63 and the next one back up to x - 2 * d;
   the loop ends by the one step that does not overflow.
   */
  lemma OverflowTwice(lo: int, hi: int, step: nat, k: nat)
    requires hi < 0x1_0000 && 1 <= Shortfall(step) < 0x1_0000 && -Shortfall(step) <= Visit(lo, step, k) < 0x1_0000
    ensures var x, d := Visit(lo, step, k), Shortfall(step);
            if x < d then Visit(lo, step, k + 1) > hi
            else Visit(lo, step, k + 1) < 0 && Visit(lo, step, k + 2) == x - 2 * d
  {
    assert Visit(lo, step, k + 1) == AddInt(Visit(lo, step, k), step);
    assert Visit(lo, step, k + 2) == AddInt(Visit(lo, step, k + 1), step);
  }

  lemma {:induction false} Fall(lo: int, hi: int, step: nat, k: nat) returns (n: nat)
    requires hi < 0x1_0000 && 1 <= Shortfall(step) < 0x1_0000 && -Shortfall(step) <= Visit(lo, step, k) < 0x1_0000
    ensures Visit(lo, step, n) > hi
    decreases Visit(lo, step, k) + Shortfall(step)
  {
    OverflowTwice(lo, hi, step, k);
    if Visit(lo, step, k) < Shortfall(step) {
      n := k + 1;
    } else {
      n := Fall(lo, hi, step, k + 2);
    }
  }

  /**
   Exactly when: the loop that fills a stepped field ends if and only if its range is empty or its step is
   not zero.
   */
  lemma EndsIff(lo: int, hi: int, step: nat)
    requires 0 <= lo && hi < 0x1_0000 && step <= MAX_INT
    ensures Ends(lo, hi, step) <==> lo > hi || step >= 1
  {
    if lo > hi {
      assert Visit(lo, step, 0) > hi;
    } else if step == 0 {
      forall k: nat ensures Visit(lo, step, k) <= hi { StepZero(lo, k); }
    } else if lo + step > MAX_INT {
      var n := Fall(lo, hi, step, 0);
    } else {
      var n := Climb(lo, hi, step, 0);
    }
  }

  /**
   Exactly when: the loop ends, and leaves no value below its range, if and only if the range is empty
   or the step is at least 1 and lo + step does not overflow.
   */
  lemma StepLoopIff(lo: int, hi: int, step: nat)
    requires 0 <= lo && hi < 0x1_0000 && step <= MAX_INT
    ensures Ends(lo, hi, step) && StaysAbove(lo, hi, step) <==> ProperStep(lo, hi, step)
  {
    EndsIff(lo, hi, step);
    if lo <= hi && step >= 1 && lo + step > MAX_INT {
      assert Visit(lo, step, 0) == lo && Visit(lo, step, 1) < 0;
      assert forall j: nat | j <= 1 :: Visit(lo, step, j) <= hi;
    } else if ProperStep(lo, hi, step) {
      forall k: nat | forall j: nat | j <= k :: Visit(lo, step, j) <= hi ensures Visit(lo, step, k) >= lo {
        assert Visit(lo, step, 0) <= hi;
        NeverBelow(lo, hi, step, k);
      }
    }
  }

  /** A step of zero does not end, and a step of the largest integer from 1 reaches values below the range. */
  lemma BadSteps()
    ensures !Ends(0, 59, 0) && !StaysAbove(1, 31, MAX_INT)
  {
    EndsIff(0, 59, 0);
    assert Visit(1, MAX_INT, 0) == 1 && Visit(1, MAX_INT, 1) < 0;
    assert forall j: nat | j <= 1 :: Visit(1, MAX_INT, j) <= 31;
  }

  /** The pass at which the loop ends: the first whose value lies above hi. */
  ghost predicate EndsAt(lo: int, hi: int, step: nat, n: nat) {
    Visit(lo, step, n) > hi && forall j: nat | j < n :: Visit(lo, step, j) <= hi
  }

  lemma {:induction false} EndsAtSome(lo: int, hi: int, step: nat, n: nat) returns (m: nat)
    requires Visit(lo, step, n) > hi
    ensures EndsAt(lo, hi, step, m)
    decreases n
  {
    if k: nat :| k < n && Visit(lo, step, k) > hi {
      m := EndsAtSome(lo, hi, step, k);
    } else {
      m := n;
    }
  }

  /** What parsing one part comes to: a set, an error, or a loop that never returns. */
  datatype Outcome = Ok(field: set<int>) | Rejected | Diverges

  function Visited(lo: int, step: nat, n: nat): set<int> { set k: nat | k < n :: Visit(lo, step, k) }

  /** What getDefaultJobField comes to. */
  ghost function LoopField(lo: int, hi: int, step: nat): Outcome {
    if !Ends(lo, hi, step) then Diverges
    else
      var n: nat :| Visit(lo, step, n) > hi;
      LeastPass(lo, hi, step, n);
      var m: nat :| EndsAt(lo, hi, step, m);
      Ok(Visited(lo, step, m))
  }

  lemma LeastPass(lo: int, hi: int, step: nat, n: nat)
    requires Visit(lo, step, n) > hi
    ensures exists m: nat :: EndsAt(lo, hi, step, m)
  {
    var m := EndsAtSome(lo, hi, step, n);
  }

  lemma LoopFieldAt(lo: int, hi: int, step: nat, n: nat)
    requires EndsAt(lo, hi, step, n)
    ensures LoopField(lo, hi, step) == Ok(Visited(lo, step, n))
  {
    assert forall m: nat | EndsAt(lo, hi, step, m) :: m == n;
  }

  // ----- Fields -----

  predicate InBounds(f: set<int>, lo: int, hi: int) { forall i | i in f :: lo <= i <= hi }

  predicate Within(lo: int, hi: int, i: int) { lo <= i <= hi }

  /** i is lo plus a whole number of steps. */
  predicate OnStep(lo: int, step: nat, i: int) { step >= 1 && (i - lo) % step == 0 }

  function Between(lo: int, hi: int): set<int> { set i | lo <= i <= hi && Within(lo, hi, i) }

  /** Every step-th value from lo up to hi. */
  function Stepped(lo: int, hi: int, step: nat): set<int> {
    set i | lo <= i <= hi && OnStep(lo, step, i)
  }

  lemma Gap(d: int, step: nat)
    requires step >= 1
    ensures !(0 < d * step < step)
  {
    if d >= 1 {
      assert d * step >= step;
    } else {
      assert d * step <= 0;
    }
  }

  lemma NextOnStep(lo: int, step: nat, i: int)
    requires lo <= i && OnStep(lo, step, i)
    ensures OnStep(lo, step, i + step)
    ensures forall v | i < v < i + step :: !OnStep(lo, step, v)
  {
    var q := (i - lo) / step;
    assert i - lo == q * step;
    forall v | i < v < i + step ensures !OnStep(lo, step, v) {
      if OnStep(lo, step, v) {
        var p := (v - lo) / step;
        assert v - i == (p - q) * step;
        Gap(p - q, step);
      }
    }
    assert i + step - lo == (q + 1) * step;
    Multiple(q + 1, step);
  }

  lemma Multiple(q: int, step: nat)
    requires step >= 1
    ensures (q * step) % step == 0
  {
    var d := q * step / step;
    var r := q * step % step;
    assert r == (q - d) * step;
    Gap(q - d, step);
  }

  /** Whatever the step, if the loop ends it leaves the values it visited: see ProperField and OverflowField. */
  method GetDefaultJobField(lo: int, hi: int, step: nat) returns (r: set<int>)
    requires 0 <= lo && hi < 0x1_0000 && step <= MAX_INT && (lo > hi || step >= 1)
    ensures LoopField(lo, hi, step) == Ok(r)
  {
    EndsIff(lo, hi, step);
    ghost var n: nat :| Visit(lo, step, n) > hi;
    LeastPass(lo, hi, step, n);
    ghost var m: nat :| EndsAt(lo, hi, step, m);
    r := {};
    var i := lo;
    ghost var k: nat := 0;
    while i <= hi
      invariant k <= m && i == Visit(lo, step, k) && r == Visited(lo, step, k)
      decreases m - k
    {
      assert Visited(lo, step, k + 1) == Visited(lo, step, k) + {i};
      r := r + {i};
      i := AddInt(i, step);
      k := k + 1;
    }
    LoopFieldAt(lo, hi, step, k);
  }

  lemma {:induction false} ClimbVisits(lo: int, hi: int, step: nat, k: nat)
    requires 0 <= lo && hi < 0x1_0000 && 1 <= step && lo + step <= MAX_INT
    requires forall j: nat | j < k :: Visit(lo, step, j) <= hi
    ensures lo <= Visit(lo, step, k) && OnStep(lo, step, Visit(lo, step, k))
    ensures k > 0 ==> lo + step <= Visit(lo, step, k) == Visit(lo, step, k - 1) + step
    ensures Visited(lo, step, k) == set v | lo <= v < Visit(lo, step, k) && OnStep(lo, step, v)
  {
    if k > 0 {
      ClimbVisits(lo, hi, step, k - 1);
      var x := Visit(lo, step, k - 1);
      assert k > 1 ==> step <= hi;
      NextOnStep(lo, step, x);
      assert Visited(lo, step, k) == Visited(lo, step, k - 1) + {x};
    }
  }

  /** With a proper step the loop leaves exactly the values a whole number of steps from the start. */
  lemma ProperField(lo: int, hi: int, step: nat)
    requires 0 <= lo && hi < 0x1_0000 && step <= MAX_INT && ProperStep(lo, hi, step)
    ensures LoopField(lo, hi, step) == Ok(Stepped(lo, hi, step))
  {
    EndsIff(lo, hi, step);
    var n: nat :| Visit(lo, step, n) > hi;
    var m := EndsAtSome(lo, hi, step, n);
    LoopFieldAt(lo, hi, step, m);
    if lo > hi {
      assert Visit(lo, step, 0) > hi && m == 0;
    } else {
      ClimbVisits(lo, hi, step, m);
      ClimbVisits(lo, hi, step, m - 1);
      CutAbove(lo, hi, step, Visit(lo, step, m - 1));
    }
  }

  lemma CutAbove(lo: int, hi: int, step: nat, x: int)
    requires lo <= x <= hi < x + step && OnStep(lo, step, x)
    ensures Stepped(lo, hi, step) == set v | lo <= v < x + step && OnStep(lo, step, v)
  {
    NextOnStep(lo, step, x);
  }

  /**
   With an overflowing step the loop walks down instead of up: it leaves negative values, and of the
   others exactly those that lie a whole number of double shortfalls below the start.
   */
  lemma OverflowField(lo: int, hi: int, step: nat)
    requires 0 <= lo <= hi < 0x1_0000 && step <= MAX_INT && lo + step > MAX_INT
    ensures LoopField(lo, hi, step).Ok? && !InBounds(LoopField(lo, hi, step).field, 0, hi)
    ensures forall i | i >= 0 :: i in LoopField(lo, hi, step).field <==> i <= lo && OnStep(i, 2 * Shortfall(step), lo)
  {
    EndsIff(lo, hi, step);
    var n: nat :| Visit(lo, step, n) > hi;
    var m := EndsAtSome(lo, hi, step, n);
    LoopFieldAt(lo, hi, step, m);
    OverflowTwice(lo, hi, step, 0);
    assert Visit(lo, step, 0) <= hi && Visit(lo, step, 1) < 0;
    assert Visit(lo, step, 1) in Visited(lo, step, m);
    forall i | i >= 0 ensures i in Visited(lo, step, m) <==> i <= lo && OnStep(i, 2 * Shortfall(step), lo) {
      FallVisits(lo, hi, step, 0, m, i);
      VisitedIff(lo, step, m, i);
    }
  }

  lemma VisitedIff(lo: int, step: nat, m: nat, i: int)
    ensures i in Visited(lo, step, m) <==> exists j: nat | 0 <= j < m :: Visit(lo, step, j) == i
  {
    if j: nat :| 0 <= j < m && Visit(lo, step, j) == i { assert Visit(lo, step, j) in Visited(lo, step, m); }
    if i in Visited(lo, step, m) {
      var j: nat :| j < m && Visit(lo, step, j) == i;
      assert 0 <= j < m;
    }
  }

  lemma {:induction false} FallVisits(lo: int, hi: int, step: nat, k: nat, m: nat, i: nat)
    requires hi < 0x1_0000 && 1 <= Shortfall(step) < 0x1_0000 && -Shortfall(step) <= Visit(lo, step, k) <= hi
    requires k < m && EndsAt(lo, hi, step, m)
    ensures (exists j: nat | k <= j < m :: Visit(lo, step, j) == i)
       <==> i <= Visit(lo, step, k) && OnStep(i, 2 * Shortfall(step), Visit(lo, step, k))
    decreases Visit(lo, step, k) + Shortfall(step)
  {
    OverflowTwice(lo, hi, step, k);
    var x, d := Visit(lo, step, k), Shortfall(step);
    if x < d {
      assert m == k + 1;
      if i <= x { SmallOnStep(i, 2 * d, x); }
    } else {
      assert m > k + 2;
      FallVisits(lo, hi, step, k + 2, m, i);
      if i <= x { DownOnStep(i, 2 * d, x); }
    }
  }

  lemma SmallOnStep(i: int, step: nat, x: int)
    requires i <= x < i + step
    ensures OnStep(i, step, x) <==> x == i
  {
  }

  lemma DownOnStep(i: int, step: nat, x: int)
    requires i <= x && step >= 1
    ensures OnStep(i, step, x) <==> x == i || (i <= x - step && OnStep(i, step, x - step))
  {
    if x < i + step {
      SmallOnStep(i, step, x);
    } else if OnStep(i, step, x) {
      var q := (x - i) / step;
      assert x - step - i == (q - 1) * step;
      Multiple(q - 1, step);
    } else if OnStep(i, step, x - step) {
      NextOnStep(i, step, x - step);
    }
  }

  /** parseSteps' range: the whole field for "" and "*", otherwise an explicit range inside it. */
  function StepRange(text: string, lo: int, hi: int): Option<(int, int)> {
    if text == "" || text == "*" then Some((lo, hi))
    else
      match MatchRange(text)
      case None => None
      case Some((a, b)) => if Saturated(a) < lo || Saturated(b) > hi then None else Some((Saturated(a), Saturated(b)))
  }

  function ItemField(part: string, lo: int, hi: int): Outcome {
    match MatchRange(part)
    case Some((a, b)) =>
      if Saturated(a) < lo || Saturated(b) > hi then Rejected else Ok(Between(Saturated(a), Saturated(b)))
    case None =>
      match Atoi(part)
      case None => Rejected
      case Some(i) => if i < lo || i > hi then Rejected else Ok({i})
  }

  function ItemsField(parts: seq<string>, lo: int, hi: int): Outcome {
    if parts == [] then Ok({})
    else
      match (ItemsField(parts[..|parts| - 1], lo, hi), ItemField(parts[|parts| - 1], lo, hi))
      case (Ok(f), Ok(g)) => Ok(f + g)
      case _ => Rejected
  }

  /** parsePart. */
  ghost function FieldOf(s: string, lo: int, hi: int): Outcome {
    if s == "*" then LoopField(lo, hi, 1)
    else
      match MatchStep(s)
      case Some((range, step)) => (
        match StepRange(range, lo, hi)
        case None => Rejected
        case Some((a, b)) => LoopField(a, b, Saturated(step))
      )
      case None =>
        var items := ItemsField(Split(s, ','), lo, hi);
        if items == Ok({}) then Rejected else items
  }

  /** The loop of a stepped part that gets as far as its loop: its range and its step. */
  function StepLoop(s: string, lo: int, hi: int): (loop: Option<(int, int, nat)>)
    requires 0 <= lo
    ensures loop.Some? ==> lo <= loop.value.0 && loop.value.1 <= hi && loop.value.2 <= MAX_INT
  {
    if s == "*" || MatchStep(s).None? then None
    else
      match StepRange(MatchStep(s).value.0, lo, hi)
      case None => None
      case Some((a, b)) => Some((a, b, Saturated(MatchStep(s).value.1)))
  }

  /** The part has no step, or one with which its loop stays inside its range (see StepLoopIff). */
  predicate StepsProper(s: string, lo: int, hi: int)
    requires 0 <= lo
  {
    StepLoop(s, lo, hi).Some? ==> var (a, b, step) := StepLoop(s, lo, hi).value; ProperStep(a, b, step)
  }

  /** A step of zero over a range that is not empty. */
  predicate ZeroStep(s: string, lo: int, hi: int)
    requires 0 <= lo
  {
    StepLoop(s, lo, hi).Some? && var (a, b, step) := StepLoop(s, lo, hi).value; a <= b && step == 0
  }

  /** parseSingleOrRange, adding to the field built so far. */
  method ParseSingleOrRange(part: string, lo: int, hi: int, r: set<int>) returns (ok: bool, r': set<int>)
    requires 0 <= lo && hi < 0x1_0000
    ensures ok <==> ItemField(part, lo, hi).Ok?
    ensures ok ==> r' == r + ItemField(part, lo, hi).field
  {
    r' := r;
    match MatchRange(part)
    case Some((a, b)) =>
      var localMin, localMax := Saturated(a), Saturated(b);
      if localMin < lo || localMax > hi {
        return false, r;
      }
      var i := localMin;
      while i <= localMax
        invariant localMin <= i && r' == r + set v | localMin <= v <= localMax && v < i && Within(localMin, localMax, v)
        decreases localMax + 1 - i
      {
        assert Within(localMin, localMax, i);
        r' := r' + {i};
        i := i + 1;
      }
      ok := true;
    case None =>
      match Atoi(part)
      case None => return false, r;
      case Some(i) =>
        if i < lo || i > hi {
          return false, r;
        }
        return true, r + {i};
  }

  method ParsePart(s: string, lo: int, hi: int) returns (out: Outcome)
    requires 0 <= lo && hi < 0x1_0000 && !ZeroStep(s, lo, hi)
    ensures out == FieldOf(s, lo, hi)
  {
    if s == "*" {
      var field := GetDefaultJobField(lo, hi, 1);
      return Ok(field);
    }
    match MatchStep(s)
    case Some((range, step)) =>
      match StepRange(range, lo, hi) {
        case None => return Rejected;
        case Some((a, b)) =>
          var field := GetDefaultJobField(a, b, Saturated(step));
          return Ok(field);
      }
    case None =>
      var parts := Split(s, ',');
      var r: set<int> := {};
      for i := 0 to |parts|
        invariant ItemsField(parts[..i], lo, hi) == Ok(r)
      {
        assert parts[..i + 1][..i] == parts[..i];
        var ok, more := ParseSingleOrRange(parts[i], lo, hi, r);
        if !ok {
          RejectedStays(parts, i + 1, lo, hi);
          return Rejected;
        }
        r := more;
      }
      assert parts[..|parts|] == parts;
      return if r == {} then Rejected else Ok(r);
  }

  lemma {:induction false} RejectedStays(parts: seq<string>, n: nat, lo: int, hi: int)
    requires n <= |parts| && ItemsField(parts[..n], lo, hi).Rejected?
    ensures ItemsField(parts, lo, hi).Rejected?
    decreases |parts|
  {
    if n == |parts| {
      assert parts[..n] == parts;
    } else {
      assert parts[..|parts| - 1][..n] == parts[..n];
      RejectedStays(parts[..|parts| - 1], n, lo, hi);
    }
  }

  /** Parsing a part hangs exactly on a step of zero over a range that is not empty. */
  lemma HangsIff(s: string, lo: int, hi: int)
    requires 0 <= lo && hi < 0x1_0000
    ensures FieldOf(s, lo, hi).Diverges? <==> ZeroStep(s, lo, hi)
  {
    EndsIff(lo, hi, 1);
    if StepLoop(s, lo, hi).Some? {
      var (a, b, step) := StepLoop(s, lo, hi).value;
      EndsIff(a, b, step);
    } else if s != "*" && MatchStep(s).None? {
      ItemsReturn(Split(s, ','), lo, hi);
    }
  }

  lemma {:induction false} ItemsReturn(parts: seq<string>, lo: int, hi: int)
    ensures !ItemsField(parts, lo, hi).Diverges?
  {
    if parts != [] { ItemsReturn(parts[..|parts| - 1], lo, hi); }
  }

  lemma {:induction false} ItemsInBounds(parts: seq<string>, lo: int, hi: int)
    requires ItemsField(parts, lo, hi).Ok?
    ensures InBounds(ItemsField(parts, lo, hi).field, lo, hi)
  {
    if parts != [] { ItemsInBounds(parts[..|parts| - 1], lo, hi); }
  }

  /** An accepted part stays inside its field if and only if its step is proper. */
  lemma FieldInBounds(s: string, lo: int, hi: int)
    requires 0 <= lo && hi < 0x1_0000 && FieldOf(s, lo, hi).Ok?
    ensures InBounds(FieldOf(s, lo, hi).field, lo, hi) <==> StepsProper(s, lo, hi)
  {
    HangsIff(s, lo, hi);
    if StepLoop(s, lo, hi).Some? {
      var (a, b, step) := StepLoop(s, lo, hi).value;
      if ProperStep(a, b, step) { ProperField(a, b, step); } else { OverflowField(a, b, step); }
    } else if s == "*" {
      ProperField(lo, hi, 1);
    } else {
      ItemsInBounds(Split(s, ','), lo, hi);
    }
  }

  /** An accepted part that names anything names a value of its field, whatever its step. */
  lemma FieldHasReal(s: string, lo: int, hi: int)
    requires 0 <= lo && hi < 0x1_0000 && FieldOf(s, lo, hi).Ok? && FieldOf(s, lo, hi).field != {}
    ensures exists i | lo <= i <= hi :: i in FieldOf(s, lo, hi).field
  {
    HangsIff(s, lo, hi);
    FieldInBounds(s, lo, hi);
    if !StepsProper(s, lo, hi) {
      var (a, b, step) := StepLoop(s, lo, hi).value;
      OverflowField(a, b, step);
      assert OnStep(a, 2 * Shortfall(step), a);
    }
  }
}
