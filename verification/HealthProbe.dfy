/**
 The health endpoint of pkg/gofr/container: TTL cache, singleflight, round claim, timeout and checks
 that outlive their round, as interleaved steps; then the properties every run keeps.
 */
module HealthProbe {
  import opened Options

  type CheckId = nat

  /** One round of checks with its collector. verdicts holds what has been recorded: true means down. */
  datatype Round = Round(
    checks: set<CheckId>,
    live: set<CheckId>,             // goroutines that have not returned
    verdicts: map<CheckId, bool>,
    down: nat,
    abandoned: bool,                // the leader left at the timeout
    ended: bool                     // endRound has been called for it
  )

  /** A health body: the round it was taken from, if any, and the down count it was built with. */
  datatype Report = Report(round: Option<nat>, complete: bool, down: nat)

  predicate IsUp(rep: Report) { rep.down == 0 }

  /** Where the singleflight's leader stands. */
  datatype Leader =
    | Looking
    | Claiming
    | Waiting(r: nat)
    | Joined(r: nat)                       // every check returned; endRound is next
    | Snapshotting(r: nat, complete: bool)
    | Storing(rep: Report)
    | Returning(rep: Report, lookup: Option<Lookup>)

  /** A look into the cache that found a report: when the report was stored and when the look was taken. */
  datatype Lookup = Lookup(storedAt: int, at: int)

  /** An answer and when it was given to a caller; lookup is set when it came from the cache. */
  datatype Answer = Answer(rep: Report, lookup: Option<Lookup>, given: int)

  datatype State = State(
    clock: int,
    ttl: nat,
    timeout: nat,
    running: bool,
    cache: Option<(Report, int)>,
    rounds: seq<Round>,
    missed: nat,                    // callers between their own look at the cache and the singleflight
    leader: Option<Leader>,
    joined: nat,                    // callers waiting on the leader
    answers: seq<Answer>
  )

  datatype Step =
    | Tick(d: nat)
    | Hit                                  // a caller is served from the cache
    | Miss                                 // a caller looks and finds nothing to serve
    | Enter                                // it enters the singleflight: as the leader, or joining one
    | LookAgain                            // the leader's own cache check
    | Claim(checks: set<CheckId>)          // beginRound
    | Finish                               // wg.Wait returned first
    | TimeOut                              // the deadline came first
    | EndRound                             // the leader's release of a complete round
    | LateEnd(r: nat)                      // the abandoned round's own release
    | Snapshot
    | Store
    | Return                               // the leader and everyone waiting on it get the report
    | Record(r: nat, k: CheckId, down: bool)
    | Done(r: nat, k: CheckId)
    | Clear

  /** healthProbe.get. */
  function Get(s: State): Option<Report> {
    if s.ttl == 0 || s.cache.None? || s.clock - s.cache.value.1 > s.ttl then None else Some(s.cache.value.0)
  }

  predicate Enabled(s: State, step: Step) {
    match step
    case Tick(_) => true
    case Hit => Get(s).Some?
    case Miss => Get(s).None?
    case Enter => s.missed > 0
    case LookAgain => s.leader == Some(Looking)
    case Claim(_) => s.leader == Some(Claiming)
    case Finish =>
      && s.leader.Some? && s.leader.value.Waiting? && s.leader.value.r < |s.rounds|
      && s.rounds[s.leader.value.r].live == {}
    case TimeOut => s.leader.Some? && s.leader.value.Waiting? && s.leader.value.r < |s.rounds| && s.timeout > 0
    case EndRound => s.leader.Some? && s.leader.value.Joined? && s.leader.value.r < |s.rounds|
    case LateEnd(r) => r < |s.rounds| && s.rounds[r].abandoned && !s.rounds[r].ended && s.rounds[r].live == {}
    case Snapshot => s.leader.Some? && s.leader.value.Snapshotting? && s.leader.value.r < |s.rounds|
    case Store => s.leader.Some? && s.leader.value.Storing?
    case Return => s.leader.Some? && s.leader.value.Returning?
    case Record(r, k, _) => r < |s.rounds| && k in s.rounds[r].live && k !in s.rounds[r].verdicts
    case Done(r, k) => r < |s.rounds| && k in s.rounds[r].live && k in s.rounds[r].verdicts
    case Clear => true
  }

  function SetRound(s: State, r: nat, round: Round): State
    requires r < |s.rounds|
  {
    s.(rounds := s.rounds[r := round])
  }

  /** stalledHealth: an aggregate with one failure and no backend in it. */
  const STALLED := Report(None, false, 1)

  function Apply(s: State, step: Step): State
    requires Enabled(s, step)
  {
    match step
    case Tick(d) => s.(clock := s.clock + d)
    case Hit => s.(answers := s.answers + [Answer(Get(s).value, Some(Lookup(s.cache.value.1, s.clock)), s.clock)])
    case Miss => s.(missed := s.missed + 1)
    case Enter =>
      if s.leader.None? then s.(missed := s.missed - 1, leader := Some(Looking))
      else s.(missed := s.missed - 1, joined := s.joined + 1)
    case LookAgain =>
      if Get(s).None? then s.(leader := Some(Claiming))
      else s.(leader := Some(Returning(Get(s).value, Some(Lookup(s.cache.value.1, s.clock)))))
    case Claim(checks) =>
      if s.running then s.(leader := Some(Returning(STALLED, None)))
      else s.(running := true, leader := Some(Waiting(|s.rounds|)),
              rounds := s.rounds + [Round(checks, checks, map[], 0, false, false)])
    case Finish => s.(leader := Some(Joined(s.leader.value.r)))
    case TimeOut =>
      var r := s.leader.value.r;
      SetRound(s, r, s.rounds[r].(abandoned := true)).(leader := Some(Snapshotting(r, false)))
    case EndRound =>
      var r := s.leader.value.r;
      SetRound(s, r, s.rounds[r].(ended := true)).(running := false, leader := Some(Snapshotting(r, true)))
    case LateEnd(r) => SetRound(s, r, s.rounds[r].(ended := true)).(running := false)
    case Snapshot =>
      var r, complete := s.leader.value.r, s.leader.value.complete;
      var down := s.rounds[r].down + if complete then 0 else 1;
      var rep := Report(Some(r), complete, down);
      s.(leader := Some(if complete then Storing(rep) else Returning(rep, None)))
    case Store =>
      var rep := s.leader.value.rep;
      s.(leader := Some(Returning(rep, None)), cache := if s.ttl == 0 then s.cache else Some((rep, s.clock)))
    case Return =>
      var answer := Answer(s.leader.value.rep, s.leader.value.lookup, s.clock);
      s.(leader := None, joined := 0, answers := s.answers + seq(1 + s.joined, _ => answer))
    case Record(r, k, down) =>
      var round := s.rounds[r];
      SetRound(s, r, round.(verdicts := round.verdicts[k := down], down := round.down + if down then 1 else 0))
    case Done(r, k) => SetRound(s, r, s.rounds[r].(live := s.rounds[r].live - {k}))
    case Clear => s.(cache := None)
  }

  // ----- What every state keeps -----

  /** A round's collector: what is recorded is counted, and a check returns only after recording. */
  predicate RoundInv(round: Round) {
    && round.live <= round.checks
    && (forall k | k in round.checks && k !in round.live :: k in round.verdicts)
    && (round.down > 0 <==> SomeDown(round.verdicts))
    && (round.ended ==> round.live == {})
  }

  /** Every check of round r has returned, having recorded. */
  predicate Finished(s: State, r: nat) {
    r < |s.rounds| && s.rounds[r].live == {} && forall k | k in s.rounds[r].checks :: k in s.rounds[r].verdicts
  }

  predicate SomeDown(verdicts: map<CheckId, bool>) { exists k | k in verdicts :: verdicts[k] }

  /**
   A complete report is of a finished round and says UP exactly when none of its checks was down; any other
   is not UP.
   */
  predicate Sound(s: State, rep: Report) {
    if rep.complete then
      rep.round.Some? && Finished(s, rep.round.value) && (IsUp(rep) <==> !SomeDown(s.rounds[rep.round.value].verdicts))
    else !IsUp(rep)
  }

  /** The report is of a complete round and was within its TTL when it was looked up, no later than now. */
  predicate Cached(s: State, rep: Report, lookup: Lookup, now: int) {
    rep.complete && 0 <= lookup.at - lookup.storedAt <= s.ttl && lookup.at <= now
  }

  predicate LeaderInv(s: State, l: Leader) {
    match l
    case Waiting(r) => r == |s.rounds| - 1 && !s.rounds[r].ended && !s.rounds[r].abandoned
    case Joined(r) => r == |s.rounds| - 1 && !s.rounds[r].ended && !s.rounds[r].abandoned && s.rounds[r].live == {}
    case Snapshotting(r, complete) => r < |s.rounds| && (complete ==> s.rounds[r].live == {})
    case Storing(rep) => rep.complete && Sound(s, rep)
    case Returning(rep, lookup) => Sound(s, rep) && (lookup.Some? ==> Cached(s, rep, lookup.value, s.clock))
    case _ => true
  }

  /** Only the newest round can be unfinished, and running says exactly whether it is. */
  predicate RoundsInv(s: State) {
    && (forall r | 0 <= r < |s.rounds| :: RoundInv(s.rounds[r]))
    && (forall r | 0 <= r < |s.rounds| - 1 :: s.rounds[r].ended)
    && (s.running <==> s.rounds != [] && !s.rounds[|s.rounds| - 1].ended)
  }

  /** An unreleased claim has someone who will release it: the leader, or the abandoned round's waiter. */
  predicate ClaimInv(s: State) {
    s.running && s.rounds != [] ==>
      || s.rounds[|s.rounds| - 1].abandoned
      || s.leader == Some(Waiting(|s.rounds| - 1))
      || s.leader == Some(Joined(|s.rounds| - 1))
  }

  predicate CacheInv(s: State) {
    s.cache.Some? ==>
      s.cache.value.0.complete && Sound(s, s.cache.value.0) && s.cache.value.1 <= s.clock && s.ttl > 0
  }

  predicate AnswersInv(s: State) {
    forall k | 0 <= k < |s.answers| ::
      && Sound(s, s.answers[k].rep)
      && (s.answers[k].lookup.Some? ==> Cached(s, s.answers[k].rep, s.answers[k].lookup.value, s.answers[k].given))
  }

  predicate Inv(s: State) {
    && RoundsInv(s) && ClaimInv(s)
    && (s.leader.Some? ==> LeaderInv(s, s.leader.value))
    && CacheInv(s) && AnswersInv(s)
  }

  predicate Init(s: State) {
    !s.running && s.cache.None? && s.rounds == [] && s.missed == 0 && s.leader.None? && s.joined == 0 && s.answers == []
  }

  /** A check's one record keeps the count honest. */
  lemma RecordKeeps(round: Round, k: CheckId, down: bool)
    requires RoundInv(round) && k in round.live && k !in round.verdicts
    ensures RoundInv(round.(verdicts := round.verdicts[k := down], down := round.down + if down then 1 else 0))
  {
    var next := round.(verdicts := round.verdicts[k := down], down := round.down + if down then 1 else 0);
    if SomeDown(round.verdicts) {
      var j :| j in round.verdicts && round.verdicts[j];
      assert next.verdicts[j];
    }
    if down {
      assert next.verdicts[k];
    } else if SomeDown(next.verdicts) {
      var j :| j in next.verdicts && next.verdicts[j];
      assert round.verdicts[j];
    }
  }

  lemma FreshRound(checks: set<CheckId>)
    ensures RoundInv(Round(checks, checks, map[], 0, false, false))
  {
  }

  lemma RoundsInvStep(s: State, step: Step)
    requires Inv(s) && Enabled(s, step)
    ensures RoundsInv(Apply(s, step))
  {
    hide SomeDown, AnswersInv, Sound, Get, Cached, ClaimInv;
    if step.Record? { RecordKeeps(s.rounds[step.r], step.k, step.down); }
    if step.Claim? { FreshRound(step.checks); }
  }

  lemma ClaimInvStep(s: State, step: Step)
    requires Inv(s) && Enabled(s, step)
    ensures ClaimInv(Apply(s, step))
  {
    hide RoundInv, AnswersInv, Sound, Get, Cached;
  }

  /** A finished round is never written again, so a report about it stays true. */
  lemma SoundStep(s: State, step: Step, rep: Report)
    requires Inv(s) && Enabled(s, step) && Sound(s, rep)
    ensures Sound(Apply(s, step), rep)
  {
  }

  lemma LeaderInvStep(s: State, step: Step)
    requires Inv(s) && Enabled(s, step)
    ensures Apply(s, step).leader.Some? ==> LeaderInv(Apply(s, step), Apply(s, step).leader.value)
  {
    if s.leader.Some? && (s.leader.value.Returning? || s.leader.value.Storing?) {
      hide Sound, RoundsInv, AnswersInv, ClaimInv;
      SoundStep(s, step, s.leader.value.rep);
    } else {
      EarlyStep(s, step);
    }
  }

  /** The leader before it has a report, up to the step that gives it one. */
  lemma EarlyStep(s: State, step: Step)
    requires Inv(s) && Enabled(s, step)
    requires !(s.leader.Some? && (s.leader.value.Returning? || s.leader.value.Storing?))
    ensures Apply(s, step).leader.Some? ==> LeaderInv(Apply(s, step), Apply(s, step).leader.value)
  {
    hide AnswersInv, SomeDown, ClaimInv;
  }

  lemma CacheInvStep(s: State, step: Step)
    requires Inv(s) && Enabled(s, step)
    ensures CacheInv(Apply(s, step))
  {
    hide Sound, RoundsInv, ClaimInv, AnswersInv;
    if s.cache.Some? { SoundStep(s, step, s.cache.value.0); }
    if step.Store? { SoundStep(s, step, s.leader.value.rep); }
  }

  lemma AnswersInvStep(s: State, step: Step)
    requires Inv(s) && Enabled(s, step)
    ensures AnswersInv(Apply(s, step))
  {
    hide Sound, RoundsInv, ClaimInv;
    if step.Hit? { SoundStep(s, step, s.cache.value.0); }
    if step.Return? { SoundStep(s, step, s.leader.value.rep); }
    forall k | 0 <= k < |s.answers| ensures Sound(Apply(s, step), s.answers[k].rep) {
      SoundStep(s, step, s.answers[k].rep);
    }
  }

  lemma InvStep(s: State, step: Step)
    requires Inv(s) && Enabled(s, step)
    ensures Inv(Apply(s, step))
  {
    hide Apply, RoundsInv, ClaimInv, LeaderInv, CacheInv, AnswersInv;
    RoundsInvStep(s, step);
    ClaimInvStep(s, step);
    LeaderInvStep(s, step);
    CacheInvStep(s, step);
    AnswersInvStep(s, step);
  }

  ghost predicate Run(s: State, steps: seq<Step>)
    decreases |steps|
  {
    steps != [] ==> Enabled(s, steps[0]) && Run(Apply(s, steps[0]), steps[1..])
  }

  ghost function End(s: State, steps: seq<Step>): State
    requires Run(s, steps)
    decreases |steps|
  {
    if steps == [] then s else End(Apply(s, steps[0]), steps[1..])
  }

  lemma {:induction false} InvRun(s: State, steps: seq<Step>)
    requires Inv(s) && Run(s, steps)
    ensures Inv(End(s, steps))
    decreases |steps|
  {
    if steps != [] {
      InvStep(s, steps[0]);
      InvRun(Apply(s, steps[0]), steps[1..]);
    }
  }

  // ----- The guarantees -----

  /** At most one round has checks outstanding, running is set while one does, and no round starts meanwhile. */
  lemma OneRoundOutstanding(s: State, steps: seq<Step>, x: nat, y: nat)
    requires Init(s) && Run(s, steps) && x < |End(s, steps).rounds| && y < |End(s, steps).rounds|
    ensures var e := End(s, steps);
            && (e.rounds[x].live != {} && e.rounds[y].live != {} ==> x == y)
            && (e.rounds[x].live != {} ==> e.running)
            && (e.rounds[x].live != {} ==>
              forall checks | Enabled(e, Claim(checks)) :: Apply(e, Claim(checks)).rounds == e.rounds)
  {
    InvRun(s, steps);
    var e := End(s, steps);
    assert RoundInv(e.rounds[x]) && RoundInv(e.rounds[y]);
  }

  /**
   In every run: an answer from a complete round says UP if and only if no check of that round was
   down, an answer from anything less never says UP, and an answer from the cache is of a complete
   round and was within its TTL when it was looked up.
   */
  lemma AnswersSound(s: State, steps: seq<Step>, k: nat)
    requires Init(s) && Run(s, steps) && k < |End(s, steps).answers|
    ensures var e := End(s, steps);
            var answer := e.answers[k];
            && Sound(e, answer.rep)
            && (answer.lookup.Some? ==>
                  var (storedAt, at) := (answer.lookup.value.storedAt, answer.lookup.value.at);
                  answer.rep.complete && storedAt <= at <= answer.given && at - storedAt <= e.ttl)
  {
    InvRun(s, steps);
  }

  predicate WithinTTL(s: State, answer: Answer) {
    answer.lookup.Some? ==> answer.given - answer.lookup.value.storedAt <= s.ttl
  }

  /** The time that passes in a schedule. */
  function Elapsed(steps: seq<Step>): nat {
    if steps == [] then 0 else (if steps[0].Tick? then steps[0].d else 0) + Elapsed(steps[1..])
  }

  /** Until it returns, a leader that found a report holds on to it, whatever else happens. */
  lemma {:induction false} HoldsReport(s: State, more: seq<Step>)
    requires s.leader.Some? && s.leader.value.Returning? && Run(s, more) && Return !in more
    ensures var e := End(s, more); e.leader == s.leader && e.ttl == s.ttl && e.clock == s.clock + Elapsed(more)
    decreases |more|
  {
    if more != [] {
      assert more[0] in more && forall step | step in more[1..] :: step in more;
      HoldsReport(Apply(s, more[0]), more[1..]);
    }
  }

  /**
   Exactly when a report the leader found in the cache is within its TTL as it is handed over, to the leader
   and to all who joined: if and only if no more time passed since the leader's look than was then left of
   the TTL, whatever else happened in between.
   */
  lemma HandOverIff(e: State, more: seq<Step>)
    requires e.leader == Some(Looking) && Get(e).Some? && Run(Apply(e, LookAgain), more) && Return !in more
    ensures var e2 := End(Apply(e, LookAgain), more);
            && Enabled(e2, Return)
            && var e' := Apply(e2, Return);
            && |e'.answers| == |e2.answers| + 1 + e2.joined
            && forall k | |e2.answers| <= k < |e'.answers| ::
                 && e'.answers[k].rep == Get(e).value
                 && (WithinTTL(e', e'.answers[k]) <==> Elapsed(more) <= e.ttl - (e.clock - e.cache.value.1))
  {
    hide Run, End, Elapsed;
    HoldsReport(Apply(e, LookAgain), more);
  }

  /** Neither a new report nor a clear-out. */
  predicate CacheKept(steps: seq<Step>) {
    forall step | step in steps :: !step.Store? && !step.Clear?
  }

  lemma {:induction false} CacheHolds(s: State, more: seq<Step>)
    requires Run(s, more) && CacheKept(more)
    ensures var e := End(s, more); e.cache == s.cache && e.ttl == s.ttl && e.clock == s.clock + Elapsed(more)
    decreases |more|
  {
    if more != [] {
      assert more[0] in more && forall step | step in more[1..] :: step in more;
      CacheHolds(Apply(s, more[0]), more[1..]);
    }
  }

  /**
   What the cache is for: a complete report, once stored, is served to every caller for as long as the TTL
   and no longer, whatever else happens, until another is stored or the cache is cleared; after that
   nothing is served until a report is stored.
   */
  lemma ServedForTTL(e: State, more: seq<Step>)
    requires Enabled(e, Store) && e.ttl > 0 && CacheKept(more)
    ensures Run(Apply(e, Store), more) ==>
              var f := End(Apply(e, Store), more);
              && (Enabled(f, Hit) <==> Elapsed(more) <= e.ttl)
              && (Enabled(f, Hit) ==>
                    var answer := Answer(e.leader.value.rep, Some(Lookup(e.clock, f.clock)), f.clock);
                    Apply(f, Hit).answers == f.answers + [answer])
    ensures Run(Apply(e, Clear), more) ==> !Enabled(End(Apply(e, Clear), more), Hit)
  {
    hide Run, End, Elapsed;
    if Run(Apply(e, Store), more) { CacheHolds(Apply(e, Store), more); }
    if Run(Apply(e, Clear), more) { CacheHolds(Apply(e, Clear), more); }
  }

  lemma {:induction false} EndConcat(s: State, steps: seq<Step>, step: Step)
    requires Run(s, steps) && Enabled(End(s, steps), step)
    ensures Run(s, steps + [step]) && End(s, steps + [step]) == Apply(End(s, steps), step)
    decreases |steps|
  {
    if steps == [] {
      assert [step][1..] == [];
    } else {
      assert (steps + [step])[1..] == steps[1..] + [step];
      EndConcat(Apply(s, steps[0]), steps[1..], step);
    }
  }

  /** Two callers miss and one of them leads a round of no checks. */
  lemma OneLed(s: State) returns (steps: seq<Step>)
    requires Init(s)
    ensures Run(s, steps)
    ensures var e := End(s, steps);
            e == s.(missed := 1, leader := Some(Waiting(0)), running := true,
              rounds := [Round({}, {}, map[], 0, false, false)])
  {
    hide Run, End;
    steps := Nothing(s);
    EndConcat(s, steps, Miss); steps := steps + [Miss];
    EndConcat(s, steps, Miss); steps := steps + [Miss];
    EndConcat(s, steps, Enter); steps := steps + [Enter];
    EndConcat(s, steps, LookAgain); steps := steps + [LookAgain];
    EndConcat(s, steps, Claim({})); steps := steps + [Claim({})];
  }

  /** The round's report is stored and returned. */
  lemma OneStored(s: State) returns (steps: seq<Step>)
    requires Init(s) && s.ttl > 0
    ensures Run(s, steps)
    ensures var e := End(s, steps);
            && e.clock == s.clock && e.ttl == s.ttl && e.missed == 1
            && e.leader.None? && e.joined == 0 && |e.answers| == 1
            && e.cache == Some((Report(Some(0), true, 0), s.clock))
  {
    hide Run, End;
    steps := OneLed(s);
    EndConcat(s, steps, Finish); steps := steps + [Finish];
    EndConcat(s, steps, EndRound); steps := steps + [EndRound];
    EndConcat(s, steps, Snapshot); steps := steps + [Snapshot];
    EndConcat(s, steps, Store); steps := steps + [Store];
    EndConcat(s, steps, Return); steps := steps + [Return];
  }

  lemma Nothing(s: State) returns (steps: seq<Step>)
    ensures steps == [] && Run(s, steps) && End(s, steps) == s
  {
    steps := [];
  }

  /**
   The TTL does not bound the age at hand-over. For every TTL and every delay: two callers miss; one
   leads a round and stores it; the other then leads, finds that fresh report, and waits; a third
   caller sees it expired, joins, and is handed it all the same.
   */
  lemma HandedOverLate(s: State, d: nat) returns (steps: seq<Step>)
    requires Init(s) && s.ttl > 0 && d > 0
    ensures Run(s, steps) && |steps| >= 3 && steps[|steps| - 3..] == [Miss, Enter, Return]
    ensures var e := End(s, steps);
            && |e.answers| == 3 && e.answers[2].lookup.Some?
            && e.answers[2].given - e.answers[2].lookup.value.storedAt == e.ttl + d
  {
    hide Run, End;
    steps := OneStored(s);
    EndConcat(s, steps, Enter); steps := steps + [Enter];
    EndConcat(s, steps, LookAgain); steps := steps + [LookAgain];
    EndConcat(s, steps, Tick(s.ttl + d)); steps := steps + [Tick(s.ttl + d)];
    EndConcat(s, steps, Miss); steps := steps + [Miss];
    EndConcat(s, steps, Enter); steps := steps + [Enter];
    EndConcat(s, steps, Return); steps := steps + [Return];
  }

  /** What had been recorded stands, and the rest is what the checks had to say. */
  predicate Completed(was: Round, now: Round, verdict: CheckId -> bool) {
    && (forall k | k in was.verdicts :: k in now.verdicts && now.verdicts[k] == was.verdicts[k])
    && (forall k | k in now.verdicts && k !in was.verdicts :: now.verdicts[k] == verdict(k))
  }

  lemma CheckReturns(s: State, before: seq<Step>, r: nat, k: CheckId, verdict: CheckId -> bool)
    returns (steps: seq<Step>)
    requires Run(s, before) && Inv(End(s, before)) && r < |End(s, before).rounds| && k in End(s, before).rounds[r].live
    ensures Run(s, steps) && Inv(End(s, steps))
    ensures var e, f := End(s, before), End(s, steps);
            && f == e.(rounds := f.rounds) && |f.rounds| == |e.rounds|
            && f.rounds[r].live == e.rounds[r].live - {k} && f.rounds[r].checks == e.rounds[r].checks
            && Completed(e.rounds[r], f.rounds[r], verdict)
  {
    hide Run, End, Inv;
    steps := before;
    var e := End(s, steps);
    if k !in e.rounds[r].verdicts {
      EndConcat(s, steps, Record(r, k, verdict(k)));
      InvStep(e, Record(r, k, verdict(k)));
      steps := steps + [Record(r, k, verdict(k))];
    }
    e := End(s, steps);
    EndConcat(s, steps, Done(r, k));
    InvStep(e, Done(r, k));
    steps := steps + [Done(r, k)];
  }

  /** The checks of round r that are still out record their verdicts and return, in this order. */
  lemma {:induction false} ChecksReturn(
    s: State, before: seq<Step>, r: nat, order: seq<CheckId>, verdict: CheckId -> bool
  )
    returns (steps: seq<Step>)
    requires Run(s, before) && Inv(End(s, before)) && End(s, before).leader == Some(Waiting(r))
    requires r < |End(s, before).rounds| && forall k | k in End(s, before).rounds[r].live :: k in order
    ensures Run(s, steps) && Inv(End(s, steps))
    ensures var e, f := End(s, before), End(s, steps);
            && f == e.(rounds := f.rounds) && |f.rounds| == |e.rounds| && f.rounds[r].live == {}
            && f.rounds[r].checks == e.rounds[r].checks && Completed(e.rounds[r], f.rounds[r], verdict)
    decreases |order|
  {
    hide Run, End, Inv;
    steps := before;
    if order != [] {
      if order[0] in End(s, steps).rounds[r].live { steps := CheckReturns(s, steps, r, order[0], verdict); }
      steps := ChecksReturn(s, steps, r, order[1..], verdict);
    }
  }

  /**
   A round comes to its end: from every reachable state in which the leader waits, whatever the checks still
   out will say, they can all record and return, and the leader and all who joined are told about the
   complete round: UP if and only if none of its checks was down.
   */
  lemma RoundCanComplete(s: State, steps: seq<Step>, order: seq<CheckId>, verdict: CheckId -> bool)
    returns (more: seq<Step>)
    requires Init(s) && Run(s, steps)
    requires var e := End(s, steps);
             && e.leader.Some? && e.leader.value.Waiting? && e.leader.value.r < |e.rounds|
             && forall k | k in e.rounds[e.leader.value.r].live :: k in order
    ensures Run(s, more)
    ensures var e, f := End(s, steps), End(s, more);
            var r := e.leader.value.r;
            && |f.answers| == |e.answers| + 1 + e.joined && f.leader.None? && !f.running && r < |f.rounds|
            && (forall k | k in e.rounds[r].checks :: k in f.rounds[r].verdicts)
            && Completed(e.rounds[r], f.rounds[r], verdict)
            && forall k | |e.answers| <= k < |f.answers| ::
                 && f.answers[k].rep.complete && f.answers[k].rep.round == Some(r)
                 && (IsUp(f.answers[k].rep) <==> forall c | c in f.rounds[r].verdicts :: !f.rounds[r].verdicts[c])
  {
    InvRun(s, steps);
    var r := End(s, steps).leader.value.r;
    var back := ChecksReturn(s, steps, r, order, verdict);
    more := Concludes(s, back, r);
  }

  /** All checks are back: the leader concludes the round and returns. */
  lemma Concludes(s: State, before: seq<Step>, r: nat) returns (steps: seq<Step>)
    requires Run(s, before) && Inv(End(s, before)) && End(s, before).leader == Some(Waiting(r))
    requires r < |End(s, before).rounds| && End(s, before).rounds[r].live == {}
    ensures Run(s, steps)
    ensures var e, f := End(s, before), End(s, steps);
            && |f.answers| == |e.answers| + 1 + e.joined && f.leader.None? && !f.running && r < |f.rounds|
            && f.rounds[r].verdicts == e.rounds[r].verdicts
            && (forall k | k in e.rounds[r].checks :: k in f.rounds[r].verdicts)
            && forall k | |e.answers| <= k < |f.answers| ::
                 && f.answers[k].rep.complete && f.answers[k].rep.round == Some(r)
                 && (IsUp(f.answers[k].rep) <==> forall c | c in f.rounds[r].verdicts :: !f.rounds[r].verdicts[c])
  {
    hide Run, End, AnswersInv, CacheInv, ClaimInv;
    assert RoundInv(End(s, before).rounds[r]);
    steps := before;
    EndConcat(s, steps, Finish); steps := steps + [Finish];
    EndConcat(s, steps, EndRound); steps := steps + [EndRound];
    EndConcat(s, steps, Snapshot); steps := steps + [Snapshot];
    EndConcat(s, steps, Store); steps := steps + [Store];
    EndConcat(s, steps, Return); steps := steps + [Return];
  }

  /**
   A hung check holds nobody up: from every reachable state in which the leader waits, it can leave at the
   timeout, and it and all who joined are told at once what is known, which is not UP. The round stays
   claimed, so none starts until its checks have returned.
   */
  lemma LeavesAtTimeout(s: State, steps: seq<Step>)
    requires Init(s) && Run(s, steps) && s.timeout > 0
    requires End(s, steps).leader.Some? && End(s, steps).leader.value.Waiting?
    ensures var e := End(s, steps);
            && Run(e, [TimeOut, Snapshot, Return])
            && var f := End(e, [TimeOut, Snapshot, Return]);
            && f.leader.None? && f.running && |f.rounds| == |e.rounds| && e.leader.value.r < |e.rounds|
            && f.rounds[e.leader.value.r].live == e.rounds[e.leader.value.r].live
            && |f.answers| == |e.answers| + 1 + e.joined
            && forall k | |e.answers| <= k < |f.answers| ::
                 && f.answers[k].rep.round == Some(e.leader.value.r) && !f.answers[k].rep.complete
                 && !IsUp(f.answers[k].rep)
  {
    InvRun(s, steps);
    ConstantsKept(s, steps);
    hide Run, End, Inv, Apply;
    AtTimeout(End(s, steps));
    ThreeSteps(End(s, steps), TimeOut, Snapshot, Return);
  }

  lemma AtTimeout(e: State)
    requires Inv(e) && e.timeout > 0 && e.leader.Some? && e.leader.value.Waiting?
    ensures Enabled(e, TimeOut)
    ensures var e1 := Apply(e, TimeOut);
            && Enabled(e1, Snapshot)
            && var e2 := Apply(e1, Snapshot);
            && Enabled(e2, Return)
            && var f := Apply(e2, Return);
            && f.leader.None? && f.running && |f.rounds| == |e.rounds| && e.leader.value.r < |e.rounds|
            && f.rounds[e.leader.value.r].live == e.rounds[e.leader.value.r].live
            && |f.answers| == |e.answers| + 1 + e.joined
            && forall k | |e.answers| <= k < |f.answers| ::
                 && f.answers[k].rep.round == Some(e.leader.value.r) && !f.answers[k].rep.complete
                 && !IsUp(f.answers[k].rep)
  {
    hide AnswersInv, CacheInv, RoundInv, Sound;
  }

  lemma ThreeSteps(e: State, a: Step, b: Step, c: Step)
    requires Enabled(e, a) && Enabled(Apply(e, a), b) && Enabled(Apply(Apply(e, a), b), c)
    ensures Run(e, [a, b, c]) && End(e, [a, b, c]) == Apply(Apply(Apply(e, a), b), c)
  {
    hide Apply, Enabled;
    var e1 := Apply(e, a);
    var e2 := Apply(e1, b);
    assert [a, b, c][1..] == [b, c] && [b, c][1..] == [c] && [c][1..] == [];
    assert Run(e2, [c]) && End(e2, [c]) == Apply(e2, c);
    assert Run(e1, [b, c]) && End(e1, [b, c]) == Apply(e2, c);
  }

  lemma {:induction false} ConstantsKept(s: State, steps: seq<Step>)
    requires Run(s, steps)
    ensures End(s, steps).timeout == s.timeout && End(s, steps).ttl == s.ttl
    decreases |steps|
  {
    if steps != [] { ConstantsKept(Apply(s, steps[0]), steps[1..]); }
  }

  /** Once the outstanding checks have returned, the claim can be released, and the next round is a fresh one. */
  lemma ClaimReleasable(s: State, steps: seq<Step>) returns (more: seq<Step>)
    requires Init(s) && Run(s, steps)
    requires var e := End(s, steps); forall r | 0 <= r < |e.rounds| :: e.rounds[r].live == {}
    ensures Run(End(s, steps), more) && !End(End(s, steps), more).running
  {
    InvRun(s, steps);
    var e := End(s, steps);
    if !e.running {
      more := [];
    } else if e.leader == Some(Waiting(|e.rounds| - 1)) {
      more := [Finish, EndRound];
      assert more[1..] == [EndRound] && [EndRound][1..] == [];
    } else if e.leader == Some(Joined(|e.rounds| - 1)) {
      more := [EndRound];
    } else {
      more := [LateEnd(|e.rounds| - 1)];
    }
  }
}
