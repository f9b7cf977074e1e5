/**
 When a version one pod has recorded fails to hold another pod back, so that the other executes the
 same or a lower one afterwards: exactly when the two share no locking backend or the record is read
 back lower than it is, whatever other pods there are.
 */
module MigrationRepeats {
  import opened FloatReading
  import opened MigrationProtocol
  import opened MigrationSafety
  import opened MigrationLocks

  // ----- With a shared locker: only what is read back too low -----

  /** Pod q, where it stands, has taken note of version v in backend b as that backend hands it back. */
  predicate Noted(cfg: Config, s: State, q: PodId, b: Backend, v: int)
    requires q < |s.pods| && q < |cfg.chains|
  {
    match s.pods[q]
    case Reading(j, applied) =>
      (exists k | 0 <= k < j && k < |cfg.chains[q]| :: cfg.chains[q][k] == b) ==> AsRead(cfg, b, v) in applied
    case Running(_, last) => AsRead(cfg, b, v) <= last
    case Executed(_, last) => AsRead(cfg, b, v) <= last
    case Committing(_, last, _, _) => AsRead(cfg, b, v) <= last
    case _ => true
  }

  /** Since the x-th event, a record, q has executed only versions above what it is read back as. */
  ghost predicate HeldBack(cfg: Config, s: State, q: PodId, x: nat)
    requires x < |s.log| && s.log[x].Record?
  {
    forall y | x < y < |s.log| && s.log[y].Exec? && s.log[y].pod == q ::
      AsRead(cfg, s.log[x].backend, s.log[x].version) < s.log[y].version
  }

  /** Whatever p recorded where q can see it is still there, q knows of it, and has been held back by it. */
  ghost predicate PairInv(cfg: Config, s: State, p: PodId, q: PodId)
    requires q < |s.pods| && q < |cfg.chains|
  {
    forall x | 0 <= x < |s.log| && s.log[x].Record? && s.log[x].pod == p && s.log[x].backend in cfg.chains[q] ::
      && s.log[x].version in Versions(s, s.log[x].backend)
      && Noted(cfg, s, q, s.log[x].backend, s.log[x].version)
      && HeldBack(cfg, s, q, x)
  }

  /** A step keeps what q has noted; q itself notes what it reads. */
  lemma NotedStep(cfg: Config, s: State, step: Step, q: PodId, b: Backend, v: int)
    requires q < |s.pods| && q < |cfg.chains| && Enabled(cfg, s, step)
    requires v in Versions(s, b) && b in cfg.chains[q] && Noted(cfg, s, q, b, v)
    ensures |Apply(cfg, s, step).pods| == |s.pods| && Noted(cfg, Apply(cfg, s, step), q, b, v)
  {
    hide AsRead;
    if step.Act? && step.p == q {
      var chain := cfg.chains[q];
      if step.action.Read? {
        assert AsRead(cfg, b, v) in ReadFrom(cfg, s, b);
      } else if step.action.Decide? {
        var k :| 0 <= k < |chain| && chain[k] == b;
      }
    } else {
      PodUnmoved(cfg, s, step, q);
    }
  }

  lemma HeldBackStep(cfg: Config, s: State, step: Step, q: PodId, x: nat)
    requires q < |s.pods| && q < |cfg.chains| && Enabled(cfg, s, step)
    requires x < |s.log| && s.log[x].Record? && HeldBack(cfg, s, q, x)
    requires Noted(cfg, s, q, s.log[x].backend, s.log[x].version)
    ensures s.log <= Apply(cfg, s, step).log && HeldBack(cfg, Apply(cfg, s, step), q, x)
  {
    hide Apply, AsRead;
    LogGrows(cfg, s, step);
  }

  lemma RecordLands(cfg: Config, s: State, step: Step)
    requires Enabled(cfg, s, step)
    ensures forall e | e in Emitted(cfg, s, step) && e.Record? :: e.version in Versions(Apply(cfg, s, step), e.backend)
  {
  }

  lemma PairStep(cfg: Config, s: State, step: Step, p: PodId, q: PodId)
    requires Enabled(cfg, s, step) && LockInv(cfg, s)
    requires p < |s.pods| && q < |s.pods| && p != q && Shares(cfg, p, q) && PairInv(cfg, s, p, q)
    ensures |Apply(cfg, s, step).pods| == |s.pods| && PairInv(cfg, Apply(cfg, s, step), p, q)
  {
    hide Apply, HeldBack, Noted, AsRead;
    var s' := Apply(cfg, s, step);
    LogGrows(cfg, s, step);
    RecordLands(cfg, s, step);
    if step == Act(p, Commit) && InCritical(s.pods[q]) { Exclusive(cfg, s, p, q); }
    forall x | 0 <= x < |s'.log| && s'.log[x].Record? && s'.log[x].pod == p && s'.log[x].backend in cfg.chains[q]
      ensures && s'.log[x].version in Versions(s', s'.log[x].backend)
              && Noted(cfg, s', q, s'.log[x].backend, s'.log[x].version)
              && HeldBack(cfg, s', q, x)
    {
      if x < |s.log| {
        VersionChanges(cfg, s, step, s.log[x].backend);
        NotedStep(cfg, s, step, q, s.log[x].backend, s.log[x].version);
        HeldBackStep(cfg, s, step, q, x);
      } else {
        PodUnmoved(cfg, s, step, q);
        FreshRecord(cfg, s', q, x);
      }
    }
  }

  /** A record just made, with q outside: there is nothing to have noted and nothing after it. */
  lemma FreshRecord(cfg: Config, s: State, q: PodId, x: nat)
    requires q < |s.pods| && q < |cfg.chains| && x == |s.log| - 1 && s.log[x].Record? && !InCritical(s.pods[q])
    ensures Noted(cfg, s, q, s.log[x].backend, s.log[x].version) && HeldBack(cfg, s, q, x)
  {
  }

  lemma {:induction false} PairRun(cfg: Config, s: State, steps: seq<Step>, p: PodId, q: PodId)
    requires Run(cfg, s, steps) && LockInv(cfg, s)
    requires p < |s.pods| && q < |s.pods| && p != q && Shares(cfg, p, q) && PairInv(cfg, s, p, q)
    ensures |End(cfg, s, steps).pods| == |cfg.chains| && PairInv(cfg, End(cfg, s, steps), p, q)
    decreases |steps|
  {
    if steps != [] {
      LockInvStep(cfg, s, steps[0]);
      PairStep(cfg, s, steps[0], p, q);
      PairRun(cfg, Apply(cfg, s, steps[0]), steps[1..], p, q);
    }
  }

  /** Some record of v by p in b comes before an execution of w by q. */
  predicate Follows(log: seq<Event>, p: PodId, q: PodId, b: Backend, v: int, w: int) {
    exists x, y | 0 <= x < y < |log| :: log[x] == Record(p, b, v) && log[y] == Exec(q, w)
  }

  /**
   Two pods that share a locker, whatever the others do: after one recorded v in a backend the other sees,
   the other executes only versions above what v is read back as.
   */
  lemma OnlyAbove(cfg: Config, s: State, steps: seq<Step>, p: PodId, q: PodId, b: Backend, v: int, w: int)
    requires Init(cfg, s) && Run(cfg, s, steps) && p < |cfg.chains| && q < |cfg.chains| && p != q
    requires Shares(cfg, p, q) && b in cfg.chains[q] && Follows(End(cfg, s, steps).log, p, q, b, v, w)
    ensures AsRead(cfg, b, v) < w
  {
    PairRun(cfg, s, steps, p, q);
    var log := End(cfg, s, steps).log;
    var x, y :| 0 <= x < y < |log| && log[x] == Record(p, b, v) && log[y] == Exec(q, w);
    assert HeldBack(cfg, End(cfg, s, steps), q, x);
  }

  // ----- Exactly when -----

  /**
   Exactly when, for any pods: two of them with a backend in common, one with a key v and the other with a
   positive key w no higher, have a timely run in which the one records v in that backend and the other
   executes w afterwards, if and only if their chains share no locking backend or the backend hands v back
   as less than w.
   */
  lemma FollowsIff(cfg: Config, p: PodId, q: PodId, b: Backend, v: int, w: int)
    requires WellFormed(cfg) && p < |cfg.chains| && q < |cfg.chains| && p != q
    requires b in cfg.chains[p] && b in cfg.chains[q] && v in cfg.keys[p] && w in cfg.keys[q] && 0 < w <= v
    ensures (exists s, steps | Init(cfg, s) && Run(cfg, s, steps) :: Follows(End(cfg, s, steps).log, p, q, b, v, w))
       <==> !Shares(cfg, p, q) || AsRead(cfg, b, v) < w
  {
    hide Run, End, Follows, AsRead;
    if Shares(cfg, p, q) && AsRead(cfg, b, v) >= w {
      forall s, steps | Init(cfg, s) && Run(cfg, s, steps) ensures !Follows(End(cfg, s, steps).log, p, q, b, v, w) {
        if Follows(End(cfg, s, steps).log, p, q, b, v, w) { OnlyAbove(cfg, s, steps, p, q, b, v, w); }
      }
    } else {
      var m :| 0 <= m < |cfg.chains[p]| && cfg.chains[p][m] == b;
      var n :| 0 <= n < |cfg.keys[p]| && cfg.keys[p][n] == v;
      var k :| 0 <= k < |cfg.keys[q]| && cfg.keys[q][k] == w;
      if !Shares(cfg, p, q) {
        var s, steps := SideBySide(cfg, p, q, m, n, k);
      } else {
        var s, steps := TurnByTurn(cfg, p, q, m, n, k);
      }
    }
  }

  /** A recorded version is executed again exactly when nothing locks the two pods out or it is read back lower. */
  lemma RepeatedIff(cfg: Config, p: PodId, q: PodId, b: Backend, v: int)
    requires WellFormed(cfg) && p < |cfg.chains| && q < |cfg.chains| && p != q
    requires b in cfg.chains[p] && b in cfg.chains[q] && v in cfg.keys[p] && v in cfg.keys[q] && v > 0
    ensures (exists s, steps | Init(cfg, s) && Run(cfg, s, steps) :: Follows(End(cfg, s, steps).log, p, q, b, v, v))
       <==> !Shares(cfg, p, q) || AsRead(cfg, b, v) < v
  {
    FollowsIff(cfg, p, q, b, v, v);
  }

  // ----- The order of two pods -----

  /** p has a key v and q one no higher which v, recorded in a backend of both, does not keep q from executing. */
  ghost predicate Overtakes(cfg: Config, p: PodId, q: PodId)
    requires p < |cfg.chains| == |cfg.keys| && q < |cfg.chains|
  {
    exists b, v, w | b in cfg.chains[p] && v in cfg.keys[p] && w in cfg.keys[q] ::
      b in cfg.chains[q] && 0 < w <= v && (!Shares(cfg, p, q) || AsRead(cfg, b, v) < w)
  }

  /**
   Exactly when executions keep to the order of the records, for two of any number of pods: some timely run
   has one execute no higher than the other recorded before in a backend it sees, if and only if there are
   keys the two have, and a backend, for which FollowsIff allows it.
   */
  lemma OutOfOrderIff(cfg: Config, p: PodId, q: PodId)
    requires WellFormed(cfg) && p < |cfg.chains| && q < |cfg.chains| && p != q
    ensures (exists s, steps, b, v, w | Init(cfg, s) && Run(cfg, s, steps) ::
               w <= v && b in cfg.chains[q] && Follows(End(cfg, s, steps).log, p, q, b, v, w))
       <==> Overtakes(cfg, p, q)
  {
    hide Run, End, AsRead, Shares, Follows;
    if s, steps, b, v, w :| Init(cfg, s) && Run(cfg, s, steps)
                            && w <= v && b in cfg.chains[q] && Follows(End(cfg, s, steps).log, p, q, b, v, w) {
      FollowsShape(cfg, s, steps, p, q, b, v, w);
      FollowsIff(cfg, p, q, b, v, w);
    }
    if Overtakes(cfg, p, q) {
      var b, v, w :| b in cfg.chains[p] && v in cfg.keys[p] && w in cfg.keys[q]
                     && b in cfg.chains[q] && 0 < w <= v && (!Shares(cfg, p, q) || AsRead(cfg, b, v) < w);
      FollowsIff(cfg, p, q, b, v, w);
    }
  }

  lemma FollowsShape(cfg: Config, s: State, steps: seq<Step>, p: PodId, q: PodId, b: Backend, v: int, w: int)
    requires WellFormed(cfg) && Init(cfg, s) && Run(cfg, s, steps) && p < |cfg.chains| && q < |cfg.chains|
    requires Follows(End(cfg, s, steps).log, p, q, b, v, w)
    ensures b in cfg.chains[p] && v in cfg.keys[p] && w in cfg.keys[q] && w > 0
  {
    hide Run, End;
    LogShapeRun(cfg, s, steps);
    var log := End(cfg, s, steps).log;
    var x, y :| 0 <= x < y < |log| && log[x] == Record(p, b, v) && log[y] == Exec(q, w);
    assert EventShape(cfg, log[x]) && EventShape(cfg, log[y]);
  }

  /** Two pods over Redis, which locks, and Elasticsearch, which reads floats, with the one key 2^53 + 1. */
  const REDIS: Backend := 1
  const ELASTICSEARCH: Backend := 0
  const BOTH := [ELASTICSEARCH, REDIS]
  const ROUNDED := Config({REDIS}, {ELASTICSEARCH}, [BOTH, BOTH], [[EXACT + 1], [EXACT + 1]])

  /** They share a locker and execute the same version all the same, one after the other. */
  lemma RoundedRunsTwice() returns (s: State, steps: seq<Step>)
    ensures Shares(ROUNDED, 0, 1) && Init(ROUNDED, s) && Run(ROUNDED, s, steps)
    ensures Follows(End(ROUNDED, s, steps).log, 0, 1, ELASTICSEARCH, EXACT + 1, EXACT + 1)
  {
    hide Run, End, Follows;
    assert ReadBack(EXACT + 1) == EXACT by { assert Ulp(EXACT + 1) == 2 * Ulp((EXACT + 1) / 2); }
    assert REDIS in ROUNDED.lockers && REDIS in ROUNDED.chains[0] && REDIS in ROUNDED.chains[1];
    s, steps := TurnByTurn(ROUNDED, 0, 1, 0, 0, 0);
  }

  // ----- Building runs -----

  /** The run so far ends in e, a state in which every row is fresh. */
  ghost predicate Reaches(cfg: Config, s: State, steps: seq<Step>, e: State) {
    Run(cfg, s, steps) && End(cfg, s, steps) == e && |e.pods| == |cfg.chains| == |cfg.keys| && AllFresh(e)
  }

  lemma ActNext(cfg: Config, s: State, steps: seq<Step>, e: State, p: PodId, action: Action)
    requires Reaches(cfg, s, steps, e) && Enabled(cfg, e, Act(p, action)) && !action.Insert?
    ensures Reaches(cfg, s, steps + [Act(p, action)], Apply(cfg, e, Act(p, action)))
  {
    hide Run, End;
    RunThen(cfg, s, steps, Act(p, action));
  }

  /**
   Where the chain holds nothing but what reads as r, p reads its way down and decides on r, or on 0 if that
   is more.
   */
  lemma {:induction false} ReadAll(cfg: Config, s: State, before: seq<Step>, e: State, p: PodId, r: int)
    returns (steps: seq<Step>, last: int)
    requires Reaches(cfg, s, before, e) && p < |e.pods| && e.pods[p].Reading? && e.pods[p].j <= |cfg.chains[p]|
    requires e.pods[p].applied <= {r} && forall b | b in cfg.chains[p] :: ReadFrom(cfg, e, b) <= {r}
    ensures Reaches(cfg, s, steps, To(e, p, Running(0, last))) && 0 <= last <= Max(0, r)
    decreases |cfg.chains[p]| - e.pods[p].j
  {
    hide Run, End, ReadFrom;
    var ph, chain := e.pods[p], cfg.chains[p];
    if ph.j == |chain| {
      last := if r in ph.applied && r > 0 then r else 0;
      ActNext(cfg, s, before, e, p, Decide(last));
      steps := before + [Act(p, Decide(last))];
    } else {
      ActNext(cfg, s, before, e, p, Read);
      var e' := Apply(cfg, e, Act(p, Read));
      forall b | b in chain ensures ReadFrom(cfg, e', b) <= {r} { SameReads(cfg, e, e', b); }
      steps, last := ReadAll(cfg, s, before + [Act(p, Read)], e', p, r);
      assert To(e', p, Running(0, last)) == To(e, p, Running(0, last));
    }
  }

  lemma SameReads(cfg: Config, s: State, t: State, b: Backend)
    requires s.recorded == t.recorded
    ensures ReadFrom(cfg, s, b) == ReadFrom(cfg, t, b)
  {
  }

  function CommittedTo(e: State, p: PodId, m: nat): State
    requires p < |e.pods| && e.pods[p].Committing?
  {
    To(e, p, Committing(e.pods[p].i, e.pods[p].last, m, e.pods[p].used))
  }

  /** Committing past backends the migration did not use changes nothing else. */
  lemma {:induction false} CommitPast(cfg: Config, s: State, before: seq<Step>, e: State, p: PodId, m: nat)
    returns (steps: seq<Step>)
    requires Reaches(cfg, s, before, e) && p < |e.pods| && e.pods[p].Committing? && e.pods[p].i < |cfg.keys[p]|
    requires e.pods[p].j <= m <= |cfg.chains[p]|
    requires forall k | e.pods[p].j <= k < m :: cfg.chains[p][k] !in e.pods[p].used
    ensures Reaches(cfg, s, steps, CommittedTo(e, p, m))
    decreases m - e.pods[p].j
  {
    hide Run, End;
    if e.pods[p].j == m {
      steps := before;
      assert CommittedTo(e, p, m) == e;
    } else {
      ActNext(cfg, s, before, e, p, Commit);
      var e' := Apply(cfg, e, Act(p, Commit));
      steps := CommitPast(cfg, s, before + [Act(p, Commit)], e', p, m);
      assert CommittedTo(e', p, m) == CommittedTo(e, p, m);
    }
  }

  /** Nothing but p's own place and the end of the log differs. */
  predicate Moved(e: State, e': State, p: PodId, ph: Phase)
    requires p < |e.pods|
  {
    e'.pods == e.pods[p := ph] && e'.recorded == e.recorded && e'.rows == e.rows && e.log <= e'.log
  }

  /** One key: skipped, or executed and committed without a record. */
  lemma OneKey(cfg: Config, s: State, before: seq<Step>, e: State, p: PodId) returns (steps: seq<Step>, e': State)
    requires Reaches(cfg, s, before, e) && p < |e.pods| && e.pods[p].Running? && e.pods[p].i < |cfg.keys[p]|
    ensures Reaches(cfg, s, steps, e') && Moved(e, e', p, Running(e.pods[p].i + 1, e.pods[p].last))
  {
    hide Run, End;
    var ph := e.pods[p];
    if cfg.keys[p][ph.i] <= ph.last {
      ActNext(cfg, s, before, e, p, SkipKey);
      steps, e' := before + [Act(p, SkipKey)], Apply(cfg, e, Act(p, SkipKey));
    } else {
      ActNext(cfg, s, before, e, p, Execute);
      var e1 := Apply(cfg, e, Act(p, Execute));
      steps := before + [Act(p, Execute)];
      ActNext(cfg, s, steps, e1, p, BeginCommit({}));
      var e2 := Apply(cfg, e1, Act(p, BeginCommit({})));
      steps := CommitPast(cfg, s, steps + [Act(p, BeginCommit({}))], e2, p, |cfg.chains[p]|);
      var e3 := CommittedTo(e2, p, |cfg.chains[p]|);
      ActNext(cfg, s, steps, e3, p, EndCommit);
      steps, e' := steps + [Act(p, EndCommit)], Apply(cfg, e3, Act(p, EndCommit));
    }
  }

  lemma {:induction false} AdvanceTo(cfg: Config, s: State, before: seq<Step>, e: State, p: PodId, n: nat)
    returns (steps: seq<Step>, e': State)
    requires Reaches(cfg, s, before, e) && p < |e.pods| && e.pods[p].Running? && e.pods[p].i <= n <= |cfg.keys[p]|
    ensures Reaches(cfg, s, steps, e') && Moved(e, e', p, Running(n, e.pods[p].last))
    decreases n - e.pods[p].i
  {
    hide Run, End;
    if e.pods[p].i == n {
      steps, e' := before, e;
    } else {
      var more, mid := OneKey(cfg, s, before, e, p);
      steps, e' := AdvanceTo(cfg, s, more, mid, p, n);
    }
  }

  /** A pod between lock and unlock of a chain that holds nothing but what reads as r gets to its n-th key. */
  lemma GetTo(cfg: Config, s: State, before: seq<Step>, e: State, p: PodId, n: nat, r: int)
    returns (steps: seq<Step>, e': State)
    requires Reaches(cfg, s, before, e) && p < |e.pods| && e.pods[p] == Reading(0, {}) && n <= |cfg.keys[p]|
    requires forall b | b in cfg.chains[p] :: ReadFrom(cfg, e, b) <= {r}
    ensures Reaches(cfg, s, steps, e') && e'.pods[p].Running? && e'.pods[p].i == n && 0 <= e'.pods[p].last <= Max(0, r)
    ensures Moved(e, e', p, e'.pods[p])
  {
    hide Run, End, ReadFrom;
    var more, last := ReadAll(cfg, s, before, e, p, r);
    steps, e' := AdvanceTo(cfg, s, more, To(e, p, Running(0, last)), p, n);
  }

  lemma NoReads(cfg: Config, e: State, b: Backend)
    requires e.recorded == map[]
    ensures ReadFrom(cfg, e, b) == {}
  {
  }

  /** p executes its n-th key and records it in its m-th backend alone. */
  lemma RecordAt(cfg: Config, s: State, before: seq<Step>, e: State, p: PodId, n: nat, m: nat)
    returns (steps: seq<Step>, e': State)
    requires WellFormed(cfg) && Reaches(cfg, s, before, e) && p < |e.pods| && e.pods[p] == Running(n, 0)
    requires n < |cfg.keys[p]| && cfg.keys[p][n] > 0 && m < |cfg.chains[p]| && e.recorded == map[]
    ensures Reaches(cfg, s, steps, e') && InCritical(e'.pods[p])
    ensures forall q | 0 <= q < |e.pods| && q != p :: e'.pods[q] == e.pods[q]
    ensures e'.rows == e.rows && e'.recorded == map[cfg.chains[p][m] := {cfg.keys[p][n]}]
    ensures Record(p, cfg.chains[p][m], cfg.keys[p][n]) in e'.log
  {
    hide Run, End;
    var chain := cfg.chains[p];
    ActNext(cfg, s, before, e, p, Execute);
    var e1 := Apply(cfg, e, Act(p, Execute));
    steps := before + [Act(p, Execute)];
    ActNext(cfg, s, steps, e1, p, BeginCommit({chain[m]}));
    var e2 := Apply(cfg, e1, Act(p, BeginCommit({chain[m]})));
    assert forall k | 0 <= k < m :: chain[k] < chain[m];
    steps := CommitPast(cfg, s, steps + [Act(p, BeginCommit({chain[m]}))], e2, p, m);
    var e3 := CommittedTo(e2, p, m);
    ActNext(cfg, s, steps, e3, p, Commit);
    steps, e' := steps + [Act(p, Commit)], Apply(cfg, e3, Act(p, Commit));
    assert Versions(e3, chain[m]) + {cfg.keys[p][n]} == {cfg.keys[p][n]};
    assert e'.recorded == map[chain[m] := {cfg.keys[p][n]}];
    assert e'.log[|e3.log|] == Record(p, chain[m], cfg.keys[p][n]);
  }

  predicate OwnsFrom(cfg: Config, e: State, p: PodId, j: nat)
    requires p < |cfg.chains|
  {
    forall k | j <= k < |cfg.chains[p]| && cfg.chains[p][k] in cfg.lockers :: Owns(e, p, cfg.chains[p][k])
  }

  /** An unlocking pod that owns what it is to release releases it all. */
  lemma {:induction false} ReleaseAll(cfg: Config, s: State, before: seq<Step>, e: State, p: PodId)
    returns (steps: seq<Step>, e': State)
    requires WellFormed(cfg) && Reaches(cfg, s, before, e) && p < |e.pods|
    requires e.pods[p].Unlocking? && e.pods[p].j <= |cfg.chains[p]|
    requires OwnsFrom(cfg, e, p, e.pods[p].j)
    ensures Reaches(cfg, s, steps, e') && e'.recorded == e.recorded && e'.log == e.log
    ensures forall q | 0 <= q < |e.pods| && q != p :: e'.pods[q] == e.pods[q]
    ensures e'.rows.Keys <= e.rows.Keys
    ensures forall k | e.pods[p].j <= k < |cfg.chains[p]| && cfg.chains[p][k] in cfg.lockers ::
            cfg.chains[p][k] !in e'.rows
    decreases |cfg.chains[p]| - e.pods[p].j
  {
    hide Run, End;
    var chain, j := cfg.chains[p], e.pods[p].j;
    if j == |chain| {
      steps, e' := before, e;
    } else {
      ActNext(cfg, s, before, e, p, Release);
      var mid := Apply(cfg, e, Act(p, Release));
      assert forall k | j < k < |chain| :: chain[j] < chain[k];
      steps, e' := ReleaseAll(cfg, s, before + [Act(p, Release)], mid, p);
    }
  }

  predicate LockersFree(cfg: Config, e: State, p: PodId)
    requires p < |cfg.chains|
  {
    forall b | b in cfg.lockers && b in cfg.chains[p] :: b !in e.rows
  }

  /** A pod with free lockers gets between lock and unlock. */
  lemma GetInside(cfg: Config, s: State, before: seq<Step>, e: State, p: PodId) returns (steps: seq<Step>, e': State)
    requires WellFormed(cfg) && Reaches(cfg, s, before, e) && p < |e.pods| && e.pods[p].Idle?
    requires LockersFree(cfg, e, p)
    ensures Reaches(cfg, s, steps, e') && e'.pods == e.pods[p := Reading(0, {})]
    ensures e'.recorded == e.recorded && e'.log == e.log
    ensures forall b | b in e'.rows :: b in e.rows || (b in cfg.lockers && b in cfg.chains[p])
  {
    hide Run, End;
    var more := StartAndLock(cfg, e, p);
    RunConcat(cfg, s, before, more);
    steps, e' := before + more, End(cfg, e, more);
  }

  lemma Beginning(cfg: Config) returns (s: State)
    requires WellFormed(cfg)
    ensures Init(cfg, s) && LockInv(cfg, s) && Reaches(cfg, s, [], s) && s.rows == map[] && s.recorded == map[]
  {
    s := State(0, map[], map[], seq(|cfg.chains|, _ => Idle), []);
  }

  /** p alone gets in, and gets to its n-th key. */
  lemma FirstIn(cfg: Config, p: PodId, n: nat) returns (s: State, steps: seq<Step>, e: State)
    requires WellFormed(cfg) && p < |cfg.chains| && n <= |cfg.keys[p]|
    ensures Init(cfg, s) && LockInv(cfg, s) && Reaches(cfg, s, steps, e) && e.recorded == map[]
    ensures e.pods == seq(|cfg.chains|, _ => Idle)[p := Running(n, 0)]
    ensures forall b | b in e.rows :: b in cfg.lockers && b in cfg.chains[p]
  {
    hide Run, End, LockInv, ReadFrom;
    s := Beginning(cfg);
    assert s.pods == seq(|cfg.chains|, _ => Idle);
    steps, e := GetInside(cfg, s, [], s, p);
    forall b | b in cfg.chains[p] ensures ReadFrom(cfg, e, b) <= {0} { NoReads(cfg, e, b); }
    steps, e := GetTo(cfg, s, steps, e, p, n, 0);
  }

  /** p records v and is gone again. */
  lemma RecordAndLeave(cfg: Config, p: PodId, m: nat, n: nat) returns (s: State, steps: seq<Step>, e: State)
    requires WellFormed(cfg) && p < |cfg.chains| && m < |cfg.chains[p]| && n < |cfg.keys[p]| && cfg.keys[p][n] > 0
    ensures Init(cfg, s) && Reaches(cfg, s, steps, e) && e.rows == map[]
    ensures forall q | 0 <= q < |cfg.chains| && q != p :: e.pods[q].Idle?
    ensures e.recorded == map[cfg.chains[p][m] := {cfg.keys[p][n]}]
    ensures Record(p, cfg.chains[p][m], cfg.keys[p][n]) in e.log
  {
    hide Run, End;
    s, steps, e := FirstIn(cfg, p, n);
    steps, e := RecordAt(cfg, s, steps, e, p, n, m);
    LockInvRun(cfg, s, steps);
    forall b | b in cfg.lockers && b in cfg.chains[p] ensures Owns(e, p, b) { assert Holds(cfg, e, p, b); }
    ActNext(cfg, s, steps, e, p, Leave);
    steps, e := steps + [Act(p, Leave)], Apply(cfg, e, Act(p, Leave));
    steps, e := ReleaseAll(cfg, s, steps, e, p);
    forall b ensures b !in e.rows {
      if b in cfg.lockers && b in cfg.chains[p] {
        var k :| 0 <= k < |cfg.chains[p]| && cfg.chains[p][k] == b;
      }
    }
  }

  // ----- The runs -----

  /** Without a shared locker: q gets to w before p records v, and executes it after. */
  lemma SideBySide(cfg: Config, p: PodId, q: PodId, m: nat, n: nat, k: nat) returns (s: State, steps: seq<Step>)
    requires WellFormed(cfg) && p < |cfg.chains| && q < |cfg.chains| && p != q && !Shares(cfg, p, q)
    requires m < |cfg.chains[p]| && n < |cfg.keys[p]| && k < |cfg.keys[q]| && cfg.keys[p][n] > 0 && cfg.keys[q][k] > 0
    ensures Init(cfg, s) && Run(cfg, s, steps)
    ensures Follows(End(cfg, s, steps).log, p, q, cfg.chains[p][m], cfg.keys[p][n], cfg.keys[q][k])
  {
    hide Run, End, LockInv, ReadFrom;
    var e;
    s, steps, e := FirstIn(cfg, p, n);
    steps, e := GetInside(cfg, s, steps, e, q);
    forall b | b in cfg.chains[q] ensures ReadFrom(cfg, e, b) <= {0} { NoReads(cfg, e, b); }
    steps, e := GetTo(cfg, s, steps, e, q, k, 0);
    steps, e := RecordAt(cfg, s, steps, e, p, n, m);
    steps := ExecuteAfter(cfg, s, steps, e, q, Record(p, cfg.chains[p][m], cfg.keys[p][n]));
  }

  /** With a record in the log, q executes its key after it. */
  lemma ExecuteAfter(cfg: Config, s: State, before: seq<Step>, e: State, q: PodId, record: Event)
    returns (steps: seq<Step>)
    requires Reaches(cfg, s, before, e) && q < |e.pods| && Enabled(cfg, e, Act(q, Execute))
    requires record in e.log && record.Record?
    ensures Run(cfg, s, steps)
    ensures Follows(End(cfg, s, steps).log, record.pod, q, record.backend, record.version, cfg.keys[q][e.pods[q].i])
  {
    hide Run, End;
    ActNext(cfg, s, before, e, q, Execute);
    steps := before + [Act(q, Execute)];
    var x :| 0 <= x < |e.log| && e.log[x] == record;
    var log := End(cfg, s, steps).log;
    assert log[x] == record && log[|e.log|] == Exec(q, cfg.keys[q][e.pods[q].i]);
  }

  lemma OneRead(cfg: Config, e: State, b: Backend, v: int, c: Backend)
    requires e.recorded == map[b := {v}]
    ensures ReadFrom(cfg, e, c) <= {AsRead(cfg, b, v)}
  {
  }

  /** One after the other: q comes once p is gone, reads v too low, and executes w all the same. */
  lemma TurnByTurn(cfg: Config, p: PodId, q: PodId, m: nat, n: nat, k: nat) returns (s: State, steps: seq<Step>)
    requires WellFormed(cfg) && p < |cfg.chains| && q < |cfg.chains| && p != q
    requires m < |cfg.chains[p]| && n < |cfg.keys[p]| && k < |cfg.keys[q]| && cfg.keys[p][n] > 0 && cfg.keys[q][k] > 0
    requires AsRead(cfg, cfg.chains[p][m], cfg.keys[p][n]) < cfg.keys[q][k]
    ensures Init(cfg, s) && Run(cfg, s, steps)
    ensures Follows(End(cfg, s, steps).log, p, q, cfg.chains[p][m], cfg.keys[p][n], cfg.keys[q][k])
  {
    hide Run, End, ReadFrom, AsRead;
    var b, v := cfg.chains[p][m], cfg.keys[p][n];
    var r := AsRead(cfg, b, v);
    var e;
    s, steps, e := RecordAndLeave(cfg, p, m, n);
    steps, e := GetInside(cfg, s, steps, e, q);
    forall c | c in cfg.chains[q] ensures ReadFrom(cfg, e, c) <= {r} { OneRead(cfg, e, b, v, c); }
    steps, e := GetTo(cfg, s, steps, e, q, k, r);
    steps := ExecuteAfter(cfg, s, steps, e, q, Record(p, b, v));
  }
}
