/**
 More about the lock chain: waiting never forms a cycle, the clean-up after a failed acquisition
 releases exactly what it can, and exclusion needs a shared locking backend.
 */
module MigrationLocks {
  import opened MigrationProtocol
  import opened MigrationSafety

  // ----- Waiting -----

  /** Pod p is about to lock a backend. */
  predicate AtLocker(cfg: Config, s: State, p: PodId) {
    && p < |s.pods| && p < |cfg.chains| && s.pods[p].Locking?
    && s.pods[p].j < |cfg.chains[p]| && cfg.chains[p][s.pods[p].j] in cfg.lockers
  }

  function Wanted(cfg: Config, s: State, p: PodId): Backend
    requires AtLocker(cfg, s, p)
  {
    cfg.chains[p][s.pods[p].j]
  }

  predicate WaitsFor(cfg: Config, s: State, p: PodId, q: PodId) {
    AtLocker(cfg, s, p) && Holds(cfg, s, q, Wanted(cfg, s, p))
  }

  predicate Waiting(cfg: Config, s: State, p: PodId) {
    exists q | 0 <= q < |s.pods| :: WaitsFor(cfg, s, p, q)
  }

  /** The pod waited for wants only a later backend: every chain is taken in ascending order. */
  lemma WaitAscends(cfg: Config, s: State, p: PodId, q: PodId)
    requires WellFormed(cfg) && WaitsFor(cfg, s, p, q) && AtLocker(cfg, s, q)
    ensures Wanted(cfg, s, p) < Wanted(cfg, s, q)
  {
    var chain, j := cfg.chains[q], s.pods[q].j;
    var k :| 0 <= k < j && chain[..j][k] == Wanted(cfg, s, p);
    assert chain[k] < chain[j];
  }

  predicate WaitCycle(cfg: Config, s: State, c: seq<PodId>) {
    && c != [] && WaitsFor(cfg, s, c[|c| - 1], c[0])
    && forall k | 0 <= k < |c| - 1 :: WaitsFor(cfg, s, c[k], c[k + 1])
  }

  lemma {:induction false} WantedAlong(cfg: Config, s: State, c: seq<PodId>, n: nat)
    requires WellFormed(cfg) && n < |c|
    requires forall k | 0 <= k < |c| :: AtLocker(cfg, s, c[k])
    requires forall k | 0 <= k < |c| - 1 :: WaitsFor(cfg, s, c[k], c[k + 1])
    ensures Wanted(cfg, s, c[0]) <= Wanted(cfg, s, c[n])
  {
    if n > 0 {
      WantedAlong(cfg, s, c, n - 1);
      assert WaitsFor(cfg, s, c[n - 1], c[n - 1 + 1]);
      WaitAscends(cfg, s, c[n - 1], c[n]);
    }
  }

  /** In no state, whatever the pods' chains, do pods wait for each other in a circle. */
  lemma NoWaitCycle(cfg: Config, s: State, c: seq<PodId>)
    requires WellFormed(cfg)
    ensures !WaitCycle(cfg, s, c)
  {
    if WaitCycle(cfg, s, c) {
      forall k | 0 <= k < |c| ensures AtLocker(cfg, s, c[k]) {
        if k < |c| - 1 { assert WaitsFor(cfg, s, c[k], c[k + 1]); }
      }
      WantedAlong(cfg, s, c, |c| - 1);
      WaitAscends(cfg, s, c[|c| - 1], c[0]);
    }
  }

  /** Following the waits from any waiting pod ends at a live holder that waits for nobody. */
  lemma {:induction false} WaitEnds(cfg: Config, s: State, p: PodId, top: nat) returns (q: PodId)
    requires WellFormed(cfg) && Waiting(cfg, s, p)
    requires forall r, b | 0 <= r < |cfg.chains| && b in cfg.chains[r] :: b < top
    ensures q < |s.pods| && !Waiting(cfg, s, q) && (s.pods[q].Locking? || InCritical(s.pods[q]))
    decreases top - Wanted(cfg, s, p)
  {
    q :| 0 <= q < |s.pods| && WaitsFor(cfg, s, p, q);
    if Waiting(cfg, s, q) {
      WaitAscends(cfg, s, p, q);
      assert Wanted(cfg, s, q) in cfg.chains[q];
      q := WaitEnds(cfg, s, q, top);
    }
  }

  // ----- The clean-up unlock -----

  /** The unlock calls that report an error, each with whether it deleted the row all the same. */
  type Failures = map<Backend, bool>

  /** Runs p's unlock to its end: down the chain, one backend at a time. */
  function Released(cfg: Config, s: State, p: PodId, failing: Failures): State
    requires p < |s.pods| == |cfg.chains|
    decreases if s.pods[p].Unlocking? && s.pods[p].j < |cfg.chains[p]| then |cfg.chains[p]| - s.pods[p].j else 0
  {
    var ph, chain := s.pods[p], cfg.chains[p];
    if ph.Unlocking? && ph.j < |chain| then Released(cfg, Unlocked(cfg, s, p, ph.j, failing), p, failing) else s
  }

  /** The unlock of the backend at position j, which only a real locker can fail. */
  function Unlocked(cfg: Config, s: State, p: PodId, j: nat, failing: Failures): State
    requires p < |s.pods| == |cfg.chains| && j < |cfg.chains[p]|
  {
    var b := cfg.chains[p][j];
    if b in cfg.lockers && b in failing then FailAt(s, p, b, failing[b]) else ReleaseAt(cfg, s, p, b, j)
  }

  /** A backend where p's unlock stops: its row is gone, or the call reports an error. */
  predicate Stops(cfg: Config, s: State, p: PodId, b: Backend, failing: Failures) {
    b in cfg.lockers && (!Owns(s, p, b) || b in failing)
  }

  /** The call itself goes wrong before it deletes anything. */
  predicate Undone(b: Backend, failing: Failures) { b in failing && !failing[b] }

  /**
   The unlock started at position j leaves a row of p's behind exactly when an earlier backend on the
   chain stopped it, or the row's own deletion never took effect.
   */
  lemma {:induction false} ReleasedExactly(cfg: Config, s: State, p: PodId, failing: Failures, j: nat, k: nat)
    requires p < |s.pods| == |cfg.chains| && Ascending(cfg.chains[p]) && s.pods[p] == Unlocking(j)
    requires j <= k < |cfg.chains[p]| && cfg.chains[p][k] in cfg.lockers
    ensures Owns(Released(cfg, s, p, failing), p, cfg.chains[p][k]) <==>
              && Owns(s, p, cfg.chains[p][k])
              && (|| Undone(cfg.chains[p][k], failing)
                  || exists m | j <= m < k :: Stops(cfg, s, p, cfg.chains[p][m], failing))
    decreases |cfg.chains[p]| - j
  {
    var chain := cfg.chains[p];
    var s' := Unlocked(cfg, s, p, j, failing);
    assert Released(cfg, s, p, failing) == Released(cfg, s', p, failing);
    if j < k { assert chain[j] < chain[k]; }
    if s'.pods[p].Exited? {
      assert Stops(cfg, s, p, chain[j], failing) && Released(cfg, s', p, failing) == s';
    } else if k == j {
      ReleasedKeepsOut(cfg, s', p, failing, chain[j]);
    } else {
      ReleasedExactly(cfg, s', p, failing, j + 1, k);
      forall m | j + 1 <= m < k
        ensures Stops(cfg, s', p, chain[m], failing) <==> Stops(cfg, s, p, chain[m], failing)
      {
        assert chain[j] < chain[m];
      }
    }
  }

  lemma {:induction false} ReleasedKeepsOut(cfg: Config, s: State, p: PodId, failing: Failures, b: Backend)
    requires p < |s.pods| == |cfg.chains| && !Owns(s, p, b)
    ensures !Owns(Released(cfg, s, p, failing), p, b)
    decreases if s.pods[p].Unlocking? && s.pods[p].j < |cfg.chains[p]| then |cfg.chains[p]| - s.pods[p].j else 0
  {
    var ph, chain := s.pods[p], cfg.chains[p];
    if ph.Unlocking? && ph.j < |chain| {
      ReleasedKeepsOut(cfg, Unlocked(cfg, s, p, ph.j, failing), p, failing, b);
    }
  }

  lemma {:induction false} ReleasedFrame(cfg: Config, s: State, p: PodId, failing: Failures, b: Backend)
    requires p < |s.pods| == |cfg.chains| && b in s.rows && s.rows[b].owner != p
    ensures b in Released(cfg, s, p, failing).rows && Released(cfg, s, p, failing).rows[b] == s.rows[b]
    decreases if s.pods[p].Unlocking? && s.pods[p].j < |cfg.chains[p]| then |cfg.chains[p]| - s.pods[p].j else 0
  {
    var ph, chain := s.pods[p], cfg.chains[p];
    if ph.Unlocking? && ph.j < |chain| {
      ReleasedFrame(cfg, Unlocked(cfg, s, p, ph.j, failing), p, failing, b);
    }
  }

  /**
   A pod that fails at position k with its own earlier locks intact gives back exactly those up to the
   first call that reports an error, and that one too if its deletion took effect.
   */
  lemma GiveUpReleases(cfg: Config, s: State, p: PodId, failing: Failures, k: nat, i: nat)
    requires WellFormed(cfg) && p < |s.pods| == |cfg.chains| && s.pods[p] == Locking(k) && k <= |cfg.chains[p]|
    requires forall m | 0 <= m < k && cfg.chains[p][m] in cfg.lockers :: Owns(s, p, cfg.chains[p][m])
    requires i < k && cfg.chains[p][i] in cfg.lockers
    ensures var chain := cfg.chains[p];
            !Owns(Released(cfg, Apply(cfg, s, Act(p, GiveUp)), p, failing), p, chain[i]) <==>
              && !Undone(chain[i], failing)
              && forall m | 0 <= m < i :: chain[m] in cfg.lockers ==> chain[m] !in failing
  {
    var s', chain := Apply(cfg, s, Act(p, GiveUp)), cfg.chains[p];
    ReleasedExactly(cfg, s', p, failing, 0, i);
    forall m | 0 <= m < i
      ensures Stops(cfg, s', p, chain[m], failing) <==> chain[m] in cfg.lockers && chain[m] in failing
    {
    }
  }

  /** Each of these calls is a step of the protocol. */
  lemma UnlockedIsStep(cfg: Config, s: State, p: PodId, failing: Failures)
    requires p < |s.pods| == |cfg.chains| == |cfg.keys| && s.pods[p].Unlocking? && s.pods[p].j < |cfg.chains[p]|
    ensures var b := cfg.chains[p][s.pods[p].j];
            var step := Act(p, if b in cfg.lockers && b in failing then ReleaseFails(failing[b]) else Release);
            Enabled(cfg, s, step) && Apply(cfg, s, step) == Unlocked(cfg, s, p, s.pods[p].j, failing)
  {
  }

  /** A step that keeps the run timely prolongs it. */
  lemma {:induction false} RunThen(cfg: Config, s: State, steps: seq<Step>, step: Step)
    requires Run(cfg, s, steps)
    requires var e := End(cfg, s, steps);
             && |e.pods| == |cfg.chains| == |cfg.keys| && Enabled(cfg, e, step)
             && |Apply(cfg, e, step).pods| == |cfg.chains| && Timely(cfg, Apply(cfg, e, step))
    ensures Run(cfg, s, steps + [step]) && End(cfg, s, steps + [step]) == Apply(cfg, End(cfg, s, steps), step)
  {
    var e := End(cfg, s, steps);
    assert Timely(cfg, e) by { EndTimely(cfg, s, steps); }
    assert [step][1..] == [];
    assert Run(cfg, Apply(cfg, e, step), []);
    RunConcat(cfg, s, steps, [step]);
  }

  lemma {:induction false} EndTimely(cfg: Config, s: State, steps: seq<Step>)
    requires Run(cfg, s, steps)
    ensures |End(cfg, s, steps).pods| == |cfg.chains| && Timely(cfg, End(cfg, s, steps))
    decreases |steps|
  {
    if steps != [] { EndTimely(cfg, Apply(cfg, s, steps[0]), steps[1..]); }
  }

  /** One pod over two lockers. */
  const TWO_LOCKERS := Config({0, 1}, {}, [[0, 1]], [[]])

  lemma TakeBothAndLeave(s: State) returns (steps: seq<Step>)
    requires Init(TWO_LOCKERS, s) && s.clock == 0 && s.rows == map[]
    ensures Run(TWO_LOCKERS, s, steps)
    ensures End(TWO_LOCKERS, s, steps) == s.(rows := map[0 := Row(0, 15), 1 := Row(0, 15)], pods := [Unlocking(0)])
  {
    hide Run, End;
    var cfg := TWO_LOCKERS;
    steps := NoSteps(cfg, s);
    RunThen(cfg, s, steps, Act(0, Start)); steps := steps + [Act(0, Start)];
    RunThen(cfg, s, steps, Act(0, Insert(15))); steps := steps + [Act(0, Insert(15))];
    RunThen(cfg, s, steps, Act(0, Insert(15))); steps := steps + [Act(0, Insert(15))];
    RunThen(cfg, s, steps, Act(0, Enter)); steps := steps + [Act(0, Enter)];
    RunThen(cfg, s, steps, Act(0, Leave)); steps := steps + [Act(0, Leave)];
  }

  /**
   The unlock that stops early, as a run: the pod takes both locks and leaves, its first row expires
   while the second is refreshed, and the unlock exits at the first with the second row still the
   pod's own and fresh, so that it keeps every other pod out.
   */
  lemma LeftBehind(s: State) returns (steps: seq<Step>)
    requires Init(TWO_LOCKERS, s) && s.clock == 0 && s.rows == map[]
    ensures Run(TWO_LOCKERS, s, steps)
    ensures var e := End(TWO_LOCKERS, s, steps);
            e.pods == [Exited] && Owns(e, 0, 1) && e.rows[1].expires > e.clock
  {
    hide Run, End;
    var cfg := TWO_LOCKERS;
    steps := TakeBothAndLeave(s);
    RunThen(cfg, s, steps, Tick(15)); steps := steps + [Tick(15)];
    RunThen(cfg, s, steps, Refresh(0, 1, 30)); steps := steps + [Refresh(0, 1, 30)];
    RunThen(cfg, s, steps, Expire(0, 15)); steps := steps + [Expire(0, 15)];
    RunThen(cfg, s, steps, Act(0, Release)); steps := steps + [Act(0, Release)];
  }

  lemma NoSteps(cfg: Config, s: State) returns (steps: seq<Step>)
    requires |s.pods| == |cfg.chains| == |cfg.keys| && Timely(cfg, s)
    ensures steps == [] && Run(cfg, s, steps) && End(cfg, s, steps) == s
  {
    steps := [];
  }

  // ----- Exclusion needs a shared locker -----

  predicate AllFresh(s: State) {
    forall b | b in s.rows :: s.rows[b].expires > s.clock
  }

  lemma {:induction false} RunConcat(cfg: Config, s: State, a: seq<Step>, b: seq<Step>)
    requires Run(cfg, s, a) && Run(cfg, End(cfg, s, a), b)
    ensures Run(cfg, s, a + b) && End(cfg, s, a + b) == End(cfg, End(cfg, s, a), b)
    decreases |a|
  {
    if a == [] {
      assert a + b == b;
    } else {
      assert (a + b)[1..] == a[1..] + b;
      RunConcat(cfg, Apply(cfg, s, a[0]), a[1..], b);
    }
  }

  lemma OneStep(cfg: Config, s: State, step: Step, rest: seq<Step>)
    requires |s.pods| == |cfg.chains| == |cfg.keys| && AllFresh(s) && Enabled(cfg, s, step)
    requires Run(cfg, Apply(cfg, s, step), rest)
    ensures Run(cfg, s, [step] + rest) && End(cfg, s, [step] + rest) == End(cfg, Apply(cfg, s, step), rest)
  {
    assert ([step] + rest)[1..] == rest;
  }

  /** A pod whose remaining lockers are free can take them all, leaving everything else alone. */
  lemma {:induction false} LockUp(cfg: Config, s: State, p: PodId, j: nat) returns (steps: seq<Step>)
    requires WellFormed(cfg) && |s.pods| == |cfg.chains| && p < |s.pods| && AllFresh(s)
    requires s.pods[p] == Locking(j) && j <= |cfg.chains[p]|
    requires forall k | j <= k < |cfg.chains[p]| :: cfg.chains[p][k] in cfg.lockers ==> cfg.chains[p][k] !in s.rows
    ensures Run(cfg, s, steps)
    ensures var e := End(cfg, s, steps);
            && e.pods == s.pods[p := Reading(0, {})] && e.recorded == s.recorded && e.log == s.log && AllFresh(e)
            && forall b | b in e.rows :: b in s.rows || (b in cfg.lockers && b in cfg.chains[p])
    decreases |cfg.chains[p]| - j
  {
    var chain := cfg.chains[p];
    var action := if j == |chain| then Enter else if chain[j] in cfg.lockers then Insert(s.clock + LOCK_TTL) else Pass;
    var s' := Apply(cfg, s, Act(p, action));
    if j == |chain| {
      OneStep(cfg, s, Act(p, action), []);
      steps := [Act(p, action)] + [];
    } else {
      forall k | j + 1 <= k < |chain| ensures chain[k] in cfg.lockers ==> chain[k] !in s'.rows {
        assert chain[j] < chain[k];
      }
      var rest := LockUp(cfg, s', p, j + 1);
      OneStep(cfg, s, Act(p, action), rest);
      steps := [Act(p, action)] + rest;
    }
  }

  lemma StartAndLock(cfg: Config, s: State, p: PodId) returns (steps: seq<Step>)
    requires WellFormed(cfg) && |s.pods| == |cfg.chains| && p < |s.pods| && AllFresh(s) && s.pods[p].Idle?
    requires forall b | b in cfg.lockers && b in cfg.chains[p] :: b !in s.rows
    ensures Run(cfg, s, steps)
    ensures var e := End(cfg, s, steps);
            && e.pods == s.pods[p := Reading(0, {})] && e.recorded == s.recorded && e.log == s.log && AllFresh(e)
            && forall b | b in e.rows :: b in s.rows || (b in cfg.lockers && b in cfg.chains[p])
  {
    var rest := LockUp(cfg, Apply(cfg, s, Act(p, Start)), p, 0);
    OneStep(cfg, s, Act(p, Start), rest);
    steps := [Act(p, Start)] + rest;
  }

  /** Two pods without a common locking backend can both be between lock and unlock. */
  lemma NoSharedLocker(cfg: Config, p: PodId, q: PodId) returns (s: State, steps: seq<Step>)
    requires WellFormed(cfg) && p < |cfg.chains| && q < |cfg.chains| && p != q && !Shares(cfg, p, q)
    ensures Init(cfg, s) && Run(cfg, s, steps)
    ensures var e := End(cfg, s, steps); |e.pods| == |cfg.chains| && InCritical(e.pods[p]) && InCritical(e.pods[q])
  {
    s := State(0, map[], map[], seq(|cfg.chains|, _ => Idle), []);
    var first := StartAndLock(cfg, s, p);
    var mid := End(cfg, s, first);
    var second := StartAndLock(cfg, mid, q);
    RunConcat(cfg, s, first, second);
    steps := first + second;
  }

  /** Two pods exclude each other in every timely run if and only if their chains share a locking backend. */
  lemma ExclusionIffShared(cfg: Config, p: PodId, q: PodId)
    requires WellFormed(cfg) && p < |cfg.chains| && q < |cfg.chains| && p != q
    ensures Shares(cfg, p, q) <==>
              forall s, steps | Init(cfg, s) && Run(cfg, s, steps) ::
                |End(cfg, s, steps).pods| == |cfg.chains| ==>
                  !(InCritical(End(cfg, s, steps).pods[p]) && InCritical(End(cfg, s, steps).pods[q]))
  {
    if Shares(cfg, p, q) {
      forall s, steps | Init(cfg, s) && Run(cfg, s, steps)
        ensures |End(cfg, s, steps).pods| == |cfg.chains| ==>
                  !(InCritical(End(cfg, s, steps).pods[p]) && InCritical(End(cfg, s, steps).pods[q]))
      {
        MutualExclusion(cfg, s, steps, p, q);
      }
    } else {
      var s, steps := NoSharedLocker(cfg, p, q);
    }
  }

  // ----- Leases -----

  predicate Leaving(ph: Phase) { ph.Unlocking? || ph.Exited? }

  /** A pod that has left its critical section does not come back. */
  lemma {:induction false} LeavingStays(cfg: Config, s: State, more: seq<Step>, p: PodId)
    requires Run(cfg, s, more) && p < |s.pods| && Leaving(s.pods[p])
    ensures p < |End(cfg, s, more).pods| && Leaving(End(cfg, s, more).pods[p])
    decreases |more|
  {
    if more != [] {
      LeavingStep(cfg, s, more[0], p);
      LeavingStays(cfg, Apply(cfg, s, more[0]), more[1..], p);
    }
  }

  lemma LeavingStep(cfg: Config, s: State, step: Step, p: PodId)
    requires Enabled(cfg, s, step) && p < |s.pods| && (InCritical(s.pods[p]) || Leaving(s.pods[p]))
    ensures var s' := Apply(cfg, s, step);
            && |s'.pods| == |s.pods| && (InCritical(s'.pods[p]) || Leaving(s'.pods[p]))
            && (Leaving(s.pods[p]) ==> Leaving(s'.pods[p]))
  {
    if step.Act? && step.p == p {
      hide ReadFrom;
    } else {
      hide Apply;
      PodUnmoved(cfg, s, step, p);
    }
  }

  /** No step of the schedule is a refresh of p's. */
  predicate NoRefresh(steps: seq<Step>, p: PodId) {
    forall k | 0 <= k < |steps| :: !(steps[k].Refresh? && steps[k].p == p)
  }

  /** Without a refresh a pod's lease is what it was, and the pod is inside only while it lasts. */
  lemma {:induction false} LeaseRunsOut(cfg: Config, s: State, more: seq<Step>, p: PodId, b: Backend)
    requires Run(cfg, s, more) && LockInv(cfg, s) && NoRefresh(more, p)
    requires p < |s.pods| && InCritical(s.pods[p]) && b in cfg.lockers && b in cfg.chains[p]
    requires p < |End(cfg, s, more).pods| && InCritical(End(cfg, s, more).pods[p])
    ensures Owns(s, p, b) && End(cfg, s, more).clock < s.rows[b].expires
    decreases |more|
  {
    assert Holds(cfg, s, p, b);
    if more != [] {
      var s' := Apply(cfg, s, more[0]);
      LockInvStep(cfg, s, more[0]);
      LeavingStep(cfg, s, more[0], p);
      if Leaving(s'.pods[p]) { LeavingStays(cfg, s', more[1..], p); }
      RowChanges(cfg, s, more[0], b);
      assert Holds(cfg, s', p, b);
      assert s'.rows[b] == s.rows[b];
      LeaseRunsOut(cfg, s', more[1..], p, b);
    }
  }

  /** The run so far ends in f: p is inside, and so far as k says, everyone else is gone. */
  ghost predicate Alone(cfg: Config, e: State, more: seq<Step>, f: State, p: PodId, k: nat) {
    && Run(cfg, e, more) && End(cfg, e, more) == f && |f.pods| == |cfg.chains| == |cfg.keys|
    && LockInv(cfg, f) && p < |f.pods| && InCritical(f.pods[p])
    && forall q | 0 <= q < k && q < |f.pods| && q != p :: f.pods[q].Exited?
  }

  lemma AloneThen(cfg: Config, e: State, more: seq<Step>, f: State, p: PodId, k: nat, step: Step)
    requires Alone(cfg, e, more, f, p, k) && Enabled(cfg, f, step) && Timely(cfg, Apply(cfg, f, step))
    requires step.Act? ==> step.action.Crash? && step.p != p
    ensures Alone(cfg, e, more + [step], Apply(cfg, f, step), p, k)
  {
    hide Run, End;
    EndTimely(cfg, e, more);
    LockInvStep(cfg, f, step);
    RunThen(cfg, e, more, step);
  }

  /** A crash takes away a holder and a refresh renews a row: neither leaves a row that has run out. */
  lemma StaysTimely(cfg: Config, s: State, step: Step)
    requires Timely(cfg, s) && Enabled(cfg, s, step)
    requires (step.Act? && step.action.Crash?) || (step.Refresh? && step.expires > s.clock)
    ensures Timely(cfg, Apply(cfg, s, step))
  {
    var s' := Apply(cfg, s, step);
    forall r: nat, b | Holds(cfg, s', r, b) && Owns(s', r, b) ensures s'.rows[b].expires > s'.clock {
      assert Holds(cfg, s, r, b);
      if !(step.Refresh? && step.b == b) { assert Owns(s, r, b) && s'.rows[b] == s.rows[b]; }
    }
  }

  lemma {:induction false} CrashOthers(cfg: Config, e: State, before: seq<Step>, f: State, p: PodId, k: nat)
    returns (more: seq<Step>, g: State)
    requires Alone(cfg, e, before, f, p, k) && NoRefresh(before, p)
    ensures Alone(cfg, e, more, g, p, |cfg.chains|) && NoRefresh(more, p) && g.clock == f.clock && g.rows == f.rows
    decreases |cfg.chains| - k
  {
    hide Run, End, LockInv;
    if k >= |cfg.chains| {
      more, g := before, f;
    } else if k == p {
      more, g := CrashOthers(cfg, e, before, f, p, k + 1);
    } else {
      var step := Act(k, Crash);
      EndTimely(cfg, e, before);
      StaysTimely(cfg, f, step);
      AloneThen(cfg, e, before, f, p, k, step);
      more, g := CrashOthers(cfg, e, before + [step], Apply(cfg, f, step), p, k + 1);
    }
  }

  predicate Renewed(s: State, p: PodId, b: Backend) { Owns(s, p, b) && s.rows[b].expires == s.clock + LOCK_TTL }

  /** p refreshes its rows one after the other. */
  lemma {:induction false} RefreshAll(cfg: Config, e: State, before: seq<Step>, f: State, p: PodId, j: nat)
    returns (more: seq<Step>, g: State)
    requires Alone(cfg, e, before, f, p, |cfg.chains|) && j <= |cfg.chains[p]|
    requires forall b | b in cfg.lockers && b in cfg.chains[p][..j] :: Renewed(f, p, b)
    ensures Alone(cfg, e, more, g, p, |cfg.chains|) && g.clock == f.clock
    ensures forall b | b in cfg.lockers && b in cfg.chains[p] :: Renewed(g, p, b)
    decreases |cfg.chains[p]| - j
  {
    hide Run, End;
    var chain := cfg.chains[p];
    if j == |chain| {
      assert chain[..j] == chain;
      more, g := before, f;
    } else {
      assert chain[..j + 1] == chain[..j] + [chain[j]];
      if chain[j] !in cfg.lockers {
        more, g := RefreshAll(cfg, e, before, f, p, j + 1);
      } else {
        var step := Refresh(p, chain[j], f.clock + LOCK_TTL);
        assert Holds(cfg, f, p, chain[j]);
        EndTimely(cfg, e, before);
        StaysTimely(cfg, f, step);
        AloneThen(cfg, e, before, f, p, |cfg.chains|, step);
        more, g := RefreshAll(cfg, e, before + [step], Apply(cfg, f, step), p, j + 1);
      }
    }
  }

  lemma {:induction false} RefreshOn(cfg: Config, e: State, before: seq<Step>, f: State, p: PodId, d: nat)
    returns (more: seq<Step>, g: State)
    requires Alone(cfg, e, before, f, p, |cfg.chains|)
    ensures Alone(cfg, e, more, g, p, |cfg.chains|) && g.clock == f.clock + d
    decreases d
  {
    hide Run, End, LockInv;
    if d == 0 {
      more, g := before, f;
    } else {
      more, g := RefreshAll(cfg, e, before, f, p, 0);
      var step := Tick(if d < LOCK_TTL then d else LOCK_TTL - 1);
      AloneThen(cfg, e, more, g, p, |cfg.chains|, step);
      more, g := RefreshOn(cfg, e, more + [step], Apply(cfg, g, step), p, d - step.d);
    }
  }

  lemma Inside(cfg: Config, s: State, steps: seq<Step>, p: PodId) returns (e: State)
    requires Init(cfg, s) && Run(cfg, s, steps)
    requires p < |End(cfg, s, steps).pods| && InCritical(End(cfg, s, steps).pods[p])
    ensures e == End(cfg, s, steps) && Alone(cfg, e, [], e, p, 0)
  {
    e := End(cfg, s, steps);
    LockInvRun(cfg, s, steps);
    EndTimely(cfg, s, steps);
  }

  /**
   What the refresh loops are for: from every state of every timely run, a pod between lock and unlock can
   stay there for any length of time, the run staying timely.
   */
  lemma StaysInside(cfg: Config, s: State, steps: seq<Step>, p: PodId, d: nat) returns (more: seq<Step>)
    requires Init(cfg, s) && Run(cfg, s, steps)
    requires p < |End(cfg, s, steps).pods| && InCritical(End(cfg, s, steps).pods[p])
    ensures var e := End(cfg, s, steps);
            && Run(cfg, e, more) && End(cfg, e, more).clock == e.clock + d
            && p < |End(cfg, e, more).pods| && InCritical(End(cfg, e, more).pods[p])
  {
    var e := Inside(cfg, s, steps, p);
    var out, f := CrashOthers(cfg, e, [], e, p, 0);
    var g;
    more, g := RefreshOn(cfg, e, out, f, p, d);
  }

  /**
   Exactly when it can do so without refreshing: if and only if every lease it holds outlasts that time.
   */
  lemma LeaseIff(cfg: Config, s: State, steps: seq<Step>, p: PodId, d: nat)
    requires Init(cfg, s) && Run(cfg, s, steps)
    requires p < |End(cfg, s, steps).pods| && InCritical(End(cfg, s, steps).pods[p])
    ensures var e := End(cfg, s, steps);
            (exists more | Run(cfg, e, more) && NoRefresh(more, p) ::
               && p < |End(cfg, e, more).pods| && InCritical(End(cfg, e, more).pods[p])
               && End(cfg, e, more).clock >= e.clock + d) <==>
            forall b | b in cfg.lockers && p < |cfg.chains| && b in cfg.chains[p] ::
              b in e.rows && e.rows[b].expires > e.clock + d
  {
    hide Run, End, LockInv;
    var e := Inside(cfg, s, steps, p);
    if more :| && Run(cfg, e, more) && NoRefresh(more, p) && p < |End(cfg, e, more).pods|
               && InCritical(End(cfg, e, more).pods[p]) && End(cfg, e, more).clock >= e.clock + d {
      forall b | b in cfg.lockers && b in cfg.chains[p] ensures b in e.rows && e.rows[b].expires > e.clock + d {
        LeaseRunsOut(cfg, e, more, p, b);
      }
    }
    if forall b | b in cfg.lockers && b in cfg.chains[p] :: b in e.rows && e.rows[b].expires > e.clock + d {
      var more, f := CrashOthers(cfg, e, [], e, p, 0);
      AloneThen(cfg, e, more, f, p, |cfg.chains|, Tick(d));
      assert NoRefresh(more + [Tick(d)], p);
    }
  }
}
