/**
 Safety of the migration protocol over every timely run: mutual exclusion, and the order in which
 versions are executed and recorded across all pods.
 */
module MigrationSafety {
  import opened MigrationProtocol

  // ----- Locks -----

  /** Every lock a pod counts on is a row carrying its owner ID. */
  ghost predicate LockInv(cfg: Config, s: State) {
    forall p: nat, b | Holds(cfg, s, p, b) :: Owns(s, p, b)
  }

  /** Whatever the step, a row changes only by its own owner, by being stale, or by being free; a refresh renews it. */
  lemma RowChanges(cfg: Config, s: State, step: Step, b: Backend)
    requires Enabled(cfg, s, step)
    ensures var s' := Apply(cfg, s, step);
            && (b in s.rows && b !in s'.rows ==>
              s.rows[b].expires <= s.clock || (step.Act? && s.rows[b].owner == step.p))
            && (b in s.rows && b in s'.rows && s'.rows[b] != s.rows[b] ==>
                  step.Refresh? && s.rows[b].owner == step.p == s'.rows[b].owner)
            && (b !in s.rows && b in s'.rows ==> step.Act? && s'.rows[b].owner == step.p)
            && (step.Refresh? && step.b == b ==> b in s'.rows && s'.rows[b] == Row(step.p, step.expires))
  {
  }

  lemma LockInvStep(cfg: Config, s: State, step: Step)
    requires Enabled(cfg, s, step)
    requires Timely(cfg, s) && LockInv(cfg, s)
    ensures LockInv(cfg, Apply(cfg, s, step))
  {
    var s' := Apply(cfg, s, step);
    forall q: nat, b | Holds(cfg, s', q, b) ensures Owns(s', q, b) {
      RowChanges(cfg, s, step, b);
      if Holds(cfg, s, q, b) {
        assert Owns(s, q, b) && s.rows[b].expires > s.clock;
        if step.Act? && step.p == q { KeepsOwn(cfg, s, q, step.action, b); }
      } else {
        NewlyHeld(cfg, s, step, q, b);
      }
    }
  }

  /** A pod deletes its own row only by unlocking, when it no longer counts on it. */
  lemma KeepsOwn(cfg: Config, s: State, p: PodId, action: Action, b: Backend)
    requires Enabled(cfg, s, Act(p, action))
    requires Owns(s, p, b) && Holds(cfg, s, p, b)
    ensures Owns(Apply(cfg, s, Act(p, action)), p, b)
  {
  }

  lemma NewlyHeld(cfg: Config, s: State, step: Step, q: PodId, b: Backend)
    requires Enabled(cfg, s, step) && LockInv(cfg, s)
    requires Holds(cfg, Apply(cfg, s, step), q, b) && !Holds(cfg, s, q, b)
    ensures Owns(Apply(cfg, s, step), q, b)
  {
    assert step.Act? && step.p == q;
    var ph, chain := s.pods[q], cfg.chains[q];
    if ph.Locking? && ph.j < |chain| {
      assert chain[..ph.j + 1] == chain[..ph.j] + [chain[ph.j]];
    }
  }

  predicate Shares(cfg: Config, p: PodId, q: PodId) {
    && p < |cfg.chains| && q < |cfg.chains|
    && exists b | b in cfg.lockers :: b in cfg.chains[p] && b in cfg.chains[q]
  }

  lemma Exclusive(cfg: Config, s: State, p: PodId, q: PodId)
    requires LockInv(cfg, s)
    requires p < |s.pods| && q < |s.pods| && Shares(cfg, p, q)
    requires InCritical(s.pods[p]) && InCritical(s.pods[q])
    ensures p == q
  {
    var b :| b in cfg.lockers && b in cfg.chains[p] && b in cfg.chains[q];
    assert Holds(cfg, s, p, b) && Holds(cfg, s, q, b);
  }

  lemma {:induction false} LockInvRun(cfg: Config, s: State, steps: seq<Step>)
    requires Run(cfg, s, steps) && LockInv(cfg, s)
    ensures |End(cfg, s, steps).pods| == |cfg.chains| && LockInv(cfg, End(cfg, s, steps))
    decreases |steps|
  {
    if steps != [] {
      LockInvStep(cfg, s, steps[0]);
      LockInvRun(cfg, Apply(cfg, s, steps[0]), steps[1..]);
    }
  }

  /** In every timely run, two pods that share a locking backend are never both between lock and unlock. */
  lemma MutualExclusion(cfg: Config, s: State, steps: seq<Step>, p: PodId, q: PodId)
    requires Init(cfg, s) && Run(cfg, s, steps)
    requires p < |cfg.chains| && q < |cfg.chains| && p != q && Shares(cfg, p, q)
    ensures var e := End(cfg, s, steps);
            |e.pods| == |cfg.chains| && !(InCritical(e.pods[p]) && InCritical(e.pods[q]))
  {
    LockInvRun(cfg, s, steps);
    var e := End(cfg, s, steps);
    if InCritical(e.pods[p]) && InCritical(e.pods[q]) { Exclusive(cfg, e, p, q); }
  }

  // ----- Versions -----

  ghost predicate AllShare(cfg: Config) {
    forall p, q | 0 <= p < |cfg.chains| && 0 <= q < |cfg.chains| :: Shares(cfg, p, q)
  }

  /** The version, or what the backend hands back for it if that is lower. */
  function Floor(cfg: Config, b: Backend, v: int): int {
    if AsRead(cfg, b, v) < v then AsRead(cfg, b, v) else v
  }

  /** Every version pod p can see satisfies the bound. */
  ghost predicate SeenBelow(cfg: Config, s: State, p: PodId, bound: int)
    requires p < |cfg.chains|
  {
    forall b, v | b in cfg.chains[p] && v in Versions(s, b) :: Floor(cfg, b, v) <= bound
  }

  function Max(a: int, b: int): int { if a < b then b else a }

  /** What a pod in the critical section knows about the recorded versions. */
  ghost predicate VersionInv(cfg: Config, s: State, p: PodId)
    requires p < |s.pods| && p < |cfg.chains| && p < |cfg.keys|
  {
    var chain, keys := cfg.chains[p], cfg.keys[p];
    match s.pods[p]
    case Reading(j, applied) =>
      j <= |chain| && forall k, v | 0 <= k < j && v in Versions(s, chain[k]) :: AsRead(cfg, chain[k], v) in applied
    case Running(i, last) =>
      i <= |keys| && SeenBelow(cfg, s, p, if i == 0 then last else Max(last, keys[i - 1]))
    case Executed(i, last) =>
      i < |keys| && keys[i] > last && SeenBelow(cfg, s, p, keys[i] - 1)
    case Committing(i, last, j, used) =>
      i < |keys| && keys[i] > last && SeenBelow(cfg, s, p, keys[i])
    case _ => true
  }

  /** The log agrees with the records: nothing recorded is ever forgotten. */
  ghost predicate LogInv(s: State) {
    forall k | 0 <= k < |s.log| && s.log[k].Record? :: s.log[k].version in Versions(s, s.log[k].backend)
  }

  /** What p itself has recorded are keys it has come by. */
  ghost predicate OwnRecords(cfg: Config, s: State, p: PodId)
    requires p < |s.pods| && p < |cfg.chains| && p < |cfg.keys|
  {
    var done := match s.pods[p]
      case Running(i, _) => i
      case Executed(i, _) => i
      case Committing(i, _, _, _) => i + 1
      case Unlocking(_) => |cfg.keys[p]|
      case Exited => |cfg.keys[p]|
      case _ => 0;
    && done <= |cfg.keys[p]|
    && forall k | 0 <= k < |s.log| && s.log[k].Record? && s.log[k].pod == p :: s.log[k].version in cfg.keys[p][..done]
  }

  /** While p commits, only p has recorded the version it commits. */
  ghost predicate CommitInv(cfg: Config, s: State, p: PodId)
    requires p < |s.pods| && p < |cfg.chains| && p < |cfg.keys|
  {
    s.pods[p].Committing? && s.pods[p].i < |cfg.keys[p]| ==>
      forall k | 0 <= k < |s.log| && s.log[k].Record? && s.log[k].backend in cfg.chains[p] ::
        Floor(cfg, s.log[k].backend, s.log[k].version) < cfg.keys[p][s.pods[p].i] || s.log[k].pod == p
  }

  /**
   earlier is a record later's pod can see: later lies above it, or above what it is read back as, and
   repeats it only within one commit.
   */
  predicate InOrder(cfg: Config, earlier: Event, later: Event) {
    earlier.Record? && later.pod < |cfg.chains| && earlier.backend in cfg.chains[later.pod] ==>
      || Floor(cfg, earlier.backend, earlier.version) < later.version
      || (later.Record? && later.version == earlier.version && later.pod == earlier.pod)
  }

  ghost predicate OrderedLog(cfg: Config, s: State) {
    forall x, y | 0 <= x < y < |s.log| :: InOrder(cfg, s.log[x], s.log[y])
  }

  ghost predicate SafetyInv(cfg: Config, s: State) {
    && |s.pods| == |cfg.chains| == |cfg.keys|
    && LockInv(cfg, s) && LogInv(s) && OrderedLog(cfg, s)
    && (forall p | 0 <= p < |s.pods| :: VersionInv(cfg, s, p) && CommitInv(cfg, s, p) && OwnRecords(cfg, s, p))
  }

  /** Only a committing pod adds a version, and only the one it commits. */
  lemma VersionChanges(cfg: Config, s: State, step: Step, b: Backend)
    requires Enabled(cfg, s, step)
    ensures var s' := Apply(cfg, s, step);
            && Versions(s, b) <= Versions(s', b)
            && (Versions(s', b) != Versions(s, b) ==>
                  && step.Act? && step.action.Commit? && b in cfg.chains[step.p]
                  && Versions(s', b) == Versions(s, b) + {cfg.keys[step.p][s.pods[step.p].i]})
  {
  }

  lemma OthersUnmoved(cfg: Config, s: State, step: Step, q: PodId)
    requires SafetyInv(cfg, s) && AllShare(cfg) && Enabled(cfg, s, step)
    requires q < |s.pods| && InCritical(s.pods[q]) && !(step.Act? && step.p == q)
    ensures Apply(cfg, s, step).pods[q] == s.pods[q]
    ensures forall b :: Versions(Apply(cfg, s, step), b) == Versions(s, b)
    ensures forall k | |s.log| <= k < |Apply(cfg, s, step).log| :: !Apply(cfg, s, step).log[k].Record?
  {
    if step.Act? && step.action.Commit? { Exclusive(cfg, s, step.p, q); }
  }

  /** A pod moves only by its own actions. */
  lemma PodUnmoved(cfg: Config, s: State, step: Step, q: PodId)
    requires Enabled(cfg, s, step) && q < |s.pods|
    requires !(step.Act? && step.p == q)
    ensures |Apply(cfg, s, step).pods| == |s.pods| && Apply(cfg, s, step).pods[q] == s.pods[q]
  {
  }

  lemma VersionInvStep(cfg: Config, s: State, step: Step, q: PodId)
    requires WellFormed(cfg) && SafetyInv(cfg, s) && AllShare(cfg) && Enabled(cfg, s, step) && q < |s.pods|
    ensures |Apply(cfg, s, step).pods| == |s.pods| && VersionInv(cfg, Apply(cfg, s, step), q)
  {
    hide Apply, OwnRecords, CommitInv, LockInv, OrderedLog;
    assert VersionInv(cfg, s, q);
    if step.Act? && step.p == q {
      OwnVersionInv(cfg, s, q, step.action);
    } else {
      PodUnmoved(cfg, s, step, q);
      if InCritical(s.pods[q]) { OthersUnmoved(cfg, s, step, q); }
    }
  }

  lemma OwnVersionInv(cfg: Config, s: State, p: PodId, action: Action)
    requires WellFormed(cfg) && SafetyInv(cfg, s) && Enabled(cfg, s, Act(p, action)) && p < |s.pods|
    ensures var s' := Apply(cfg, s, Act(p, action)); |s'.pods| == |s.pods| && VersionInv(cfg, s', p)
  {
    hide OwnRecords, CommitInv, LockInv, OrderedLog, LogInv;
    var s' := Apply(cfg, s, Act(p, action));
    var ph, chain, keys := s.pods[p], cfg.chains[p], cfg.keys[p];
    assert VersionInv(cfg, s, p);
    forall b
      ensures || Versions(s', b) == Versions(s, b)
              || (action.Commit? && Versions(s', b) == Versions(s, b) + {keys[ph.i]})
    {
      VersionChanges(cfg, s, Act(p, action), b);
    }
    match action
    case Decide(last) =>
      forall b, v | b in chain && v in Versions(s', b) ensures Floor(cfg, b, v) <= last {
        var k :| 0 <= k < |chain| && chain[k] == b;
        assert Versions(s', b) == Versions(s, b);
        assert v in Versions(s, chain[k]) && AsRead(cfg, b, v) in ph.applied;
      }
    case SkipKey =>
      assert ph.i > 0 ==> keys[ph.i - 1] < keys[ph.i];
    case Execute =>
      assert ph.i > 0 ==> keys[ph.i - 1] < keys[ph.i];
    case _ =>
  }

  lemma LogInvStep(cfg: Config, s: State, step: Step)
    requires LogInv(s) && Enabled(cfg, s, step)
    ensures LogInv(Apply(cfg, s, step))
  {
    var s' := Apply(cfg, s, step);
    forall k | 0 <= k < |s'.log| && s'.log[k].Record? ensures s'.log[k].version in Versions(s', s'.log[k].backend) {
      if k < |s.log| { VersionChanges(cfg, s, step, s.log[k].backend); }
    }
  }

  /** The event a pod adds is in order with every earlier one. */
  lemma EventInOrder(cfg: Config, s: State, step: Step, earlier: Event)
    requires WellFormed(cfg) && SafetyInv(cfg, s) && Enabled(cfg, s, step)
    requires Emitted(cfg, s, step) != [] && earlier in s.log
    ensures InOrder(cfg, earlier, Emitted(cfg, s, step)[0])
  {
    hide LockInv, OrderedLog, Apply, Perform;
    var p := step.p;
    var keys, i := cfg.keys[p], s.pods[p].i;
    assert VersionInv(cfg, s, p) && CommitInv(cfg, s, p) && OwnRecords(cfg, s, p);
    assert i > 0 ==> keys[i - 1] < keys[i];
    if earlier.Record? && earlier.backend in cfg.chains[p] {
      var x :| 0 <= x < |s.log| && s.log[x] == earlier;
      assert earlier.version in Versions(s, earlier.backend);
      assert earlier.pod == p ==> earlier.version <= keys[i];
    }
  }

  lemma OrderStep(cfg: Config, s: State, step: Step)
    requires WellFormed(cfg) && SafetyInv(cfg, s) && Enabled(cfg, s, step)
    ensures OrderedLog(cfg, Apply(cfg, s, step))
  {
    hide Apply, InOrder, LockInv, VersionInv, CommitInv, OwnRecords;
    LogGrows(cfg, s, step);
    if Emitted(cfg, s, step) != [] {
      forall x | 0 <= x < |s.log| ensures InOrder(cfg, s.log[x], Emitted(cfg, s, step)[0]) {
        EventInOrder(cfg, s, step, s.log[x]);
      }
    }
  }

  lemma OwnRecordsStep(cfg: Config, s: State, step: Step, q: PodId)
    requires SafetyInv(cfg, s) && Enabled(cfg, s, step) && q < |s.pods|
    ensures |Apply(cfg, s, step).pods| == |s.pods| && OwnRecords(cfg, Apply(cfg, s, step), q)
  {
    hide LockInv, OrderedLog, LogInv, CommitInv, ReadFrom;
    LogGrows(cfg, s, step);
    assert OwnRecords(cfg, s, q) && VersionInv(cfg, s, q);
    if step.Act? && step.p == q {
      OwnRecordsOwn(cfg, s, q, step.action);
    } else {
      hide Apply;
      PodUnmoved(cfg, s, step, q);
    }
  }

  lemma OwnRecordsOwn(cfg: Config, s: State, p: PodId, action: Action)
    requires Enabled(cfg, s, Act(p, action)) && p < |s.pods|
    requires OwnRecords(cfg, s, p) && VersionInv(cfg, s, p)
    ensures OwnRecords(cfg, Apply(cfg, s, Act(p, action)), p)
  {
    hide ReadFrom, SeenBelow, Emitted;
    var keys, ph := cfg.keys[p], s.pods[p];
    if ph.Running? && ph.i < |keys| { assert keys[..ph.i + 1] == keys[..ph.i] + [keys[ph.i]]; }
    if ph.Executed? { assert keys[..ph.i + 1] == keys[..ph.i] + [keys[ph.i]]; }
    assert keys[..|keys|] == keys;
  }

  lemma CommitInvStep(cfg: Config, s: State, step: Step, q: PodId)
    requires SafetyInv(cfg, s) && AllShare(cfg) && Enabled(cfg, s, step) && q < |s.pods|
    ensures |Apply(cfg, s, step).pods| == |s.pods| && CommitInv(cfg, Apply(cfg, s, step), q)
  {
    hide OwnRecords, LockInv, OrderedLog;
    assert CommitInv(cfg, s, q) && VersionInv(cfg, s, q);
    if step.Act? && step.p == q {
      CommitInvOwn(cfg, s, q, step.action);
    } else {
      hide Apply;
      PodUnmoved(cfg, s, step, q);
      LogGrows(cfg, s, step);
      if InCritical(s.pods[q]) { OthersUnmoved(cfg, s, step, q); }
    }
  }

  lemma CommitInvOwn(cfg: Config, s: State, p: PodId, action: Action)
    requires Enabled(cfg, s, Act(p, action)) && p < |s.pods|
    requires CommitInv(cfg, s, p) && VersionInv(cfg, s, p) && LogInv(s)
    ensures CommitInv(cfg, Apply(cfg, s, Act(p, action)), p)
  {
    hide ReadFrom, Floor;
  }

  lemma {:induction false} SafetyRun(cfg: Config, s: State, steps: seq<Step>)
    requires WellFormed(cfg) && AllShare(cfg) && SafetyInv(cfg, s) && Run(cfg, s, steps)
    ensures SafetyInv(cfg, End(cfg, s, steps))
    decreases |steps|
  {
    if steps != [] {
      var s' := Apply(cfg, s, steps[0]);
      LockInvStep(cfg, s, steps[0]);
      LogInvStep(cfg, s, steps[0]);
      OrderStep(cfg, s, steps[0]);
      forall p | 0 <= p < |s'.pods| ensures VersionInv(cfg, s', p) && CommitInv(cfg, s', p) && OwnRecords(cfg, s', p) {
        VersionInvStep(cfg, s, steps[0], p);
        CommitInvStep(cfg, s, steps[0], p);
        OwnRecordsStep(cfg, s, steps[0], p);
      }
      SafetyRun(cfg, s', steps[1..]);
    }
  }

  /** The same with the version itself: what is recorded is never executed again, nor anything below it. */
  predicate StrictlyInOrder(cfg: Config, earlier: Event, later: Event) {
    earlier.Record? && later.pod < |cfg.chains| && earlier.backend in cfg.chains[later.pod] ==>
      || earlier.version < later.version
      || (later.Record? && later.version == earlier.version && later.pod == earlier.pod)
  }

  /** No backend of a pod's chain hands one of the pods' keys back lower than it is. */
  ghost predicate NoneLower(cfg: Config) {
    forall p, q, b, v | 0 <= p < |cfg.chains| && 0 <= q < |cfg.keys| && b in cfg.chains[p] && v in cfg.keys[q] ::
      AsRead(cfg, b, v) >= v
  }

  /** What the log can hold: keys of their pods, recorded along their chains, executed only above 0. */
  ghost predicate LogShape(cfg: Config, s: State) {
    && |s.pods| == |cfg.chains| == |cfg.keys|
    && (forall p | 0 <= p < |s.pods| :: Decided(s.pods[p]))
    && (forall k | 0 <= k < |s.log| :: EventShape(cfg, s.log[k]))
  }

  /** Once decided, the last version is at least 0. */
  predicate Decided(ph: Phase) {
    ph.Running? || ph.Executed? || ph.Committing? ==> ph.last >= 0
  }

  predicate EventShape(cfg: Config, e: Event)
    requires |cfg.chains| == |cfg.keys|
  {
    && e.pod < |cfg.keys| && e.version in cfg.keys[e.pod]
    && (e.Record? ==> e.backend in cfg.chains[e.pod]) && (e.Exec? ==> e.version > 0)
  }

  lemma DecidedStep(cfg: Config, s: State, step: Step, p: PodId)
    requires LogShape(cfg, s) && Enabled(cfg, s, step) && p < |s.pods|
    ensures |Apply(cfg, s, step).pods| == |s.pods| && Decided(Apply(cfg, s, step).pods[p])
  {
    assert Decided(s.pods[p]);
    if step.Act? && step.p == p {
      hide ReadFrom, LogShape;
    } else {
      hide Apply;
      PodUnmoved(cfg, s, step, p);
    }
  }

  lemma LogShapeStep(cfg: Config, s: State, step: Step)
    requires LogShape(cfg, s) && Enabled(cfg, s, step)
    ensures LogShape(cfg, Apply(cfg, s, step))
  {
    hide Apply;
    LogGrows(cfg, s, step);
    forall p | 0 <= p < |s.pods| ensures Decided(Apply(cfg, s, step).pods[p]) {
      DecidedStep(cfg, s, step, p);
    }
  }

  lemma {:induction false} LogShapeRun(cfg: Config, s: State, steps: seq<Step>)
    requires LogShape(cfg, s) && Run(cfg, s, steps)
    ensures LogShape(cfg, End(cfg, s, steps))
    decreases |steps|
  {
    if steps != [] {
      LogShapeStep(cfg, s, steps[0]);
      LogShapeRun(cfg, Apply(cfg, s, steps[0]), steps[1..]);
    }
  }

  /**
   Over every timely run of any number of pods that pairwise share a locking backend, whatever was
   recorded before the run: once a version is recorded, every pod that can see that backend executes
   and records only versions above it, or above what it is read back as if that is lower, except for
   the other records of the same commit. So versions ascend when none is read back lower.
   */
  lemma VersionsAscend(cfg: Config, s: State, steps: seq<Step>)
    requires WellFormed(cfg) && AllShare(cfg) && Init(cfg, s) && Run(cfg, s, steps)
    ensures OrderedLog(cfg, End(cfg, s, steps))
    ensures var log := End(cfg, s, steps).log;
            NoneLower(cfg) ==> forall x, y | 0 <= x < y < |log| :: StrictlyInOrder(cfg, log[x], log[y])
  {
    SafetyRun(cfg, s, steps);
    LogShapeRun(cfg, s, steps);
    var log := End(cfg, s, steps).log;
    if NoneLower(cfg) {
      forall x, y | 0 <= x < y < |log| ensures StrictlyInOrder(cfg, log[x], log[y]) {
        assert InOrder(cfg, log[x], log[y]) && EventShape(cfg, log[x]);
      }
    }
  }

  /**
   Whatever was recorded before the run, or by anyone in it, a pod that sees it executes only keys above
   what it is read back as; so it is never executed again unless it is read back lower.
   */
  lemma NeverReexecuted(cfg: Config, s: State, steps: seq<Step>, step: Step, b: Backend, v: int)
    requires WellFormed(cfg) && AllShare(cfg) && Init(cfg, s) && Run(cfg, s, steps)
    requires var e := End(cfg, s, steps);
             && Run(cfg, e, [step]) && step.Act? && step.action.Execute?
             && b in cfg.chains[step.p] && v in Versions(e, b)
    ensures var key := cfg.keys[step.p][End(cfg, s, steps).pods[step.p].i];
            key > Floor(cfg, b, v) && (AsRead(cfg, b, v) >= v ==> key > v)
  {
    SafetyRun(cfg, s, steps);
    var e := End(cfg, s, steps);
    assert VersionInv(cfg, e, step.p);
    assert e.pods[step.p].i > 0 ==> cfg.keys[step.p][e.pods[step.p].i - 1] < cfg.keys[step.p][e.pods[step.p].i];
  }
}
