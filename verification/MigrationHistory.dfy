/**
 What one pod's run amounts to: exactly the keys above the last applied version are executed, in key
 order, and a finished commit has left its record in every backend the migration touched.
 */
module MigrationHistory {
  import opened MigrationProtocol

  /** The versions pod p has executed, in order. */
  function ExecsOf(log: seq<Event>, p: PodId): seq<int> {
    if log == [] then []
    else
      var e := log[|log| - 1];
      ExecsOf(log[..|log| - 1], p) + if e.Exec? && e.pod == p then [e.version] else []
  }

  /** Of the first n keys, those above last, in key order. */
  function Due(keys: seq<int>, last: int, n: nat): seq<int>
    requires n <= |keys|
  {
    if n == 0 then [] else Due(keys, last, n - 1) + if keys[n - 1] > last then [keys[n - 1]] else []
  }

  /** Exactly the keys above last are due, and they come in order. */
  lemma {:induction false} DueIff(keys: seq<int>, last: int, n: nat)
    requires n <= |keys| && Ascending(keys)
    ensures forall v :: v in Due(keys, last, n) <==> v in keys[..n] && v > last
    ensures Ascending(Due(keys, last, n))
  {
    if n > 0 {
      DueIff(keys, last, n - 1);
      assert keys[..n] == keys[..n - 1] + [keys[n - 1]];
      var due := Due(keys, last, n - 1);
      forall k | 0 <= k < |due| ensures due[k] < keys[n - 1] {
        assert due[k] in due && due[k] in keys[..n - 1];
      }
    }
  }

  lemma ExecsAppend(log: seq<Event>, e: Event, p: PodId)
    ensures ExecsOf(log + [e], p) == ExecsOf(log, p) + if e.Exec? && e.pod == p then [e.version] else []
  {
    assert (log + [e])[..|log|] == log;
  }

  /** What the pod has done so far, by where it is. */
  ghost predicate PodInv(cfg: Config, s: State, p: PodId)
    requires p < |s.pods| && p < |cfg.chains| && p < |cfg.keys|
  {
    var chain, keys, done := cfg.chains[p], cfg.keys[p], ExecsOf(s.log, p);
    match s.pods[p]
    case Running(i, last) => i <= |keys| && done == Due(keys, last, i)
    case Executed(i, last) => i < |keys| && done == Due(keys, last, i + 1)
    case Committing(i, last, j, used) =>
      && i < |keys| && done == Due(keys, last, i + 1) && j <= |chain|
      && forall k | 0 <= k < j :: chain[k] in used ==> keys[i] in Versions(s, chain[k])
    case Unlocking(_) => true
    case Exited => true
    case _ => done == []
  }

  ghost predicate HistoryInv(cfg: Config, s: State) {
    |s.pods| == |cfg.chains| == |cfg.keys| && forall p | 0 <= p < |s.pods| :: PodInv(cfg, s, p)
  }

  /** Only the pod that takes an Execute step gets an execution. */
  lemma {:induction false} ExecsStep(cfg: Config, s: State, step: Step, q: PodId)
    requires Enabled(cfg, s, step)
    ensures ExecsOf(Apply(cfg, s, step).log, q) == ExecsOf(s.log, q) +
              if step.Act? && step.p == q && step.action.Execute? then [cfg.keys[q][s.pods[q].i]] else []
  {
    hide ExecsOf, Apply;
    LogGrows(cfg, s, step);
    var more := Emitted(cfg, s, step);
    if more == [] {
      assert s.log + more == s.log;
    } else {
      assert more == [more[0]];
      ExecsAppend(s.log, more[0], q);
    }
  }

  lemma OtherPodInv(cfg: Config, s: State, step: Step, q: PodId)
    requires HistoryInv(cfg, s) && Enabled(cfg, s, step) && q < |s.pods| && !(step.Act? && step.p == q)
    ensures PodInv(cfg, Apply(cfg, s, step), q)
  {
    hide ExecsOf, Due;
    ExecsStep(cfg, s, step, q);
    assert PodInv(cfg, s, q);
    assert Apply(cfg, s, step).pods[q] == s.pods[q];
    assert forall b :: Versions(s, b) <= Versions(Apply(cfg, s, step), b);
  }

  lemma OwnPodInv(cfg: Config, s: State, p: PodId, action: Action)
    requires HistoryInv(cfg, s) && Enabled(cfg, s, Act(p, action)) && p < |s.pods|
    ensures PodInv(cfg, Apply(cfg, s, Act(p, action)), p)
  {
    hide ExecsOf;
    ExecsStep(cfg, s, Act(p, action), p);
    assert PodInv(cfg, s, p);
  }

  lemma {:induction false} HistoryRun(cfg: Config, s: State, steps: seq<Step>)
    requires HistoryInv(cfg, s) && Run(cfg, s, steps)
    ensures HistoryInv(cfg, End(cfg, s, steps))
    decreases |steps|
  {
    if steps != [] {
      var s' := Apply(cfg, s, steps[0]);
      forall p | 0 <= p < |s'.pods| ensures PodInv(cfg, s', p) {
        if steps[0].Act? && steps[0].p == p {
          OwnPodInv(cfg, s, p, steps[0].action);
        } else {
          OtherPodInv(cfg, s, steps[0], p);
        }
      }
      HistoryRun(cfg, s', steps[1..]);
    }
  }

  /** In every run, a pod at key i has executed exactly the keys before it that lie above its last version, in order. */
  lemma ExecutesExactlyTheDue(cfg: Config, s: State, steps: seq<Step>, p: PodId)
    requires WellFormed(cfg) && Init(cfg, s) && Run(cfg, s, steps)
    requires p < |End(cfg, s, steps).pods| == |cfg.chains| && End(cfg, s, steps).pods[p].Running?
    ensures var e := End(cfg, s, steps);
            e.pods[p].i <= |cfg.keys[p]| && ExecsOf(e.log, p) == Due(cfg.keys[p], e.pods[p].last, e.pods[p].i)
  {
    HistoryRun(cfg, s, steps);
    assert PodInv(cfg, End(cfg, s, steps), p);
  }

  /** When a commit has gone down the whole chain, every backend the migration used holds its version. */
  lemma CommitRecordsEverywhere(cfg: Config, s: State, steps: seq<Step>, p: PodId, b: Backend)
    requires WellFormed(cfg) && Init(cfg, s) && Run(cfg, s, steps)
    requires p < |End(cfg, s, steps).pods| == |cfg.chains| && Enabled(cfg, End(cfg, s, steps), Act(p, EndCommit))
    requires var e := End(cfg, s, steps); b in cfg.chains[p] && b in e.pods[p].used
    ensures var e := End(cfg, s, steps); e.pods[p].i < |cfg.keys[p]| && cfg.keys[p][e.pods[p].i] in Versions(e, b)
  {
    HistoryRun(cfg, s, steps);
    var e, chain := End(cfg, s, steps), cfg.chains[p];
    assert PodInv(cfg, e, p);
    var k :| 0 <= k < |chain| && chain[k] == b;
  }
}
