/**
 runMigrations of pkg/gofr/migration/migration.go as the loop it is, over the backends' records, with
 every way a migration can end.
 */
module MigrationRunner {
  import opened MigrationProtocol
  import opened MigrationHistory
  import opened MigrationRepeats

  /** How one migration goes. */
  datatype Outcome =
    | LockLostBefore                                // ctx was cancelled before UP was called
    | LockLostAfter                                 // ctx was cancelled while UP ran
    | UpFails
    | CommitFails(used: set<Backend>, at: nat)      // the commit of the chain's at-th backend failed
    | Succeeds(used: set<Backend>)

  function VersionsIn(recorded: map<Backend, set<int>>, b: Backend): set<int> {
    if b in recorded then recorded[b] else {}
  }

  class Store {
    var recorded: map<Backend, set<int>>
    var executed: seq<int>

    constructor (recorded: map<Backend, set<int>>)
      ensures this.recorded == recorded && executed == []
    {
      this.recorded, executed := recorded, [];
    }

    function Of(b: Backend): set<int>
      reads this
    {
      VersionsIn(recorded, b)
    }

    /** commitMigration down the chain, stopping at the backend that fails. */
    method Commit(chain: seq<Backend>, version: int, used: set<Backend>, upTo: nat)
      requires upTo <= |chain|
      modifies `recorded
      ensures forall b :: Of(b) == old(Of(b)) + if b in used && b in chain[..upTo] then {version} else {}
    {
      for j := 0 to upTo
        invariant forall b :: Of(b) == old(Of(b)) + if b in used && b in chain[..j] then {version} else {}
      {
        assert chain[..j + 1] == chain[..j] + [chain[j]];
        if chain[j] in used {
          recorded := recorded[chain[j] := Of(chain[j]) + {version}];
        }
      }
    }

    /**
     Executes the due keys in order and stops at the first that does not succeed: before it when the
     lock was lost by then, behind it otherwise. A key that succeeded is then in every backend of the chain
     it used, one whose commit failed in those the commit had come by, and nothing else is added.
     */
    method RunMigrations(chain: seq<Backend>, keys: seq<int>, last: int, outcome: int -> Outcome)
      returns (finished: bool, n: nat)
      requires Ascending(keys)
      modifies this
      ensures n == StopAt(keys, last, outcome, 0) && executed == old(executed) + Due(keys, last, n)
      ensures finished <==> forall i | 0 <= i < |keys| && keys[i] > last :: outcome(keys[i]).Succeeds?
      ensures finished ==> n == |keys|
      ensures forall i | 0 <= i < n - 1 && keys[i] > last :: outcome(keys[i]).Succeeds?
      ensures !finished ==> StoppedBefore(keys, last, outcome, n) || StoppedBehind(keys, last, outcome, n)
      ensures forall b :: VersionsIn(old(recorded), b) <= VersionsIn(recorded, b)
      ensures forall b, v | v in VersionsIn(recorded, b) && v !in VersionsIn(old(recorded), b) ::
                v in Due(keys, last, n) && (outcome(v).Succeeds? || outcome(v).CommitFails?) && b in outcome(v).used
      ensures forall b, v | v in Due(keys, last, n) && outcome(v).Succeeds? && b in outcome(v).used ::
                v in VersionsIn(recorded, b) <==> v in VersionsIn(old(recorded), b) || b in chain
      ensures forall b, v | v in Due(keys, last, n) && outcome(v).CommitFails? && b in outcome(v).used ::
                v in VersionsIn(recorded, b) <==>
                  v in VersionsIn(old(recorded), b) || exists j | 0 <= j < |chain| && j < outcome(v).at :: chain[j] == b
    {
      hide RecordsOf, Due, StopAt, VersionsIn;
      ghost var was := recorded;
      NoKeys(recorded, chain, keys, last, outcome);
      for i := 0 to |keys|
        invariant executed == old(executed) + Due(keys, last, i)
        invariant forall k | 0 <= k < i && keys[k] > last :: outcome(keys[k]).Succeeds?
        invariant RecordsOf(was, recorded, chain, keys, last, outcome, i)
      {
        NextDue(keys, last, i);
        var o := outcome(keys[i]);
        if keys[i] <= last || !(o.Succeeds? || o.CommitFails?) {
          NothingWritten(was, recorded, chain, keys, last, outcome, i);
        }
        if keys[i] <= last {
          continue;
        }
        StopsHere(keys, last, outcome, i);
        if o.LockLostBefore? {
          Explains(was, recorded, chain, keys, last, outcome, i);
          return false, i;
        }
        executed := executed + [keys[i]];
        if o.LockLostAfter? || o.UpFails? {
          Explains(was, recorded, chain, keys, last, outcome, i + 1);
          return false, i + 1;
        }
        ghost var before := recorded;
        if o.CommitFails? {
          Commit(chain, keys[i], o.used, if o.at <= |chain| then o.at else |chain|);
          CommitWritten(was, before, recorded, chain, keys, last, outcome, i);
          Explains(was, recorded, chain, keys, last, outcome, i + 1);
          return false, i + 1;
        }
        Commit(chain, keys[i], o.used, |chain|);
        CommitWritten(was, before, recorded, chain, keys, last, outcome, i);
      }
      StopsHere(keys, last, outcome, |keys|);
      Explains(was, recorded, chain, keys, last, outcome, |keys|);
      return true, |keys|;
    }
  }

  /** The lock was lost before the due key at position n was executed. */
  predicate StoppedBefore(keys: seq<int>, last: int, outcome: int -> Outcome, n: nat) {
    && n < |keys| && keys[n] > last && outcome(keys[n]).LockLostBefore?
    && forall i | 0 <= i < n && keys[i] > last :: outcome(keys[i]).Succeeds?
  }

  /** The last key executed was due and went wrong. */
  predicate StoppedBehind(keys: seq<int>, last: int, outcome: int -> Outcome, n: nat)
    requires n <= |keys|
  {
    n > 0 && keys[n - 1] > last && !outcome(keys[n - 1]).Succeeds? && !outcome(keys[n - 1]).LockLostBefore?
  }

  /** An executed migration with this outcome leaves its version in backend b. */
  predicate Writes(chain: seq<Backend>, o: Outcome, b: Backend) {
    match o
    case Succeeds(used) => b in used && b in chain
    case CommitFails(used, at) => b in used && b in chain[..if at <= |chain| then at else |chain|]
    case _ => false
  }

  /** The due keys among the first n that their outcome writes to b. */
  ghost function Written(
    chain: seq<Backend>, keys: seq<int>, last: int, outcome: int -> Outcome, n: nat, b: Backend
  ): set<int>
    requires n <= |keys|
  {
    if n == 0 then {}
    else
      Written(chain, keys, last, outcome, n - 1, b)
      + if keys[n - 1] > last && Writes(chain, outcome(keys[n - 1]), b) then {keys[n - 1]} else {}
  }

  /**
   A key is recorded in a backend if and only if it was due, the backend is one the migration used, and
   either the migration succeeded and the backend is on the chain, or its commit failed at a later place.
   */
  lemma {:induction false} WrittenIff(chain: seq<Backend>, keys: seq<int>, last: int, outcome: int -> Outcome, n: nat)
    requires n <= |keys|
    ensures forall b, v :: v in Written(chain, keys, last, outcome, n, b) <==>
              || (v in Due(keys, last, n) && outcome(v).Succeeds? && b in outcome(v).used && b in chain)
              || (v in Due(keys, last, n) && outcome(v).CommitFails? && b in outcome(v).used
                  && exists j | 0 <= j < |chain| && j < outcome(v).at :: chain[j] == b)
  {
    if n > 0 {
      WrittenIff(chain, keys, last, outcome, n - 1);
      forall b ensures Writes(chain, outcome(keys[n - 1]), b) <==>
                         || (outcome(keys[n - 1]).Succeeds? && b in outcome(keys[n - 1]).used && b in chain)
                         || (outcome(keys[n - 1]).CommitFails? && b in outcome(keys[n - 1]).used
                             && exists j | 0 <= j < |chain| && j < outcome(keys[n - 1]).at :: chain[j] == b)
      {
        WritesIff(chain, outcome(keys[n - 1]), b);
      }
    }
  }

  /** The records now are those there were and what the first n keys wrote. */
  ghost predicate RecordsOf(
    was: map<Backend, set<int>>, now: map<Backend, set<int>>,
    chain: seq<Backend>, keys: seq<int>, last: int, outcome: int -> Outcome, n: nat
  )
    requires n <= |keys|
  {
    forall b :: VersionsIn(now, b) == VersionsIn(was, b) + Written(chain, keys, last, outcome, n, b)
  }

  lemma Explains(
    was: map<Backend, set<int>>, now: map<Backend, set<int>>,
    chain: seq<Backend>, keys: seq<int>, last: int, outcome: int -> Outcome, n: nat
  )
    requires n <= |keys| && RecordsOf(was, now, chain, keys, last, outcome, n)
    ensures forall b :: VersionsIn(was, b) <= VersionsIn(now, b)
    ensures forall b, v | v in VersionsIn(now, b) && v !in VersionsIn(was, b) ::
              v in Due(keys, last, n) && (outcome(v).Succeeds? || outcome(v).CommitFails?) && b in outcome(v).used
    ensures forall b, v | v in Due(keys, last, n) && outcome(v).Succeeds? && b in outcome(v).used ::
              v in VersionsIn(now, b) <==> v in VersionsIn(was, b) || b in chain
    ensures forall b, v | v in Due(keys, last, n) && outcome(v).CommitFails? && b in outcome(v).used ::
              v in VersionsIn(now, b) <==>
                v in VersionsIn(was, b) || exists j | 0 <= j < |chain| && j < outcome(v).at :: chain[j] == b
  {
    hide Written, Due, VersionsIn;
    WrittenIff(chain, keys, last, outcome, n);
  }

  lemma NothingWritten(
    was: map<Backend, set<int>>, now: map<Backend, set<int>>,
    chain: seq<Backend>, keys: seq<int>, last: int, outcome: int -> Outcome, i: nat
  )
    requires i < |keys| && RecordsOf(was, now, chain, keys, last, outcome, i)
    requires keys[i] <= last || !(outcome(keys[i]).Succeeds? || outcome(keys[i]).CommitFails?)
    ensures RecordsOf(was, now, chain, keys, last, outcome, i + 1)
  {
    hide Written, Writes;
    NextKey(chain, keys, last, outcome, i);
  }

  lemma CommitWritten(
    was: map<Backend, set<int>>, before: map<Backend, set<int>>, now: map<Backend, set<int>>,
    chain: seq<Backend>, keys: seq<int>, last: int, outcome: int -> Outcome, i: nat
  )
    requires i < |keys| && keys[i] > last && RecordsOf(was, before, chain, keys, last, outcome, i)
    requires outcome(keys[i]).Succeeds? || outcome(keys[i]).CommitFails?
    requires var o := outcome(keys[i]);
             var upTo := if o.CommitFails? && o.at <= |chain| then o.at else |chain|;
             forall b :: VersionsIn(now, b) ==
                           VersionsIn(before, b) + if b in o.used && b in chain[..upTo] then {keys[i]} else {}
    ensures RecordsOf(was, now, chain, keys, last, outcome, i + 1)
  {
    hide Written, Writes;
    NextKey(chain, keys, last, outcome, i);
  }

  lemma WritesIff(chain: seq<Backend>, o: Outcome, b: Backend)
    ensures Writes(chain, o, b) <==>
              || (o.Succeeds? && b in o.used && b in chain)
              || (o.CommitFails? && b in o.used && exists j | 0 <= j < |chain| && j < o.at :: chain[j] == b)
  {
    if o.CommitFails? {
      var m := if o.at <= |chain| then o.at else |chain|;
      if j :| 0 <= j < |chain| && j < o.at && chain[j] == b { assert chain[..m][j] == b; }
    }
  }

  lemma NextKey(chain: seq<Backend>, keys: seq<int>, last: int, outcome: int -> Outcome, i: nat)
    requires i < |keys|
    ensures Due(keys, last, i + 1) == Due(keys, last, i) + if keys[i] > last then [keys[i]] else []
    ensures forall b :: Written(chain, keys, last, outcome, i + 1, b) ==
                          Written(chain, keys, last, outcome, i, b)
                          + if keys[i] > last && Writes(chain, outcome(keys[i]), b) then {keys[i]} else {}
    ensures var o := outcome(keys[i]);
            var upTo := if o.CommitFails? && o.at <= |chain| then o.at else |chain|;
            forall b :: Writes(chain, o, b) <==> (o.Succeeds? || o.CommitFails?) && b in o.used && b in chain[..upTo]
  {
    assert chain[..|chain|] == chain;
  }

  // ----- The loop as steps of the protocol -----

  /** Where the loop over the keys from position i on stops. */
  function StopAt(keys: seq<int>, last: int, outcome: int -> Outcome, i: nat): (n: nat)
    requires i <= |keys|
    ensures i <= n <= |keys|
    decreases |keys| - i
  {
    if i == |keys| then i
    else if keys[i] <= last || outcome(keys[i]).Succeeds? then StopAt(keys, last, outcome, i + 1)
    else if outcome(keys[i]).LockLostBefore? then i
    else i + 1
  }

  lemma {:induction false} StopsFrom(keys: seq<int>, last: int, outcome: int -> Outcome, i: nat, k: nat)
    requires i <= k <= |keys| && forall m | i <= m < k && keys[m] > last :: outcome(keys[m]).Succeeds?
    ensures StopAt(keys, last, outcome, i) == StopAt(keys, last, outcome, k)
    decreases k - i
  {
    if i < k { StopsFrom(keys, last, outcome, i + 1, k); }
  }

  lemma StopsHere(keys: seq<int>, last: int, outcome: int -> Outcome, k: nat)
    requires k <= |keys| && forall m | 0 <= m < k && keys[m] > last :: outcome(keys[m]).Succeeds?
    ensures k == |keys| ==> StopAt(keys, last, outcome, 0) == k
    ensures k < |keys| && keys[k] > last && !outcome(keys[k]).Succeeds? ==>
              StopAt(keys, last, outcome, 0) == if outcome(keys[k]).LockLostBefore? then k else k + 1
  {
    StopsFrom(keys, last, outcome, 0, k);
  }

  lemma NextDue(keys: seq<int>, last: int, i: nat)
    requires i < |keys|
    ensures Due(keys, last, i + 1) == Due(keys, last, i) + if keys[i] > last then [keys[i]] else []
  {
  }

  lemma NoKeys(
    recorded: map<Backend, set<int>>, chain: seq<Backend>, keys: seq<int>, last: int, outcome: int -> Outcome
  )
    ensures Due(keys, last, 0) == [] && RecordsOf(recorded, recorded, chain, keys, last, outcome, 0)
  {
  }

  /** Since base, p has executed the due ones of its first n keys and recorded what they write, and no more. */
  ghost predicate HasRun(cfg: Config, base: State, e: State, p: PodId, last: int, outcome: int -> Outcome, n: nat)
    requires p < |cfg.chains| && p < |cfg.keys| && n <= |cfg.keys[p]|
  {
    && |e.pods| == |base.pods| && (forall q | 0 <= q < |e.pods| && q != p :: e.pods[q] == base.pods[q])
    && e.rows == base.rows && e.clock == base.clock
    && ExecsOf(e.log, p) == ExecsOf(base.log, p) + Due(cfg.keys[p], last, n)
    && forall b :: Versions(e, b) == Versions(base, b) + Written(cfg.chains[p], cfg.keys[p], last, outcome, n, b)
  }

  /** What a migration in progress has recorded by the time its commit is at position m. */
  function Committed(chain: seq<Backend>, m: nat, used: set<Backend>, version: int, b: Backend): set<int>
    requires m <= |chain|
  {
    if b in used && b in chain[..m] then {version} else {}
  }

  /** The commit walks down to position m, recording where the migration was. */
  lemma {:induction false} CommitTo(cfg: Config, s: State, before: seq<Step>, e: State, p: PodId, mid: State, m: nat)
    returns (steps: seq<Step>, e': State)
    requires Reaches(cfg, s, before, mid) && p < |mid.pods| && mid.pods[p].Committing? && mid.pods[p].i < |cfg.keys[p]|
    requires mid.pods[p].j <= m <= |cfg.chains[p]| && SoFar(cfg, e, mid, p, mid.pods[p])
    ensures Reaches(cfg, s, steps, e')
    ensures SoFar(cfg, e, e', p, Committing(mid.pods[p].i, mid.pods[p].last, m, mid.pods[p].used))
    decreases m - mid.pods[p].j
  {
    hide Run, End;
    var ph := mid.pods[p];
    if ph.j == m {
      steps, e' := before, mid;
    } else {
      ActNext(cfg, s, before, mid, p, Commit);
      var next := Apply(cfg, mid, Act(p, Commit));
      CommitOne(cfg, e, mid, p);
      steps, e' := CommitTo(cfg, s, before + [Act(p, Commit)], e, p, next, m);
    }
  }

  /** mid is e with p at ph in its commit, and the records of that commit so far. */
  ghost predicate SoFar(cfg: Config, e: State, mid: State, p: PodId, ph: Phase) {
    && p < |e.pods| == |cfg.chains| == |cfg.keys| && ph.Committing? && ph.i < |cfg.keys[p]| && ph.j <= |cfg.chains[p]|
    && mid.pods == e.pods[p := ph] && mid.rows == e.rows && mid.clock == e.clock
    && ExecsOf(mid.log, p) == ExecsOf(e.log, p)
    && forall b :: Versions(mid, b) == Versions(e, b) + Committed(cfg.chains[p], ph.j, ph.used, cfg.keys[p][ph.i], b)
  }

  lemma {:induction false} CommitOne(cfg: Config, e: State, mid: State, p: PodId)
    requires p < |mid.pods| && SoFar(cfg, e, mid, p, mid.pods[p]) && mid.pods[p].j < |cfg.chains[p]|
    ensures Enabled(cfg, mid, Act(p, Commit))
    ensures var ph, next := mid.pods[p], Apply(cfg, mid, Act(p, Commit));
            SoFar(cfg, e, next, p, Committing(ph.i, ph.last, ph.j + 1, ph.used))
  {
    hide ExecsOf, Versions;
    var ph, chain := mid.pods[p], cfg.chains[p];
    var next := Apply(cfg, mid, Act(p, Commit));
    assert chain[..ph.j + 1] == chain[..ph.j] + [chain[ph.j]];
    ExecsStep(cfg, mid, Act(p, Commit), p);
    forall b
      ensures Versions(next, b) ==
                Versions(mid, b) + if b == chain[ph.j] && b in ph.used then {cfg.keys[p][ph.i]} else {}
    {
      CommitAdds(cfg, mid, p, b);
    }
  }

  lemma CommitAdds(cfg: Config, mid: State, p: PodId, b: Backend)
    requires Enabled(cfg, mid, Act(p, Commit))
    ensures var ph := mid.pods[p];
            Versions(Apply(cfg, mid, Act(p, Commit)), b) ==
              Versions(mid, b) + if b == cfg.chains[p][ph.j] && b in ph.used then {cfg.keys[p][ph.i]} else {}
  {
  }

  /** Execute and the commit down to position m, for a due key. */
  lemma ExecuteAndCommit(cfg: Config, s: State, before: seq<Step>, e: State, p: PodId, used: set<Backend>, m: nat)
    returns (steps: seq<Step>, e': State)
    requires Reaches(cfg, s, before, e) && p < |e.pods| && e.pods[p].Running? && e.pods[p].i < |cfg.keys[p]|
    requires cfg.keys[p][e.pods[p].i] > e.pods[p].last && m <= |cfg.chains[p]|
    ensures Reaches(cfg, s, steps, e')
    ensures var ph := e.pods[p];
            && e'.pods == e.pods[p := Committing(ph.i, ph.last, m, used)] && e'.rows == e.rows && e'.clock == e.clock
            && ExecsOf(e'.log, p) == ExecsOf(e.log, p) + [cfg.keys[p][ph.i]]
            && forall b :: Versions(e', b) == Versions(e, b) + Committed(cfg.chains[p], m, used, cfg.keys[p][ph.i], b)
  {
    hide Run, End, ExecsOf;
    ActNext(cfg, s, before, e, p, Execute);
    ExecsStep(cfg, e, Act(p, Execute), p);
    var e1 := Apply(cfg, e, Act(p, Execute));
    ActNext(cfg, s, before + [Act(p, Execute)], e1, p, BeginCommit(used));
    ExecsStep(cfg, e1, Act(p, BeginCommit(used)), p);
    var e2 := Apply(cfg, e1, Act(p, BeginCommit(used)));
    JustBegun(cfg, e2, p);
    assert forall b :: Versions(e2, b) == Versions(e, b);
    steps, e' := CommitTo(cfg, s, before + [Act(p, Execute)] + [Act(p, BeginCommit(used))], e2, p, e2, m);
    assert e'.pods == e.pods[p := Committing(e.pods[p].i, e.pods[p].last, m, used)];
  }

  lemma JustBegun(cfg: Config, e: State, p: PodId)
    requires p < |e.pods| == |cfg.chains| == |cfg.keys| && e.pods[p].Committing? && e.pods[p].j == 0
    requires e.pods[p].i < |cfg.keys[p]|
    ensures SoFar(cfg, e, e, p, e.pods[p])
  {
  }

  /** The loop goes on behind a key that is not due or that succeeded. */
  predicate GoesOn(keys: seq<int>, last: int, outcome: int -> Outcome, i: nat)
    requires i < |keys|
  {
    keys[i] <= last || outcome(keys[i]).Succeeds?
  }

  /** A due key whose migration gets as far as its commit. */
  lemma CommitSteps(cfg: Config, s: State, before: seq<Step>, base: State, e: State, p: PodId, outcome: int -> Outcome)
    returns (steps: seq<Step>, e': State)
    requires Reaches(cfg, s, before, e) && p < |e.pods| && e.pods[p].Running? && e.pods[p].i < |cfg.keys[p]|
    requires HasRun(cfg, base, e, p, e.pods[p].last, outcome, e.pods[p].i) && cfg.keys[p][e.pods[p].i] > e.pods[p].last
    requires var o := outcome(cfg.keys[p][e.pods[p].i]); o.Succeeds? || o.CommitFails?
    ensures Reaches(cfg, s, steps, e') && p < |e'.pods|
    ensures var i, last, keys := e.pods[p].i, e.pods[p].last, cfg.keys[p];
            && e'.pods[p] == (if outcome(keys[i]).Succeeds? then Running(i + 1, last) else Unlocking(0))
            && HasRun(cfg, base, e', p, last, outcome, i + 1)
  {
    hide Run, End, Due, Written, Writes, ExecsOf;
    var i, last, chain, keys := e.pods[p].i, e.pods[p].last, cfg.chains[p], cfg.keys[p];
    NextKey(chain, keys, last, outcome, i);
    var o := outcome(keys[i]);
    var m := if o.CommitFails? && o.at <= |chain| then o.at else |chain|;
    var mid;
    steps, mid := ExecuteAndCommit(cfg, s, before, e, p, o.used, m);
    var action := if o.Succeeds? then EndCommit else Leave;
    ActNext(cfg, s, steps, mid, p, action);
    ExecsStep(cfg, mid, Act(p, action), p);
    steps, e' := steps + [Act(p, action)], Apply(cfg, mid, Act(p, action));
    forall b ensures Versions(e', b) == Versions(base, b) + Written(chain, keys, last, outcome, i + 1, b) {
      assert Versions(e', b) == Versions(mid, b);
    }
  }

  /** A due key whose migration fails, or loses its lock. */
  lemma FailSteps(cfg: Config, s: State, before: seq<Step>, base: State, e: State, p: PodId, outcome: int -> Outcome)
    returns (steps: seq<Step>, e': State)
    requires Reaches(cfg, s, before, e) && p < |e.pods| && e.pods[p].Running? && e.pods[p].i < |cfg.keys[p]|
    requires HasRun(cfg, base, e, p, e.pods[p].last, outcome, e.pods[p].i) && cfg.keys[p][e.pods[p].i] > e.pods[p].last
    requires var o := outcome(cfg.keys[p][e.pods[p].i]); o.LockLostAfter? || o.UpFails?
    ensures Reaches(cfg, s, steps, e') && p < |e'.pods|
    ensures e'.pods[p] == Unlocking(0) && HasRun(cfg, base, e', p, e.pods[p].last, outcome, e.pods[p].i + 1)
  {
    hide Run, End, Due, Written, Writes, ExecsOf;
    NextKey(cfg.chains[p], cfg.keys[p], e.pods[p].last, outcome, e.pods[p].i);
    ActNext(cfg, s, before, e, p, Execute);
    ExecsStep(cfg, e, Act(p, Execute), p);
    var mid := Apply(cfg, e, Act(p, Execute));
    ActNext(cfg, s, before + [Act(p, Execute)], mid, p, Leave);
    ExecsStep(cfg, mid, Act(p, Leave), p);
    steps, e' := before + [Act(p, Execute)] + [Act(p, Leave)], Apply(cfg, mid, Act(p, Leave));
  }

  /** One key of the loop, with its outcome, as steps of the protocol. */
  lemma KeySteps(cfg: Config, s: State, before: seq<Step>, base: State, e: State, p: PodId, outcome: int -> Outcome)
    returns (steps: seq<Step>, e': State)
    requires Reaches(cfg, s, before, e) && p < |e.pods| && e.pods[p].Running? && e.pods[p].i < |cfg.keys[p]|
    requires HasRun(cfg, base, e, p, e.pods[p].last, outcome, e.pods[p].i)
    ensures Reaches(cfg, s, steps, e') && p < |e'.pods|
    ensures var i, last, keys := e.pods[p].i, e.pods[p].last, cfg.keys[p];
            && e'.pods[p] == (if GoesOn(keys, last, outcome, i) then Running(i + 1, last) else Unlocking(0))
            && HasRun(cfg, base, e', p, last, outcome,
                      if keys[i] > last && outcome(keys[i]).LockLostBefore? then i else i + 1)
  {
    hide Run, End, Due, Written, Writes, ExecsOf;
    var i, last, keys := e.pods[p].i, e.pods[p].last, cfg.keys[p];
    var o := outcome(keys[i]);
    if keys[i] <= last || o.LockLostBefore? {
      NextKey(cfg.chains[p], keys, last, outcome, i);
      var action := if keys[i] <= last then SkipKey else Leave;
      ActNext(cfg, s, before, e, p, action);
      ExecsStep(cfg, e, Act(p, action), p);
      steps, e' := before + [Act(p, action)], Apply(cfg, e, Act(p, action));
    } else if o.LockLostAfter? || o.UpFails? {
      hide HasRun;
      steps, e' := FailSteps(cfg, s, before, base, e, p, outcome);
    } else {
      hide HasRun;
      steps, e' := CommitSteps(cfg, s, before, base, e, p, outcome);
    }
  }

  /**
   The loop is what the protocol says: from every reachable state in which p is about to start on its keys,
   and for every outcome of its migrations, the protocol has a run that executes the same keys, leaves the
   same records in every backend, and stops where the loop stops.
   */
  lemma {:induction false} LoopIsRun(
    cfg: Config, s: State, before: seq<Step>, base: State, e: State, p: PodId, outcome: int -> Outcome
  )
    returns (steps: seq<Step>, e': State)
    requires Reaches(cfg, s, before, e) && p < |e.pods| && e.pods[p].Running? && e.pods[p].i <= |cfg.keys[p]|
    requires HasRun(cfg, base, e, p, e.pods[p].last, outcome, e.pods[p].i)
    ensures Reaches(cfg, s, steps, e') && p < |e'.pods|
    ensures var last, keys := e.pods[p].last, cfg.keys[p];
            && HasRun(cfg, base, e', p, last, outcome, StopAt(keys, last, outcome, e.pods[p].i))
            && e'.pods[p] == if forall k | e.pods[p].i <= k < |keys| :: GoesOn(keys, last, outcome, k)
                             then Running(|keys|, last) else Unlocking(0)
    decreases |cfg.keys[p]| - e.pods[p].i
  {
    hide Run, End, HasRun;
    var i, last, keys := e.pods[p].i, e.pods[p].last, cfg.keys[p];
    if i == |keys| {
      steps, e' := before, e;
    } else {
      steps, e' := KeySteps(cfg, s, before, base, e, p, outcome);
      if GoesOn(keys, last, outcome, i) { steps, e' := LoopIsRun(cfg, s, steps, base, e', p, outcome); }
    }
  }
}
