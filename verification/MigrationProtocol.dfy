/**
 Distributed migrations of pkg/gofr/migration: any number of pods, each walking its own sorted chain
 of backends, as interleaved atomic steps over shared lock rows and version records with one clock.
 */
module MigrationProtocol {
  import opened FloatReading

  /** Backends are numbered in the order of their identifiers, the order initializeDatasources sorts by. */
  type Backend = nat
  type PodId = nat

  /** defaultLockTTL, in seconds. */
  const LOCK_TTL := 15

  /**
   lockers: the backends whose lock is real; the others only delegate.
   floats: the backends that hand versions back as 64-bit floats; the others hand them back exactly.
   chains[p], keys[p]: the backends and the migration versions pod p was started with.
   */
  datatype Config = Config(lockers: set<Backend>, floats: set<Backend>, chains: seq<seq<Backend>>, keys: seq<seq<int>>)

  datatype Row = Row(owner: PodId, expires: int)

  datatype Phase =
    | Idle
    | Locking(j: nat)                                        // owns the locks of chain[..j]
    | Reading(j: nat, applied: set<int>)                     // has read chain[..j] under the lock
    | Running(i: nat, last: int)                             // keys[i] is next
    | Executed(i: nat, last: int)                            // keys[i] has run, nothing recorded yet
    | Committing(i: nat, last: int, j: nat, used: set<Backend>) // chain[..j] has been committed
    | Unlocking(j: nat)                                      // chain[..j] has been released
    | Exited

  datatype Event = Exec(pod: PodId, version: int) | Record(pod: PodId, backend: Backend, version: int)

  datatype State = State(
    clock: int,
    rows: map<Backend, Row>,
    recorded: map<Backend, set<int>>,
    pods: seq<Phase>,
    log: seq<Event>
  )

  predicate Ascending(s: seq<int>) {
    forall x, y | 0 <= x < y < |s| :: s[x] < s[y]
  }

  predicate WellFormed(cfg: Config) {
    && |cfg.chains| == |cfg.keys|
    && (forall p | 0 <= p < |cfg.chains| :: Ascending(cfg.chains[p]))
    && (forall p | 0 <= p < |cfg.keys| :: Ascending(cfg.keys[p]))
  }

  function Versions(s: State, b: Backend): set<int> {
    if b in s.recorded then s.recorded[b] else {}
  }

  /** Version v as backend b hands it back. */
  function AsRead(cfg: Config, b: Backend, v: int): int {
    if b in cfg.floats then ReadBack(v) else v
  }

  /** What getAppliedMigrations gets from one backend. */
  function ReadFrom(cfg: Config, s: State, b: Backend): set<int> {
    set v | v in Versions(s, b) :: AsRead(cfg, b, v)
  }

  function Owns(s: State, p: PodId, b: Backend): bool {
    b in s.rows && s.rows[b].owner == p
  }

  predicate InCritical(ph: Phase) {
    ph.Reading? || ph.Running? || ph.Executed? || ph.Committing?
  }

  /** lastAppliedMigration: the highest applied version, or 0. */
  predicate IsLast(applied: set<int>, last: int) {
    0 <= last && (last == 0 || last in applied) && forall v | v in applied :: v <= last
  }

  // ----- The steps -----

  /** What a pod's own control flow does next. */
  datatype Action =
    | Start                              // the pre-check saw something new
    | Pass                               // lock of a backend that only delegates
    | Insert(expires: int)               // INSERT or SETNX succeeds
    | GiveUp                             // lock returns an error: clean up
    | Enter                              // the whole chain is locked
    | Read                               // getAppliedMigrations of one backend
    | Decide(last: int)
    | SkipKey
    | Execute                            // UP is called
    | BeginCommit(used: set<Backend>)
    | Commit                             // commitMigration of one backend
    | EndCommit
    | Leave                              // done or failed: the deferred unlock begins
    | Release                            // unlock of one backend
    | ReleaseFails(deleted: bool)        // its statement reports an error, having deleted the row or not
    | Crash                              // Fatalf, or the process dies

  datatype Step =
    | Tick(d: nat)
    | Expire(b: Backend, now: int)                  // a clean-up statement, or the server, drops a stale row
    | Refresh(p: PodId, b: Backend, expires: int)   // a tick of startRefresh, at any time
    | Act(p: PodId, action: Action)

  predicate Enabled(cfg: Config, s: State, step: Step) {
    match step
    case Tick(_) => true
    case Expire(b, now) => now <= s.clock && b in s.rows && s.rows[b].expires <= now
    case Refresh(p, b, expires) => Owns(s, p, b) && expires <= s.clock + LOCK_TTL
    case Act(p, action) =>
      p < |s.pods| && p < |cfg.chains| && p < |cfg.keys| && Ready(cfg, s, p, s.pods[p], action)
  }

  predicate Ready(cfg: Config, s: State, p: PodId, ph: Phase, action: Action)
    requires p < |s.pods| && p < |cfg.chains| && p < |cfg.keys|
  {
    var chain, keys := cfg.chains[p], cfg.keys[p];
    match action
    case Start => ph.Idle?
    case Pass => ph.Locking? && ph.j < |chain| && chain[ph.j] !in cfg.lockers
    case Insert(expires) =>
      && ph.Locking? && ph.j < |chain| && chain[ph.j] in cfg.lockers
      && chain[ph.j] !in s.rows && expires <= s.clock + LOCK_TTL
    case GiveUp => ph.Locking?
    case Enter => ph.Locking? && ph.j == |chain|
    case Read => ph.Reading? && ph.j < |chain|
    case Decide(last) => ph.Reading? && ph.j == |chain| && IsLast(ph.applied, last)
    case SkipKey => ph.Running? && ph.i < |keys| && keys[ph.i] <= ph.last
    case Execute => ph.Running? && ph.i < |keys| && keys[ph.i] > ph.last
    case BeginCommit(_) => ph.Executed?
    case Commit => ph.Committing? && ph.i < |keys| && ph.j < |chain|
    case EndCommit => ph.Committing? && ph.j == |chain|
    case Leave => InCritical(ph)
    case Release => ph.Unlocking? && ph.j < |chain|
    case ReleaseFails(_) => ph.Unlocking? && ph.j < |chain| && chain[ph.j] in cfg.lockers
    case Crash => true
  }

  function To(s: State, p: PodId, ph: Phase): State
    requires p < |s.pods|
  {
    s.(pods := s.pods[p := ph])
  }

  function Apply(cfg: Config, s: State, step: Step): State
    requires Enabled(cfg, s, step)
  {
    match step
    case Tick(d) => s.(clock := s.clock + d)
    case Expire(b, _) => s.(rows := s.rows - {b})
    case Refresh(p, b, expires) => s.(rows := s.rows[b := Row(p, expires)])
    case Act(p, action) => Perform(cfg, s, p, s.pods[p], action)
  }

  function Perform(cfg: Config, s: State, p: PodId, ph: Phase, action: Action): State
    requires p < |s.pods| && p < |cfg.chains| && p < |cfg.keys| && Ready(cfg, s, p, ph, action)
  {
    var chain, keys := cfg.chains[p], cfg.keys[p];
    match action
    case Start => To(s, p, Locking(0))
    case Pass => To(s, p, Locking(ph.j + 1))
    case Insert(expires) => To(s.(rows := s.rows[chain[ph.j] := Row(p, expires)]), p, Locking(ph.j + 1))
    case GiveUp => To(s, p, Unlocking(0))
    case Enter => To(s, p, Reading(0, {}))
    case Read => To(s, p, Reading(ph.j + 1, ph.applied + ReadFrom(cfg, s, chain[ph.j])))
    case Decide(last) => To(s, p, Running(0, last))
    case SkipKey => To(s, p, Running(ph.i + 1, ph.last))
    case Execute => To(s.(log := s.log + [Exec(p, keys[ph.i])]), p, Executed(ph.i, ph.last))
    case BeginCommit(used) => To(s, p, Committing(ph.i, ph.last, 0, used))
    case Commit => CommitAt(s, p, chain[ph.j], keys[ph.i], ph)
    case EndCommit => To(s, p, Running(ph.i + 1, ph.last))
    case Leave => To(s, p, Unlocking(0))
    case Release => ReleaseAt(cfg, s, p, chain[ph.j], ph.j)
    case ReleaseFails(deleted) => FailAt(s, p, chain[ph.j], deleted)
    case Crash => To(s, p, Exited)
  }

  /** Only the backends the migration touched get a record of it. */
  function CommitAt(s: State, p: PodId, b: Backend, version: int, ph: Phase): State
    requires p < |s.pods| && ph.Committing?
  {
    var next := Committing(ph.i, ph.last, ph.j + 1, ph.used);
    if b !in ph.used then To(s, p, next)
    else To(s.(recorded := s.recorded[b := Versions(s, b) + {version}],
               log := s.log + [Record(p, b, version)]), p, next)
  }

  /** One unlock call: deletes the row if it carries p, and otherwise stops the whole unlock. */
  function ReleaseAt(cfg: Config, s: State, p: PodId, b: Backend, j: nat): State
    requires p < |s.pods|
  {
    if b !in cfg.lockers then To(s, p, Unlocking(j + 1))
    else if Owns(s, p, b) then To(s.(rows := s.rows - {b}), p, Unlocking(j + 1))
    else To(s, p, Exited)
  }

  /** An unlock call whose statement reports an error stops the unlock too, whether or not it took effect. */
  function FailAt(s: State, p: PodId, b: Backend, deleted: bool): State
    requires p < |s.pods|
  {
    To(if deleted && Owns(s, p, b) then s.(rows := s.rows - {b}) else s, p, Exited)
  }

  // ----- The log -----

  /** The event a step logs, if any. */
  function Emitted(cfg: Config, s: State, step: Step): seq<Event>
    requires Enabled(cfg, s, step)
  {
    if !step.Act? then []
    else
      var p, ph := step.p, s.pods[step.p];
      if step.action.Execute? then [Exec(p, cfg.keys[p][ph.i])]
      else if step.action.Commit? && cfg.chains[p][ph.j] in ph.used then
        [Record(p, cfg.chains[p][ph.j], cfg.keys[p][ph.i])]
      else []
  }

  lemma LogGrows(cfg: Config, s: State, step: Step)
    requires Enabled(cfg, s, step)
    ensures Apply(cfg, s, step).log == s.log + Emitted(cfg, s, step) && |Apply(cfg, s, step).pods| == |s.pods|
  {
  }

  // ----- Runs -----

  predicate Init(cfg: Config, s: State) {
    && |s.pods| == |cfg.chains|
    && (forall p | 0 <= p < |s.pods| :: s.pods[p].Idle?)
    && s.log == []
  }

  /** The part of its chain whose locks a pod counts on owning, by where it is. */
  function Acquired(ph: Phase, chain: seq<Backend>): seq<Backend> {
    if ph.Locking? && ph.j <= |chain| then chain[..ph.j] else if InCritical(ph) then chain else []
  }

  predicate Holds(cfg: Config, s: State, p: PodId, b: Backend) {
    p < |s.pods| && p < |cfg.chains| && b in cfg.lockers && b in Acquired(s.pods[p], cfg.chains[p])
  }

  /** The lease assumption: no row a live holder counts on has run out. */
  ghost predicate Timely(cfg: Config, s: State) {
    forall p: nat, b | Holds(cfg, s, p, b) && Owns(s, p, b) :: s.rows[b].expires > s.clock
  }

  /** steps leads from s through timely states only; End is where it leads. */
  ghost predicate Run(cfg: Config, s: State, steps: seq<Step>)
    decreases |steps|
  {
    && |s.pods| == |cfg.chains| == |cfg.keys| && Timely(cfg, s)
    && (steps != [] ==> Enabled(cfg, s, steps[0]) && Run(cfg, Apply(cfg, s, steps[0]), steps[1..]))
  }

  ghost function End(cfg: Config, s: State, steps: seq<Step>): State
    requires Run(cfg, s, steps)
    decreases |steps|
  {
    if steps == [] then s else End(cfg, Apply(cfg, s, steps[0]), steps[1..])
  }
}
