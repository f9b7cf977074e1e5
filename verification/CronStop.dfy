/**
 The stop protocol of pkg/gofr/cron.go: the ticker loop dispatching jobs under the mutex, job
 goroutines counted by the wait group, and any number of Stop callers, as interleaved steps.
 */
module CronStop {

  type JobId = nat

  datatype Holder = Nobody | Ticker | Stopper(c: nat)

  /** The scheduler goroutine: between ticks, at the mutex, or in runScheduled's loop. */
  datatype Loop = Idle | AtMutex | Dispatching(next: nat)

  /** A caller of Stop or stop(abort). */
  datatype Caller =
    | Outside
    | InOnce            // running once.Do's function, before the mutex
    | Marking           // holding the mutex
    | AtOnce            // waiting for once.Do to have run
    | Joining           // select on joined and abort
    | Returned(joined: bool)

  datatype State = State(
    lock: Holder,
    stopped: bool,
    onceTaken: bool,
    onceDone: bool,
    loop: Loop,
    jobs: nat,               // registered jobs
    dispatched: nat,         // goroutines ever started; their ids are below this
    running: set<JobId>,     // what the wait group counts
    callers: seq<Caller>
  )

  datatype Step =
    | TickArrives
    | TickLocks
    | JobFires               // wg.Add and the go statement
    | JobSkips
    | TickUnlocks
    | JobReturns(id: JobId)
    | AddJob
    | CallStop(c: nat)
    | StopLocks(c: nat)
    | StopMarks(c: nat)
    | PassOnce(c: nat)
    | Joined(c: nat)
    | Aborted(c: nat)

  predicate At(s: State, c: nat, phase: Caller) { c < |s.callers| && s.callers[c] == phase }

  predicate Enabled(s: State, step: Step) {
    match step
    case TickArrives => s.loop.Idle?
    case TickLocks => s.loop.AtMutex? && s.lock.Nobody?
    case JobFires => s.loop.Dispatching? && s.loop.next < s.jobs
    case JobSkips => s.loop.Dispatching? && s.loop.next < s.jobs
    case TickUnlocks => s.loop.Dispatching? && s.loop.next == s.jobs
    case JobReturns(id) => id in s.running
    case AddJob => s.lock.Nobody?
    case CallStop(c) => At(s, c, Outside)
    case StopLocks(c) => At(s, c, InOnce) && s.lock.Nobody?
    case StopMarks(c) => At(s, c, Marking) && s.lock == Stopper(c)
    case PassOnce(c) => At(s, c, AtOnce) && s.onceDone
    case Joined(c) => At(s, c, Joining) && s.running == {}
    case Aborted(c) => At(s, c, Joining)
  }

  function To(s: State, c: nat, phase: Caller): State
    requires c < |s.callers|
  {
    s.(callers := s.callers[c := phase])
  }

  function Apply(s: State, step: Step): State
    requires Enabled(s, step)
  {
    match step
    case TickArrives => s.(loop := AtMutex)
    case TickLocks => if s.stopped then s.(loop := Idle) else s.(lock := Ticker, loop := Dispatching(0))
    case JobFires =>
      s.(loop := Dispatching(s.loop.next + 1), dispatched := s.dispatched + 1, running := s.running + {s.dispatched})
    case JobSkips => s.(loop := Dispatching(s.loop.next + 1))
    case TickUnlocks => s.(lock := Nobody, loop := Idle)
    case JobReturns(id) => s.(running := s.running - {id})
    case AddJob => s.(jobs := s.jobs + 1)
    case CallStop(c) => To(s, c, if s.onceTaken then AtOnce else InOnce).(onceTaken := true)
    case StopLocks(c) => To(s, c, Marking).(lock := Stopper(c))
    case StopMarks(c) => To(s, c, Joining).(lock := Nobody, stopped := true, onceDone := true)
    case PassOnce(c) => To(s, c, Joining)
    case Joined(c) => To(s, c, Returned(true))
    case Aborted(c) => To(s, c, Returned(false))
  }

  // ----- What every state keeps -----

  predicate Inv(s: State) {
    && (s.loop.Dispatching? <==> s.lock.Ticker?)
    && (s.loop.Dispatching? ==> !s.stopped && s.loop.next <= s.jobs)
    && (s.stopped <==> s.onceDone)
    && (forall id | id in s.running :: id < s.dispatched)
    && (forall c | 0 <= c < |s.callers| :: s.callers[c].Joining? || s.callers[c].Returned? ==> s.stopped)
    && (forall c | 0 <= c < |s.callers| :: s.callers[c] == Returned(true) ==> s.running == {})
    && OnceInv(s)
  }

  predicate InsideOnce(c: Caller) { c.InOnce? || c.Marking? }

  /** While once.Do is taken and not done, one caller is inside it; that one has the mutex exactly when marking. */
  predicate OnceInv(s: State) {
    && (s.onceDone ==> s.onceTaken)
    && (s.onceTaken && !s.onceDone ==> exists c | 0 <= c < |s.callers| :: InsideOnce(s.callers[c]))
    && (forall c | 0 <= c < |s.callers| :: InsideOnce(s.callers[c]) ==> s.onceTaken && !s.onceDone)
    && (forall c | 0 <= c < |s.callers| :: s.callers[c].Marking? <==> s.lock == Stopper(c))
    && (s.lock.Stopper? ==> s.lock.c < |s.callers|)
    && (forall c, d | 0 <= c < |s.callers| && 0 <= d < |s.callers| ::
          InsideOnce(s.callers[c]) && InsideOnce(s.callers[d]) ==> c == d)
    && (forall c | 0 <= c < |s.callers| :: s.callers[c].AtOnce? ==> s.onceTaken)
  }

  predicate Init(s: State) {
    && s.lock.Nobody? && !s.stopped && !s.onceTaken && !s.onceDone && s.loop.Idle?
    && s.dispatched == 0 && s.running == {}
    && forall c | 0 <= c < |s.callers| :: s.callers[c].Outside?
  }

  lemma InvStep(s: State, step: Step)
    requires Inv(s) && Enabled(s, step)
    ensures Inv(Apply(s, step))
    ensures s.stopped ==> Apply(s, step).stopped && Apply(s, step).dispatched == s.dispatched
    ensures s.stopped ==> Apply(s, step).running <= s.running
  {
    OnceInvStep(s, step);
  }

  lemma OnceInvStep(s: State, step: Step)
    requires Inv(s) && Enabled(s, step)
    ensures OnceInv(Apply(s, step))
  {
    var s' := Apply(s, step);
    if s'.onceTaken && !s'.onceDone {
      if step.CallStop? && !s.onceTaken {
        assert InsideOnce(s'.callers[step.c]);
      } else {
        var c :| 0 <= c < |s.callers| && InsideOnce(s.callers[c]);
        assert InsideOnce(s'.callers[c]);
      }
    }
  }

  ghost predicate Run(s: State, steps: seq<Step>)
    decreases |steps|
  {
    steps != [] ==> Enabled(s, steps[0]) && Run(Apply(s, steps[0]), steps[1..])
  }

  ghost function End(s: State, steps: seq<Step>): State
    requires Run(s, steps)
    decreases |steps|
  {
    if steps == [] then s else End(Apply(s, steps[0]), steps[1..])
  }

  lemma {:induction false} InvRun(s: State, steps: seq<Step>)
    requires Inv(s) && Run(s, steps)
    ensures Inv(End(s, steps))
    ensures s.stopped ==> End(s, steps).dispatched == s.dispatched && End(s, steps).running <= s.running
    decreases |steps|
  {
    if steps != [] {
      InvStep(s, steps[0]);
      InvRun(Apply(s, steps[0]), steps[1..]);
    }
  }

  // ----- The guarantees -----

  /** Whatever happens before and after: once stopped is set, no job is ever dispatched again. */
  lemma NoDispatchAfterStop(s: State, before: seq<Step>, after: seq<Step>)
    requires Init(s) && Run(s, before) && End(s, before).stopped && Run(End(s, before), after)
    ensures End(End(s, before), after).dispatched == End(s, before).dispatched
  {
    InvRun(s, before);
    InvRun(End(s, before), after);
  }

  /** When a Stop returns without being aborted, no dispatched job is running, and none ever runs again. */
  lemma {:induction false} QuietAfterStop(s: State, before: seq<Step>, after: seq<Step>, c: nat)
    requires Init(s) && Run(s, before) && Run(End(s, before), after)
    requires c < |End(s, before).callers| && End(s, before).callers[c] == Returned(true)
    ensures End(s, before).running == {} && End(End(s, before), after).running == {}
    ensures End(End(s, before), after).dispatched == End(s, before).dispatched
  {
    InvRun(s, before);
    InvRun(End(s, before), after);
  }

  lemma {:induction false} RunConcat(s: State, a: seq<Step>, b: seq<Step>)
    requires Run(s, a) && Run(End(s, a), b)
    ensures Run(s, a + b) && End(s, a + b) == End(End(s, a), b)
    decreases |a|
  {
    if a == [] {
      assert a + b == b;
    } else {
      assert (a + b)[1..] == a[1..] + b;
      RunConcat(Apply(s, a[0]), a[1..], b);
    }
  }

  function Count(fires: seq<bool>): nat {
    if fires == [] then 0 else (if fires[0] then 1 else 0) + Count(fires[1..])
  }

  /** Between s and e the goroutines numbered from s.dispatched on were started, and none returned. */
  ghost predicate Started(s: State, e: State) {
    && s.dispatched <= e.dispatched
    && forall id :: id in e.running <==> id in s.running || s.dispatched <= id < e.dispatched
  }

  /** The rest of a tick, firing the jobs the schedule calls for. */
  lemma {:induction false} RestOfTick(s: State, fires: seq<bool>) returns (more: seq<Step>)
    requires s.loop.Dispatching? && s.loop.next + |fires| == s.jobs
    ensures Run(s, more)
    ensures var e := End(s, more);
            && e == s.(lock := Nobody, loop := Idle, dispatched := e.dispatched, running := e.running)
            && e.dispatched == s.dispatched + Count(fires) && Started(s, e)
    decreases |fires|
  {
    var step := if fires == [] then TickUnlocks else if fires[0] then JobFires else JobSkips;
    var s' := Apply(s, step);
    var rest := [];
    if fires != [] { rest := RestOfTick(s', fires[1..]); }
    more := [step] + rest;
    assert more[1..] == rest;
  }

  lemma {:induction false} NoneFire(n: nat) returns (fires: seq<bool>)
    ensures |fires| == n && Count(fires) == 0
  {
    if n == 0 {
      fires := [];
    } else {
      fires := NoneFire(n - 1);
      assert ([false] + fires)[1..] == fires;
      fires := [false] + fires;
    }
  }

  /** A tick under way comes to its end without dispatching more; between ticks nothing need be done. */
  lemma BetweenTicks(e: State) returns (more: seq<Step>)
    requires Inv(e) && !e.stopped && !e.lock.Stopper?
    ensures Run(e, more)
    ensures var f := End(e, more);
            !f.loop.Dispatching? && f == e.(lock := Nobody, loop := f.loop)
  {
    more := [];
    if e.loop.Dispatching? {
      var none := NoneFire(e.jobs - e.loop.next);
      more := RestOfTick(e, none);
    }
  }

  /**
   The scheduler does dispatch: from every reachable state that is neither stopped nor being stopped, the next
   tick can dispatch any of the registered jobs, each of them once and on a goroutine of its own.
   */
  lemma TickDispatches(s: State, steps: seq<Step>, fires: seq<bool>) returns (more: seq<Step>)
    requires Init(s) && Run(s, steps) && !End(s, steps).stopped && !End(s, steps).lock.Stopper?
    requires |fires| == End(s, steps).jobs
    ensures Run(End(s, steps), more)
    ensures var e := End(s, steps);
            var e' := End(e, more);
            e'.dispatched == e.dispatched + Count(fires) && e'.loop.Idle? && Started(e, e')
  {
    InvRun(s, steps);
    var e := End(s, steps);
    var wait := BetweenTicks(e);
    var f := End(e, wait);
    var start := if f.loop.Idle? then [TickArrives, TickLocks] else [TickLocks];
    assert [TickArrives, TickLocks][1..] == [TickLocks] && [TickLocks][1..] == [];
    var rest := RestOfTick(End(f, start), fires);
    RunConcat(f, start, rest);
    RunConcat(e, wait, start + rest);
    more := wait + (start + rest);
  }

  /** Within one tick no job is dispatched twice: there is at most one dispatch for each place the loop has passed. */
  lemma {:induction false} OncePerTick(s: State, more: seq<Step>)
    requires Inv(s) && Run(s, more) && s.loop.Dispatching? && TickUnlocks !in more
    ensures var e := End(s, more);
            && e.loop.Dispatching? && s.loop.next <= e.loop.next <= e.jobs
            && e.dispatched - s.dispatched <= e.loop.next - s.loop.next
    decreases |more|
  {
    if more != [] {
      assert more[0] in more && forall step | step in more[1..] :: step in more;
      InvStep(s, more[0]);
      OncePerTick(Apply(s, more[0]), more[1..]);
    }
  }

  // ----- Stopping comes to an end -----

  /** The schedule leads from e to f, which keeps the invariant. */
  ghost predicate Leads(e: State, more: seq<Step>, f: State) {
    Run(e, more) && End(e, more) == f && Inv(f)
  }

  lemma LeadsOn(e: State, more: seq<Step>, f: State, step: Step)
    requires Leads(e, more, f) && Enabled(f, step)
    ensures Leads(e, more + [step], Apply(f, step))
  {
    assert [step][1..] == [];
    RunConcat(e, more, [step]);
    InvStep(f, step);
  }

  /** A tick under way ends; then at most a stopping caller has the mutex. */
  lemma NoTick(e: State) returns (more: seq<Step>, f: State)
    requires Inv(e)
    ensures Leads(e, more, f) && !f.lock.Ticker? && f.callers == e.callers
  {
    more, f := [], e;
    if e.loop.Dispatching? {
      more := BetweenTicks(e);
      f := End(e, more);
      InvRun(e, more);
    }
  }

  /** Whoever is inside once.Do gets through it, and if nobody ever was, c does. */
  lemma OnceGetsDone(e: State, before: seq<Step>, f: State, c: nat) returns (more: seq<Step>, g: State)
    requires Leads(e, before, f) && !f.lock.Ticker? && c < |f.callers| && !f.callers[c].Returned?
    ensures Leads(e, more, g) && g.onceDone && c < |g.callers| && !g.callers[c].Returned?
  {
    hide Run, End;
    more, g := before, f;
    if !f.onceDone {
      var d := c;
      if !f.onceTaken {
        assert f.callers[c].Outside?;
        LeadsOn(e, more, g, CallStop(c));
        more, g := more + [CallStop(c)], Apply(g, CallStop(c));
      } else {
        d :| 0 <= d < |f.callers| && InsideOnce(f.callers[d]);
      }
      if g.callers[d].InOnce? {
        assert g.lock.Stopper? ==> InsideOnce(g.callers[g.lock.c]);
        LeadsOn(e, more, g, StopLocks(d));
        more, g := more + [StopLocks(d)], Apply(g, StopLocks(d));
      }
      LeadsOn(e, more, g, StopMarks(d));
      more, g := more + [StopMarks(d)], Apply(g, StopMarks(d));
    }
  }

  /** With once.Do behind it, c joins the wait. */
  lemma JoinsWait(e: State, before: seq<Step>, f: State, c: nat) returns (more: seq<Step>, g: State)
    requires Leads(e, before, f) && f.onceDone && c < |f.callers| && !f.callers[c].Returned?
    ensures Leads(e, more, g) && At(g, c, Joining)
  {
    hide Run, End;
    more, g := before, f;
    if g.callers[c].Outside? {
      LeadsOn(e, more, g, CallStop(c));
      more, g := more + [CallStop(c)], Apply(g, CallStop(c));
    }
    if g.callers[c].AtOnce? {
      LeadsOn(e, more, g, PassOnce(c));
      more, g := more + [PassOnce(c)], Apply(g, PassOnce(c));
    }
  }

  /** The dispatched jobs return. */
  lemma {:induction false} AllReturn(e: State, before: seq<Step>, f: State, k: nat) returns (more: seq<Step>, g: State)
    requires Leads(e, before, f) && k <= f.dispatched && forall id | id in f.running :: k <= id
    ensures Leads(e, more, g) && g == f.(running := {})
    decreases f.dispatched - k
  {
    hide Run, End;
    if k == f.dispatched {
      assert f.running == {};
      more, g := before, f;
    } else if k in f.running {
      LeadsOn(e, before, f, JobReturns(k));
      more, g := AllReturn(e, before + [JobReturns(k)], Apply(f, JobReturns(k)), k + 1);
    } else {
      more, g := AllReturn(e, before, f, k + 1);
    }
  }

  /**
   From every reachable state, every call of Stop that has not returned, or has not been made yet, can come
   to return unaborted: nothing it waits for waits for it.
   */
  lemma StopCanReturn(s: State, steps: seq<Step>, c: nat) returns (more: seq<Step>)
    requires Init(s) && Run(s, steps) && c < |End(s, steps).callers| && !End(s, steps).callers[c].Returned?
    ensures Run(End(s, steps), more) && At(End(End(s, steps), more), c, Returned(true))
  {
    InvRun(s, steps);
    var e := End(s, steps);
    var f;
    more, f := NoTick(e);
    more, f := OnceGetsDone(e, more, f, c);
    more, f := JoinsWait(e, more, f, c);
    more, f := AllReturn(e, more, f, 0);
    LeadsOn(e, more, f, Joined(c));
    more := more + [Joined(c)];
  }

  /** And one that waits can be aborted at any moment. */
  lemma AbortReturns(s: State, c: nat)
    requires At(s, c, Joining)
    ensures Enabled(s, Aborted(c)) && At(Apply(s, Aborted(c)), c, Returned(false))
  {
  }

  /** A job registered between ticks is dispatched by the next one if its schedule calls for it. */
  lemma AddedJobDispatched(s: State, steps: seq<Step>) returns (more: seq<Step>)
    requires Init(s) && Run(s, steps) && !End(s, steps).stopped && End(s, steps).lock.Nobody?
    ensures var e := End(s, steps);
            && Enabled(e, AddJob) && Run(Apply(e, AddJob), more)
            && End(Apply(e, AddJob), more).dispatched == e.dispatched + 1 && Apply(e, AddJob).jobs == e.jobs + 1
  {
    InvRun(s, steps);
    var e := End(s, steps);
    var none := NoneFire(e.jobs);
    LastFires(none);
    RunConcat(s, steps, [AddJob]);
    assert [AddJob][1..] == [];
    more := TickDispatches(s, steps + [AddJob], none + [true]);
  }

  lemma {:induction false} LastFires(fires: seq<bool>)
    ensures Count(fires + [true]) == Count(fires) + 1
  {
    if fires == [] {
      assert [true][1..] == [];
    } else {
      assert (fires + [true])[1..] == fires[1..] + [true];
      LastFires(fires[1..]);
    }
  }

  /** The wait group is never raised while a caller may already be waiting on it. */
  lemma NoAddDuringWait(s: State, steps: seq<Step>, c: nat)
    requires Init(s) && Run(s, steps) && c < |End(s, steps).callers|
    requires End(s, steps).callers[c].Joining? || End(s, steps).callers[c].Returned?
    ensures !Enabled(End(s, steps), JobFires)
  {
    InvRun(s, steps);
  }
}
