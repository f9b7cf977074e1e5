/**
 The streaming responder of pkg/gofr/http/stream.go: a producer goroutine and the consumer loop over
 an unbuffered channel, a quit channel and a one-slot error channel, as interleaved steps.
 */
module StreamProtocol {
  import opened Options

  type Value = int
  type Error = int

  datatype Format = SSE | NDJSON

  /** Failure(None) is the frame for a value that could not be encoded. */
  datatype Frame = Data(v: Value) | Failure(err: Option<Error>) | Done | Beat

  /** readStream. */
  datatype Producer =
    | Pulling                        // inside src.Next
    | Offering(v: Value)             // in the select
    | Closing(err: Option<Error>)    // deferred: termErr <- err
    | Sealing                        // deferred: close(items)
    | Stopped

  /** pump and finishStream, then handleStream's deferred close(quit). */
  datatype Consumer =
    | Selecting
    | Writing(v: Value)
    | Awaiting                       // items is closed: reading termErr
    | Finishing(err: Option<Error>)
    | Gone
    | Left

  datatype State = State(
    format: Format,
    producer: Producer,
    consumer: Consumer,
    itemsClosed: bool,
    quit: bool,
    termErr: Option<Option<Error>>,  // the slot
    wire: seq<Frame>,
    pulled: seq<Value>,              // everything the source has produced
    ended: Option<Option<Error>>,    // how the source ended on its own, with its error if any
    failed: bool                     // some write or encoding failed
  )

  datatype Step =
    | Pull(v: Value)
    | SourceEnds(err: Option<Error>) // Next reports false, or the source panics
    | Deliver                        // items <- v meets <-items
    | SeeQuit
    | SendErr
    | CloseItems
    | SeeClosed
    | ReadErr
    | Write
    | WriteFails(written: bool)      // a failed flush leaves the bytes written
    | EncodeFails(written: bool)
    | Heartbeat
    | HeartbeatFails(written: bool)
    | Finish(written: bool)
    | CloseQuit

  predicate Enabled(s: State, step: Step) {
    match step
    case Pull(_) => s.producer.Pulling?
    case SourceEnds(_) => s.producer.Pulling?
    case Deliver => s.producer.Offering? && s.consumer.Selecting?
    case SeeQuit => s.producer.Offering? && s.quit
    case SendErr => s.producer.Closing? && s.termErr.None?
    case CloseItems => s.producer.Sealing?
    case SeeClosed => s.consumer.Selecting? && s.itemsClosed
    case ReadErr => s.consumer.Awaiting? && s.termErr.Some?
    case Write => s.consumer.Writing?
    case WriteFails(_) => s.consumer.Writing?
    case EncodeFails(_) => s.consumer.Writing?
    case Heartbeat => s.consumer.Selecting?
    case HeartbeatFails(_) => s.consumer.Selecting?
    case Finish(_) => s.consumer.Finishing?
    case CloseQuit => s.consumer.Gone?
  }

  function Put(s: State, frame: Frame, written: bool): seq<Frame> {
    if written then s.wire + [frame] else s.wire
  }

  /** finishStream's frame: an error frame, the done marker for SSE, nothing for NDJSON. */
  function Terminal(format: Format, err: Option<Error>): seq<Frame> {
    if err.Some? then [Failure(err)] else if format.SSE? then [Done] else []
  }

  function Apply(s: State, step: Step): State
    requires Enabled(s, step)
  {
    match step
    case Pull(v) => s.(producer := Offering(v), pulled := s.pulled + [v])
    case SourceEnds(err) => s.(producer := Closing(err), ended := Some(err))
    case Deliver => s.(producer := Pulling, consumer := Writing(s.producer.v))
    case SeeQuit => s.(producer := Closing(None))
    case SendErr => s.(producer := Sealing, termErr := Some(s.producer.err))
    case CloseItems => s.(producer := Stopped, itemsClosed := true)
    case SeeClosed => s.(consumer := Awaiting)
    case ReadErr => s.(consumer := Finishing(s.termErr.value), termErr := None)
    case Write => s.(consumer := Selecting, wire := s.wire + [Data(s.consumer.v)])
    case WriteFails(written) => s.(consumer := Gone, failed := true, wire := Put(s, Data(s.consumer.v), written))
    case EncodeFails(written) => s.(consumer := Gone, failed := true, wire := Put(s, Failure(None), written))
    case Heartbeat => s.(wire := s.wire + [Beat])
    case HeartbeatFails(written) => s.(consumer := Gone, failed := true, wire := Put(s, Beat, written))
    case Finish(written) =>
      s.(consumer := Gone, failed := s.failed || !written,
         wire := if written then s.wire + Terminal(s.format, s.consumer.err) else s.wire)
    case CloseQuit => s.(consumer := Left, quit := true)
  }

  // ----- Reading the wire -----

  function Payloads(wire: seq<Frame>): seq<Value> {
    if wire == [] then []
    else
      var f := wire[|wire| - 1];
      Payloads(wire[..|wire| - 1]) + if f.Data? then [f.v] else []
  }

  predicate IsTerminal(f: Frame) { f.Failure? || f.Done? }

  predicate NoTerminal(wire: seq<Frame>) {
    forall k | 0 <= k < |wire| :: !IsTerminal(wire[k])
  }

  lemma PayloadsAppend(wire: seq<Frame>, f: Frame)
    ensures Payloads(wire + [f]) == Payloads(wire) + if f.Data? then [f.v] else []
  {
    assert (wire + [f])[..|wire|] == wire;
  }

  // ----- What every state keeps -----

  predicate Active(c: Consumer) { c.Selecting? || c.Writing? || c.Awaiting? || c.Finishing? }

  /** The value between the two loops: handed over and not yet written, or still on offer. */
  function InFlight(s: State): seq<Value> {
    (if s.consumer.Writing? then [s.consumer.v] else []) + (if s.producer.Offering? then [s.producer.v] else [])
  }

  predicate ChannelInv(s: State) {
    && (s.itemsClosed <==> s.producer.Stopped?)
    && (s.quit <==> s.consumer.Left?)
    && (s.producer.Pulling? || s.producer.Offering? || s.producer.Closing? ==> s.termErr.None?)
    && (s.producer.Sealing? ==> s.termErr.Some?)
    && (s.consumer.Awaiting? || s.consumer.Finishing? ==> s.producer.Stopped?)
    && (s.producer.Stopped? && !s.consumer.Finishing? && Active(s.consumer) ==> s.termErr.Some?)
  }

  /** The source's own error travels unchanged through the slot. */
  predicate ErrorInv(s: State) {
    Active(s.consumer) ==>
      && (s.producer.Pulling? || s.producer.Offering? <==> s.ended.None?)
      && (s.producer.Closing? ==> s.ended == Some(s.producer.err))
      && (s.termErr.Some? ==> s.ended == s.termErr)
      && (s.consumer.Finishing? ==> s.ended == Some(s.consumer.err))
  }

  predicate WireInv(s: State) {
    && (Active(s.consumer) ==> !s.failed && NoTerminal(s.wire) && s.pulled == Payloads(s.wire) + InFlight(s))
    && Payloads(s.wire) <= s.pulled
    && (forall k | 0 <= k < |s.wire| - 1 :: !IsTerminal(s.wire[k]))
  }

  /** term is all the wire carries by way of terminal frames, at its very end. */
  predicate EndsWith(wire: seq<Frame>, term: seq<Frame>) {
    |term| <= |wire| && wire[|wire| - |term|..] == term && NoTerminal(wire[..|wire| - |term|])
  }

  /** A stream that was never cut short carries everything, then its terminal frame. */
  predicate CleanInv(s: State) {
    !Active(s.consumer) && !s.failed ==>
      && s.producer.Stopped? && s.ended.Some? && s.pulled == Payloads(s.wire)
      && EndsWith(s.wire, Terminal(s.format, s.ended.value))
  }

  predicate Inv(s: State) {
    ChannelInv(s) && ErrorInv(s) && WireInv(s) && CleanInv(s)
  }

  predicate Init(s: State) {
    && s.producer.Pulling? && s.consumer.Selecting? && !s.itemsClosed && !s.quit && s.termErr.None?
    && s.wire == [] && s.pulled == [] && s.ended.None? && !s.failed
  }

  lemma ChannelInvStep(s: State, step: Step)
    requires Inv(s) && Enabled(s, step)
    ensures ChannelInv(Apply(s, step)) && ErrorInv(Apply(s, step))
  {
  }

  /** The frames a step appends, if any. */
  function Appended(s: State, step: Step): seq<Frame>
    requires Enabled(s, step)
  {
    match step
    case Write => [Data(s.consumer.v)]
    case WriteFails(written) => if written then [Data(s.consumer.v)] else []
    case EncodeFails(written) => if written then [Failure(None)] else []
    case Heartbeat => [Beat]
    case HeartbeatFails(written) => if written then [Beat] else []
    case Finish(written) => if written then Terminal(s.format, s.consumer.err) else []
    case _ => []
  }

  /** While the consumer is in its loop, written and in-flight values together are what was pulled. */
  lemma Conserved(s: State, step: Step)
    requires Inv(s) && Enabled(s, step) && Active(Apply(s, step).consumer)
    ensures var s' := Apply(s, step); s'.pulled == Payloads(s'.wire) + InFlight(s')
  {
    hide Payloads, CleanInv, ErrorInv, NoTerminal;
    var s', p := Apply(s, step), Payloads(s.wire);
    match step
    case Pull(v) =>
      assert (p + InFlight(s)) + [v] == p + (InFlight(s) + [v]);
      assert InFlight(s') == InFlight(s) + [v];
    case Deliver =>
      assert InFlight(s') == InFlight(s);
    case Write =>
      PayloadsAppend(s.wire, Data(s.consumer.v));
      assert InFlight(s) == [s.consumer.v] + InFlight(s');
      assert p + ([s.consumer.v] + InFlight(s')) == (p + [s.consumer.v]) + InFlight(s');
    case Heartbeat =>
      PayloadsAppend(s.wire, Beat);
    case _ =>
  }

  lemma StaysPrefix(s: State, step: Step)
    requires Inv(s) && Enabled(s, step)
    ensures Payloads(Apply(s, step).wire) <= Apply(s, step).pulled
  {
    hide Payloads, CleanInv, ErrorInv, NoTerminal, ChannelInv;
    var s', more := Apply(s, step), Appended(s, step);
    assert s'.wire == s.wire + more;
    if more == [] {
      assert s'.wire == s.wire;
    } else {
      assert s.wire + more == s.wire + [more[0]];
      PayloadsAppend(s.wire, more[0]);
      assert s.pulled == Payloads(s.wire) + InFlight(s);
      if more[0].Data? { assert InFlight(s)[0] == more[0].v; }
    }
  }

  lemma TerminalsLast(s: State, step: Step)
    requires Inv(s) && Enabled(s, step)
    ensures var s' := Apply(s, step);
            && (Active(s'.consumer) ==> !s'.failed && NoTerminal(s'.wire))
            && (forall k | 0 <= k < |s'.wire| - 1 :: !IsTerminal(s'.wire[k]))
  {
    var s', more := Apply(s, step), Appended(s, step);
    assert s'.wire == s.wire + more && |more| <= 1;
    assert more != [] ==> NoTerminal(s.wire);
  }

  lemma WireInvStep(s: State, step: Step)
    requires Inv(s) && Enabled(s, step)
    ensures WireInv(Apply(s, step))
  {
    hide InFlight, Payloads;
    if Active(Apply(s, step).consumer) { Conserved(s, step); }
    StaysPrefix(s, step);
    TerminalsLast(s, step);
  }

  lemma TerminalAppended(wire: seq<Frame>, format: Format, err: Option<Error>)
    requires NoTerminal(wire)
    ensures var term := Terminal(format, err); EndsWith(wire + term, term) && Payloads(wire + term) == Payloads(wire)
  {
    var term := Terminal(format, err);
    var w := wire + term;
    assert w[..|w| - |term|] == wire && w[|w| - |term|..] == term;
    if term == [] {
      assert w == wire;
    } else {
      assert w == wire + [term[0]];
      PayloadsAppend(wire, term[0]);
    }
  }

  lemma CleanInvStep(s: State, step: Step)
    requires Inv(s) && Enabled(s, step)
    ensures CleanInv(Apply(s, step))
  {
    hide EndsWith, Terminal, Payloads;
    if step == Finish(true) {
      TerminalAppended(s.wire, s.format, s.consumer.err);
      assert InFlight(s) == [] && Payloads(s.wire) + [] == Payloads(s.wire);
    }
  }

  ghost predicate Run(s: State, steps: seq<Step>)
    decreases |steps|
  {
    steps != [] ==> Enabled(s, steps[0]) && Run(Apply(s, steps[0]), steps[1..])
  }

  ghost function End(s: State, steps: seq<Step>): State
    requires Run(s, steps)
    decreases |steps|
  {
    if steps == [] then s else End(Apply(s, steps[0]), steps[1..])
  }

  lemma {:induction false} InvRun(s: State, steps: seq<Step>)
    requires Inv(s) && Run(s, steps)
    ensures Inv(End(s, steps))
    decreases |steps|
  {
    if steps != [] {
      ChannelInvStep(s, steps[0]);
      WireInvStep(s, steps[0]);
      CleanInvStep(s, steps[0]);
      InvRun(Apply(s, steps[0]), steps[1..]);
    }
  }

  // ----- The guarantees -----

  /**
   In every schedule the data frames on the wire are, in order, the first values the source produced,
   and a terminal frame is only ever the last one. If no write or encoding failed, then once the
   consumer is gone they are all the values; the last frame is the source's error if it had one, else the
   done marker on an event stream, and no terminal frame at all on a line stream.
   */
  lemma WireIsFaithful(s: State, steps: seq<Step>)
    requires Init(s) && Run(s, steps)
    ensures var e := End(s, steps);
            && Payloads(e.wire) <= e.pulled
            && (forall k | 0 <= k < |e.wire| - 1 :: !IsTerminal(e.wire[k]))
            && (!Active(e.consumer) && !e.failed ==>
                  && e.ended.Some? && Payloads(e.wire) == e.pulled
                  && match e.ended.value {
                       case Some(err) => e.wire != [] && e.wire[|e.wire| - 1] == Failure(Some(err))
                       case None =>
                         if e.format.NDJSON? then NoTerminal(e.wire)
                         else e.wire != [] && e.wire[|e.wire| - 1] == Done
                     })
  {
    InvRun(s, steps);
    var e := End(s, steps);
    if !Active(e.consumer) && !e.failed { TerminalIsLast(e.wire, e.format, e.ended.value); }
  }

  lemma TerminalIsLast(wire: seq<Frame>, format: Format, err: Option<Error>)
    requires EndsWith(wire, Terminal(format, err))
    ensures err.Some? ==> wire != [] && wire[|wire| - 1] == Failure(err)
    ensures err.None? && format.SSE? ==> wire != [] && wire[|wire| - 1] == Done
    ensures err.None? && format.NDJSON? ==> NoTerminal(wire)
  {
    var term := Terminal(format, err);
    if term == [] {
      assert wire[..|wire|] == wire;
    } else {
      assert wire[|wire| - 1..][0] == term[0];
    }
  }

  /** Neither end of the error slot ever blocks: it is full when read and empty when written. */
  lemma ErrorSlotNeverBlocks(s: State, steps: seq<Step>)
    requires Init(s) && Run(s, steps)
    ensures var e := End(s, steps);
            && (e.consumer.Awaiting? ==> Enabled(e, ReadErr))
            && (e.producer.Closing? ==> Enabled(e, SendErr))
  {
    InvRun(s, steps);
  }

  /** A bound on what the producer still does once the consumer has left. */
  function StepsToStop(p: Producer): nat {
    match p
    case Stopped => 0
    case Sealing => 1
    case Closing(_) => 2
    case Offering(_) => 3
    case Pulling => 4
  }

  /**
   Once the consumer has left, every schedule is finite and silent: however it goes on, it takes at most
   StepsToStop steps, a further Pull included, and writes nothing. And outside the source's own Next the
   producer is never stuck: it can be stopped in exactly that many.
   */
  lemma ProducerStops(s: State, steps: seq<Step>)
    requires Init(s) && Run(s, steps) && End(s, steps).consumer.Left?
    ensures var e := End(s, steps);
            && (forall more | Run(e, more) :: |more| <= StepsToStop(e.producer) && End(e, more).wire == e.wire)
            && (!e.producer.Pulling? ==>
                  exists more | Run(e, more) :: |more| == StepsToStop(e.producer) && End(e, more).producer.Stopped?)
  {
    InvRun(s, steps);
    var e := End(s, steps);
    forall more | Run(e, more) ensures |more| <= StepsToStop(e.producer) && End(e, more).wire == e.wire {
      WindsDown(e, more);
    }
    if !e.producer.Pulling? { var more := StopFrom(e); }
  }

  lemma {:induction false} WindsDown(e: State, more: seq<Step>)
    requires Inv(e) && e.consumer.Left? && Run(e, more)
    ensures |more| <= StepsToStop(e.producer) && End(e, more).wire == e.wire
    decreases |more|
  {
    if more != [] {
      var e' := Apply(e, more[0]);
      ChannelInvStep(e, more[0]);
      WireInvStep(e, more[0]);
      CleanInvStep(e, more[0]);
      assert StepsToStop(e'.producer) < StepsToStop(e.producer) && e'.consumer.Left? && e'.wire == e.wire;
      WindsDown(e', more[1..]);
    }
  }

  lemma {:induction false} StopFrom(e: State) returns (more: seq<Step>)
    requires Inv(e) && e.consumer.Left? && !e.producer.Pulling?
    ensures |more| == StepsToStop(e.producer) && Run(e, more)
    ensures End(e, more).producer.Stopped? && End(e, more).wire == e.wire
    decreases StepsToStop(e.producer)
  {
    if e.producer.Stopped? {
      more := [];
    } else {
      var step := if e.producer.Offering? then SeeQuit else if e.producer.Closing? then SendErr else CloseItems;
      ChannelInvStep(e, step);
      WireInvStep(e, step);
      CleanInvStep(e, step);
      var rest := StopFrom(Apply(e, step));
      more := [step] + rest;
      assert more[1..] == rest;
    }
  }

  // ----- Streams that complete -----

  /** The schedule leads from e to f, which keeps the invariant. */
  ghost predicate Leads(e: State, more: seq<Step>, f: State) {
    Run(e, more) && End(e, more) == f && Inv(f)
  }

  lemma {:induction false} RunConcat(s: State, a: seq<Step>, b: seq<Step>)
    requires Run(s, a) && Run(End(s, a), b)
    ensures Run(s, a + b) && End(s, a + b) == End(End(s, a), b)
    decreases |a|
  {
    if a == [] {
      assert a + b == b;
    } else {
      assert (a + b)[1..] == a[1..] + b;
      RunConcat(Apply(s, a[0]), a[1..], b);
    }
  }

  lemma LeadsOn(e: State, more: seq<Step>, f: State, step: Step)
    requires Leads(e, more, f) && Enabled(f, step)
    ensures Leads(e, more + [step], Apply(f, step))
  {
    assert [step][1..] == [];
    RunConcat(e, more, [step]);
    ChannelInvStep(f, step);
    WireInvStep(f, step);
    CleanInvStep(f, step);
  }

  /** A value on its way is written, and the consumer is back at its select. */
  lemma Settles(e: State, before: seq<Step>, f: State) returns (more: seq<Step>, g: State)
    requires Leads(e, before, f) && (f.consumer.Selecting? || f.consumer.Writing?)
    ensures Leads(e, more, g) && g.consumer.Selecting? && !g.producer.Offering?
    ensures g == f.(consumer := g.consumer, producer := g.producer, wire := g.wire)
    ensures g.producer == if f.producer.Offering? then Pulling else f.producer
  {
    hide Run, End, Inv;
    more, g := before, f;
    if g.consumer.Writing? {
      LeadsOn(e, more, g, Write);
      more, g := more + [Write], Apply(g, Write);
    }
    if g.producer.Offering? {
      LeadsOn(e, more, g, Deliver);
      more, g := more + [Deliver], Apply(g, Deliver);
      LeadsOn(e, more, g, Write);
      more, g := more + [Write], Apply(g, Write);
    }
  }

  /** The source produces more values, and each is written. */
  lemma {:induction false} Produces(e: State, before: seq<Step>, f: State, vs: seq<Value>)
    returns (more: seq<Step>, g: State)
    requires Leads(e, before, f) && f.consumer.Selecting? && f.producer.Pulling?
    ensures Leads(e, more, g)
    ensures g == f.(wire := g.wire, pulled := f.pulled + vs)
    decreases |vs|
  {
    hide Run, End, Inv;
    if vs == [] {
      more, g := before, f;
      assert f.pulled + vs == f.pulled;
    } else {
      LeadsOn(e, before, f, Pull(vs[0]));
      more, g := Settles(e, before + [Pull(vs[0])], Apply(f, Pull(vs[0])));
      more, g := Produces(e, more, g, vs[1..]);
      assert f.pulled + [vs[0]] + vs[1..] == f.pulled + vs;
    }
  }

  /** A source that has ended: its error goes through the slot, and both loops leave. */
  lemma WindsUp(e: State, before: seq<Step>, f: State) returns (more: seq<Step>, g: State)
    requires Leads(e, before, f) && Active(f.consumer) && !f.consumer.Writing? && f.ended.Some?
    ensures Leads(e, more, g) && g.consumer.Left? && !g.failed
    ensures g.pulled == f.pulled && g.ended == f.ended && g.format == f.format
  {
    hide Run, End, WireInv, CleanInv;
    more, g := before, f;
    if g.producer.Closing? {
      LeadsOn(e, more, g, SendErr);
      more, g := more + [SendErr], Apply(g, SendErr);
    }
    if g.producer.Sealing? {
      LeadsOn(e, more, g, CloseItems);
      more, g := more + [CloseItems], Apply(g, CloseItems);
    }
    if g.consumer.Selecting? {
      LeadsOn(e, more, g, SeeClosed);
      more, g := more + [SeeClosed], Apply(g, SeeClosed);
    }
    if g.consumer.Awaiting? {
      LeadsOn(e, more, g, ReadErr);
      more, g := more + [ReadErr], Apply(g, ReadErr);
    }
    assert !g.failed by { StillGood(g); }
    LeadsOn(e, more, g, Finish(true));
    more, g := more + [Finish(true)], Apply(g, Finish(true));
    LeadsOn(e, more, g, CloseQuit);
    more, g := more + [CloseQuit], Apply(g, CloseQuit);
  }

  lemma StillGood(g: State)
    requires Inv(g) && Active(g.consumer)
    ensures !g.failed
  {
  }

  /**
   From every reachable state with the consumer at work, whatever more the source produces and however it
   ends, the stream can come to a clean end with all of it, and then WireIsFaithful says what is on the wire.
   */
  lemma CanComplete(s: State, steps: seq<Step>, vs: seq<Value>, err: Option<Error>) returns (more: seq<Step>)
    requires Init(s) && Run(s, steps) && Active(End(s, steps).consumer)
    requires End(s, steps).ended.None? || (vs == [] && End(s, steps).ended == Some(err))
    ensures var e := End(s, steps);
            && Run(e, more)
            && var f := End(e, more);
            && f.consumer.Left? && !f.failed && f.pulled == e.pulled + vs && f.ended == Some(err)
  {
    InvRun(s, steps);
    var e := End(s, steps);
    var f := e;
    more := [];
    if e.consumer.Selecting? || e.consumer.Writing? { more, f := Settles(e, more, f); }
    if e.ended.None? {
      more, f := Produces(e, more, f, vs);
      LeadsOn(e, more, f, SourceEnds(err));
      more, f := more + [SourceEnds(err)], Apply(f, SourceEnds(err));
    }
    more, f := WindsUp(e, more, f);
  }

  /**
   A client that is gone is noticed at the next write, of a value or of a heartbeat, and once it is the
   consumer leaves; ProducerStops says what becomes of the producer then.
   */
  lemma DeadClientNoticed(s: State, written: bool)
    requires s.consumer.Writing? || s.consumer.Selecting?
    ensures var steps := [if s.consumer.Writing? then WriteFails(written) else HeartbeatFails(written), CloseQuit];
            Run(s, steps) && End(s, steps).consumer.Left?
  {
    var step := if s.consumer.Writing? then WriteFails(written) else HeartbeatFails(written);
    assert [step, CloseQuit][1..] == [CloseQuit] && [CloseQuit][1..] == [];
  }

  /** No deadlock: until both loops are done, one of them can take a step. */
  lemma SomeoneCanStep(s: State, steps: seq<Step>) returns (step: Step)
    requires Init(s) && Run(s, steps)
    requires var e := End(s, steps); !(e.producer.Stopped? && e.consumer.Left?)
    ensures Enabled(End(s, steps), step) && !step.Heartbeat? && !step.HeartbeatFails?
  {
    InvRun(s, steps);
    var e := End(s, steps);
    step := match e.consumer
      case Writing(_) => Write
      case Awaiting => ReadErr
      case Finishing(_) => Finish(true)
      case Gone => CloseQuit
      case Selecting => (
        match e.producer
        case Pulling => SourceEnds(None)
        case Offering(_) => Deliver
        case Closing(_) => SendErr
        case Sealing => CloseItems
        case Stopped => SeeClosed
      )
      case Left => (
        match e.producer
        case Pulling => SourceEnds(None)
        case Offering(_) => SeeQuit
        case Closing(_) => SendErr
        case Sealing => CloseItems
        case Stopped => CloseQuit
      );
  }
}
