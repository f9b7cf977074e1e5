/**
 The streaming responder end to end: from the schedule of its two goroutines, through the bytes they
 put on the wire, to what a client reads, even when the connection is cut in the middle of a frame.
 */
module StreamDelivery {
  import opened Options
  import P = StreamProtocol
  import F = StreamFraming

  /** json.Marshal of values and of error frames; None is the frame for a value that could not be encoded. */
  datatype Encoding = Encoding(value: P.Value -> string, error: Option<P.Error> -> string)

  ghost predicate Encodes(enc: Encoding) {
    (forall v :: F.IsPayload(enc.value(v))) && (forall err :: F.IsPayload(enc.error(err)))
  }

  function Encoded(enc: Encoding, f: P.Frame): F.Frame {
    match f
    case Data(v) => F.Data(enc.value(v))
    case Failure(err) => F.Failure(enc.error(err))
    case Done => F.Done
    case Beat => F.Beat
  }

  function Frames(enc: Encoding, wire: seq<P.Frame>): seq<F.Frame> {
    seq(|wire|, k requires 0 <= k < |wire| => Encoded(enc, wire[k]))
  }

  /** The bytes written so far. */
  function Bytes(enc: Encoding, s: P.State): string {
    if s.format.SSE? then F.SseWire(Frames(enc, s.wire)) else F.NdjsonWire(Frames(enc, s.wire))
  }

  /** One event for each value. */
  function DataEvents(enc: Encoding, vs: seq<P.Value>): seq<F.Event> {
    seq(|vs|, k requires 0 <= k < |vs| => F.Event("", enc.value(vs[k])))
  }

  /** One line for each value. */
  function DataLines(enc: Encoding, vs: seq<P.Value>): seq<string> {
    seq(|vs|, k requires 0 <= k < |vs| => enc.value(vs[k]))
  }

  // ----- A wire without terminal frames -----

  lemma {:induction false} EventsConcat(fs: seq<F.Frame>, gs: seq<F.Frame>)
    ensures F.EventsOf(fs + gs) == F.EventsOf(fs) + F.EventsOf(gs)
    ensures F.PayloadsOf(fs + gs) == F.PayloadsOf(fs) + F.PayloadsOf(gs)
  {
    hide F.EventOf, F.PayloadOf;
    if fs == [] {
      assert fs + gs == gs;
    } else {
      var rest := fs[1..];
      assert (fs + gs)[0] == fs[0] && (fs + gs)[1..] == rest + gs;
      EventsConcat(rest, gs);
      assert F.EventOf(fs[0]) + (F.EventsOf(rest) + F.EventsOf(gs)) ==
        F.EventOf(fs[0]) + F.EventsOf(rest) + F.EventsOf(gs);
      assert F.PayloadOf(fs[0]) + (F.PayloadsOf(rest) + F.PayloadsOf(gs)) ==
        F.PayloadOf(fs[0]) + F.PayloadsOf(rest) + F.PayloadsOf(gs);
    }
  }

  lemma {:induction false} FramesAppend(enc: Encoding, wire: seq<P.Frame>, f: P.Frame)
    ensures F.EventsOf(Frames(enc, wire + [f])) == F.EventsOf(Frames(enc, wire)) + F.EventOf(Encoded(enc, f))
    ensures F.PayloadsOf(Frames(enc, wire + [f])) == F.PayloadsOf(Frames(enc, wire)) + F.PayloadOf(Encoded(enc, f))
  {
    assert Frames(enc, wire + [f]) == Frames(enc, wire) + [Encoded(enc, f)];
    EventsConcat(Frames(enc, wire), [Encoded(enc, f)]);
    assert [Encoded(enc, f)][1..] == [];
  }

  lemma {:induction false} DataOnly(enc: Encoding, wire: seq<P.Frame>)
    requires P.NoTerminal(wire)
    ensures F.EventsOf(Frames(enc, wire)) == DataEvents(enc, P.Payloads(wire))
    ensures F.PayloadsOf(Frames(enc, wire)) == DataLines(enc, P.Payloads(wire))
  {
    if wire != [] {
      var n := |wire| - 1;
      assert wire == wire[..n] + [wire[n]];
      FramesAppend(enc, wire[..n], wire[n]);
      DataOnly(enc, wire[..n]);
    }
  }

  /** The terminal frame at the end of the wire, if there is one. */
  function Tail(wire: seq<P.Frame>): seq<P.Frame> {
    if wire != [] && P.IsTerminal(wire[|wire| - 1]) then [wire[|wire| - 1]] else []
  }

  lemma NoFrames(enc: Encoding)
    ensures F.EventsOf(Frames(enc, [])) == [] && F.PayloadsOf(Frames(enc, [])) == []
  {
  }

  lemma {:induction false} DataThenLast(enc: Encoding, data: seq<P.Frame>, f: P.Frame)
    requires P.NoTerminal(data) && P.IsTerminal(f)
    ensures var vs := P.Payloads(data + [f]);
            && F.EventsOf(Frames(enc, data + [f])) == DataEvents(enc, vs) + F.EventsOf(Frames(enc, [f]))
            && F.PayloadsOf(Frames(enc, data + [f])) == DataLines(enc, vs) + F.PayloadsOf(Frames(enc, [f]))
  {
    hide F.EventsOf, F.PayloadsOf, DataEvents, DataLines, P.Payloads;
    assert Frames(enc, data + [f]) == Frames(enc, data) + Frames(enc, [f]);
    EventsConcat(Frames(enc, data), Frames(enc, [f]));
    DataOnly(enc, data);
    P.PayloadsAppend(data, f);
    assert P.Payloads(data + [f]) == P.Payloads(data);
  }

  /** Terminal frames come last: what is read is the data, then the terminal frame if it is there. */
  lemma {:induction false} DataThenTail(enc: Encoding, wire: seq<P.Frame>)
    requires forall k | 0 <= k < |wire| - 1 :: !P.IsTerminal(wire[k])
    ensures F.EventsOf(Frames(enc, wire)) == DataEvents(enc, P.Payloads(wire)) + F.EventsOf(Frames(enc, Tail(wire)))
    ensures F.PayloadsOf(Frames(enc, wire)) == DataLines(enc, P.Payloads(wire)) + F.PayloadsOf(Frames(enc, Tail(wire)))
  {
    hide F.EventsOf, F.PayloadsOf, Frames, DataEvents, DataLines, P.Payloads;
    if Tail(wire) == [] {
      DataOnly(enc, wire);
      NoFrames(enc);
    } else {
      var n := |wire| - 1;
      assert Tail(wire) == [wire[n]];
      assert wire == wire[..n] + [wire[n]] && P.NoTerminal(wire[..n]);
      DataThenLast(enc, wire[..n], wire[n]);
    }
  }

  // ----- What the client reads -----

  /** The consumer is gone and nothing it wrote failed. */
  predicate CleanEnd(e: P.State) { !P.Active(e.consumer) && !e.failed }

  /** What an event-stream client reads last, by how the source ended. */
  function LastEvent(enc: Encoding, err: Option<P.Error>): F.Event {
    match err
    case Some(_) => F.Event("error", enc.error(err))
    case None => F.Event("", "[DONE]")
  }

  /**
   In every schedule the reader of an event stream recovers, in order, the first values the source
   produced, then at most one terminal event. If nothing failed, then once the consumer is gone it has
   read all of them, and last an error event with the source's error, or [DONE] if there was none.
   */
  lemma SseDelivers(enc: Encoding, s: P.State, steps: seq<P.Step>)
    requires Encodes(enc) && P.Init(s) && s.format.SSE? && P.Run(s, steps)
    ensures var e := P.End(s, steps);
            var sent, read := P.Payloads(e.wire), F.ReadSse(Bytes(enc, e));
            && sent <= e.pulled && read == DataEvents(enc, sent) + F.EventsOf(Frames(enc, Tail(e.wire)))
            && (CleanEnd(e) ==>
                  && e.ended.Some?
                  && (e.ended.value.Some? ==>
                        read == DataEvents(enc, e.pulled) + [F.Event("error", enc.error(e.ended.value))])
                  && (e.ended.value.None? ==> read == DataEvents(enc, e.pulled) + [F.Event("", "[DONE]")]))
  {
    hide P.Run, P.End, F.ReadSse, F.SseWire;
    P.WireIsFaithful(s, steps);
    FormatKept(s, steps);
    var e := P.End(s, steps);
    F.SseRoundTrip(Frames(enc, e.wire));
    DataThenTail(enc, e.wire);
    if CleanEnd(e) { OneFrame(enc, e.wire[|e.wire| - 1]); }
  }

  /**
   The same for the line format: on a clean end all the values, then the source's error as a line if it had
   one, and nothing more if not.
   */
  lemma NdjsonDelivers(enc: Encoding, s: P.State, steps: seq<P.Step>)
    requires Encodes(enc) && P.Init(s) && s.format.NDJSON? && P.Run(s, steps)
    ensures var e := P.End(s, steps);
            var sent, read := P.Payloads(e.wire), F.ReadNdjson(Bytes(enc, e));
            && sent <= e.pulled && read == DataLines(enc, sent) + F.PayloadsOf(Frames(enc, Tail(e.wire)))
            && (CleanEnd(e) ==>
                  && e.ended.Some?
                  && (e.ended.value.Some? ==> read == DataLines(enc, e.pulled) + [enc.error(e.ended.value)])
                  && (e.ended.value.None? ==> read == DataLines(enc, e.pulled)))
  {
    hide P.Run, P.End, F.ReadNdjson, F.NdjsonWire;
    P.WireIsFaithful(s, steps);
    FormatKept(s, steps);
    var e := P.End(s, steps);
    F.NdjsonRoundTrip(Frames(enc, e.wire));
    DataThenTail(enc, e.wire);
    if CleanEnd(e) && e.ended.value.Some? { OneFrame(enc, e.wire[|e.wire| - 1]); }
  }

  lemma OneFrame(enc: Encoding, f: P.Frame)
    ensures F.EventsOf(Frames(enc, [f])) == F.EventOf(Encoded(enc, f))
    ensures F.PayloadsOf(Frames(enc, [f])) == F.PayloadOf(Encoded(enc, f))
  {
    assert Frames(enc, [f])[1..] == [];
  }

  /**
   A value that cannot be encoded ends the stream, and once its frame is written the client reads an error
   behind the values before it.
   */
  lemma UnencodableTold(enc: Encoding, s: P.State, steps: seq<P.Step>)
    requires Encodes(enc) && P.Init(s) && P.Run(s, steps) && P.End(s, steps).consumer.Writing?
    ensures P.Enabled(P.End(s, steps), P.EncodeFails(true))
    ensures var e := P.End(s, steps);
            var e', sent := P.Apply(e, P.EncodeFails(true)), P.Payloads(e.wire);
            && !P.Active(e'.consumer) && sent + [e.consumer.v] <= e.pulled
            && (s.format.SSE? ==>
                  F.ReadSse(Bytes(enc, e')) == DataEvents(enc, sent) + [F.Event("error", enc.error(None))])
            && (s.format.NDJSON? ==> F.ReadNdjson(Bytes(enc, e')) == DataLines(enc, sent) + [enc.error(None)])
  {
    hide P.Run, P.End, F.ReadSse, F.SseWire, F.ReadNdjson, F.NdjsonWire;
    Unwritten(s, steps);
    FormatKept(s, steps);
    ErrorRead(enc, P.End(s, steps).wire);
  }

  /** A heartbeat, which an idle consumer can always send, is bytes on the wire that no reader sees. */
  lemma HeartbeatUnseen(enc: Encoding, e: P.State)
    requires Encodes(enc) && e.consumer.Selecting?
    ensures P.Enabled(e, P.Heartbeat)
    ensures var e' := P.Apply(e, P.Heartbeat);
            && e'.consumer.Selecting? && Bytes(enc, e') != Bytes(enc, e)
            && F.ReadSse(F.SseWire(Frames(enc, e'.wire))) == F.ReadSse(F.SseWire(Frames(enc, e.wire)))
            && F.ReadNdjson(F.NdjsonWire(Frames(enc, e'.wire))) == F.ReadNdjson(F.NdjsonWire(Frames(enc, e.wire)))
  {
    hide F.ReadSse, F.ReadNdjson;
    F.SseRoundTrip(Frames(enc, e.wire));
    F.NdjsonRoundTrip(Frames(enc, e.wire));
    F.SseRoundTrip(Frames(enc, e.wire + [P.Beat]));
    F.NdjsonRoundTrip(Frames(enc, e.wire + [P.Beat]));
    FramesAppend(enc, e.wire, P.Beat);
    assert Frames(enc, e.wire + [P.Beat]) == Frames(enc, e.wire) + [F.Beat];
    WireGrows(Frames(enc, e.wire), F.Beat);
  }

  lemma {:induction false} WireGrows(fs: seq<F.Frame>, f: F.Frame)
    ensures F.SseWire(fs + [f]) == F.SseWire(fs) + F.SseFrame(f)
    ensures F.NdjsonWire(fs + [f]) == F.NdjsonWire(fs) + F.NdjsonFrame(f)
  {
    hide F.SseFrame, F.NdjsonFrame;
    if fs == [] {
      assert (fs + [f])[1..] == [] && fs + [f] == [f];
      assert F.SseFrame(f) + "" == F.SseFrame(f) && F.NdjsonFrame(f) + "" == F.NdjsonFrame(f);
    } else {
      var rest := fs[1..];
      assert (fs + [f])[1..] == rest + [f] && (fs + [f])[0] == fs[0];
      WireGrows(rest, f);
      assert F.SseFrame(fs[0]) + (F.SseWire(rest) + F.SseFrame(f)) ==
             F.SseFrame(fs[0]) + F.SseWire(rest) + F.SseFrame(f);
      assert F.NdjsonFrame(fs[0]) + (F.NdjsonWire(rest) + F.NdjsonFrame(f)) ==
             F.NdjsonFrame(fs[0]) + F.NdjsonWire(rest) + F.NdjsonFrame(f);
    }
  }

  /** The value at hand comes next after those written, and no terminal frame is written yet. */
  lemma Unwritten(s: P.State, steps: seq<P.Step>)
    requires P.Init(s) && P.Run(s, steps) && P.End(s, steps).consumer.Writing?
    ensures var e := P.End(s, steps); P.NoTerminal(e.wire) && P.Payloads(e.wire) + [e.consumer.v] <= e.pulled
  {
    P.InvRun(s, steps);
    var e := P.End(s, steps);
    assert P.InFlight(e)[0] == e.consumer.v;
  }

  lemma ErrorRead(enc: Encoding, wire: seq<P.Frame>)
    requires Encodes(enc) && P.NoTerminal(wire)
    ensures var frames, sent := Frames(enc, wire + [P.Failure(None)]), P.Payloads(wire);
            && F.ReadSse(F.SseWire(frames)) == DataEvents(enc, sent) + [F.Event("error", enc.error(None))]
            && F.ReadNdjson(F.NdjsonWire(frames)) == DataLines(enc, sent) + [enc.error(None)]
  {
    hide F.ReadSse, F.SseWire, F.ReadNdjson, F.NdjsonWire, P.Payloads, F.EventsOf, F.PayloadsOf;
    var frame := P.Failure(None);
    F.SseRoundTrip(Frames(enc, wire + [frame]));
    F.NdjsonRoundTrip(Frames(enc, wire + [frame]));
    DataThenLast(enc, wire, frame);
    P.PayloadsAppend(wire, frame);
    assert P.Payloads(wire + [frame]) == P.Payloads(wire);
    OneFrame(enc, frame);
  }

  /** Distinct errors are written differently, and no value's text is the end marker, as no JSON text is. */
  ghost predicate Tells(enc: Encoding) {
    (forall x, y :: enc.error(x) == enc.error(y) ==> x == y) && forall v :: enc.value(v) != "[DONE]"
  }

  /**
   Two event streams that ended cleanly, in whatever schedules, read alike if and only if their sources
   produced values of the same texts and ended alike, with the same error or both without.
   */
  lemma CleanEndsTold(enc: Encoding, s: P.State, steps: seq<P.Step>, s': P.State, steps': seq<P.Step>)
    requires Encodes(enc) && Tells(enc)
    requires P.Init(s) && s.format.SSE? && P.Run(s, steps) && CleanEnd(P.End(s, steps))
    requires P.Init(s') && s'.format.SSE? && P.Run(s', steps') && CleanEnd(P.End(s', steps'))
    ensures var e, e' := P.End(s, steps), P.End(s', steps');
            F.ReadSse(Bytes(enc, e)) == F.ReadSse(Bytes(enc, e')) <==>
              DataLines(enc, e.pulled) == DataLines(enc, e'.pulled) && e.ended == e'.ended
  {
    hide P.Run, P.End, F.ReadSse, Bytes;
    SseDelivers(enc, s, steps);
    SseDelivers(enc, s', steps');
    var e, e' := P.End(s, steps), P.End(s', steps');
    SameReading(enc, e.pulled, e.ended.value, e'.pulled, e'.ended.value);
  }

  lemma SameReading(enc: Encoding, vs: seq<P.Value>, err: Option<P.Error>, ws: seq<P.Value>, err': Option<P.Error>)
    requires Tells(enc)
    ensures DataEvents(enc, vs) + [LastEvent(enc, err)] == DataEvents(enc, ws) + [LastEvent(enc, err')] <==>
              DataLines(enc, vs) == DataLines(enc, ws) && err == err'
  {
    var x, y := DataEvents(enc, vs) + [LastEvent(enc, err)], DataEvents(enc, ws) + [LastEvent(enc, err')];
    if x == y {
      assert |vs| == |ws| && x[|vs|] == y[|vs|];
      forall k | 0 <= k < |vs| ensures DataLines(enc, vs)[k] == DataLines(enc, ws)[k] {
        assert x[k] == y[k];
      }
    }
    if DataLines(enc, vs) == DataLines(enc, ws) {
      forall k | 0 <= k < |vs| ensures DataEvents(enc, vs)[k] == DataEvents(enc, ws)[k] {
        assert DataLines(enc, vs)[k] == DataLines(enc, ws)[k];
      }
    }
  }

  /**
   A client cut off at any character, in any schedule, has read the first of the source's values, or all
   that was written.
   */
  lemma CutOffDelivers(enc: Encoding, s: P.State, steps: seq<P.Step>, cut: string)
    requires Encodes(enc) && P.Init(s) && P.Run(s, steps) && cut <= Bytes(enc, P.End(s, steps))
    ensures var e := P.End(s, steps);
            && (s.format.SSE? ==>
                  || F.ReadSse(cut) == F.ReadSse(Bytes(enc, e))
                  || F.ReadSse(cut) <= DataEvents(enc, e.pulled))
            && (s.format.NDJSON? ==>
                  || F.ReadNdjson(cut) == F.ReadNdjson(Bytes(enc, e))
                  || F.ReadNdjson(cut) <= DataLines(enc, e.pulled))
  {
    hide P.Run, P.End, F.ReadSse, F.ReadNdjson, Bytes, F.EventsOf, F.PayloadsOf;
    var e := P.End(s, steps);
    F.CutOff(cut, Bytes(enc, e));
    ShortTail(enc, e.wire);
    var sent := P.Payloads(e.wire);
    if s.format.SSE? {
      SseDelivers(enc, s, steps);
      if |F.ReadSse(cut)| <= |sent| { assert F.ReadSse(cut) <= DataEvents(enc, sent) <= DataEvents(enc, e.pulled); }
    } else {
      NdjsonDelivers(enc, s, steps);
      if |F.ReadNdjson(cut)| <= |sent| { assert F.ReadNdjson(cut) <= DataLines(enc, sent) <= DataLines(enc, e.pulled); }
    }
  }

  lemma ShortTail(enc: Encoding, wire: seq<P.Frame>)
    ensures |F.EventsOf(Frames(enc, Tail(wire)))| <= 1 && |F.PayloadsOf(Frames(enc, Tail(wire)))| <= 1
  {
    var fs := Frames(enc, Tail(wire));
    assert fs != [] ==> fs[1..] == [];
  }

  lemma {:induction false} FormatKept(s: P.State, steps: seq<P.Step>)
    requires P.Run(s, steps)
    ensures P.End(s, steps).format == s.format
    decreases |steps|
  {
    if steps != [] { FormatKept(P.Apply(s, steps[0]), steps[1..]); }
  }
}
