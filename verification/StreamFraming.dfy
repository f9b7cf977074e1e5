/**
 The bytes of pkg/gofr/http/stream.go on the wire, and what a reader makes of them: an event-stream
 parser by section 9.2.6 of the WHATWG HTML standard, and a newline-delimited JSON reader.
 */
module StreamFraming {
  import opened Strings

  /** Payloads are marshalled JSON: never empty, and control characters only ever escaped. */
  predicate IsPayload(p: string) {
    p != "" && '\n' !in p && '\r' !in p
  }

  datatype Frame = Data(payload: string) | Failure(payload: string) | Done | Beat

  predicate Marshalled(f: Frame) {
    (f.Data? || f.Failure?) ==> IsPayload(f.payload)
  }

  // ----- Server-sent events -----

  function SseFrame(f: Frame): string {
    match f
    case Data(p) => "data: " + p + "\n" + "\n"
    case Failure(p) => "event: error" + "\n" + "data: " + p + "\n" + "\n"
    case Done => "data: [DONE]" + "\n" + "\n"
    case Beat => ": keep-alive" + "\n" + "\n"
  }

  function SseWire(fs: seq<Frame>): string {
    if fs == [] then "" else SseFrame(fs[0]) + SseWire(fs[1..])
  }

  datatype Event = Event(typ: string, data: string)

  /** The event type and data buffers of the standard; lines is the data buffer, one entry per data field. */
  datatype Buffers = Buffers(typ: string, lines: seq<string>)

  const EMPTY := Buffers("", [])

  /** A field line cut at its first colon, with one leading space of the value removed. */
  function FieldOf(line: string): (string, string) {
    if line == "" then ("", "")
    else if line[0] == ':' then ("", if |line| > 1 && line[1] == ' ' then line[2..] else line[1..])
    else var (name, value) := FieldOf(line[1..]); ([line[0]] + name, value)
  }

  function ReadLine(b: Buffers, line: string): Buffers {
    if line != "" && line[0] == ':' then b
    else
      var (name, value) := FieldOf(line);
      if name == "event" then b.(typ := value)
      else if name == "data" then b.(lines := b.lines + [value])
      else b
  }

  /** Dispatches at each blank line; an event without data is dropped, and an unfinished one never sent. */
  function ReadEvents(lines: seq<string>, b: Buffers): seq<Event> {
    if lines == [] then []
    else if lines[0] == "" then
      (if b.lines == [] then [] else [Event(b.typ, Join(b.lines, '\n'))]) + ReadEvents(lines[1..], EMPTY)
    else ReadEvents(lines[1..], ReadLine(b, lines[0]))
  }

  /** The complete lines of a stream that only ever ends lines with a line feed. */
  function CompleteLines(wire: string): seq<string> {
    var parts := Split(wire, '\n');
    parts[..|parts| - 1]
  }

  function ReadSse(wire: string): seq<Event> {
    ReadEvents(CompleteLines(wire), EMPTY)
  }

  /** What a frame means: a heartbeat nothing, any other frame one event. */
  function EventOf(f: Frame): seq<Event> {
    match f
    case Data(p) => [Event("", p)]
    case Failure(p) => [Event("error", p)]
    case Done => [Event("", "[DONE]")]
    case Beat => []
  }

  function EventsOf(fs: seq<Frame>): seq<Event> {
    if fs == [] then [] else EventOf(fs[0]) + EventsOf(fs[1..])
  }

  lemma CompleteLinesCons(line: string, rest: string)
    requires '\n' !in line
    ensures CompleteLines(line + "\n" + rest) == [line] + CompleteLines(rest)
  {
    SplitAt(line, rest, '\n');
    SplitFree(line, '\n');
  }

  lemma {:induction false} FieldAtColon(name: string, value: string)
    requires ':' !in name
    ensures FieldOf(name + ": " + value) == (name, value)
  {
    var line := name + ": " + value;
    if name == "" {
      assert line[0] == ':' && line[1] == ' ' && line[2..] == value;
    } else {
      assert line[1..] == name[1..] + ": " + value;
      FieldAtColon(name[1..], value);
      assert [name[0]] + name[1..] == name;
    }
  }

  /** The lines of one frame, with what the reader does on them. */
  lemma ReadFrame(f: Frame, rest: string)
    requires Marshalled(f)
    ensures ReadSse(SseFrame(f) + rest) == EventOf(f) + ReadSse(rest)
  {
    match f
    case Data(p) => ReadDataFrame("", p, rest);
    case Failure(p) => ReadErrorFrame(p, rest);
    case Done =>
      assert "data: [DONE]" == "data: " + "[DONE]";
      ReadDataFrame("", "[DONE]", rest);
    case Beat =>
      assert SseFrame(f) + rest == ": keep-alive" + "\n" + ("" + "\n" + rest);
      CompleteLinesCons(": keep-alive", "" + "\n" + rest);
      CompleteLinesCons("", rest);
      TwoLines(": keep-alive", CompleteLines(rest), EMPTY);
  }

  /** A field line followed by a blank line. */
  lemma TwoLines(line: string, rest: seq<string>, b: Buffers)
    requires line != ""
    ensures ReadEvents([line] + ([""] + rest), b) ==
              (if ReadLine(b, line).lines == [] then []
               else [Event(ReadLine(b, line).typ, Join(ReadLine(b, line).lines, '\n'))])
              + ReadEvents(rest, EMPTY)
  {
    assert ([line] + ([""] + rest))[1..] == [""] + rest;
    assert ([""] + rest)[1..] == rest;
  }

  lemma ReadDataLine(typ: string, p: string)
    ensures ReadLine(Buffers(typ, []), "data: " + p) == Buffers(typ, [p])
  {
    FieldAtColon("data", p);
    assert "data" + ": " + p == "data: " + p;
  }

  lemma ReadDataFrame(typ: string, p: string, rest: string)
    requires '\n' !in p
    ensures ReadEvents(CompleteLines("data: " + p + "\n" + "\n" + rest), Buffers(typ, [])) ==
            [Event(typ, p)] + ReadSse(rest)
  {
    var line := "data: " + p;
    assert line + "\n" + "\n" + rest == line + "\n" + ("" + "\n" + rest);
    CompleteLinesCons(line, "" + "\n" + rest);
    CompleteLinesCons("", rest);
    TwoLines(line, CompleteLines(rest), Buffers(typ, []));
    ReadDataLine(typ, p);
  }

  lemma ReadErrorFrame(p: string, rest: string)
    requires IsPayload(p)
    ensures ReadSse(SseFrame(Failure(p)) + rest) == [Event("error", p)] + ReadSse(rest)
  {
    var line, after := "event: error", "data: " + p + "\n" + "\n" + rest;
    assert SseFrame(Failure(p)) + rest == line + "\n" + after;
    CompleteLinesCons(line, after);
    assert ([line] + CompleteLines(after))[1..] == CompleteLines(after);
    FieldAtColon("event", "error");
    assert "event" + ": " + "error" == line;
    assert ReadLine(EMPTY, line) == Buffers("error", []);
    ReadDataFrame("error", p, rest);
  }

  lemma ReadNothing()
    ensures ReadSse("") == []
  {
    NoLines();
  }

  /** The reader recovers exactly the events of the frames, wherever heartbeats fall between them. */
  lemma {:induction false} SseRoundTrip(fs: seq<Frame>)
    requires forall k | 0 <= k < |fs| :: Marshalled(fs[k])
    ensures ReadSse(SseWire(fs)) == EventsOf(fs)
  {
    hide CompleteLines, SseFrame, EventOf, ReadEvents;
    if fs == [] {
      ReadNothing();
    } else {
      ReadFrame(fs[0], SseWire(fs[1..]));
      SseRoundTrip(fs[1..]);
    }
  }

  /** The frames that carry something: all but heartbeats. */
  function Sent(fs: seq<Frame>): seq<Frame> {
    if fs == [] then [] else (if fs[0].Beat? then [] else [fs[0]]) + Sent(fs[1..])
  }

  /** The frame an event stands for. */
  function FrameOf(e: Event): Frame {
    if e.typ == "error" then Failure(e.data) else if e.data == "[DONE]" then Done else Data(e.data)
  }

  function FramesOf(es: seq<Event>): seq<Frame> {
    if es == [] then [] else [FrameOf(es[0])] + FramesOf(es[1..])
  }

  const DONE_TEXT := Data("[DONE]")

  lemma {:induction false} FramesBack(fs: seq<Frame>)
    requires DONE_TEXT !in fs
    ensures FramesOf(EventsOf(fs)) == Sent(fs)
  {
    if fs != [] {
      assert fs[0] != DONE_TEXT && forall f | f in fs[1..] :: f in fs;
      FramesBack(fs[1..]);
      if fs[0].Beat? {
        assert EventsOf(fs) == EventsOf(fs[1..]) && Sent(fs) == Sent(fs[1..]);
      } else {
        assert EventsOf(fs) == [EventOf(fs[0])[0]] + EventsOf(fs[1..]) && EventsOf(fs)[1..] == EventsOf(fs[1..]);
      }
    }
  }

  /**
   The event stream is unambiguous up to heartbeats: two streams whose data never reads "[DONE]", which
   is no JSON text, are read alike if and only if they are the same but for heartbeats.
   */
  lemma {:induction false} SseUnambiguous(fs: seq<Frame>, gs: seq<Frame>)
    requires forall f | f in fs + gs :: Marshalled(f) && f != DONE_TEXT
    ensures ReadSse(SseWire(fs)) == ReadSse(SseWire(gs)) <==> Sent(fs) == Sent(gs)
  {
    hide SseWire, ReadSse, Marshalled;
    assert forall f | f in fs :: f in fs + gs;
    assert forall f | f in gs :: f in fs + gs;
    SseRoundTrip(fs);
    SseRoundTrip(gs);
    FramesBack(fs);
    FramesBack(gs);
    EventsOfSent(fs);
    EventsOfSent(gs);
  }

  lemma {:induction false} EventsOfSent(fs: seq<Frame>)
    ensures EventsOf(Sent(fs)) == EventsOf(fs)
  {
    if fs != [] {
      EventsOfSent(fs[1..]);
      if fs[0].Beat? {
        assert Sent(fs) == Sent(fs[1..]) && EventsOf(fs) == EventsOf(fs[1..]);
      } else {
        assert Sent(fs)[1..] == Sent(fs[1..]);
      }
    }
  }

  /** That data text is the one exception: its bytes are those of the end marker. */
  lemma DoneCollides()
    ensures SseWire([DONE_TEXT]) == SseWire([Done]) && Sent([DONE_TEXT]) != Sent([Done])
  {
    assert "data: " + "[DONE]" == "data: [DONE]";
    assert Sent([DONE_TEXT])[0] == DONE_TEXT && Sent([Done])[0] == Done;
  }

  // ----- Newline-delimited JSON -----

  function NdjsonFrame(f: Frame): string {
    match f
    case Data(p) => p + "\n"
    case Failure(p) => p + "\n"
    case Done => ""
    case Beat => "\n"
  }

  function NdjsonWire(fs: seq<Frame>): string {
    if fs == [] then "" else NdjsonFrame(fs[0]) + NdjsonWire(fs[1..])
  }

  function NonBlank(lines: seq<string>): seq<string> {
    if lines == [] then [] else (if lines[0] == "" then [] else [lines[0]]) + NonBlank(lines[1..])
  }

  function PayloadOf(f: Frame): seq<string> {
    if f.Data? || f.Failure? then [f.payload] else []
  }

  function PayloadsOf(fs: seq<Frame>): seq<string> {
    if fs == [] then [] else PayloadOf(fs[0]) + PayloadsOf(fs[1..])
  }

  function ReadNdjson(wire: string): seq<string> {
    NonBlank(CompleteLines(wire))
  }

  lemma NonBlankLine(line: string, rest: string)
    requires '\n' !in line
    ensures ReadNdjson(line + "\n" + rest) == (if line == "" then [] else [line]) + ReadNdjson(rest)
  {
    hide CompleteLines;
    CompleteLinesCons(line, rest);
    assert ([line] + CompleteLines(rest))[1..] == CompleteLines(rest);
  }

  lemma NoLines()
    ensures CompleteLines("") == []
  {
    assert Split("", '\n') == [""];
  }

  lemma ReadNdjsonFrame(f: Frame, rest: string)
    requires Marshalled(f)
    ensures ReadNdjson(NdjsonFrame(f) + rest) == PayloadOf(f) + ReadNdjson(rest)
  {
    hide ReadNdjson;
    match f
    case Done => assert NdjsonFrame(f) + rest == rest;
    case Beat =>
      assert NdjsonFrame(f) + rest == "" + "\n" + rest;
      NonBlankLine("", rest);
    case _ => NonBlankLine(f.payload, rest);
  }

  /** Dropping blank lines recovers the payloads in order, error payloads included. */
  lemma {:induction false} NdjsonRoundTrip(fs: seq<Frame>)
    requires forall k | 0 <= k < |fs| :: Marshalled(fs[k])
    ensures ReadNdjson(NdjsonWire(fs)) == PayloadsOf(fs)
  {
    if fs == [] {
      NoLines();
    } else {
      hide ReadNdjson, NdjsonFrame, PayloadOf;
      ReadNdjsonFrame(fs[0], NdjsonWire(fs[1..]));
      NdjsonRoundTrip(fs[1..]);
    }
  }

  /** The frames that leave a line: data and errors. */
  function Lined(fs: seq<Frame>): seq<Frame> {
    if fs == [] then [] else (if fs[0].Data? || fs[0].Failure? then [fs[0]] else []) + Lined(fs[1..])
  }

  /** No text is both a value and an error. */
  ghost predicate Separate(fs: seq<Frame>) {
    forall p :: !(Data(p) in fs && Failure(p) in fs)
  }

  /**
   The line format is unambiguous up to heartbeats and the end, which leave no line, as long as no text is
   used both for a value and for an error.
   */
  lemma {:induction false} NdjsonUnambiguous(fs: seq<Frame>, gs: seq<Frame>)
    requires (forall f | f in fs + gs :: Marshalled(f)) && Separate(fs + gs)
    ensures ReadNdjson(NdjsonWire(fs)) == ReadNdjson(NdjsonWire(gs)) <==> Lined(fs) == Lined(gs)
  {
    hide ReadNdjson, NdjsonWire, Marshalled, Separate;
    assert forall f | f in fs :: f in fs + gs;
    assert forall f | f in gs :: f in fs + gs;
    NdjsonRoundTrip(fs);
    NdjsonRoundTrip(gs);
    LinedPayloads(fs);
    LinedPayloads(gs);
    if PayloadsOf(fs) == PayloadsOf(gs) { SamePayloads(Lined(fs), Lined(gs), fs + gs); }
  }

  lemma {:induction false} LinedPayloads(fs: seq<Frame>)
    ensures PayloadsOf(Lined(fs)) == PayloadsOf(fs)
    ensures forall f | f in Lined(fs) :: f in fs && (f.Data? || f.Failure?)
  {
    if fs != [] {
      LinedPayloads(fs[1..]);
      if fs[0].Data? || fs[0].Failure? {
        assert Lined(fs)[1..] == Lined(fs[1..]);
      } else {
        assert Lined(fs) == Lined(fs[1..]) && PayloadsOf(fs) == PayloadsOf(fs[1..]);
      }
    }
  }

  lemma {:induction false} SamePayloads(xs: seq<Frame>, ys: seq<Frame>, all: seq<Frame>)
    requires forall f | f in xs || f in ys :: f in all && (f.Data? || f.Failure?)
    requires Separate(all) && PayloadsOf(xs) == PayloadsOf(ys)
    ensures xs == ys
  {
    if xs != [] && ys != [] {
      assert PayloadsOf(xs)[0] == xs[0].payload && PayloadsOf(ys)[0] == ys[0].payload;
      assert PayloadsOf(xs)[1..] == PayloadsOf(xs[1..]) && PayloadsOf(ys)[1..] == PayloadsOf(ys[1..]);
      assert xs[0] in all && ys[0] in all;
      SamePayloads(xs[1..], ys[1..], all);
      assert xs == [xs[0]] + xs[1..] && ys == [ys[0]] + ys[1..];
    }
  }

  /** Where a text is both, the reader cannot tell which was sent. */
  lemma ErrorCollides(p: string)
    ensures NdjsonWire([Data(p)]) == NdjsonWire([Failure(p)]) && Lined([Data(p)]) != Lined([Failure(p)])
  {
    assert Lined([Data(p)])[0] == Data(p) && Lined([Failure(p)])[0] == Failure(p);
  }

  // ----- Streams cut off anywhere -----

  lemma LinesOfPrefix(cut: string, wire: string)
    requires cut <= wire
    ensures CompleteLines(cut) <= CompleteLines(wire)
  {
    var rest := wire[|cut|..];
    assert wire == cut + rest;
    SplitConcat(cut, rest, '\n');
  }

  lemma {:induction false} EventsOfPrefix(some: seq<string>, all: seq<string>, b: Buffers)
    requires some <= all
    ensures ReadEvents(some, b) <= ReadEvents(all, b)
    decreases |some|
  {
    if some != [] {
      EventsOfPrefix(some[1..], all[1..], if some[0] == "" then EMPTY else ReadLine(b, some[0]));
    }
  }

  lemma {:induction false} NonBlankPrefix(some: seq<string>, all: seq<string>)
    requires some <= all
    ensures NonBlank(some) <= NonBlank(all)
  {
    if some != [] { NonBlankPrefix(some[1..], all[1..]); }
  }

  /** A reader cut off at any character has read the first events, or lines, of the whole. */
  lemma CutOff(cut: string, wire: string)
    requires cut <= wire
    ensures ReadSse(cut) <= ReadSse(wire) && ReadNdjson(cut) <= ReadNdjson(wire)
  {
    LinesOfPrefix(cut, wire);
    EventsOfPrefix(CompleteLines(cut), CompleteLines(wire), EMPTY);
    NonBlankPrefix(CompleteLines(cut), CompleteLines(wire));
  }
}
