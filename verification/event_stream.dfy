/** The server side of the research progress stream: `event_iterator` in
    backend/src/main.py, and the round trip through the browser decoder.

    Every event the agent yields becomes one frame
    `"data: " + json.dumps(event, ensure_ascii=False) + "\n\n"`; if the
    agent raises, one more frame carries `{"type": "error", "detail": ...}`
    and the stream ends. */
module EventStream {
  import opened Wrappers
  import opened Text
  import opened PyJson
  import opened StreamDecoder

  /** What iterating `agent.run_stream(topic)` produced: the events it
      yielded, in order, and the text of the exception it then raised, if
      any. */
  datatype AgentRun = AgentRun(events: seq<JValue>, raised: Option<string>)

  /** The frame line before its delimiter. */
  function DataLine(v: JValue): string {
    "data: " + Dumps(v)
  }

  /** The text yielded for one event: a single frame, whose only `"\n\n"`
      is the one that closes it. */
  function EncodeFrame(v: JValue): (r: string)
    ensures Find(r, Delimiter, 0) == |r| - 2
    ensures StartsWith(r, "data: ")
  {
    OneFramePerEvent(v);
    DataLine(v) + Delimiter
  }

  lemma OneFramePerEvent(v: JValue)
    ensures FrameText(DataLine(v))
  {
    DumpsLacksNewline(v);
    var d := DataLine(v);
    forall i | 0 <= i < |d| ensures d[i] != '\n' {
      if i >= 6 {
        assert d[i] == Dumps(v)[i - 6];
      }
    }
    FrameTextWithoutNewline(d);
  }

  /** The payload sent when the agent raises. */
  function ErrorPayload(detail: string): JValue {
    JObj([("type", JStr("error")), ("detail", JStr(detail))])
  }

  /** The values the stream carries: the agent's events, then the error
      payload if it raised. */
  function Emitted(run: AgentRun): seq<JValue> {
    run.events + (if run.raised.Some? then [ErrorPayload(run.raised.value)] else [])
  }

  function Encoded(vs: seq<JValue>): (r: seq<string>)
    ensures |r| == |vs|
  {
    if |vs| == 0 then [] else [EncodeFrame(vs[0])] + Encoded(vs[1..])
  }

  /** `event_iterator()`: the texts it yields, in order. */
  function EventIterator(run: AgentRun): (r: seq<string>)
    ensures |r| == |run.events| + (if run.raised.Some? then 1 else 0)
  {
    Encoded(Emitted(run))
  }

  /** One frame per event, in iterator order, then exactly one error frame
      when the agent raised. */
  lemma {:induction false} FramesFollowEvents(run: AgentRun)
    ensures forall i :: 0 <= i < |run.events| ==> EventIterator(run)[i] == EncodeFrame(run.events[i])
    ensures run.raised.Some? ==>
              EventIterator(run)[|run.events|] == EncodeFrame(ErrorPayload(run.raised.value))
  {
    EncodedIndex(Emitted(run));
  }

  lemma {:induction false} EncodedIndex(vs: seq<JValue>)
    ensures forall i :: 0 <= i < |vs| ==> Encoded(vs)[i] == EncodeFrame(vs[i])
    decreases |vs|
  {
    if |vs| > 0 {
      EncodedIndex(vs[1..]);
      forall i | 0 < i < |vs| ensures Encoded(vs)[i] == EncodeFrame(vs[i]) {
        assert vs[1..][i - 1] == vs[i];
      }
    }
  }

  /* ---------------------------------------------------------------- */
  /* The browser's view of these values                               */
  /* ---------------------------------------------------------------- */

  /** `event.type` when it is a string. */
  function TypeOf(v: JValue): Option<string> {
    match v
    case JObj(d) => GetStr(d, "type")
    case _ => None
  }

  /** The decoder applied to JSON values: reading `type` throws only on
      `null`, and `onEvent` never throws. */
  function Browser(parse: string -> Option<JValue>): Codec<JValue> {
    Codec(parse, TypeOf, (v: JValue) => false, (v: JValue) => v == JNull)
  }

  /** `JSON.parse` reads back what `json.dumps` wrote. */
  ghost predicate ParsesDumps(parse: string -> Option<JValue>) {
    forall v :: parse(Dumps(v)) == Some(v)
  }

  /** The values up to and including the first one whose `type` is
      `"error"` or `"done"`. */
  function UpToTerminal(vs: seq<JValue>): seq<JValue> {
    if |vs| == 0 then []
    else if IsTerminal(TypeOf(vs[0])) then [vs[0]]
    else [vs[0]] + UpToTerminal(vs[1..])
  }

  predicate AnyTerminal(vs: seq<JValue>) {
    exists i | 0 <= i < |vs| :: IsTerminal(TypeOf(vs[i]))
  }

  /** `UpToTerminal` keeps a prefix: everything before a terminal value,
      and that value, or everything when there is none. */
  lemma {:induction false} UpToTerminalSpec(vs: seq<JValue>)
    ensures var u := UpToTerminal(vs);
            0 < |u| <= |vs| || (u == [] && vs == [])
    ensures UpToTerminal(vs) == vs[..|UpToTerminal(vs)|]
    ensures forall i :: 0 <= i < |UpToTerminal(vs)| - 1 ==> !IsTerminal(TypeOf(vs[i]))
    ensures AnyTerminal(vs) <==> |UpToTerminal(vs)| > 0 && IsTerminal(TypeOf(vs[|UpToTerminal(vs)| - 1]))
    decreases |vs|
  {
    if |vs| > 0 && !IsTerminal(TypeOf(vs[0])) {
      var t := vs[1..];
      UpToTerminalSpec(t);
      var u := UpToTerminal(t);
      assert UpToTerminal(vs) == [vs[0]] + u;
      assert vs[..1 + |u|] == [vs[0]] + t[..|u|];
      forall i | 0 < i < |u| + 1 - 1 ensures !IsTerminal(TypeOf(vs[i])) {
        assert vs[i] == t[i - 1];
      }
      if AnyTerminal(vs) {
        var i :| 0 <= i < |vs| && IsTerminal(TypeOf(vs[i]));
        assert IsTerminal(TypeOf(t[i - 1]));
      }
      if AnyTerminal(t) {
        var i :| 0 <= i < |t| && IsTerminal(TypeOf(t[i]));
        assert vs[i + 1] == t[i];
      }
    } else if |vs| > 0 {
      assert vs[..1] == [vs[0]];
    }
  }

  /* ---------------------------------------------------------------- */
  /* Round trip                                                       */
  /* ---------------------------------------------------------------- */

  /** The frames of a list of values as the decoder classifies them. */
  function ParsedAll(vs: seq<JValue>): seq<Frame<JValue>> {
    if |vs| == 0 then [] else [Parsed(vs[0], Dumps(vs[0]))] + ParsedAll(vs[1..])
  }

  function DataLines(vs: seq<JValue>): seq<string> {
    if |vs| == 0 then [] else [DataLine(vs[0])] + DataLines(vs[1..])
  }

  /** The stream text is the data lines, each closed by a delimiter. */
  lemma {:induction false} EncodedText(vs: seq<JValue>)
    ensures Concat(Encoded(vs)) == Rejoin(DataLines(vs))
    decreases |vs|
  {
    if |vs| == 0 {
    } else {
      var e := Encoded(vs);
      ConcatCons(e);
      assert e[1..] == Encoded(vs[1..]);
      EncodedText(vs[1..]);
      RejoinCons(DataLine(vs[0]), DataLines(vs[1..]));
      assert [DataLine(vs[0])] + DataLines(vs[1..]) == DataLines(vs);
    }
  }

  lemma {:induction false} DataLinesAreFrames(vs: seq<JValue>)
    ensures |DataLines(vs)| == |vs|
    ensures forall i :: 0 <= i < |vs| ==> FrameText(DataLines(vs)[i])
    decreases |vs|
  {
    if |vs| > 0 {
      DataLinesAreFrames(vs[1..]);
      OneFramePerEvent(vs[0]);
      forall i | 0 < i < |vs| ensures FrameText(DataLines(vs)[i]) {
        assert DataLines(vs)[i] == DataLines(vs[1..])[i - 1];
      }
    }
  }

  /** Every data line parses back into the value it carries. */
  lemma {:induction false} ClassifyDataLines(parse: string -> Option<JValue>, vs: seq<JValue>)
    requires ParsesDumps(parse)
    ensures ClassifyAll(Browser(parse), DataLines(vs)) == ParsedAll(vs)
    decreases |vs|
  {
    if |vs| > 0 {
      var v := vs[0];
      DumpsTight(v);
      PayloadOfDataLine(Dumps(v));
      assert parse(Dumps(v)) == Some(v);
      ClassifyAllCons(Browser(parse), DataLine(v), DataLines(vs[1..]));
      ClassifyDataLines(parse, vs[1..]);
    }
  }

  lemma AnyTerminalCons(vs: seq<JValue>)
    requires |vs| > 0
    ensures AnyTerminal(vs) <==> IsTerminal(TypeOf(vs[0])) || AnyTerminal(vs[1..])
  {
    if AnyTerminal(vs) && !IsTerminal(TypeOf(vs[0])) {
      var i :| 0 <= i < |vs| && IsTerminal(TypeOf(vs[i]));
      assert vs[1..][i - 1] == vs[i];
    }
    if AnyTerminal(vs[1..]) {
      var i :| 0 <= i < |vs[1..]| && IsTerminal(TypeOf(vs[1..][i]));
      assert vs[i + 1] == vs[1..][i];
    }
  }

  /** One object frame inside the read loop: delivered, never logged, and
      ending the loop exactly when its `type` is terminal. */
  lemma StepObject(parse: string -> Option<JValue>, s: Sink<JValue>, v: JValue)
    requires !s.stopped && v.JObj?
    ensures Step(Browser(parse), s, Parsed(v, Dumps(v)), true)
         == Sink(s.dispatched + [v], s.logged, IsTerminal(TypeOf(v)))
  {
  }

  /** The read loop over well-formed events delivers each of them, stops
      right after the first terminal one, and logs nothing. */
  lemma {:induction false} FramesOfObjects(parse: string -> Option<JValue>, s: Sink<JValue>, vs: seq<JValue>)
    requires !s.stopped
    requires forall i :: 0 <= i < |vs| ==> vs[i].JObj?
    ensures Frames(Browser(parse), s, ParsedAll(vs))
         == Sink(s.dispatched + UpToTerminal(vs), s.logged, AnyTerminal(vs))
    decreases |vs|
  {
    var c := Browser(parse);
    if |vs| == 0 {
      assert s.dispatched + [] == s.dispatched;
    } else {
      var v := vs[0];
      assert v.JObj?;
      StepObject(parse, s, v);
      var s1 := Sink(s.dispatched + [v], s.logged, IsTerminal(TypeOf(v)));
      assert ParsedAll(vs)[1..] == ParsedAll(vs[1..]);
      assert Frames(c, s, ParsedAll(vs)) == Frames(c, s1, ParsedAll(vs[1..]));
      AnyTerminalCons(vs);
      if !IsTerminal(TypeOf(v)) {
        assert forall i :: 0 <= i < |vs[1..]| ==> vs[1..][i] == vs[i + 1];
        FramesOfObjects(parse, s1, vs[1..]);
        SeqAssoc(s.dispatched, [v], UpToTerminal(vs[1..]));
      }
    }
  }

  /** The stream of a list of values decodes as the read loop over their
      frames, with nothing left to flush. */
  lemma DecodeEncoded(parse: string -> Option<JValue>, vs: seq<JValue>)
    requires ParsesDumps(parse)
    ensures Decode(Browser(parse), Concat(Encoded(vs))) == Frames(Browser(parse), EmptySink(), ParsedAll(vs))
  {
    EncodedText(vs);
    DataLinesAreFrames(vs);
    assert Find("", Delimiter, 0) == -1;
    SplitRejoin(DataLines(vs), "");
    assert Rejoin(DataLines(vs)) + "" == Rejoin(DataLines(vs));
    ClassifyDataLines(parse, vs);
    assert AllSpace("", JsWhitespace);
  }

  /** The error payload is a terminal event. */
  lemma ErrorPayloadIsTerminal(detail: string)
    ensures TypeOf(ErrorPayload(detail)) == Some("error")
  {
    assert ErrorPayload(detail).fields[0] == ("type", JStr("error"));
  }

  /** What the server sends is what the browser hands to `onEvent`: the
      events in order, up to and including the first `error` or `done`,
      with nothing logged; when the agent raised, the error frame ends the
      exchange. Events are dicts, and `JSON.parse` inverts `json.dumps`. */
  lemma RoundTrip(parse: string -> Option<JValue>, run: AgentRun)
    requires ParsesDumps(parse)
    requires forall i :: 0 <= i < |run.events| ==> run.events[i].JObj?
    ensures var s := Decode(Browser(parse), Concat(EventIterator(run)));
            s.dispatched == UpToTerminal(Emitted(run))
            && s.logged == []
            && (s.stopped <==> AnyTerminal(Emitted(run)))
    ensures run.raised.Some? ==> AnyTerminal(Emitted(run))
  {
    var vs := Emitted(run);
    forall i | 0 <= i < |vs| ensures vs[i].JObj? {
      if i >= |run.events| {
        assert vs[i] == ErrorPayload(run.raised.value);
      } else {
        assert vs[i] == run.events[i];
      }
    }
    DecodeEncoded(parse, vs);
    FramesOfObjects(parse, EmptySink(), vs);
    if run.raised.Some? {
      ErrorPayloadIsTerminal(run.raised.value);
      assert vs[|vs| - 1] == ErrorPayload(run.raised.value);
    }
  }

  /** However the network cuts the frames into reads, a completed response
      resolves after delivering exactly the events up to the first
      terminal one. */
  lemma StreamedRunDelivers(parse: string -> Option<JValue>, run: AgentRun,
                            chunks: seq<string>, status: int)
    requires ParsesDumps(parse)
    requires forall i :: 0 <= i < |run.events| ==> run.events[i].JObj?
    requires Concat(chunks) == Concat(EventIterator(run))
    ensures RunResearchStream(Browser(parse), Response(true, status, None, Some(Body(chunks, false))))
         == Run(UpToTerminal(Emitted(run)), [], Resolved)
  {
    RunIsDecode(Browser(parse), chunks, status, None);
    RoundTrip(parse, run);
  }
}
