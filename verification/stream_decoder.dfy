/** The browser side of the research progress stream: `runResearchStream`
    in frontend/src/services/api.ts.

    The response body arrives as a list of already-decoded text chunks.
    The decoder keeps a residual buffer, cuts a frame at every first
    `"\n\n"`, accepts a frame only when its trimmed text starts with
    `data:`, parses the rest as JSON and hands each parsed event to the
    caller's sink, in order. An event whose `type` is `"error"` or `"done"`
    ends the exchange; at end of input a leftover frame is flushed once,
    without that check.

    This is a reduced subset of the `text/event-stream` format of the WHATWG
    HTML Living Standard, section 9.2.5 "Parsing an event stream": only LF LF
    separates events, there is no CR handling, and `id`, `event` and `retry`
    fields are not recognised. */
module StreamDecoder {
  import opened Wrappers
  import opened Text

  const Delimiter: string := "\n\n"
  const DataPrefix: string := "data:"

  /** Rejection message for a non-OK response with an empty body. */
  function StatusMessage(status: int): string {
    "研究请求失败，状态码：" + Decimal(status)
  }

  /** Rejection message when the response has no readable body. */
  const NoStreamMessage: string := "浏览器不支持流式响应，无法获取研究进度"

  /** How the decoder sees events of type `E`.
      - `parse` is `JSON.parse`; `None` when it throws.
      - `kind` is the event's `type` field when it is a string.
      - `sinkThrows` holds when the caller's `onEvent` throws for the event.
      - `untyped` holds when reading `event.type` throws (the JSON text was
        `null`). */
  datatype Codec<!E> = Codec(
    parse: string -> Option<E>,
    kind: E -> Option<string>,
    sinkThrows: E -> bool,
    untyped: E -> bool)

  predicate IsTerminal(k: Option<string>) {
    k == Some("error") || k == Some("done")
  }

  /** What the caller has observed so far: events handed to `onEvent`,
      payloads reported through `console.error`, and whether the function
      has returned because of a terminal event. */
  datatype Sink<E> = Sink(dispatched: seq<E>, logged: seq<string>, stopped: bool)

  function EmptySink<E>(): Sink<E> {
    Sink([], [], false)
  }

  /* ---------------------------------------------------------------- */
  /* One frame                                                        */
  /* ---------------------------------------------------------------- */

  /** The JSON text of a frame: the trimmed remainder after `data:` of the
      trimmed frame, when that remainder is non-empty. */
  function Payload(raw: string): (r: Option<string>)
    ensures r.Some? ==> r.value != ""
  {
    var t := Trim(raw, JsWhitespace);
    if StartsWith(t, DataPrefix) then
      var p := Trim(t[|DataPrefix|..], JsWhitespace);
      if p != "" then Some(p) else None
    else None
  }

  /** A payload is only found behind a `data:` field name, and it is what
      the trimmed remainder of that line says, without surrounding blanks. */
  lemma PayloadShape(raw: string)
    ensures Payload(raw).Some? <==>
              StartsWith(Trim(raw, JsWhitespace), DataPrefix)
              && !AllSpace(Trim(raw, JsWhitespace)[|DataPrefix|..], JsWhitespace)
    ensures Payload(raw).Some? ==> Tight(Payload(raw).value, JsWhitespace)
  {
    var t := Trim(raw, JsWhitespace);
    if StartsWith(t, DataPrefix) {
      TrimSpec(t[|DataPrefix|..], JsWhitespace);
    }
  }

  /** The server's framing `"data: " + json` yields back exactly `json`,
      provided `json` is non-empty and has no whitespace at either end. */
  lemma {:induction false} PayloadOfDataLine(json: string)
    requires json != "" && Tight(json, JsWhitespace)
    ensures Payload("data: " + json) == Some(json)
  {
    var raw := "data: " + json;
    assert Tight(raw, JsWhitespace) by {
      assert raw[0] == 'd';
      assert raw[|raw| - 1] == json[|json| - 1];
    }
    TrimTight(raw, JsWhitespace);
    assert StartsWith(raw, DataPrefix);
    assert raw[|DataPrefix|..] == " " + json;
    TrimPadded(" ", json, "", JsWhitespace);
    assert " " + json + "" == " " + json;
  }

  /** A frame as the decoder classifies it. */
  datatype Frame<E> =
    | Skip                              // no `data:` line, or nothing after it
    | Malformed(payload: string)        // `JSON.parse` threw
    | Parsed(event: E, payload: string)

  function Classify<E>(c: Codec<E>, raw: string): Frame<E> {
    match Payload(raw)
    case None => Skip
    case Some(p) =>
      match c.parse(p)
      case None => Malformed(p)
      case Some(e) => Parsed(e, p)
  }

  function ClassifyAll<E>(c: Codec<E>, raws: seq<string>): (fs: seq<Frame<E>>)
    ensures |fs| == |raws|
  {
    if |raws| == 0 then [] else [Classify(c, raws[0])] + ClassifyAll(c, raws[1..])
  }

  lemma {:induction false} ClassifyAllAppend<E>(c: Codec<E>, a: seq<string>, b: seq<string>)
    ensures ClassifyAll(c, a + b) == ClassifyAll(c, a) + ClassifyAll(c, b)
    decreases |a|
  {
    if |a| == 0 {
      assert a + b == b;
    } else {
      assert (a + b)[1..] == a[1..] + b;
      ClassifyAllAppend(c, a[1..], b);
    }
  }

  /** The event a frame hands to the sink, if any. */
  function EventOf<E>(f: Frame<E>): seq<E> {
    if f.Parsed? then [f.event] else []
  }

  /** The payload a frame reports through `console.error`, if any: a parse
      failure, a throwing sink, or (inside the read loop only, where the
      `type` is inspected) an event without a readable `type`. */
  function LogOf<E>(c: Codec<E>, f: Frame<E>, inLoop: bool): seq<string> {
    match f
    case Skip => []
    case Malformed(p) => [p]
    case Parsed(e, p) => if c.sinkThrows(e) || (inLoop && c.untyped(e)) then [p] else []
  }

  /** Inside the read loop, the frame makes the function return. */
  predicate Ends<E>(c: Codec<E>, f: Frame<E>) {
    f.Parsed? && !c.sinkThrows(f.event) && !c.untyped(f.event) && IsTerminal(c.kind(f.event))
  }

  /** Handles one classified frame: skip it, log it, or dispatch its event.
      Inside the read loop a cleanly handled terminal event stops the
      decoder; the end-of-input flush passes `inLoop := false`. */
  function Step<E>(c: Codec<E>, s: Sink<E>, f: Frame<E>, inLoop: bool): (r: Sink<E>)
    requires !s.stopped
    ensures r.dispatched == s.dispatched + EventOf(f)
    ensures r.logged == s.logged + LogOf(c, f, inLoop)
    ensures r.stopped <==> inLoop && Ends(c, f)
  {
    match f
    case Skip => s
    case Malformed(p) => s.(logged := s.logged + [p])
    case Parsed(e, p) =>
      if c.sinkThrows(e) || (inLoop && c.untyped(e)) then
        s.(dispatched := s.dispatched + [e], logged := s.logged + [p])
      else
        s.(dispatched := s.dispatched + [e], stopped := inLoop && IsTerminal(c.kind(e)))
  }

  /* ---------------------------------------------------------------- */
  /* Reference semantics: split the whole text, then fold the frames  */
  /* ---------------------------------------------------------------- */

  /** Cuts `text` at every first `"\n\n"`: the complete frames, in order,
      and the unterminated rest. */
  function Split(text: string): (r: (seq<string>, string))
    decreases |text|
  {
    var k := Find(text, Delimiter, 0);
    if k == -1 then ([], text)
    else
      var tail := Split(text[k + 2..]);
      ([text[..k]] + tail.0, tail.1)
  }

  /** The rest holds no delimiter: it is an unterminated frame. */
  lemma {:induction false} SplitRestIsOpen(text: string)
    ensures Find(Split(text).1, Delimiter, 0) == -1
    decreases |text|
  {
    var k := Find(text, Delimiter, 0);
    if k != -1 {
      SplitRestIsOpen(text[k + 2..]);
    }
  }

  lemma SplitStep(text: string, k: nat)
    requires k + 2 <= |text| && Find(text, Delimiter, 0) == k
    ensures Split(text) == ([text[..k]] + Split(text[k + 2..]).0, Split(text[k + 2..]).1)
  {
  }

  /** The wire text of a list of frames: each followed by `"\n\n"`. */
  function Rejoin(frames: seq<string>): string {
    if |frames| == 0 then "" else frames[0] + Delimiter + Rejoin(frames[1..])
  }

  lemma RejoinCons(f: string, fs: seq<string>)
    ensures Rejoin([f] + fs) == f + Delimiter + Rejoin(fs)
  {
    assert ([f] + fs)[1..] == fs;
  }

  /** Nothing is lost or reordered: the frames, each followed by its
      delimiter, and then the rest, spell the original text. */
  lemma {:induction false} SplitCovers(text: string)
    ensures Rejoin(Split(text).0) + Split(text).1 == text
    decreases |text|
  {
    var k := Find(text, Delimiter, 0);
    if k == -1 {
      assert Rejoin([]) + text == text;
    } else {
      var tail := Split(text[k + 2..]);
      SplitCovers(text[k + 2..]);
      SplitStep(text, k);
      RejoinCons(text[..k], tail.0);
      SeqAssoc(text[..k] + Delimiter, Rejoin(tail.0), tail.1);
      CutAround(text, k);
    }
  }

  /** A text around the delimiter found at `k`. */
  lemma CutAround(text: string, k: nat)
    requires Find(text, Delimiter, 0) == k
    ensures text == text[..k] + Delimiter + text[k + 2..]
  {
    FindFound(text, Delimiter, 0);
    assert text[k..k + 2] == Delimiter;
    assert text == text[..k] + text[k..k + 2] + text[k + 2..];
  }

  /** `f` is a frame the server can send: its first delimiter is the one
      that terminates it. */
  predicate FrameText(f: string) {
    Find(f + Delimiter, Delimiter, 0) == |f|
  }

  /** A text without line feeds is always a frame the server can send. */
  lemma FrameTextWithoutNewline(f: string)
    requires Lacks(f, '\n')
    ensures FrameText(f)
  {
    var t := f + Delimiter;
    assert OccursAt(t, Delimiter, |f|);
    forall i | 0 <= i < |f| ensures !OccursAt(t, Delimiter, i) {
      assert t[i] == f[i];
    }
    FindIsFirst(t, Delimiter, |f|);
  }

  /** Splitting inverts framing: frames joined with delimiters, followed by
      a delimiter-free rest, split back into the same frames and rest. */
  lemma {:induction false} SplitRejoin(frames: seq<string>, rest: string)
    requires forall i :: 0 <= i < |frames| ==> FrameText(frames[i])
    requires Find(rest, Delimiter, 0) == -1
    ensures Split(Rejoin(frames) + rest) == (frames, rest)
    decreases |frames|
  {
    if |frames| == 0 {
      assert Rejoin(frames) + rest == rest;
    } else {
      var f := frames[0];
      var more := Rejoin(frames[1..]) + rest;
      assert FrameText(f);
      SeqAssoc(f + Delimiter, Rejoin(frames[1..]), rest);
      SplitFramed(f, more);
      forall i | 0 <= i < |frames| - 1 ensures FrameText(frames[1..][i]) {
        assert frames[1..][i] == frames[i + 1];
      }
      SplitRejoin(frames[1..], rest);
      assert [f] + frames[1..] == frames;
    }
  }

  /** A frame the server can send, followed by its delimiter, comes off
      the front of the text as one frame. */
  lemma SplitFramed(f: string, more: string)
    requires FrameText(f)
    ensures Split(f + Delimiter + more) == ([f] + Split(more).0, Split(more).1)
  {
    var text := f + Delimiter + more;
    FindInPrefix(f + Delimiter, more, Delimiter);
    assert text[..|f|] == f;
    assert text[|f| + 2..] == more;
    SplitStep(text, |f|);
  }

  /** Splitting `b + x` where `b`'s first delimiter is at `k`. */
  lemma SplitAppendStep(b: string, x: string, k: nat)
    requires k + 2 <= |b| && Find(b, Delimiter, 0) == k
    ensures Split(b + x) == ([b[..k]] + Split(b[k + 2..] + x).0, Split(b[k + 2..] + x).1)
  {
    FindInPrefix(b, x, Delimiter);
    assert (b + x)[..k] == b[..k];
    assert (b + x)[k + 2..] == b[k + 2..] + x;
    SplitStep(b + x, k);
  }

  /** Appending text never disturbs the frames already complete: it only
      re-splits the old rest together with the new text. */
  lemma {:induction false} SplitAppend(b: string, x: string)
    ensures Split(b + x) == (Split(b).0 + Split(Split(b).1 + x).0, Split(Split(b).1 + x).1)
    decreases |b|
  {
    var k := Find(b, Delimiter, 0);
    if k == -1 {
      assert Split(b) == ([], b);
      assert [] + Split(b + x).0 == Split(b + x).0;
    } else {
      SplitAppendStep(b, x, k);
      SplitAppend(b[k + 2..], x);
      SplitStep(b, k);
      var r := Split(b[k + 2..]);
      var t := Split(r.1 + x);
      SeqAssoc([b[..k]], r.0, t.0);
    }
  }

  /** Handles complete frames in order inside the read loop, stopping at a
      terminal event. */
  function Frames<E>(c: Codec<E>, s: Sink<E>, frames: seq<Frame<E>>): Sink<E>
    decreases |frames|
  {
    if s.stopped || |frames| == 0 then s
    else Frames(c, Step(c, s, frames[0], true), frames[1..])
  }

  lemma {:induction false} FramesAppend<E>(c: Codec<E>, s: Sink<E>, a: seq<Frame<E>>, b: seq<Frame<E>>)
    ensures Frames(c, s, a + b) == Frames(c, Frames(c, s, a), b)
    decreases |a|
  {
    if |a| == 0 {
      assert a + b == b;
    } else if !s.stopped {
      assert (a + b)[1..] == a[1..] + b;
      FramesAppend(c, Step(c, s, a[0], true), a[1..], b);
    }
  }

  /** What a whole response text delivers: the complete frames in order,
      then, unless a terminal event came first, the unterminated rest as one
      last frame without the terminal check. */
  function Decode<E>(c: Codec<E>, text: string): Sink<E> {
    var (frames, rest) := Split(text);
    Flush(c, Decoder(rest, Frames(c, EmptySink(), ClassifyAll(c, frames))))
  }

  /* ---------------------------------------------------------------- */
  /* The incremental decoder of api.ts                                */
  /* ---------------------------------------------------------------- */

  /** The decoder's state between reads: the residual buffer and the sink. */
  datatype Decoder<E> = Decoder(buffer: string, sink: Sink<E>)

  /** The inner `while (boundary !== -1)` loop: cut and handle frames until
      no delimiter is left or a terminal event returned. */
  function Drain<E>(c: Codec<E>, d: Decoder<E>): (r: Decoder<E>)
    ensures !r.sink.stopped ==> Find(r.buffer, Delimiter, 0) == -1
    decreases |d.buffer|
  {
    if d.sink.stopped then d
    else
      var k := Find(d.buffer, Delimiter, 0);
      if k == -1 then d
      else Drain(c, Decoder(d.buffer[k + 2..], Step(c, d.sink, Classify(c, d.buffer[..k]), true)))
  }

  /** One read that returned text: append it and drain. Nothing is read
      once the function has returned. */
  function Feed<E>(c: Codec<E>, d: Decoder<E>, chunk: string): Decoder<E> {
    if d.sink.stopped then d else Drain(c, d.(buffer := d.buffer + chunk))
  }

  function FeedAll<E>(c: Codec<E>, d: Decoder<E>, chunks: seq<string>): Decoder<E>
    decreases |chunks|
  {
    if |chunks| == 0 then d else FeedAll(c, Feed(c, d, chunks[0]), chunks[1..])
  }

  /** The `done` branch: a non-blank leftover buffer is handled once as a
      final frame, with no terminal check. */
  function Flush<E>(c: Codec<E>, d: Decoder<E>): (r: Sink<E>)
    ensures r.stopped <==> d.sink.stopped
  {
    if d.sink.stopped || AllSpace(d.buffer, JsWhitespace) then d.sink
    else Step(c, d.sink, Classify(c, d.buffer), false)
  }

  /* ---------------------------------------------------------------- */
  /* The whole exchange                                               */
  /* ---------------------------------------------------------------- */

  /** How the body of an OK response was read: the text of every read that
      returned data, and whether reading then failed (the abort signal fired
      or the connection broke) instead of reporting `done`. */
  datatype Body = Body(chunks: seq<string>, interrupted: bool)

  /** What `fetch` produced. `errorText` is `None` when `response.text()`
      itself rejects. */
  datatype Exchange =
    | FetchRejected
    | Response(ok: bool, status: int, errorText: Option<string>, body: Option<Body>)

  /** How the returned promise settles. `Interrupted` is a rejection with the
      transport's own error (an `AbortError` after cancellation). */
  datatype Outcome = Resolved | Rejected(message: string) | Interrupted

  datatype Run<E> = Run(dispatched: seq<E>, logged: seq<string>, outcome: Outcome)

  /** `runResearchStream(payload, onEvent, options)`. */
  function RunResearchStream<E>(c: Codec<E>, x: Exchange): (r: Run<E>)
    ensures x.FetchRejected? ==> r == Run([], [], Interrupted)
    ensures x.Response? && !x.ok ==>
      r == Run([], [], Rejected(
             if x.errorText.Some? && x.errorText.value != "" then x.errorText.value
             else StatusMessage(x.status)))
    ensures x.Response? && x.ok && x.body.None? ==> r == Run([], [], Rejected(NoStreamMessage))
    ensures r.outcome.Rejected? ==> r.dispatched == [] && r.logged == []
  {
    match x
    case FetchRejected => Run([], [], Interrupted)
    case Response(ok, status, errorText, body) =>
      if !ok then
        var text := errorText.GetOr("");
        Run([], [], Rejected(if text != "" then text else StatusMessage(status)))
      else if body.None? then Run([], [], Rejected(NoStreamMessage))
      else
        var d := FeedAll(c, Decoder("", EmptySink()), body.value.chunks);
        if d.sink.stopped then Run(d.sink.dispatched, d.sink.logged, Resolved)
        else if body.value.interrupted then Run(d.sink.dispatched, d.sink.logged, Interrupted)
        else
          var s := Flush(c, Feed(c, d, ""));
          Run(s.dispatched, s.logged, Resolved)
  }

  /* ---------------------------------------------------------------- */
  /* Incremental decoding agrees with the reference                   */
  /* ---------------------------------------------------------------- */

  /** The in-loop drain handles exactly the complete frames of its buffer,
      and keeps exactly the unterminated rest. */
  lemma {:induction false} DrainIsSplit<E>(c: Codec<E>, d: Decoder<E>)
    ensures Drain(c, d).sink == Frames(c, d.sink, ClassifyAll(c, Split(d.buffer).0))
    ensures !Drain(c, d).sink.stopped ==> Drain(c, d).buffer == Split(d.buffer).1
    decreases |d.buffer|
  {
    if !d.sink.stopped {
      var k := Find(d.buffer, Delimiter, 0);
      if k != -1 {
        var raw := d.buffer[..k];
        var after := d.buffer[k + 2..];
        var s1 := Step(c, d.sink, Classify(c, raw), true);
        DrainStep(c, d, k);
        DrainIsSplit(c, Decoder(after, s1));
        SplitStep(d.buffer, k);
        ClassifyAllCons(c, raw, Split(after).0);
        FramesCons(c, d.sink, Classify(c, raw), ClassifyAll(c, Split(after).0));
      }
    }
  }

  lemma DrainStep<E>(c: Codec<E>, d: Decoder<E>, k: nat)
    requires !d.sink.stopped && Find(d.buffer, Delimiter, 0) == k
    ensures Drain(c, d)
         == Drain(c, Decoder(d.buffer[k + 2..], Step(c, d.sink, Classify(c, d.buffer[..k]), true)))
  {
  }

  lemma ClassifyAllCons<E>(c: Codec<E>, raw: string, raws: seq<string>)
    ensures ClassifyAll(c, [raw] + raws) == [Classify(c, raw)] + ClassifyAll(c, raws)
  {
    assert ([raw] + raws)[1..] == raws;
  }

  lemma FramesCons<E>(c: Codec<E>, s: Sink<E>, f: Frame<E>, fs: seq<Frame<E>>)
    requires !s.stopped
    ensures Frames(c, s, [f] + fs) == Frames(c, Step(c, s, f, true), fs)
  {
    assert ([f] + fs)[1..] == fs;
  }

  lemma {:induction false} StoppedAfterFeedAll<E>(c: Codec<E>, d: Decoder<E>, chunks: seq<string>)
    requires d.sink.stopped
    ensures FeedAll(c, d, chunks) == d
    decreases |chunks|
  {
    if |chunks| > 0 {
      StoppedAfterFeedAll(c, d, chunks[1..]);
    }
  }

  /** `Concat` read from the front. */
  lemma ConcatCons(chunks: seq<string>)
    requires |chunks| > 0
    ensures Concat(chunks) == chunks[0] + Concat(chunks[1..])
  {
    ConcatAppend([chunks[0]], chunks[1..]);
    ConcatSingle(chunks[0]);
    assert [chunks[0]] + chunks[1..] == chunks;
  }

  /** Feeding chunks one by one delivers what splitting their concatenation
      at once delivers. */
  lemma {:induction false} FeedAllIsSplit<E>(c: Codec<E>, d: Decoder<E>, chunks: seq<string>)
    requires !d.sink.stopped && Find(d.buffer, Delimiter, 0) == -1
    ensures FeedAll(c, d, chunks).sink
         == Frames(c, d.sink, ClassifyAll(c, Split(d.buffer + Concat(chunks)).0))
    ensures !FeedAll(c, d, chunks).sink.stopped ==>
              FeedAll(c, d, chunks).buffer == Split(d.buffer + Concat(chunks)).1
    decreases |chunks|
  {
    if |chunks| == 0 {
      assert d.buffer + Concat(chunks) == d.buffer;
    } else {
      var b0 := d.buffer + chunks[0];
      var more := Concat(chunks[1..]);
      ConcatCons(chunks);
      assert d.buffer + Concat(chunks) == b0 + more;
      var d1 := Feed(c, d, chunks[0]);
      DrainIsSplit(c, d.(buffer := b0));
      SplitAppend(b0, more);
      var first := Split(b0).0;
      var later := Split(Split(b0).1 + more).0;
      ClassifyAllAppend(c, first, later);
      FramesAppend(c, d.sink, ClassifyAll(c, first), ClassifyAll(c, later));
      if d1.sink.stopped {
        StoppedAfterFeedAll(c, d1, chunks[1..]);
      } else {
        FeedAllIsSplit(c, d1, chunks[1..]);
      }
    }
  }

  /** A completed body delivers exactly what decoding the concatenation of
      its chunks delivers, and the promise resolves. */
  lemma RunIsDecode<E>(c: Codec<E>, chunks: seq<string>, status: int, errorText: Option<string>)
    ensures RunResearchStream(c, Response(true, status, errorText, Some(Body(chunks, false))))
         == Run(Decode(c, Concat(chunks)).dispatched, Decode(c, Concat(chunks)).logged, Resolved)
  {
    var d0 := Decoder("", EmptySink<E>());
    var text := Concat(chunks);
    FeedAllIsSplit(c, d0, chunks);
    assert "" + text == text;
    var d := FeedAll(c, d0, chunks);
    if !d.sink.stopped {
      SplitRestIsOpen(text);
      DrainIdle(c, d);
      assert d == Decoder(Split(text).1, Frames(c, EmptySink(), ClassifyAll(c, Split(text).0)));
    }
  }

  /** Feeding nothing to a decoder that holds no complete frame changes
      nothing. */
  lemma DrainIdle<E>(c: Codec<E>, d: Decoder<E>)
    requires !d.sink.stopped && Find(d.buffer, Delimiter, 0) == -1
    ensures Feed(c, d, "") == d
  {
    assert d.buffer + "" == d.buffer;
  }

  /** Chunk-boundary invariance: how the body is cut into reads does not
      change what reaches the sink, nor how the promise settles. */
  lemma ChunkBoundaryInvariance<E>(c: Codec<E>, a: seq<string>, b: seq<string>, status: int)
    requires Concat(a) == Concat(b)
    ensures RunResearchStream(c, Response(true, status, None, Some(Body(a, false))))
         == RunResearchStream(c, Response(true, status, None, Some(Body(b, false))))
  {
    RunIsDecode(c, a, status, None);
    RunIsDecode(c, b, status, None);
  }

  /** Once the function has returned, further reads change nothing. */
  lemma StoppedIsFinal<E>(c: Codec<E>, d: Decoder<E>, chunks: seq<string>)
    requires d.sink.stopped
    ensures FeedAll(c, d, chunks) == d
    ensures Flush(c, Feed(c, d, "")) == d.sink
  {
    StoppedAfterFeedAll(c, d, chunks);
  }

  /* ---------------------------------------------------------------- */
  /* Order, early exit and error isolation                            */
  /* ---------------------------------------------------------------- */

  /** The first frame that ends the exchange, or the number of frames when
      none does. */
  function FirstEnd<E>(c: Codec<E>, frames: seq<Frame<E>>): (n: nat)
    ensures n <= |frames|
    decreases |frames|
  {
    if |frames| == 0 then 0
    else if Ends(c, frames[0]) then 0
    else 1 + FirstEnd(c, frames[1..])
  }

  /** `FirstEnd` is the index of the first terminal frame. */
  lemma {:induction false} FirstEndSpec<E>(c: Codec<E>, frames: seq<Frame<E>>)
    ensures FirstEnd(c, frames) < |frames| ==> Ends(c, frames[FirstEnd(c, frames)])
    ensures forall i :: 0 <= i < FirstEnd(c, frames) ==> !Ends(c, frames[i])
    decreases |frames|
  {
    if |frames| > 0 && !Ends(c, frames[0]) {
      FirstEndSpec(c, frames[1..]);
      forall i | 0 < i < FirstEnd(c, frames) ensures !Ends(c, frames[i]) {
        assert frames[i] == frames[1..][i - 1];
      }
    }
  }

  /** The frames the read loop handles: all of them up to and including the
      first terminal one. */
  function Handled<E>(c: Codec<E>, frames: seq<Frame<E>>): seq<Frame<E>> {
    var n := FirstEnd(c, frames);
    if n < |frames| then frames[..n + 1] else frames
  }

  /** The events of a list of frames, in frame order. */
  function EventsOf<E>(frames: seq<Frame<E>>): seq<E> {
    if |frames| == 0 then [] else EventOf(frames[0]) + EventsOf(frames[1..])
  }

  /** The payloads of a list of in-loop frames that end up in the log. */
  function LogsOf<E>(c: Codec<E>, frames: seq<Frame<E>>): seq<string> {
    if |frames| == 0 then [] else LogOf(c, frames[0], true) + LogsOf(c, frames[1..])
  }

  lemma HandledCons<E>(c: Codec<E>, frames: seq<Frame<E>>)
    requires |frames| > 0
    ensures Ends(c, frames[0]) ==> Handled(c, frames) == [frames[0]]
    ensures !Ends(c, frames[0]) ==> Handled(c, frames) == [frames[0]] + Handled(c, frames[1..])
  {
    if !Ends(c, frames[0]) {
      var n := FirstEnd(c, frames[1..]);
      if n < |frames[1..]| {
        assert frames[..n + 2] == [frames[0]] + frames[1..][..n + 1];
      } else {
        assert frames == [frames[0]] + frames[1..];
      }
    }
  }

  lemma EventsOfCons<E>(c: Codec<E>, f: Frame<E>, fs: seq<Frame<E>>)
    ensures EventsOf([f] + fs) == EventOf(f) + EventsOf(fs)
    ensures LogsOf(c, [f] + fs) == LogOf(c, f, true) + LogsOf(c, fs)
  {
    assert ([f] + fs)[1..] == fs;
  }

  /** Ordering and early exit, stated without the fold: the sink receives
      exactly the events of the handled frames, in order, the log exactly
      their bad payloads, and the decoder stops exactly when some frame is
      terminal. */
  lemma {:induction false} FramesDeliverInOrder<E>(c: Codec<E>, s: Sink<E>, frames: seq<Frame<E>>)
    requires !s.stopped
    ensures Frames(c, s, frames).dispatched == s.dispatched + EventsOf(Handled(c, frames))
    ensures Frames(c, s, frames).logged == s.logged + LogsOf(c, Handled(c, frames))
    ensures Frames(c, s, frames).stopped <==> FirstEnd(c, frames) < |frames|
    decreases |frames|
  {
    if |frames| == 0 {
      assert Handled(c, frames) == [];
    } else {
      var f := frames[0];
      var s1 := Step(c, s, f, true);
      assert Frames(c, s, frames) == Frames(c, s1, frames[1..]);
      HandledCons(c, frames);
      if Ends(c, f) {
        EventsOfCons(c, f, []);
        assert [f] + [] == [f];
      } else {
        var h := Handled(c, frames[1..]);
        FramesDeliverInOrder(c, s1, frames[1..]);
        EventsOfCons(c, f, h);
        SeqAssoc(s.dispatched, EventOf(f), EventsOf(h));
        SeqAssoc(s.logged, LogOf(c, f, true), LogsOf(c, h));
      }
    }
  }

  lemma SeqAssoc<T>(a: seq<T>, b: seq<T>, c: seq<T>)
    ensures a + b + c == a + (b + c)
  {
  }

  /** When the read loop returns, the last event the sink received is a
      terminal one that it handled without throwing. */
  lemma {:induction false} StopsOnlyAfterTerminal<E>(c: Codec<E>, s: Sink<E>, frames: seq<Frame<E>>)
    requires !s.stopped
    requires Frames(c, s, frames).stopped
    ensures var d := Frames(c, s, frames).dispatched;
            |d| > 0 && IsTerminal(c.kind(d[|d| - 1]))
            && !c.sinkThrows(d[|d| - 1]) && !c.untyped(d[|d| - 1])
    decreases |frames|
  {
    var f := frames[0];
    var s1 := Step(c, s, f, true);
    if !s1.stopped {
      StopsOnlyAfterTerminal(c, s1, frames[1..]);
    }
  }

  /** Frames without a dispatchable payload (keep-alives, comments, empty
      `data:` lines) have no effect at all. */
  lemma SkippedFrameIsInvisible<E>(c: Codec<E>, s: Sink<E>, a: seq<Frame<E>>, b: seq<Frame<E>>)
    ensures Frames(c, s, a + [Skip] + b) == Frames(c, s, a + b)
  {
    var skip: seq<Frame<E>> := [Skip];
    FramesAppend(c, s, a + skip, b);
    FramesAppend(c, s, a, skip);
    FramesAppend(c, s, a, b);
    var m := Frames(c, s, a);
    assert Frames(c, m, skip) == m by {
      if !m.stopped {
        assert skip[1..] == [];
      }
    }
  }

  lemma EventsOfAppend<E>(a: seq<Frame<E>>, b: seq<Frame<E>>)
    ensures EventsOf(a + b) == EventsOf(a) + EventsOf(b)
  {
    if |a| == 0 {
      assert a + b == b;
    } else {
      assert (a + b)[1..] == a[1..] + b;
      EventsOfAppend(a[1..], b);
    }
  }

  /** Error isolation: a frame whose payload does not parse only adds that
      payload to the log; the events delivered before and after it, and
      whether the decoder stops, are the same as without it. */
  lemma MalformedFrameIsIsolated<E>(c: Codec<E>, s: Sink<E>, a: seq<Frame<E>>, p: string, b: seq<Frame<E>>)
    requires !s.stopped
    ensures Frames(c, s, a + [Malformed(p)] + b).dispatched == Frames(c, s, a + b).dispatched
    ensures Frames(c, s, a + [Malformed(p)] + b).stopped == Frames(c, s, a + b).stopped
  {
    var bad: seq<Frame<E>> := [Malformed(p)];
    var x := a + bad + b;
    var y := a + b;
    FramesDeliverInOrder(c, s, x);
    FramesDeliverInOrder(c, s, y);
    var mid := SpliceHandled(c, a, Malformed(p), b);
    if FirstEnd(c, y) >= |a| {
      EventsOfAppend(a + bad, mid);
      EventsOfAppend(a, bad);
      EventsOfAppend(a, mid);
      assert EventsOf(bad) == [] by {
        assert bad[1..] == [];
      }
    }
  }

  /** Where the read loop stops once a frame `m` that cannot end it is
      spliced in: at the same frame, and either before `m` (the handled
      frames are unchanged) or after it (`m` is handled in addition). */
  lemma SpliceHandled<E>(c: Codec<E>, a: seq<Frame<E>>, m: Frame<E>, b: seq<Frame<E>>)
      returns (mid: seq<Frame<E>>)
    requires !Ends(c, m)
    ensures FirstEnd(c, a + b) < |a + b| <==> FirstEnd(c, a + [m] + b) < |a + [m] + b|
    ensures FirstEnd(c, a + b) < |a| ==> Handled(c, a + [m] + b) == Handled(c, a + b)
    ensures FirstEnd(c, a + b) >= |a| ==>
              Handled(c, a + [m] + b) == a + [m] + mid && Handled(c, a + b) == a + mid
  {
    var x := a + [m] + b;
    var y := a + b;
    var n := FirstEnd(c, y);
    FirstEndSpec(c, y);
    mid := [];
    if n < |a| {
      forall i | 0 <= i <= n ensures x[i] == y[i] { }
      FirstEndIs(c, x, n);
      assert x[..n + 1] == y[..n + 1];
    } else {
      forall i | 0 <= i < n + 1 ensures !Ends(c, x[i]) {
        if i > |a| {
          assert x[i] == y[i - 1];
        } else if i < |a| {
          assert x[i] == y[i];
        }
      }
      if n < |y| {
        assert x[n + 1] == y[n];
      }
      FirstEndIs(c, x, n + 1);
      mid := if n < |y| then y[|a|..n + 1] else b;
      if n < |y| {
        assert x[..n + 2] == a + [m] + mid;
        assert y[..n + 1] == a + mid;
      }
    }
  }

  lemma {:induction false} FirstEndIs<E>(c: Codec<E>, frames: seq<Frame<E>>, n: nat)
    requires n <= |frames|
    requires n < |frames| ==> Ends(c, frames[n])
    requires forall i :: 0 <= i < n ==> !Ends(c, frames[i])
    ensures FirstEnd(c, frames) == n
    decreases |frames|
  {
    if n > 0 {
      assert !Ends(c, frames[0]);
      forall i | 0 <= i < n - 1 ensures !Ends(c, frames[1..][i]) {
        assert frames[1..][i] == frames[i + 1];
      }
      FirstEndIs(c, frames[1..], n - 1);
    }
  }

  /** The terminal check is skipped for the leftover frame: a terminal event
      there is still dispatched, and the promise resolves all the same. */
  lemma TailIsNeverTerminal<E>(c: Codec<E>, d: Decoder<E>)
    requires !d.sink.stopped
    ensures !Flush(c, d).stopped
    ensures !AllSpace(d.buffer, JsWhitespace) ==>
              Flush(c, d).dispatched == d.sink.dispatched + EventOf(Classify(c, d.buffer))
  {
  }
}
