/** Task summaries (backend/src/services/summarizer.py): the one-shot
    summary with its fallback text, and the streaming filter that hides
    `<think>` blocks while the model's reply arrives chunk by chunk.
    `strip_tool_calls` is not part of this model: it is a parameter. */
module Summarizer {
  import opened Wrappers
  import opened Text
  import opened Utils

  /** What the summary falls back to when nothing is left of the reply. */
  const NoInformation: string := "暂无可用信息"

  /* ---------------------------------------------------------------- */
  /* summarize_task                                                   */
  /* ---------------------------------------------------------------- */

  /** The reply after cleaning, as `summarize_task` and `generate_report`
      both do it: trimmed, think blocks removed when configured, tool calls
      removed, trimmed again. */
  function CleanReply(response: string, removeThinking: bool, stripToolCalls: string -> string): (r: string)
    ensures Tight(r, PyWhitespace)
  {
    var text := Trim(response, PyWhitespace);
    var text := if removeThinking then StripThinking(text) else text;
    TrimSpec(stripToolCalls(text), PyWhitespace);
    Trim(stripToolCalls(text), PyWhitespace)
  }

  /** `summarize_task` after the agent has replied with `response`. */
  function SummarizeTask(response: string, removeThinking: bool, stripToolCalls: string -> string): (r: string)
    ensures r != ""
    ensures r == NoInformation || Tight(r, PyWhitespace)
  {
    var text := CleanReply(response, removeThinking, stripToolCalls);
    if text == "" then NoInformation else text
  }

  /** The fallback appears exactly when the cleaned reply is blank; any
      other reply is returned cleaned and trimmed. */
  lemma SummarizeTaskFallback(response: string, removeThinking: bool, stripToolCalls: string -> string)
    ensures var cleaned := stripToolCalls(if removeThinking then StripThinking(Trim(response, PyWhitespace))
                                          else Trim(response, PyWhitespace));
            (AllSpace(cleaned, PyWhitespace) ==> SummarizeTask(response, removeThinking, stripToolCalls) == NoInformation)
            && (!AllSpace(cleaned, PyWhitespace) ==>
                  SummarizeTask(response, removeThinking, stripToolCalls) == Trim(cleaned, PyWhitespace))
  {
    var cleaned := stripToolCalls(if removeThinking then StripThinking(Trim(response, PyWhitespace))
                                  else Trim(response, PyWhitespace));
    TrimSpec(cleaned, PyWhitespace);
  }

  /** With stripping on, no think block survives cleaning when the tool
      call filter changes nothing. */
  lemma CleanReplyHasNoThinkBlock(response: string, stripToolCalls: string -> string)
    requires forall t :: stripToolCalls(t) == t
    ensures !HasBlock(CleanReply(response, true, stripToolCalls))
  {
    var stripped := StripThinking(Trim(response, PyWhitespace));
    StripThinkingRemovesBlocks(Trim(response, PyWhitespace));
    TrimKeepsBlockFree(stripped);
  }

  /** So no think block reaches the summary either. */
  lemma SummaryHasNoThinkBlock(response: string, stripToolCalls: string -> string)
    requires forall t :: stripToolCalls(t) == t
    requires SummarizeTask(response, true, stripToolCalls) != NoInformation
    ensures !HasBlock(SummarizeTask(response, true, stripToolCalls))
  {
    CleanReplyHasNoThinkBlock(response, stripToolCalls);
  }

  /** Trimming cannot create a block: every occurrence in the trimmed text
      is one of the original, shifted. */
  lemma TrimKeepsBlockFree(t: string)
    requires !HasBlock(t)
    ensures !HasBlock(Trim(t, PyWhitespace))
  {
    TrimIsSlice(t, PyWhitespace);
    SliceBlock(t, TrimStart(t, PyWhitespace), |Trim(t, PyWhitespace)|);
  }

  /** A think block in a slice of a text is a think block of the text. */
  lemma SliceBlock(t: string, lead: nat, len: nat)
    requires lead + len <= |t|
    ensures HasBlock(t[lead..lead + len]) ==> HasBlock(t)
  {
    var r := t[lead..lead + len];
    if HasBlock(r) {
      var i, j :| 0 <= i <= j <= |r| && OccursAt(r, OpenTag, i) && OccursAt(r, CloseTag, j);
      OccursInSlice(t, lead, len, OpenTag, i);
      OccursInSlice(t, lead, len, CloseTag, j);
      assert 0 <= lead + i <= lead + j <= |t|;
    }
  }

  lemma OccursInSlice(t: string, lead: nat, len: nat, p: string, i: nat)
    requires lead + len <= |t| && OccursAt(t[lead..lead + len], p, i)
    ensures OccursAt(t, p, lead + i)
  {
    SliceOfSlice(t, lead, lead + len, i, |p|);
  }

  /* ---------------------------------------------------------------- */
  /* flush_visible                                                    */
  /* ---------------------------------------------------------------- */

  /** The visible part of the reply from index `from` on, as a
      definition: think blocks are cut out; an opening tag without a
      closing tag hides the rest. */
  function VisibleFrom(t: string, from: nat): (r: string)
    requires from <= |t|
    ensures |r| <= |t| - from
    decreases |t| - from
  {
    var s := Find(t, OpenTag, from);
    if s == -1 then t[from..]
    else
      var c := Find(t, CloseTag, s);
      if c == -1 then t[from..s] else t[from..s] + VisibleFrom(t, c + |CloseTag|)
  }

  /** The visible part of a whole reply. */
  function Visible(t: string): string {
    VisibleFrom(t, 0)
  }

  /** The segment yielded before an opening tag at `start`, if any. */
  function Before(raw: string, emit: nat, start: nat): (r: seq<string>)
    requires emit <= start <= |raw|
    ensures Concat(r) == raw[emit..start]
    ensures forall k :: 0 <= k < |r| ==> r[k] != ""
  {
    if start > emit then ConcatSingle(raw[emit..start]); [raw[emit..start]] else []
  }

  /** `flush_visible()` on the buffer `raw` with `emit_index` at `emit`:
      the segments it yields and the new `emit_index`. */
  function Flush(raw: string, emit: nat): (r: (seq<string>, nat))
    requires emit <= |raw|
    ensures emit <= r.1 <= |raw|
    ensures forall k :: 0 <= k < |r.0| ==> r.0[k] != ""
    decreases |raw| - emit
  {
    var start := Find(raw, OpenTag, emit);
    if start == -1 then
      if emit < |raw| then ([raw[emit..]], |raw|) else ([], emit)
    else
      var before := Before(raw, emit, start);
      var close := Find(raw, CloseTag, start);
      if close == -1 then (before, start)
      else
        var rest := Flush(raw, close + |CloseTag|);
        (before + rest.0, rest.1)
  }

  /** The flush from `emit` yields exactly the visible part of what lies
      past it. */
  predicate ShowsVisible(raw: string, emit: nat)
    requires emit <= |raw|
  {
    Concat(Flush(raw, emit).0) == VisibleFrom(raw, emit)
  }

  /** The flush yields exactly the visible part of what lies past
      `emit_index`: the segments and the skipped blocks tile the text. */
  lemma {:induction false} FlushYieldsVisible(raw: string, emit: nat)
    requires emit <= |raw|
    ensures ShowsVisible(raw, emit)
    decreases |raw| - emit
  {
    var next := FlushStep(raw, emit);
    if next.Some? {
      FlushYieldsVisible(raw, next.value);
    }
  }

  /** One step of the induction: either the flush shows the rest at once,
      or it does once the flush after the next think block does. */
  lemma FlushStep(raw: string, emit: nat) returns (next: Option<nat>)
    requires emit <= |raw|
    ensures next.None? ==> ShowsVisible(raw, emit)
    ensures next.Some? ==> emit < next.value <= |raw|
                           && (ShowsVisible(raw, next.value) ==> ShowsVisible(raw, emit))
  {
    var start := Find(raw, OpenTag, emit);
    if start != -1 && Find(raw, CloseTag, start) != -1 {
      FindFound(raw, OpenTag, emit);
      FindFound(raw, CloseTag, start);
      next := Some(Find(raw, CloseTag, start) + |CloseTag|);
      if ShowsVisible(raw, next.value) {
        FlushSkipsBlock(raw, emit);
      }
    } else {
      FlushShowsRest(raw, emit);
      next := None;
    }
  }

  /** Past a think block the flush goes on after its closing tag. */
  lemma FlushSkipsBlock(raw: string, emit: nat)
    requires emit <= |raw|
    requires Find(raw, OpenTag, emit) != -1
    requires Find(raw, CloseTag, Find(raw, OpenTag, emit)) != -1
    requires ShowsVisible(raw, Find(raw, CloseTag, Find(raw, OpenTag, emit)) + |CloseTag|)
    ensures ShowsVisible(raw, emit)
  {
    var start := Find(raw, OpenTag, emit);
    var next := Find(raw, CloseTag, start) + |CloseTag|;
    var before, rest := Before(raw, emit, start), Flush(raw, next).0;
    FlushPastBlock(raw, emit);
    VisiblePastBlock(raw, emit);
    ConcatAppend(before, rest);
    assert Concat(Flush(raw, emit).0) == raw[emit..start] + Concat(rest);
  }

  lemma VisiblePastBlock(raw: string, emit: nat)
    requires emit <= |raw|
    requires Find(raw, OpenTag, emit) != -1
    requires Find(raw, CloseTag, Find(raw, OpenTag, emit)) != -1
    ensures var start := Find(raw, OpenTag, emit);
            VisibleFrom(raw, emit) == raw[emit..start] + VisibleFrom(raw, Find(raw, CloseTag, start) + |CloseTag|)
  {
  }

  lemma FlushPastBlock(raw: string, emit: nat)
    requires emit <= |raw|
    requires Find(raw, OpenTag, emit) != -1
    requires Find(raw, CloseTag, Find(raw, OpenTag, emit)) != -1
    ensures var start := Find(raw, OpenTag, emit);
            Flush(raw, emit).0 == Before(raw, emit, start) + Flush(raw, Find(raw, CloseTag, start) + |CloseTag|).0
  {
  }

  /** Without a complete think block ahead, the flush yields the text up
      to the next opening tag, or all of it. */
  lemma FlushShowsRest(raw: string, emit: nat)
    requires emit <= |raw|
    requires Find(raw, OpenTag, emit) == -1 || Find(raw, CloseTag, Find(raw, OpenTag, emit)) == -1
    ensures ShowsVisible(raw, emit)
  {
    if Find(raw, OpenTag, emit) == -1 && emit < |raw| {
      ConcatSingle(raw[emit..]);
    }
  }

  /** Where the flush stops: at the end of the buffer, or at an opening
      tag whose closing tag has not arrived yet. */
  lemma {:induction false} FlushStops(raw: string, emit: nat)
    requires emit <= |raw|
    ensures var e := Flush(raw, emit).1;
            e == |raw| || (OccursAt(raw, OpenTag, e) && Find(raw, CloseTag, e) == -1)
    decreases |raw| - emit
  {
    var start := Find(raw, OpenTag, emit);
    if start != -1 {
      FindFound(raw, OpenTag, emit);
      var close := Find(raw, CloseTag, start);
      if close != -1 {
        FlushStops(raw, close + |CloseTag|);
      }
    }
  }

  /** Flushing again without new text yields nothing and leaves
      `emit_index` where it was. */
  lemma FlushAgainIsEmpty(raw: string, emit: nat)
    requires emit <= |raw|
    ensures Flush(raw, Flush(raw, emit).1) == ([], Flush(raw, emit).1)
  {
    var e := Flush(raw, emit).1;
    FlushStops(raw, emit);
    if e < |raw| {
      FindIsFirst(raw[e..], OpenTag, 0);
      FindShift(raw, OpenTag, e, 0);
    }
  }

  /* ---------------------------------------------------------------- */
  /* generator                                                        */
  /* ---------------------------------------------------------------- */

  /** The generator's state: `raw_buffer`, `emit_index`, `visible_output`,
      and everything yielded so far. */
  datatype Filter = Filter(raw: string, emit: nat, visible: string, yielded: seq<string>)

  const Start: Filter := Filter("", 0, "", [])

  predicate NonEmpty(parts: seq<string>) {
    forall k :: 0 <= k < |parts| ==> parts[k] != ""
  }

  /** What every state of the generator satisfies. */
  predicate Valid(f: Filter) {
    f.emit <= |f.raw| && f.visible == Concat(f.yielded) && NonEmpty(f.yielded)
  }

  /** One `flush_visible()` run inside the generator: each segment is both
      added to `visible_output` and yielded. */
  function Flushed(f: Filter): (g: Filter)
    requires f.emit <= |f.raw|
    ensures g.raw == f.raw && f.emit <= g.emit <= |g.raw|
  {
    var (segments, e) := Flush(f.raw, f.emit);
    Filter(f.raw, e, f.visible + Concat(segments), f.yielded + segments)
  }

  /** One chunk from the agent. */
  function Push(f: Filter, chunk: string, removeThinking: bool): (g: Filter)
    requires f.emit <= |f.raw|
    ensures g.raw == f.raw + chunk && g.emit <= |g.raw|
  {
    var g := f.(raw := f.raw + chunk);
    if removeThinking then Flushed(g)
    else g.(visible := g.visible + chunk, yielded := g.yielded + (if chunk != "" then [chunk] else []))
  }

  /** The loop over the agent's chunks. */
  function Stream(chunks: seq<string>, removeThinking: bool): (f: Filter)
    ensures f.raw == Concat(chunks) && f.emit <= |f.raw|
  {
    if |chunks| == 0 then Start
    else Push(Stream(chunks[..|chunks| - 1], removeThinking), chunks[|chunks| - 1], removeThinking)
  }

  /** The generator run to its end, including the flush in its `finally`. */
  function Generate(chunks: seq<string>, removeThinking: bool): Filter {
    var f := Stream(chunks, removeThinking);
    if removeThinking then Flushed(f) else f
  }

  lemma FlushedIsValid(f: Filter)
    requires Valid(f)
    ensures Valid(Flushed(f))
  {
    var (segments, e) := Flush(f.raw, f.emit);
    ConcatAppend(f.yielded, segments);
  }

  /** Without stripping, each chunk is passed on as it came, empty chunks
      aside. */
  function NonEmptyChunks(chunks: seq<string>): (r: seq<string>)
    ensures NonEmpty(r)
  {
    if |chunks| == 0 then []
    else NonEmptyChunks(chunks[..|chunks| - 1])
         + (if chunks[|chunks| - 1] != "" then [chunks[|chunks| - 1]] else [])
  }

  /** `visible_output` is always the concatenation of what was yielded, and
      `emit_index` never passes the end of the buffer; without stripping,
      `visible_output` is the reply so far and the yields are its non-empty
      chunks. */
  lemma {:induction false} StreamIsValid(chunks: seq<string>, removeThinking: bool)
    ensures Valid(Stream(chunks, removeThinking))
    ensures !removeThinking ==>
              Stream(chunks, removeThinking).visible == Concat(chunks)
              && Stream(chunks, removeThinking).yielded == NonEmptyChunks(chunks)
  {
    if |chunks| > 0 {
      var init, last := chunks[..|chunks| - 1], chunks[|chunks| - 1];
      StreamIsValid(init, removeThinking);
      var f := Stream(init, removeThinking);
      var g := f.(raw := f.raw + last);
      if removeThinking {
        FlushedIsValid(g);
      } else {
        var tail := if last != "" then [last] else [];
        ConcatAppend(f.yielded, tail);
        if last != "" {
          ConcatSingle(last);
        }
      }
    }
  }

  /** A second flush with no new text changes nothing. */
  lemma FlushedTwice(f: Filter)
    requires f.emit <= |f.raw|
    ensures Flushed(Flushed(f)) == Flushed(f)
  {
    var g := Flushed(f);
    FlushAgainIsEmpty(f.raw, f.emit);
    assert Flush(g.raw, g.emit) == ([], g.emit);
    assert Concat([]) == "";
    assert g.yielded + [] == g.yielded;
  }

  /** When the reply finishes normally, the flush in `finally` finds
      nothing new: the last chunk was already flushed. */
  lemma FinalFlushAddsNothing(chunks: seq<string>)
    requires |chunks| > 0
    ensures Generate(chunks, true) == Stream(chunks, true)
  {
    var f := Stream(chunks[..|chunks| - 1], true);
    var g := f.(raw := f.raw + chunks[|chunks| - 1]);
    assert Stream(chunks, true) == Flushed(g);
    FlushedTwice(g);
  }

  /** A reply that arrives in one piece shows exactly its visible part. */
  lemma OneChunkShowsVisible(reply: string)
    ensures Generate([reply], true).visible == Visible(reply)
  {
    OneChunkStream(reply);
    FinalFlushAddsNothing([reply]);
    FlushYieldsVisible(reply, 0);
  }

  /** The stream of a single chunk is one flush of it. */
  lemma OneChunkStream(reply: string)
    ensures Stream([reply], true) == Flushed(Filter(reply, 0, "", []))
  {
    assert [reply][..0] == [];
    assert Start.(raw := Start.raw + reply) == Filter(reply, 0, "", []);
  }

  /* ---------------------------------------------------------------- */
  /* get_summary                                                      */
  /* ---------------------------------------------------------------- */

  /** `get_summary()` once the generator has run. */
  function GetSummary(f: Filter, removeThinking: bool, stripToolCalls: string -> string): (r: string)
    ensures Tight(r, PyWhitespace)
  {
    var cleaned := if removeThinking then StripThinking(f.visible) else f.visible;
    TrimSpec(stripToolCalls(cleaned), PyWhitespace);
    Trim(stripToolCalls(cleaned), PyWhitespace)
  }

  /** Without stripping, the summary is the whole reply, cleaned of tool
      calls and trimmed. */
  lemma SummaryWithoutStripping(chunks: seq<string>, stripToolCalls: string -> string)
    ensures GetSummary(Generate(chunks, false), false, stripToolCalls)
            == Trim(stripToolCalls(Concat(chunks)), PyWhitespace)
  {
    StreamIsValid(chunks, false);
  }

  /** The buffer `"</think><thi"` followed by `"nk>"`: the flush after the
      first chunk sees no opening tag and emits all of it, so the tag
      completed by the second chunk is never recognised. */
  lemma SplitTagIsNotRecognised(a: string, b: string)
    requires a == "</think><thi" && b == "nk>"
    ensures Generate([a, b], true).visible == a + b
  {
    FirstChunkPassesWhole(a);
    assert [a, b][..1] == [a];
    SecondChunkPassesWhole(a, b);
    FinalFlushAddsNothing([a, b]);
  }

  /** The first chunk holds no opening tag and is emitted whole. */
  lemma FirstChunkPassesWhole(a: string)
    requires a == "</think><thi"
    ensures Stream([a], true) == Filter(a, |a|, a, [a])
  {
    NoOpenTag(a, 0);
    ConcatSingle(a);
    assert [a][..0] == [];
  }

  /** Past the first chunk no opening tag starts, so the second chunk is
      emitted whole too. */
  lemma SecondChunkPassesWhole(a: string, b: string)
    requires a == "</think><thi" && b == "nk>"
    requires Stream([a], true) == Filter(a, |a|, a, [a])
    ensures Stream([a, b], true).visible == a + b
  {
    assert [a, b][..1] == [a];
    NoOpenTagFrom(a + b, |a|);
    ConcatSingle(b);
  }

  lemma NoOpenTag(t: string, from: nat)
    requires t == "</think><thi" && from == 0
    ensures Find(t, OpenTag, from) == -1
  {
    forall i | 0 <= i
      ensures !OccursAt(t, OpenTag, i)
    {
      if i + |OpenTag| <= |t| {
        if i == 0 {
          assert t[i..i + 7][1] == '/';
        } else {
          assert t[i..i + 7][0] == t[i] != '<';
        }
      }
    }
    FindIsLeftmost(t, OpenTag, 0);
    if Find(t, OpenTag, 0) != -1 {
      FindFound(t, OpenTag, 0);
    }
  }

  lemma NoOpenTagFrom(t: string, from: nat)
    requires t == "</think><think>" && from == 12
    ensures Find(t, OpenTag, from) == -1
  {
  }

  /** So a reply streamed in those two chunks makes `get_summary` with
      the loop as written run forever. */
  lemma StreamedSummaryHangsAsWritten(a: string, b: string, fuel: nat)
    requires a == "</think><thi" && b == "nk>"
    ensures StripThinkingAsWritten(Generate([a, b], true).visible, fuel) == None
  {
    SplitTagIsNotRecognised(a, b);
    assert a + b == "</think><think>";
    AsWrittenLoopsForever(fuel);
  }
}
