# Deep research assistant and AIME data tools, modelled in Dafny

This project models the deterministic core of three parts of the
repository:

- **The deep research assistant.** This is chapter 14's FastAPI back end
  and the browser client that reads its progress stream.
  - The client decodes a `text/event-stream` reply (`runResearchStream`).
    Only LF-LF separates frames, and each frame is read only for its
    `data:` line. This is a small subset of section 9.2.5 of the WHATWG
    HTML Living Standard, "Parsing an event stream".
  - The server frames the agent's events (`event_iterator`) and builds the
    configuration of a request.
  - The configuration merges environment variables with overrides.
  - The agent strips think blocks, deduplicates and formats search
    sources, and filters a streamed summary.
  - The agent reads note ids from tool replies and finds the report note.
  - The agent routes worker events to task channels and counts done
    markers.
  - The agent builds the note guidance and the report prompt, and saves
    the final report.
- **The AIME problem generator and its review screen** (chapter 12). The
  generator pulls the JSON out of a model reply, repairs its escapes,
  validates and clamps it, retries failed generations, numbers a batch and
  counts topics. The review screen handles navigation, verification
  records and statistics.
- **The email validator** of chapter 9.

Each source file becomes one module:

| module | file | models |
|---|---|---|
| `StreamDecoder` | `stream_decoder.dfy` | `runResearchStream` in `frontend/src/services/api.ts` |
| `EventStream` | `event_stream.dfy` | `event_iterator` and the server-to-browser round trip |
| `Server` | `server.dfy` | the rest of `backend/src/main.py` |
| `Config` | `config.dfy` | `backend/src/config.py` |
| `Utils` | `utils.dfy` | `backend/src/utils.py` |
| `Summarizer` | `summarizer.dfy` | `backend/src/services/summarizer.py` |
| `Notes` | `notes.dfy` | `backend/src/services/notes.py` |
| `Reporter` | `reporter.dfy` | `backend/src/services/reporter.py` |
| `Agent` | `agent.dfy` | the modelled parts of `backend/src/agent.py` |
| `Models` | `models.dfy` | `TodoItem` and the run's output |
| `Aime` | `aime.dfy` | `data_generation/aime_generator.py` |
| `Verification` | `verification.dfy` | `data_generation/human_verification_ui.py` |
| `Email` | `email.dfy` | `validate_email` in `chapter9/codebase/utils.py` |

Three further modules relate two views of a reply with think blocks:
`ThinkStrip` (`think_strip.dfy`) follows the searches of
`strip_thinking_tokens` through a reply, `ThinkBlocks`
(`think_blocks.dfy`) shows that the streamed view of `summarizer.py` and
`strip_thinking_tokens` agree on replies built from `<`-free pieces and
closed blocks, and `ThinkText` (`think_text.dfy`) gives two replies where
they do not.

Three modules are shared support:

- `Wrappers` holds `Option`.
- `Text` holds substring search, the JavaScript and Python whitespace sets,
  trimming, joining and decimal numerals.
- `PyJson` holds JSON values with insertion-ordered dicts, Python
  truthiness, dict-key hashing and `json.dumps(..., ensure_ascii=False)`.
  Under hashing, `True` and `False` are the keys 1 and 0. A list or a dict
  cannot be a key, so a dict lookup or set test with one raises
  `TypeError`. The modelled lookups with such keys return `None` there.

Everything is modelled with pure functions over immutable values.

Code the model cannot see becomes a function parameter. This covers:

- `JSON.parse`, `json.loads` and `int()`;
- the agent's replies;
- the note tool;
- the tool tracker's `_extract_note_id`;
- `strip_tool_calls`;
- Python's `str`/`repr` of lists and dicts;
- the clock.

The stream decoder is a fold over the text of each read. Its state is the
residual buffer plus a flag saying whether a terminal event has returned.

## Model

| member | source | states |
|---|---|---|
| StreamDecoder.Payload | code/chapter14/helloagents-deepresearch/frontend/src/services/api.ts:58-60 | a frame only dispatches a non-empty payload |
| StreamDecoder.PayloadShape | code/chapter14/helloagents-deepresearch/frontend/src/services/api.ts:58-60 | a payload exists exactly when the trimmed frame starts with `data:` and the trimmed rest is non-empty; the payload has no blanks at either end |
| StreamDecoder.PayloadOfDataLine | code/chapter14/helloagents-deepresearch/frontend/src/services/api.ts:58-59 | the server's `data: ` + json framing yields exactly the JSON text back |
| StreamDecoder.Step | code/chapter14/helloagents-deepresearch/frontend/src/services/api.ts:61-70 | one frame adds its event to what the sink received and its bad payload to the log; inside the read loop it stops the decoder exactly when its event is `error` or `done` and the sink did not throw |
| StreamDecoder.SplitRestIsOpen | code/chapter14/helloagents-deepresearch/frontend/src/services/api.ts:53-74 | after cutting, the buffer holds no `"\n\n"` |
| StreamDecoder.SplitCovers | code/chapter14/helloagents-deepresearch/frontend/src/services/api.ts:53-56 | the frames, each followed by its delimiter, and then the residue spell the buffer: nothing is lost or reordered |
| StreamDecoder.SplitRejoin | code/chapter14/helloagents-deepresearch/frontend/src/services/api.ts:53-56 | cutting inverts framing: delimiter-joined frames plus an open rest split back into the same frames and rest |
| StreamDecoder.SplitAppend | code/chapter14/helloagents-deepresearch/frontend/src/services/api.ts:47-56 | appending text never disturbs frames already complete; only the old residue is re-split with the new text |
| StreamDecoder.Drain | code/chapter14/helloagents-deepresearch/frontend/src/services/api.ts:53-75 | unless a terminal event returned, the inner loop leaves a buffer without a delimiter |
| StreamDecoder.DrainIsSplit | code/chapter14/helloagents-deepresearch/frontend/src/services/api.ts:53-75 | the inner loop handles exactly the complete frames of the buffer, in order, and keeps exactly the unterminated rest |
| StreamDecoder.Flush | code/chapter14/helloagents-deepresearch/frontend/src/services/api.ts:77-94 | the end-of-input flush never changes whether the function returned early |
| StreamDecoder.RunResearchStream | code/chapter14/helloagents-deepresearch/frontend/src/services/api.ts:33-43 | a non-OK reply rejects with its text, or a status message when the text is empty; a missing body rejects with its own message; a rejection delivers nothing |
| StreamDecoder.FeedAllIsSplit | code/chapter14/helloagents-deepresearch/frontend/src/services/api.ts:49-75 | feeding chunks one by one delivers what cutting their concatenation at once delivers |
| StreamDecoder.RunIsDecode | code/chapter14/helloagents-deepresearch/frontend/src/services/api.ts:47-95 | a completed body delivers exactly what decoding the concatenated text delivers, and the promise resolves |
| StreamDecoder.ChunkBoundaryInvariance | code/chapter14/helloagents-deepresearch/frontend/src/services/api.ts:47-56 | two ways of cutting the same text into reads deliver the same events and logs and settle alike |
| StreamDecoder.StoppedIsFinal | code/chapter14/helloagents-deepresearch/frontend/src/services/api.ts:65-67 | once a terminal event returned, later reads and the flush change nothing |
| StreamDecoder.FramesDeliverInOrder | code/chapter14/helloagents-deepresearch/frontend/src/services/api.ts:53-75 | the sink receives exactly the events of the frames up to and including the first terminal one, in frame order; the decoder stops exactly when such a frame exists |
| StreamDecoder.StopsOnlyAfterTerminal | code/chapter14/helloagents-deepresearch/frontend/src/services/api.ts:63-67 | when the loop returns, the last event delivered has type `error` or `done` |
| StreamDecoder.SkippedFrameIsInvisible | code/chapter14/helloagents-deepresearch/frontend/src/services/api.ts:58-60 | a frame without a dispatchable payload has no effect at all |
| StreamDecoder.MalformedFrameIsIsolated | code/chapter14/helloagents-deepresearch/frontend/src/services/api.ts:61-70 | a payload that does not parse changes neither the events delivered before and after it nor whether the decoder stops |
| StreamDecoder.TailIsNeverTerminal | code/chapter14/helloagents-deepresearch/frontend/src/services/api.ts:79-93 | the leftover frame is dispatched without the terminal check, and the promise resolves even when it is `done` |
| EventStream.EncodeFrame | code/chapter14/helloagents-deepresearch/backend/src/main.py:160 | an event's text starts with `data: ` and its only `"\n\n"` is the closing one |
| EventStream.EventIterator | code/chapter14/helloagents-deepresearch/backend/src/main.py:157-164 | one text per event, plus one when the agent raised |
| EventStream.FramesFollowEvents | code/chapter14/helloagents-deepresearch/backend/src/main.py:157-164 | the i-th text frames the i-th event; when the agent raised, the last frame carries `{"type": "error", "detail": <message>}` |
| EventStream.ErrorPayloadIsTerminal | code/chapter14/helloagents-deepresearch/backend/src/main.py:163 | the error payload has type `error` |
| EventStream.RoundTrip | code/chapter14/helloagents-deepresearch/backend/src/main.py:157-164 | given that `JSON.parse` inverts `json.dumps`, the browser delivers the server's events in order, up to and including the first `error` or `done`, and logs nothing; a raised agent ends the exchange with its error frame |
| EventStream.StreamedRunDelivers | code/chapter14/helloagents-deepresearch/backend/src/main.py:157-167 | however the network cuts the stream into reads, the client resolves after delivering exactly those events |
| PyJson.DumpsLacksNewline | code/chapter14/helloagents-deepresearch/backend/src/main.py:160 | `json.dumps` output holds no line feed, so a payload can never contain the frame delimiter |
| PyJson.DumpsTight | code/chapter14/helloagents-deepresearch/backend/src/main.py:160 | `json.dumps` output is non-empty and has no blank at either end, so trimming on the client does not alter it |
| Server.MaskSecret | code/chapter14/helloagents-deepresearch/backend/src/main.py:58-66 | the mask is `unset` exactly for a missing or empty secret |
| Server.MaskShortSecret | code/chapter14/helloagents-deepresearch/backend/src/main.py:63-64 | a secret of at most twice `visible` characters becomes as many stars |
| Server.MaskLongSecret | code/chapter14/helloagents-deepresearch/backend/src/main.py:66 | a longer secret shows its first and last `visible` characters around `...`, `2 * visible + 3` characters in all |
| Server.MaskSeesOnlyEnds | code/chapter14/helloagents-deepresearch/backend/src/main.py:58-66 | secrets of equal length that agree on the visible ends are masked alike |
| Server.RequestOverrides | code/chapter14/helloagents-deepresearch/backend/src/main.py:69-73 | the overrides are empty exactly when the request names no search backend |
| Server.RequestSearchApi | code/chapter14/helloagents-deepresearch/backend/src/main.py:69-75 | a named backend is the one configured; otherwise `SEARCH_API` decides, else DuckDuckGo |
| Server.ReportMarkdownFallback | code/chapter14/helloagents-deepresearch/backend/src/main.py:145 | the markdown is the report, else the running summary, and empty only when both are missing or empty |
| Server.TodoPayloadShape | code/chapter14/helloagents-deepresearch/backend/src/main.py:129-142 | each task payload holds the nine public fields in order, `note_id` among them |
| Server.RunResearch | code/chapter14/helloagents-deepresearch/backend/src/main.py:118-147 | a `ValueError` gives status 400 with its text and any other failure 500 `Research failed`; a reply exists exactly when configuration and run succeed |
| Server.ReplyListsEveryTask | code/chapter14/helloagents-deepresearch/backend/src/main.py:129-147 | a reply lists one payload per task in task order, with the fallback markdown |
| Server.StreamResearch | code/chapter14/helloagents-deepresearch/backend/src/main.py:149-173 | a configuration error is answered with 400 before any frame; otherwise one frame per emitted value |
| Config.ApiTextRoundTrip | code/chapter14/helloagents-deepresearch/backend/src/config.py:8-13 | `SearchAPI(s)` selects a member exactly for its own value |
| Config.EnvValuesAt | code/chapter14/helloagents-deepresearch/backend/src/config.py:97-100 | the first loop sets a field exactly when its upper-cased variable is set, to that variable's text |
| Config.AliasesAreRedundant | code/chapter14/helloagents-deepresearch/backend/src/config.py:103-122 | the `setdefault` alias loop never changes anything, since every alias is a field's own upper-cased name |
| Config.Precedence | code/chapter14/helloagents-deepresearch/backend/src/config.py:94-129 | a non-`None` override decides a field; otherwise the field's variable decides when set, and the field is left to its default when not |
| Config.OverrideAt | code/chapter14/helloagents-deepresearch/backend/src/config.py:124-127 | overrides replace a key only when not `None` and leave other keys as they were |
| Config.NothingSetGivesDefaults | code/chapter14/helloagents-deepresearch/backend/src/config.py:19-88 | with nothing set, validation yields the declared defaults: 3 loops, `ollama`, DuckDuckGo, `llama3.2` |
| Config.UnsetKeepsDefault | code/chapter14/helloagents-deepresearch/backend/src/config.py:19-88 | every key that is not set takes its declared default whatever else is set |
| Config.OverrideDecidesSearchApi | code/chapter14/helloagents-deepresearch/backend/src/config.py:124-129 | a backend passed as an override is the one configured |
| Config.EnvDecidesSearchApi | code/chapter14/helloagents-deepresearch/backend/src/config.py:97-129 | without an override, `SEARCH_API` selects the backend by value, and DuckDuckGo applies when it is unset |
| Config.RStripSpec | code/chapter14/helloagents-deepresearch/backend/src/config.py:134 | `rstrip("/")` drops exactly the trailing run of slashes |
| Config.SanitizedOllamaUrl | code/chapter14/helloagents-deepresearch/backend/src/config.py:131-137 | the URL always ends with `/v1` |
| Config.SanitizeShape | code/chapter14/helloagents-deepresearch/backend/src/config.py:134-137 | the result is the slash-stripped URL with `/v1` appended exactly when it did not already end so |
| Config.SanitizeIdempotent | code/chapter14/helloagents-deepresearch/backend/src/config.py:131-137 | sanitising twice is sanitising once |
| Config.ResolvedModel | code/chapter14/helloagents-deepresearch/backend/src/config.py:139-142 | the model is a non-empty `llm_model_id` or else `local_llm` |
| Config.ModelFromEnv | code/chapter14/helloagents-deepresearch/backend/src/config.py:104-142 | a non-empty `LLM_MODEL_ID` picks the model, else `LOCAL_LLM`, else `llama3.2` |
| Utils.GetConfigValue | code/chapter14/helloagents-deepresearch/backend/src/utils.py:13-16 | text is returned as it is; an enumeration member gives the value that selects it |
| Utils.StripThinkingAsWritten | code/chapter14/helloagents-deepresearch/backend/src/utils.py:19-26 | when the loop as written returns, the text no longer holds both tags |
| Utils.InvertedPersists | code/chapter14/helloagents-deepresearch/backend/src/utils.py:23-25 | a pass over a text whose first closing tag precedes its first opening tag leaves it so |
| Utils.InvertedNeverReturns | code/chapter14/helloagents-deepresearch/backend/src/utils.py:22-25 | on such a text the loop as written never returns, whatever the number of passes |
| Utils.AsWrittenLoopsForever | code/chapter14/helloagents-deepresearch/backend/src/utils.py:22-25 | `"</think><think>"` is such a text |
| Utils.StripThinking | code/chapter14/helloagents-deepresearch/backend/src/utils.py:19-26 | the corrected stripping never lengthens the text |
| Utils.StripThinkingKeepsBlockFree | code/chapter14/helloagents-deepresearch/backend/src/utils.py:22 | a text without a think block is returned unchanged |
| Utils.StripThinkingKeepsTagless | code/chapter14/helloagents-deepresearch/backend/src/utils.py:22 | a text missing either tag is returned unchanged |
| Utils.StripThinkingRemovesBlocks | code/chapter14/helloagents-deepresearch/backend/src/utils.py:22-26 | no think block survives |
| Utils.StripThinkingIdempotent | code/chapter14/helloagents-deepresearch/backend/src/utils.py:19-26 | stripping twice is stripping once |
| Utils.AsWrittenStepAgrees | code/chapter14/helloagents-deepresearch/backend/src/utils.py:23-25 | when the closing tag follows the opening tag, the pass as written is the intended pass |
| Utils.AsWrittenAgrees | code/chapter14/helloagents-deepresearch/backend/src/utils.py:22-26 | whenever the loop as written returns, it returns the corrected result |
| Utils.Items | code/chapter14/helloagents-deepresearch/backend/src/utils.py:37-43 | iteration walks a list's items and fails only on values that cannot be iterated |
| Utils.AsDicts | code/chapter14/helloagents-deepresearch/backend/src/utils.py:43-44 | reading sources succeeds exactly when every item is a dict, and keeps them in order |
| Utils.UniqueKeepsFirsts | code/chapter14/helloagents-deepresearch/backend/src/utils.py:42-48 | each kept source has a url and is the first source with it |
| Utils.UniqueDistinct | code/chapter14/helloagents-deepresearch/backend/src/utils.py:42-48 | no dict key is kept twice: two kept urls never compare equal, `True` and 1 included |
| Utils.UniqueCovers | code/chapter14/helloagents-deepresearch/backend/src/utils.py:42-48 | every url of the input is kept |
| Utils.UniqueIgnoresRepeats | code/chapter14/helloagents-deepresearch/backend/src/utils.py:44-48 | a source without a url, or with a url seen before, changes nothing |
| Utils.UniqueSources | code/chapter14/helloagents-deepresearch/backend/src/utils.py:42-48 | the url-keyed dict loop raises exactly when a url is a list or a dict, and otherwise keeps exactly the first source of each key, in first-occurrence order |
| Utils.UniqueDeduplicated | code/chapter14/helloagents-deepresearch/backend/src/utils.py:42-48 | what is kept meets all three demands of deduplication: each kept source is the first with its url, no key is kept twice, every url is kept |
| Utils.HashableRepeat | code/chapter14/helloagents-deepresearch/backend/src/utils.py:44-48 | a source repeating an earlier key, or without a url, cannot change whether the loop raises |
| Utils.TruncateSpec | code/chapter14/helloagents-deepresearch/backend/src/utils.py:63-65 | content within the limit is kept whole; longer content keeps exactly its first `limit` characters followed by `... [truncated]` |
| Utils.PageText | code/chapter14/helloagents-deepresearch/backend/src/utils.py:58-65 | raw content fails exactly when it is a number, a boolean or a dict longer than the limit; missing or `None` reads as the empty text cut to the limit, text is cut as `Truncate` says |
| Utils.SourceBlock | code/chapter14/helloagents-deepresearch/backend/src/utils.py:51-68 | a source's block fails exactly when full pages are fetched and its raw content cannot be formatted |
| Utils.Blocks | code/chapter14/helloagents-deepresearch/backend/src/utils.py:50-68 | one block per kept source |
| Utils.BlocksSpec | code/chapter14/helloagents-deepresearch/backend/src/utils.py:50-68 | the blocks fail exactly when one source's block fails, and otherwise block `k` is the block of kept source `k` |
| Utils.DeduplicateAndFormatSources | code/chapter14/helloagents-deepresearch/backend/src/utils.py:29-70 | the formatted text has no blank at either end |
| Utils.DeduplicateAndFormatSourcesFails | code/chapter14/helloagents-deepresearch/backend/src/utils.py:29-70 | Python raises exactly when the sources are not a list of dicts, a url cannot be a dict key, or full-page fetching meets a kept source whose raw content cannot be formatted |
| Utils.DeduplicateAndFormatSourcesSpec | code/chapter14/helloagents-deepresearch/backend/src/utils.py:29-70 | otherwise the text is the trimmed run of one block per kept source, in input order, block `k` being that of kept source `k` |
| Utils.RepeatedSourceIsInvisible | code/chapter14/helloagents-deepresearch/backend/src/utils.py:42-70 | a source repeating an earlier url, or without one, leaves the formatted text as it was |
| Utils.NoSourcesGiveEmptyText | code/chapter14/helloagents-deepresearch/backend/src/utils.py:37-70 | a dict without `results`, or sources without any url, give the empty text |
| Utils.ListedSpec | code/chapter14/helloagents-deepresearch/backend/src/utils.py:80-83 | every listed item has a url and comes from the input; nothing is listed exactly when no item has a url |
| Utils.FormatSources | code/chapter14/helloagents-deepresearch/backend/src/utils.py:73-77 | a missing or empty dict gives the empty text |
| Utils.FormatSourcesEmpty | code/chapter14/helloagents-deepresearch/backend/src/utils.py:79-84 | the listing is empty exactly when no result has a url |
| Utils.EmptyTitleDiffers | code/chapter14/helloagents-deepresearch/backend/src/utils.py:52-81 | a present but empty title is listed as it is, where the source blocks fall back to the url |
| Summarizer.CleanReply | code/chapter14/helloagents-deepresearch/backend/src/services/summarizer.py:39-43 | the cleaned reply has no blank at either end |
| Summarizer.SummarizeTask | code/chapter14/helloagents-deepresearch/backend/src/services/summarizer.py:39-45 | the summary is never empty: the cleaned reply, or `暂无可用信息` |
| Summarizer.SummarizeTaskFallback | code/chapter14/helloagents-deepresearch/backend/src/services/summarizer.py:39-45 | the fallback appears exactly when the cleaned reply is empty |
| Summarizer.CleanReplyHasNoThinkBlock | code/chapter14/helloagents-deepresearch/backend/src/services/summarizer.py:39-43 | with stripping on and a tool-call filter that changes nothing, no think block survives cleaning |
| Summarizer.SummaryHasNoThinkBlock | code/chapter14/helloagents-deepresearch/backend/src/services/summarizer.py:39-45 | so no think block reaches the summary |
| Summarizer.VisibleFrom | code/chapter14/helloagents-deepresearch/backend/src/services/summarizer.py:59-80 | what a reader sees past `from` is never longer than the text past it |
| ThinkBlocks.VisibleOfWoven | code/chapter14/helloagents-deepresearch/backend/src/services/summarizer.py:59-80 | on a reply of `<`-free pieces around closed think blocks, the reader sees exactly the pieces outside the blocks |
| ThinkStrip.StripLead | code/chapter14/helloagents-deepresearch/backend/src/utils.py:19-26 | stripping passes over a `<`-free lead and leaves it in place |
| ThinkBlocks.StripWoven | code/chapter14/helloagents-deepresearch/backend/src/utils.py:19-26 | stripping such a reply leaves exactly the pieces outside the blocks |
| ThinkBlocks.VisibleIsStripped | code/chapter14/helloagents-deepresearch/backend/src/services/summarizer.py:59-80 | on such a reply the streamed view and `strip_thinking_tokens` agree: both give the pieces outside the blocks |
| ThinkText.UnclosedTagDiffers | code/chapter14/helloagents-deepresearch/backend/src/services/summarizer.py:77-79 | an opening tag with no closing tag hides the rest of the stream, while stripping keeps the whole reply |
| ThinkText.JoinedTagDiffers | code/chapter14/helloagents-deepresearch/backend/src/services/summarizer.py:62-80 | on `"<thi<think>x</think>nk>y</think>"` the stream shows `<think>y</think>`, a block formed by the cut, while stripping removes everything |
| Summarizer.Flush | code/chapter14/helloagents-deepresearch/backend/src/services/summarizer.py:59-80 | `emit_index` never decreases nor passes the buffer's end, and every yielded segment is non-empty |
| Summarizer.FlushYieldsVisible | code/chapter14/helloagents-deepresearch/backend/src/services/summarizer.py:59-80 | the segments of a flush are exactly the visible part of the text past `emit_index`: segments and skipped blocks tile the buffer |
| Summarizer.FlushStops | code/chapter14/helloagents-deepresearch/backend/src/services/summarizer.py:63-79 | a flush stops at the buffer's end or at an opening tag whose closing tag has not arrived |
| Summarizer.FlushAgainIsEmpty | code/chapter14/helloagents-deepresearch/backend/src/services/summarizer.py:59-80 | flushing again without new text yields nothing |
| Summarizer.Flushed | code/chapter14/helloagents-deepresearch/backend/src/services/summarizer.py:88-91 | a flush in the generator keeps the buffer and moves `emit_index` forward within it |
| Summarizer.Push | code/chapter14/helloagents-deepresearch/backend/src/services/summarizer.py:85-95 | each chunk is appended to the buffer |
| Summarizer.Stream | code/chapter14/helloagents-deepresearch/backend/src/services/summarizer.py:84-95 | the buffer is the concatenation of the chunks |
| Summarizer.NonEmptyChunks | code/chapter14/helloagents-deepresearch/backend/src/services/summarizer.py:92-95 | without stripping, only non-empty chunks are yielded |
| Summarizer.StreamIsValid | code/chapter14/helloagents-deepresearch/backend/src/services/summarizer.py:82-101 | `visible_output` is always what was yielded; without stripping it is the reply so far and the yields are its non-empty chunks |
| Summarizer.FlushedTwice | code/chapter14/helloagents-deepresearch/backend/src/services/summarizer.py:96-101 | a second flush with no new text changes nothing |
| Summarizer.FinalFlushAddsNothing | code/chapter14/helloagents-deepresearch/backend/src/services/summarizer.py:96-101 | the flush in `finally` finds nothing new after a normal end |
| Summarizer.OneChunkShowsVisible | code/chapter14/helloagents-deepresearch/backend/src/services/summarizer.py:82-101 | a reply arriving in one chunk shows exactly its visible part |
| Summarizer.GetSummary | code/chapter14/helloagents-deepresearch/backend/src/services/summarizer.py:104-110 | the summary has no blank at either end |
| Summarizer.SummaryWithoutStripping | code/chapter14/helloagents-deepresearch/backend/src/services/summarizer.py:104-110 | without stripping, the summary is the whole reply, cleaned of tool calls and trimmed |
| Summarizer.SplitTagIsNotRecognised | code/chapter14/helloagents-deepresearch/backend/src/services/summarizer.py:59-80 | an opening tag split across chunks after its first part was emitted is never recognised: `"</think><thi"` then `"nk>"` is shown whole |
| Summarizer.StreamedSummaryHangsAsWritten | code/chapter14/helloagents-deepresearch/backend/src/services/summarizer.py:104-110 | with the loop as written, `get_summary` on that streamed reply never returns |
| Notes.TaskTagIdentifiesTask | code/chapter14/helloagents-deepresearch/backend/src/services/notes.py:13 | distinct tasks get distinct `task_<id>` tags |
| Notes.NoteCallsWithNote | code/chapter14/helloagents-deepresearch/backend/src/services/notes.py:16-35 | a task with a note is asked to read it and then update it, both by its id, the update typed `task_state` with the task's tags |
| Notes.ReadPayloadShape | code/chapter14/helloagents-deepresearch/backend/src/services/notes.py:17 | the read call names action `read` and the note id |
| Notes.UpdatePayloadShape | code/chapter14/helloagents-deepresearch/backend/src/services/notes.py:18-29 | the update call names action `update`, the note id, type `task_state` and tags `["deep_research", "task_<id>"]` |
| Notes.NoteCallsWithoutNote | code/chapter14/helloagents-deepresearch/backend/src/services/notes.py:41-55 | a task without a note is asked to create one with its id, its title `任务 <id>: <title>` and its tags, and no note id |
| Notes.CallTexts | code/chapter14/helloagents-deepresearch/backend/src/services/notes.py:34-55 | each call is written as `[TOOL_CALL:note:<payload>]` |
| Notes.BuildNoteGuidance | code/chapter14/helloagents-deepresearch/backend/src/services/notes.py:31-58 | both variants start with the header `笔记协作指引：\n` |
| Notes.GuidanceEmbedsCalls | code/chapter14/helloagents-deepresearch/backend/src/services/notes.py:31-55 | every call appears in the guidance, in order |
| Reporter.TaskBlockShowsOutcome | code/chapter14/helloagents-deepresearch/backend/src/services/reporter.py:26-36 | a block shows the task's summary and sources when non-empty, `暂无可用信息` and `暂无来源` otherwise |
| Reporter.TaskBlocks | code/chapter14/helloagents-deepresearch/backend/src/services/reporter.py:25-36 | one block per task, in task order |
| Reporter.OverviewInOrder | code/chapter14/helloagents-deepresearch/backend/src/services/reporter.py:25-61 | every task's block sits in the overview, each after the one before |
| Reporter.NoteReferences | code/chapter14/helloagents-deepresearch/backend/src/services/reporter.py:38-43 | there are never more references than tasks |
| Reporter.ReferencesMatchNoted | code/chapter14/helloagents-deepresearch/backend/src/services/reporter.py:38-43 | one reference per task with a note, each the reference of such a task |
| Reporter.NotesSectionFallback | code/chapter14/helloagents-deepresearch/backend/src/services/reporter.py:45 | the section is `- 暂无可用任务笔记` exactly when no task has a note |
| Reporter.ConclusionTemplateShape | code/chapter14/helloagents-deepresearch/backend/src/services/reporter.py:48-57 | the conclusion note is a create call titled `研究报告：<topic>`, typed `conclusion`, tagged `["deep_research", "report"]` |
| Reporter.PromptSections | code/chapter14/helloagents-deepresearch/backend/src/services/reporter.py:59-65 | the prompt has five sections, the first four never empty |
| Reporter.PromptInOrder | code/chapter14/helloagents-deepresearch/backend/src/services/reporter.py:59-65 | the topic line, overview, notes, read instruction and save instruction follow one another |
| Reporter.GenerateReport | code/chapter14/helloagents-deepresearch/backend/src/services/reporter.py:70-76 | the report is never empty: the cleaned reply or `报告生成失败，请检查输入。` |
| Reporter.ReportFallback | code/chapter14/helloagents-deepresearch/backend/src/services/reporter.py:70-76 | the failure text stands in exactly for a reply that is empty once cleaned; with stripping on, no think block remains |
| Agent.SearchFrom | code/chapter14/helloagents-deepresearch/backend/src/agent.py:541 | `re.search` finds the leftmost position where `ID:\s*([^\n]+)` matches |
| Agent.GroupStart | code/chapter14/helloagents-deepresearch/backend/src/agent.py:541 | the greedy `\s*` gives up the last place a group can start |
| Agent.ExtractNoteIdFromText | code/chapter14/helloagents-deepresearch/backend/src/agent.py:536-545 | `None` for an empty reply or where the pattern matches nowhere; otherwise a stripped text within one line |
| Agent.FirstMatchDecides | code/chapter14/helloagents-deepresearch/backend/src/agent.py:541-545 | the first match's group, stripped, is the id |
| Agent.ReadsIdLine | code/chapter14/helloagents-deepresearch/backend/src/agent.py:541-545 | a reply with the line `ID: <id>` and no earlier `ID:` yields exactly that id |
| Agent.BlankIdAtEnd | code/chapter14/helloagents-deepresearch/backend/src/agent.py:541-545 | a final `ID: ` with nothing after it still matches and yields the empty id |
| Agent.CallNoteId | code/chapter14/helloagents-deepresearch/backend/src/agent.py:527-532 | a report call offers only a truthy id |
| Agent.FindExistingReportNoteId | code/chapter14/helloagents-deepresearch/backend/src/agent.py:505-534 | a found id is truthy; nothing is found exactly when the state holds no id and the scan stops at no recorded event; the search raises only when the state holds no id and some note call's `action` is a list or a dict |
| Agent.Candidate | code/chapter14/helloagents-deepresearch/backend/src/agent.py:510-532 | the scan stops at an event with a `TypeError` exactly when it is a note call with dict parameters whose `action` is a list or a dict; it stops with an id only at a report call, and the id is truthy |
| Agent.StateNoteWins | code/chapter14/helloagents-deepresearch/backend/src/agent.py:506-507 | the state's id wins over anything recorded |
| Agent.NewestReportCallWins | code/chapter14/helloagents-deepresearch/backend/src/agent.py:509-532 | otherwise the newest event where the scan stops decides, with its id or with the `TypeError` it raises; report calls naming no note are passed over |
| Agent.NoteEventOffers | code/chapter14/helloagents-deepresearch/backend/src/agent.py:510-532 | a note call creating or updating a conclusion offers its own note id, else what the tracker reads from its result |
| Agent.ConclusionNoteIsFound | code/chapter14/helloagents-deepresearch/backend/src/agent.py:509-532 | the conclusion note the report prompt asks for is found as the report note once created |
| Agent.UnhashableActionRaises | code/chapter14/helloagents-deepresearch/backend/src/agent.py:509-519 | a note call whose `action` is a list or a dict, recorded last, makes the search raise before any earlier report call is looked at |
| Agent.InitLlm | code/chapter14/helloagents-deepresearch/backend/src/agent.py:79-107 | temperature 0; a model exactly when one resolves; the stripped provider only when non-blank; a key only the configured one |
| Agent.OllamaOptions | code/chapter14/helloagents-deepresearch/backend/src/agent.py:91-96 | Ollama gets the sanitised `/v1` URL and the configured key or `ollama` |
| Agent.LmStudioOptions | code/chapter14/helloagents-deepresearch/backend/src/agent.py:97-100 | LM Studio gets its own URL and a key only when configured |
| Agent.OtherProviderOptions | code/chapter14/helloagents-deepresearch/backend/src/agent.py:101-105 | any other provider gets exactly the configured URL and key |
| Agent.DefaultLlmOptions | code/chapter14/helloagents-deepresearch/backend/src/agent.py:79-107 | the defaults talk to a local Ollama at `http://localhost:11434/v1` with `llama3.2` |
| Agent.LlmModelFromEnv | code/chapter14/helloagents-deepresearch/backend/src/agent.py:83-85 | the client's model comes from `LLM_MODEL_ID`, else `LOCAL_LLM`, else `llama3.2` |
| Agent.ChannelsUpTo | code/chapter14/helloagents-deepresearch/backend/src/agent.py:162-166 | every planned task has a channel |
| Agent.ChannelsShape | code/chapter14/helloagents-deepresearch/backend/src/agent.py:162-166 | every channel has a step from 1 to n and the token `task_<id>` |
| Agent.ChannelOfTask | code/chapter14/helloagents-deepresearch/backend/src/agent.py:162-166 | a task whose id no later task reuses gets its 1-based position as step |
| Agent.ChannelsOnlyForTasks | code/chapter14/helloagents-deepresearch/backend/src/agent.py:162-166 | only planned tasks have channels |
| Agent.AssignTokens | code/chapter14/helloagents-deepresearch/backend/src/agent.py:163-165 | each task records the token `task_<id>` |
| Agent.TasksToRun | code/chapter14/helloagents-deepresearch/backend/src/agent.py:159-160 | the plan runs as planned, or the fallback task runs when the plan is empty |
| Agent.FinalStep | code/chapter14/helloagents-deepresearch/backend/src/agent.py:268 | the final step comes after every task's step |
| Agent.WithTask | code/chapter14/helloagents-deepresearch/backend/src/agent.py:182-186 | a given task's id replaces `task_id`, and nothing else changes |
| Agent.Route | code/chapter14/helloagents-deepresearch/backend/src/agent.py:188-191 | a known channel sets `step` only when absent and always sets `stream_token`; nothing else changes |
| Agent.OverrideStep | code/chapter14/helloagents-deepresearch/backend/src/agent.py:192-193 | an explicit step wins |
| Agent.Enqueue | code/chapter14/helloagents-deepresearch/backend/src/agent.py:176-194 | `channel_map.get` raises exactly when no task is given and the event's `task_id` is a list or a dict; otherwise the queued payload differs from the event only in `task_id`, `step` and `stream_token`, as the three rules say |
| Agent.EnqueueKeepsOtherFields | code/chapter14/helloagents-deepresearch/backend/src/agent.py:182-194 | every other field reaches the queue unchanged |
| Agent.WorkerEventRouted | code/chapter14/helloagents-deepresearch/backend/src/agent.py:203-219 | a worker's event carries its task's token, and its position as step unless the event names one |
| Agent.UnknownTaskHasNoChannel | code/chapter14/helloagents-deepresearch/backend/src/agent.py:188 | an event whose `task_id` names no planned task finds no channel |
| Agent.UnknownTaskNotRouted | code/chapter14/helloagents-deepresearch/backend/src/agent.py:188-194 | an event about no planned task raises exactly when its `task_id` is a list or a dict, and is otherwise queued exactly as it came |
| Agent.MarkerIsHashable | code/chapter14/helloagents-deepresearch/backend/src/agent.py:236 | a done marker's `task_id` is the worker's integer id, so queueing it never raises |
| Agent.ForwardedHasNoMarkers | code/chapter14/helloagents-deepresearch/backend/src/agent.py:248-261 | the consumer forwards only queued events and never a done marker |
| Agent.WorkerMarksDoneOnce | code/chapter14/helloagents-deepresearch/backend/src/agent.py:203-236 | each worker queues exactly one done marker, last, whatever its task did |
| Agent.OneMarkerPerWorker | code/chapter14/helloagents-deepresearch/backend/src/agent.py:238-248 | the queue holds one marker per worker, which is what the consumer waits for |
| Agent.Consume | code/chapter14/helloagents-deepresearch/backend/src/agent.py:244-261 | the consumer forwards every non-marker in order; it drains exactly when enough markers arrive, and stops counting at the last needed marker |
| Agent.StreamEnd | code/chapter14/helloagents-deepresearch/backend/src/agent.py:267-284 | the stream ends with the final-step tool events, then `final_report` carrying the report, then `done` |
| Agent.ReportNoteTitle | code/chapter14/helloagents-deepresearch/backend/src/agent.py:451 | the report note's title starts with `研究报告` |
| Agent.ReportNoteEvent | code/chapter14/helloagents-deepresearch/backend/src/agent.py:494-501 | the event is typed `report_note` and carries the note id and the content |
| Agent.PersistFinalReport | code/chapter14/helloagents-deepresearch/backend/src/agent.py:447-503 | no call is made exactly when notes are off or the report is blank; at most two calls; an event exactly when a truthy note id resulted; a path only with a workspace |
| Agent.UpdateKeepsNote | code/chapter14/helloagents-deepresearch/backend/src/agent.py:458-470 | a known note is updated in place, and an accepted update creates nothing |
| Agent.CreateWhenNoUsableNote | code/chapter14/helloagents-deepresearch/backend/src/agent.py:469-482 | a refused update (a reply starting with ❌), or no known note, leads to one create call whose reply names the note |
| Agent.UpdateCallIsReportCall | code/chapter14/helloagents-deepresearch/backend/src/agent.py:459-468 | the update call is recognised as a report call naming its note |
| Agent.CreateCallIsReportCall | code/chapter14/helloagents-deepresearch/backend/src/agent.py:473-481 | the create call is recognised as a report call |
| Agent.UpdatedNoteIsFoundAgain | code/chapter14/helloagents-deepresearch/backend/src/agent.py:505-532 | an updated report note is found again by the next search even without the state's record |
| Aime.SplitFirst | code/chapter12/data_generation/aime_generator.py:186 | `split(sep)[0]` is a prefix without the separator, the whole text when it lacks one |
| Aime.FencedBody | code/chapter12/data_generation/aime_generator.py:185-190 | the chosen part never holds a fence |
| Aime.ExtractJson | code/chapter12/data_generation/aime_generator.py:184-190 | the JSON text holds no fence and has no blank at either end |
| Aime.JsonBlockExtracted | code/chapter12/data_generation/aime_generator.py:185-186 | a reply with a ```` ```json ```` block yields that block's body, stripped |
| Aime.PlainBlockExtracted | code/chapter12/data_generation/aime_generator.py:187-188 | without ```` ```json ````, the first plain block's body is used, stripped |
| Aime.UnfencedReplyStripped | code/chapter12/data_generation/aime_generator.py:189-190 | a reply without fences is only stripped |
| Aime.Repair | code/chapter12/data_generation/aime_generator.py:203 | the repair only adds characters and keeps the first one |
| Aime.RepairKeepsValid | code/chapter12/data_generation/aime_generator.py:203 | text without a lone backslash is left exactly as it is |
| Aime.RepairLeavesNoLone | code/chapter12/data_generation/aime_generator.py:203 | after the repair no backslash remains that the pattern would double |
| Aime.RepairIdempotent | code/chapter12/data_generation/aime_generator.py:203 | repairing twice is repairing once |
| Aime.RepairWithoutBackslash | code/chapter12/data_generation/aime_generator.py:203 | text without backslashes is untouched |
| Aime.SqrtIsDoubled | code/chapter12/data_generation/aime_generator.py:198-203 | `\sqrt` becomes `\\sqrt` |
| Aime.FracIsKept | code/chapter12/data_generation/aime_generator.py:198-203 | `\frac` is left alone, since `\f` is a kept escape |
| Aime.Decode | code/chapter12/data_generation/aime_generator.py:194-212 | the text is decoded as it is if possible, else after repair; decoding fails only when both fail |
| Aime.ClampAnswer | code/chapter12/data_generation/aime_generator.py:220-222 | the clamped answer lies in 0..999, equals an in-range answer and is the nearer bound otherwise |
| Aime.ClampMonotone | code/chapter12/data_generation/aime_generator.py:222 | clamping never reorders two answers |
| Aime.FixAnswer | code/chapter12/data_generation/aime_generator.py:218-223 | an in-range answer is left exactly as given, an out-of-range one is replaced by the clamped integer; nothing else changes |
| Aime.FillDefaults | code/chapter12/data_generation/aime_generator.py:225-227 | an existing solution and topic are kept, missing ones become `No solution provided` and `Uncategorized`; nothing else changes |
| Aime.ReadProblem | code/chapter12/data_generation/aime_generator.py:214-229 | an accepted value is a JSON object and becomes a problem record; an undecodable text raises its own failure |
| Aime.Accept | code/chapter12/data_generation/aime_generator.py:218-229 | an accepted object has problem, answer, solution and topic |
| Aime.AcceptFields | code/chapter12/data_generation/aime_generator.py:218-229 | what acceptance does to each of the four fields |
| Aime.ParsedFields | code/chapter12/data_generation/aime_generator.py:214-229 | an object with both fields is accepted with its problem kept, its answer kept or clamped, and defaults filled |
| Aime.MissingFieldRaises | code/chapter12/data_generation/aime_generator.py:215-216 | an object without `problem` or `answer` raises |
| Aime.NonObjectRaises | code/chapter12/data_generation/aime_generator.py:215-219 | a value that is not an object raises |
| Aime.ParsedAnswerInRange | code/chapter12/data_generation/aime_generator.py:219-223 | with `int()` reading integers as themselves, every accepted answer lies in 0..999 |
| Aime.Attempt | code/chapter12/data_generation/aime_generator.py:123-125 | a successful attempt yields a problem record |
| Aime.GenerateSingle | code/chapter12/data_generation/aime_generator.py:109-132 | no problem (Python's implicit `None`) exactly when `max_retries` is not positive |
| Aime.FirstSuccessWins | code/chapter12/data_generation/aime_generator.py:122-125 | the first successful attempt decides, whatever follows it |
| Aime.AllFailedGivesDefault | code/chapter12/data_generation/aime_generator.py:126-132 | when every attempt fails the default problem is returned |
| Aime.OnlyFirstAttemptsMatter | code/chapter12/data_generation/aime_generator.py:122 | attempts past `max_retries` never matter |
| Aime.AttemptFromCases | code/chapter12/data_generation/aime_generator.py:122-132 | the loop ends with the first success, or the default when all attempts failed |
| Aime.GenerateSingleOutcome | code/chapter12/data_generation/aime_generator.py:109-132 | the result is the first successful attempt, or the default problem after `max_retries` failures |
| Aime.GeneratedIsProblem | code/chapter12/data_generation/aime_generator.py:231-238 | whatever `generate_single` returns has the four fields |
| Aime.RepliesAfterLastIgnored | code/chapter12/data_generation/aime_generator.py:122 | replies after the first `max_retries` are never asked for |
| Aime.BatchIdsDistinct | code/chapter12/data_generation/aime_generator.py:295 | distinct positions get distinct `gen_aime_<i+1>` ids |
| Aime.Extend | code/chapter12/data_generation/aime_generator.py:261-296 | the checkpoint's items are kept, then one new item per position up to `num - 1` |
| Aime.ExtendResumes | code/chapter12/data_generation/aime_generator.py:264-280 | stopping and resuming from the saved list gives the uninterrupted run |
| Aime.BatchNumbering | code/chapter12/data_generation/aime_generator.py:280-296 | the batch has `num_problems` problems (or the checkpoint's if more), checkpoint problems are kept, and each new one is numbered by its position |
| Aime.ResumedBatchContinues | code/chapter12/data_generation/aime_generator.py:260-296 | a resumed run continues the numbering of the interrupted one |
| Aime.BatchIdsUnique | code/chapter12/data_generation/aime_generator.py:280-295 | the problems one run adds all have different ids |
| Aime.Bump | code/chapter12/data_generation/aime_generator.py:393 | one topic's count goes up by one, the others stay, the total grows by one |
| Aime.BumpKeepsKeysDistinct | code/chapter12/data_generation/aime_generator.py:393 | the table lists each topic once |
| Aime.CountTopicsCorrect | code/chapter12/data_generation/aime_generator.py:391-393 | each topic is counted as often as it occurs, and the counts sum to the number of problems |
| Aime.Insert | code/chapter12/data_generation/aime_generator.py:412 | insertion adds exactly the entry |
| Aime.InsertKeepsDescending | code/chapter12/data_generation/aime_generator.py:412 | insertion keeps counts in descending order |
| Aime.SortByCount | code/chapter12/data_generation/aime_generator.py:412 | the sorted table is a permutation with counts in descending order |
| Aime.SortTotal | code/chapter12/data_generation/aime_generator.py:412 | sorting keeps the sum of the counts |
| Aime.TopicTableCorrect | code/chapter12/data_generation/aime_generator.py:391-412 | the report table is descending, lists each topic once with its number of problems, and sums to the number of problems |
| PyJson.HashKey | code/chapter12/data_generation/human_verification_ui.py:63 | the key a value is filed under in a dict: none exactly for a list or a dict, never a boolean, and the value itself unless it is a boolean |
| Verification.Lookup | code/chapter12/data_generation/human_verification_ui.py:63 | a record is found exactly when one is filed under the key |
| Verification.Record | code/chapter12/data_generation/human_verification_ui.py:104-116 | the key now maps to the new entry, every other key is unchanged, and the count grows only for a new key |
| Verification.RecordKeepsKeysUnique | code/chapter12/data_generation/human_verification_ui.py:104 | recording keeps one entry per problem id |
| Verification.Open | code/chapter12/data_generation/human_verification_ui.py:24-27 | a fresh screen points at a problem, or at 0 when there is none |
| Verification.ProblemId | code/chapter12/data_generation/human_verification_ui.py:60 | the id is the problem's `id`, else `unknown` |
| Verification.CurrentProblem | code/chapter12/data_generation/human_verification_ui.py:54-72 | the placeholder `无题目 … 0/0` exactly when there are no problems; a `TypeError` exactly when the current problem's id is a list or a dict; otherwise the heading `题目 <i+1>/<n>` |
| Verification.ShowsEarlierComment | code/chapter12/data_generation/human_verification_ui.py:62-71 | the screen shows the comment of the problem's earlier verification, found under the id's hash key |
| Verification.Next | code/chapter12/data_generation/human_verification_ui.py:122-126 | one forward but not past the last problem; the index stays in range |
| Verification.Prev | code/chapter12/data_generation/human_verification_ui.py:128-132 | one back but not before the first; the index stays in range |
| Verification.PrevUndoesNext | code/chapter12/data_generation/human_verification_ui.py:122-132 | going back undoes going forward unless the last problem was shown |
| Verification.NextUndoesPrev | code/chapter12/data_generation/human_verification_ui.py:122-132 | going forward undoes going back unless the first problem was shown |
| Verification.NextTimesStops | code/chapter12/data_generation/human_verification_ui.py:122-126 | pressing next k times moves k on, stopping at the last problem |
| Verification.TotalScoreIsMean | code/chapter12/data_generation/human_verification_ui.py:112 | the total lies between the lowest and highest score and equals them when all four agree |
| Verification.VerifyProblem | code/chapter12/data_generation/human_verification_ui.py:97-118 | nothing is recorded exactly when there are no problems or the id is a list or a dict (which raises); otherwise the id's hash key maps to the new entry, holding the original id and the mean score, and every other key is unchanged |
| Verification.TrueAndOneShareRecord | code/chapter12/data_generation/human_verification_ui.py:104 | a problem with id `true` replaces the record filed under `1` and keeps the count |
| Verification.VerifyCountsOnce | code/chapter12/data_generation/human_verification_ui.py:97-116 | saving the current problem's verification replaces its earlier entry, so the count grows only for a problem not verified before and no problem id appears twice |
| Verification.CountStatus | code/chapter12/data_generation/human_verification_ui.py:142-144 | a status count never exceeds the number of entries |
| Verification.GetStatistics | code/chapter12/data_generation/human_verification_ui.py:134-146 | `暂无验证数据` exactly when nothing is verified; a division by zero exactly when records exist but no problems; otherwise the verified and total counts |
| Verification.StatusCountsBounded | code/chapter12/data_generation/human_verification_ui.py:142-144 | approved + rejected + needs revision never exceed the number verified |
| Verification.StatisticsCountsBounded | code/chapter12/data_generation/human_verification_ui.py:139-146 | the same bound holds for the reported summary |
| Verification.CountStatusAppend | code/chapter12/data_generation/human_verification_ui.py:142-144 | each entry counts once under its own status |
| Verification.SumScoresBounded | code/chapter12/data_generation/human_verification_ui.py:146 | bounded scores sum to between count times bound |
| Verification.AverageScoreBounded | code/chapter12/data_generation/human_verification_ui.py:146 | the average score lies within the bounds of the totals |
| Verification.SliderScoresInRange | code/chapter12/data_generation/human_verification_ui.py:87-112 | scores from 1 to 5 give a total from 1 to 5 |
| Email.Matches | code/chapter9/codebase/utils.py:89 | the matcher accepts exactly the texts of the pattern's shape |
| Email.ValidateEmail | code/chapter9/codebase/utils.py:78-90 | accepted exactly when the address, or the address before one final newline, has the shape |
| Email.ExactlyOneAt | code/chapter9/codebase/utils.py:89-90 | an accepted address holds exactly one `@` |
| Email.TrailingNewlineAccepted | code/chapter9/codebase/utils.py:90 | a valid address followed by one newline is accepted |
| Email.TwoNewlinesRejected | code/chapter9/codebase/utils.py:90 | two trailing newlines are rejected |
| Email.ShapedEnds | code/chapter9/codebase/utils.py:89 | an address starts with a local-part character and ends with a letter |
| Email.LeadingOutsiderRejected | code/chapter9/codebase/utils.py:89-90 | a leading character outside the local-part class, such as a space, rejects the address |
| Email.PlainAddressAccepted | code/chapter9/codebase/utils.py:89-90 | a typical address with a two-letter top-level domain is accepted |

## Left out

- Agent.PersistFinalReport: takes the report-note search's answer as a
  parameter, for a search that did not raise. When the search raises
  (`Agent.FindExistingReportNoteId` is `None`), the source stops before any
  note call, and the model states this only on the search.
- Network and runtime plumbing of the client: `fetch`, `response.text()`,
  `getReader()` and cancellation through the abort signal. Reads are a
  given list of already-decoded strings. An aborted or broken read is the
  `Interrupted` outcome.
- Incremental UTF-8 decoding (`TextDecoder` with `stream`), because it is a
  library call. Chunks are already text.
- `JSON.parse`, `json.loads` and `int()`, because they are library code.
  Each is a parameter. The round trip assumes `JSON.parse` inverts
  `json.dumps` (`ParsesDumps`). `json.dumps` itself is modelled only for
  null, booleans, integers, strings, lists and dicts: JSON numbers with a
  fraction are not modelled.
- The language model, the agents, the note tool, search dispatch and the
  planner, because they are foreign services. Their replies and outcomes
  are parameters.
- `strip_tool_calls` is a parameter. The services' text-processing module
  is not part of this model.
- The tool tracker's `_extract_note_id` is a parameter. The tool-event
  module is not part of this model.
- Threads and the queue in `run_stream`. The model takes the queue's
  contents in the order they were put. Interleavings are not enumerated,
  so `Consume` reads one given order.
- `_execute_task`, `_drain_tool_events`, `_serialize_task`, `run`, and the
  summarizer's `_build_prompt`, because they are outside the modelled
  core. They only move values between the modelled parts and foreign
  calls.
- FastAPI application setup, CORS, logging and startup, because they are
  framework wiring.
- The Gradio layout and launch, and loading and saving of the
  verification file, because they are I/O. Loaded verification records are
  assumed to have the shape `verify_problem` writes. The JSON round trip
  (human_verification_ui.py:43 and :52) is not modelled. It turns every
  dict key into a string, so a problem with an integer or boolean `id`
  does not find its own record at :63 after a save and reload, because the
  record is then filed under `"7"` and not `7`.
- Verification.GetStatistics: the percentages and `:.2f` formatting are
  floating point and are not modelled. The total score is an exact `real`
  rather than a Python float.
- The generator's files, checkpoint saving, report writing,
  `time.sleep` rate limiting, `tqdm`, `random.choice` of a reference
  example and `datetime.now()`, because they are I/O, timing or
  randomness. The timestamp is a parameter.
- The statistics report's percentages and answer averages, because they
  are floating point.
- Aime.SortByCount: the order of topics with equal counts is not stated.
  Python's stable sort keeps them in first-appearance order.
- Aime.TopicTable: topics are compared as JSON values. Python's `True`/`1`
  key collision is not modelled, and neither is the `TypeError` on a list
  or dict topic.
- Config.Build: pydantic's coercion of environment text to integers and
  booleans is a parameter (`Coercion`).
- Other chapter 9 helpers (`format_size`, `load_config`, `save_config`,
  `ensure_dir`, `get_timestamp`), `data_processor.py` and the chapter 11
  scripts, because they are floating point, I/O or foreign library code.
- Summarizer.VisibleFrom: its own contract only bounds the length. What
  it shows is stated by ThinkBlocks.VisibleIsStripped and
  ThinkBlocks.VisibleOfWoven for replies whose pieces hold no `<`, and by
  ThinkText.UnclosedTagDiffers and ThinkText.JoinedTagDiffers where it
  and stripping part ways. Replies with a stray `<` elsewhere are not
  characterised further.
- Utils.DeduplicateAndFormatSources: its own contract only says the text
  is trimmed. The whole behaviour is Utils.DeduplicateAndFormatSourcesFails
  and Utils.DeduplicateAndFormatSourcesSpec, with Utils.UniqueDeduplicated
  for what is kept.
- Utils.PageText: Python's `str` of a list or dict is the parameter
  `show`, so how such raw content prints is not modelled.
- Summarizer.CleanReply: uses the corrected stripping (`Utils.StripThinking`),
  which returns where the source's loop never ends on `"</think><think>"`.
  It agrees with the source whenever the source returns (`Utils.AsWrittenAgrees`).
- Summarizer.SummarizeTask: uses the corrected stripping, as
  Summarizer.CleanReply does. It agrees with the source whenever the source
  returns (`Utils.AsWrittenAgrees`).
- Summarizer.GetSummary: uses the corrected stripping, where the source
  loops forever on a streamed reply such as `"</think><thi"` followed by
  `"nk>"`. It agrees with the source whenever the source returns
  (`Utils.AsWrittenAgrees`).
- Reporter.GenerateReport: uses the corrected stripping, where the source's
  `strip_thinking_tokens` never ends on a reply holding `"</think><think>"`.
  It agrees with the source whenever the source returns (`Utils.AsWrittenAgrees`).
- Aime.FracIsKept records that the escape repair leaves `\frac`,
  `\binom`, `\nabla`, `\right` and `\times` alone. This contradicts the
  comment at `aime_generator.py:199`, because JSON reads `\f`, `\b`,
  `\n`, `\r` and `\t` as escapes. The model follows the code.

## Findings

| source | as written | input that shows it | evidently intended | confidence | as-written member | corrected member |
|---|---|---|---|---|---|---|
| code/chapter14/helloagents-deepresearch/backend/src/utils.py:22-25 | the closing tag is searched from the start of the text, so a stray `</think>` before the first `<think>` makes each pass re-insert text and the loop never ends | `"</think><think>"`; a streamed summary whose chunks are `"</think><thi"` and `"nk>"` reaches it through `get_summary` | search `</think>` from the opening tag, so each pass removes one whole think block | not executed | Utils.AsWrittenLoopsForever | Utils.StripThinkingRemovesBlocks |
