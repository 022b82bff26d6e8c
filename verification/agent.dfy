/** The orchestrator's own logic (backend/src/agent.py): reading a note id
    out of a tool reply, finding the note that already holds the report,
    the LLM options, how streamed events are tagged with their step and
    token, how the consumer counts the workers' done markers, and how the
    final report is saved as a note. The LLM, the note tool, the search
    back end and the worker threads are parameters or left out. */
module Agent {
  import opened Wrappers
  import opened Text
  import opened PyJson
  import opened Config
  import opened Models
  import Reporter

  /* ---------------------------------------------------------------- */
  /* _extract_note_id_from_text: re.search(r"ID:\s*([^\n]+)", text)   */
  /* ---------------------------------------------------------------- */

  const IdLabel: string := "ID:"

  /** Every character of `s` from `a` up to `b` is whitespace (`\s`). */
  predicate SpacesBetween(s: string, a: nat, b: nat) {
    forall i :: a <= i < b && i < |s| ==> IsPySpace(s[i])
  }

  /** `\s*` may stop at `p`, after the label ending at `e`, and `[^\n]`
      matches there: a group can start at `p`. */
  predicate GroupCanStart(s: string, e: nat, p: nat) {
    e <= p < |s| && SpacesBetween(s, e, p) && s[p] != '\n'
  }

  /** How many whitespace characters follow `from`. */
  function SpaceRun(s: string, from: nat): (n: nat)
    requires from <= |s|
    ensures from + n <= |s| && SpacesBetween(s, from, from + n)
    ensures from + n < |s| ==> !IsPySpace(s[from + n])
    decreases |s| - from
  {
    if from < |s| && IsPySpace(s[from]) then 1 + SpaceRun(s, from + 1) else 0
  }

  /** The last index in `lo..hi` whose character is not a newline. */
  function LastNonNewline(s: string, lo: nat, hi: nat): (r: Option<nat>)
    requires lo <= hi <= |s|
    ensures r.Some? ==> lo <= r.value < hi && s[r.value] != '\n'
    ensures forall p | lo <= p < hi && s[p] != '\n' :: r.Some? && p <= r.value
    decreases hi - lo
  {
    if hi == lo then None
    else if s[hi - 1] != '\n' then Some(hi - 1)
    else LastNonNewline(s, lo, hi - 1)
  }

  /** Where the greedy `\s*` leaves the group to start, after a label
      ending at `e`: the last place a group can start, or nowhere. When the
      text runs out inside the whitespace, `\s*` backs off to the last
      character that is not a newline. */
  function GroupStart(s: string, e: nat): (r: Option<nat>)
    requires e <= |s|
    ensures r.Some? ==> GroupCanStart(s, e, r.value)
    ensures forall p: nat | GroupCanStart(s, e, p) :: r.Some? && p <= r.value
  {
    var w := SpaceRun(s, e);
    if e + w < |s| then
      assert s[e + w] != '\n' by { assert IsPySpace('\n'); }
      Some(e + w)
    else LastNonNewline(s, e, |s|)
  }

  /** End of the greedy `[^\n]+`: the next newline at or after `p`, or the
      end of the text. */
  function LineEnd(s: string, p: nat): (q: nat)
    requires p <= |s|
    ensures p <= q <= |s| && (q < |s| ==> s[q] == '\n')
    ensures forall i :: p <= i < q ==> s[i] != '\n'
    decreases |s| - p
  {
    if p == |s| || s[p] == '\n' then p else LineEnd(s, p + 1)
  }

  /** The group start of a match attempted at `i`. */
  function MatchAt(s: string, i: nat): Option<nat> {
    if OccursAt(s, IdLabel, i) then GroupStart(s, i + |IdLabel|) else None
  }

  /** `re.search` from `from`: the leftmost index where the pattern
      matches, with its group start. */
  function SearchFrom(s: string, from: nat): (r: Option<(nat, nat)>)
    ensures r.Some? ==> from <= r.value.0 && MatchAt(s, r.value.0) == Some(r.value.1)
    ensures forall i: nat | from <= i && MatchAt(s, i).Some? :: r.Some? && r.value.0 <= i
    decreases |s| + 1 - from
  {
    FindIsLeftmost(s, IdLabel, from);
    var i := Find(s, IdLabel, from);
    if i == -1 then None
    else
      FindFound(s, IdLabel, from);
      var m := MatchAt(s, i);
      if m.Some? then Some((i, m.value)) else SearchFrom(s, i + 1)
  }

  /** `_extract_note_id_from_text(response)`: the text after the first
      `ID:` that is followed by something other than line breaks, up to
      the end of that line, stripped. */
  function ExtractNoteIdFromText(response: string): (r: Option<string>)
    ensures response == "" ==> r.None?
    ensures r.None? <==> forall i: nat :: MatchAt(response, i).None?
    ensures r.Some? ==> Tight(r.value, PyWhitespace) && Lacks(r.value, '\n')
  {
    if response == "" then None
    else
      match SearchFrom(response, 0)
      case None => None
      case Some((_, p)) =>
        var line := response[p..LineEnd(response, p)];
        TrimSpec(line, PyWhitespace);
        TrimKeepsLacks(line, '\n', PyWhitespace);
        Some(Trim(line, PyWhitespace))
  }

  lemma TrimKeepsLacks(x: string, c: char, w: Whitespace)
    requires Lacks(x, c)
    ensures Lacks(Trim(x, w), c)
  {
    TrimIsSlice(x, w);
  }

  /** The first match decides: its group, stripped, is the id. */
  lemma FirstMatchDecides(s: string, i: nat)
    requires MatchAt(s, i).Some?
    requires forall j: nat | j < i :: MatchAt(s, j).None?
    ensures var p := MatchAt(s, i).value;
            ExtractNoteIdFromText(s) == Some(Trim(s[p..LineEnd(s, p)], PyWhitespace))
  {
    var r := SearchFrom(s, 0);
    assert r.Some? && r.value.0 == i;
  }

  /** A reply holding the line `ID: <id>` (and no earlier `ID:`) yields
      exactly that id. */
  lemma ReadsIdLine(before: string, id: string, after: string)
    requires !Contains(before, IdLabel)
    requires id != "" && Tight(id, PyWhitespace) && Lacks(id, '\n')
    ensures ExtractNoteIdFromText(before + "ID: " + id + "\n" + after) == Some(id)
  {
    var s := before + "ID: " + id + "\n" + after;
    var i, e := |before|, |before| + 3;
    var q := e + 1 + |id|;
    assert s[..i] == before && s[i..e] == IdLabel && s[e] == ' ' && s[e + 1..q] == id && s[q] == '\n';
    GroupAfterSpace(s, e, q);
    forall j: nat | j < i
      ensures MatchAt(s, j).None?
    {
      NoLabelBefore(before, s, j);
    }
    FirstMatchDecides(s, i);
    TrimTight(id, PyWhitespace);
  }

  /** After a label ending at `e`, one space and then a tight line that
      ends at `q`: the group is that line. */
  lemma GroupAfterSpace(s: string, e: nat, q: nat)
    requires e >= 3 && e + 1 < q < |s| && s[e - 3..e] == IdLabel && s[e] == ' ' && s[q] == '\n'
    requires !IsPySpace(s[e + 1]) && Lacks(s[e + 1..q], '\n')
    ensures MatchAt(s, e - 3) == Some(e + 1) && LineEnd(s, e + 1) == q
  {
    assert IsPySpace(s[e]);
    assert GroupCanStart(s, e, e + 1);
    var p := GroupStart(s, e).value;
    assert SpacesBetween(s, e, p) && !IsPySpace(s[e + 1]);
    assert p <= e + 1;
    forall k | e + 1 <= k < q
      ensures s[k] != '\n'
    {
      assert s[k] == s[e + 1..q][k - e - 1];
    }
    LineEndAt(s, e + 1, q);
  }

  /** The label does not start inside `before` when `before` lacks it and
      is followed by `ID:` itself. */
  lemma NoLabelBefore(before: string, s: string, j: nat)
    requires !Contains(before, IdLabel)
    requires |before| + 3 <= |s| && s[|before|..|before| + 3] == IdLabel
    requires s[..|before|] == before
    requires j < |before|
    ensures !OccursAt(s, IdLabel, j)
  {
    if j + 3 <= |before| {
      assert before[j..j + 3] == s[j..j + 3];
      assert !OccursAt(before, IdLabel, j);
    } else {
      var k := |before| - j;
      assert s[|before|] == 'I';
      assert j + 3 > |s| || s[j..j + 3][k] == 'I' != IdLabel[k];
    }
  }

  lemma LineEndAt(s: string, p: nat, q: nat)
    requires p <= q < |s| && s[q] == '\n'
    requires forall i :: p <= i < q ==> s[i] != '\n'
    ensures LineEnd(s, p) == q
    decreases q - p
  {
    if p < q {
      LineEndAt(s, p + 1, q);
    }
  }

  /** A label followed only by spaces on the last line still matches: the
      greedy `\s*` backs off and the group is one space, which strips to the
      empty id. */
  lemma BlankIdAtEnd(before: string)
    requires !Contains(before, IdLabel)
    ensures ExtractNoteIdFromText(before + "ID: ") == Some("")
  {
    var s := before + "ID: ";
    var i, e := |before|, |before| + 3;
    assert s[..i] == before && s[i..e] == IdLabel && |s| == e + 1 && s[e] == ' ';
    BlankGroup(s, e);
    forall j: nat | j < i
      ensures MatchAt(s, j).None?
    {
      NoLabelBefore(before, s, j);
    }
    FirstMatchDecides(s, i);
    assert s[e..|s|] == " ";
    assert IsPySpace(' ');
    TrimSpec(" ", PyWhitespace);
  }

  lemma BlankGroup(s: string, e: nat)
    requires e >= 3 && |s| == e + 1 && s[e - 3..e] == IdLabel && s[e] == ' '
    ensures MatchAt(s, e - 3) == Some(e) && LineEnd(s, e) == |s|
  {
    assert GroupCanStart(s, e, e);
  }

  /* ---------------------------------------------------------------- */
  /* _find_existing_report_note_id                                    */
  /* ---------------------------------------------------------------- */

  /** `event.get("parsed_parameters") or {}`. */
  function Parameters(event: Dict): JValue {
    var v := Get(event, "parsed_parameters");
    if v.Some? && Truthy(v.value) then v.value else JObj([])
  }

  /** The parameters' title is a string that starts like a report title. */
  predicate TitledAsReport(params: Dict) {
    match Get(params, "title")
    case Some(JStr(t)) => StartsWith(t, Reporter.ReportTitlePrefix)
    case _ => false
  }

  /** A recorded tool call that wrote the report: a note call with dict
      parameters that creates or updates a note, either typed `conclusion`
      or titled as a report. */
  predicate IsReportNoteCall(event: Dict) {
    && Get(event, "tool") == Some(JStr("note"))
    && Parameters(event).JObj?
    && var params := Parameters(event).fields;
       && (Get(params, "action") == Some(JStr("create")) || Get(params, "action") == Some(JStr("update")))
       && (Get(params, "note_type") == Some(JStr("conclusion")) || TitledAsReport(params))
  }

  /** The note a report call names: a truthy `note_id` parameter, else the
      id the tool tracker reads from the call's result (`readId` stands for
      the tracker's `_extract_note_id`). */
  function CallNoteId(event: Dict, readId: JValue -> Option<string>): (r: Option<JValue>)
    requires Parameters(event).JObj?
    ensures r.Some? ==> Truthy(r.value)
  {
    var given := Get(Parameters(event).fields, "note_id");
    if given.Some? && Truthy(given.value) then given
    else
      var found := readId(Get(event, "result").GetOr(JStr("")));
      if found.Some? && found.value != "" then Some(JStr(found.value)) else None
  }

  /** A note call with dict parameters whose `action` is a list or a
      dict: the set test `action not in {"create", "update"}` raises
      `TypeError` on it. */
  predicate ActionRaises(event: Dict) {
    && Get(event, "tool") == Some(JStr("note"))
    && Parameters(event).JObj?
    && match Get(Parameters(event).fields, "action")
       case Some(v) => HashKey(v).None?
       case None => false
  }

  /** Where the backward scan stops at an event: it returns a note id, or
      it raises. */
  datatype Stop = Found(id: JValue) | Raises

  /** Where the scan stops at one recorded event; `None` when it moves on. */
  function Candidate(event: Dict, readId: JValue -> Option<string>): (r: Option<Stop>)
    ensures r == Some(Raises) <==> ActionRaises(event)
    ensures r.Some? && r.value.Found? ==> IsReportNoteCall(event) && Truthy(r.value.id)
  {
    if ActionRaises(event) then Some(Raises)
    else if IsReportNoteCall(event) then
      var id := CallNoteId(event, readId);
      if id.Some? then Some(Found(id.value)) else None
    else None
  }

  /** Where the scan stops at each recorded event, in recording order. */
  function Offers(events: seq<Dict>, readId: JValue -> Option<string>): (r: seq<Option<Stop>>)
    ensures |r| == |events|
    ensures forall j | 0 <= j < |events| :: r[j] == Candidate(events[j], readId)
  {
    seq(|events|, j requires 0 <= j < |events| => Candidate(events[j], readId))
  }

  /** The last position before `n` that holds something, scanning
      backwards. */
  function NewestSome<T>(xs: seq<Option<T>>, n: nat): (k: Option<nat>)
    requires n <= |xs|
    ensures k.Some? ==> k.value < n && xs[k.value].Some?
    ensures k.Some? ==> forall j | k.value < j < n :: xs[j].None?
    ensures k.None? ==> forall j | 0 <= j < n :: xs[j].None?
  {
    if n == 0 then None
    else if xs[n - 1].Some? then Some(n - 1)
    else NewestSome(xs, n - 1)
  }

  /** A position that holds something, with nothing after it before `n`,
      is the one found. */
  lemma NewestSomeIs<T>(xs: seq<Option<T>>, n: nat, k: nat)
    requires k < n <= |xs| && xs[k].Some?
    requires forall j | k < j < n :: xs[j].None?
    ensures NewestSome(xs, n) == Some(k)
  {
  }

  /** `_find_existing_report_note_id(state)`: the note already recorded in
      the state, else the newest report call's note, else nothing; `None`
      where the scan raises, `Some(None)` where it finds nothing. */
  function FindExistingReportNoteId(reportNoteId: Option<string>, events: seq<Dict>,
                                    readId: JValue -> Option<string>): (r: Option<Option<JValue>>)
    ensures r.Some? && r.value.Some? ==> Truthy(r.value.value)
    ensures r == Some(None) <==> OrElse(reportNoteId, "") == ""
                                 && forall j | 0 <= j < |events| :: Candidate(events[j], readId).None?
    ensures r.None? ==> OrElse(reportNoteId, "") == ""
                        && exists j | 0 <= j < |events| :: ActionRaises(events[j])
  {
    if reportNoteId.Some? && reportNoteId.value != "" then Some(Some(JStr(reportNoteId.value)))
    else
      var offers := Offers(events, readId);
      match NewestSome(offers, |offers|)
      case Some(k) => (match offers[k].value case Found(id) => Some(Some(id)) case Raises => None)
      case None => Some(None)
  }

  /** The id the state already holds wins over anything recorded. */
  lemma StateNoteWins(id: string, events: seq<Dict>, readId: JValue -> Option<string>)
    requires id != ""
    ensures FindExistingReportNoteId(Some(id), events, readId) == Some(Some(JStr(id)))
  {
  }

  /** Otherwise the newest event where the scan stops decides: its note,
      or the `TypeError` it raises. Calls that name no note are passed
      over. */
  lemma NewestReportCallWins(events: seq<Dict>, k: nat, readId: JValue -> Option<string>)
    requires k < |events| && Candidate(events[k], readId).Some?
    requires forall j | k < j < |events| :: Candidate(events[j], readId).None?
    ensures var r := FindExistingReportNoteId(None, events, readId);
            match Candidate(events[k], readId).value
            case Found(id) => r == Some(Some(id))
            case Raises => r.None?
  {
    var offers := Offers(events, readId);
    NewestSomeIs(offers, |offers|, k);
  }

  /** How the tool tracker records a note call: the tool, its parsed
      parameters and its result. */
  function NoteEvent(params: Dict, result: JValue): Dict {
    [("tool", JStr("note")), ("parsed_parameters", JObj(params)), ("result", result)]
  }

  /** A recorded note call offers what its parameters name, or what the
      tracker reads from its result, when it creates or updates a
      conclusion. */
  lemma NoteEventOffers(params: Dict, result: JValue, readId: JValue -> Option<string>)
    requires params != []
    requires Get(params, "action") == Some(JStr("create")) || Get(params, "action") == Some(JStr("update"))
    requires Get(params, "note_type") == Some(JStr("conclusion"))
    ensures IsReportNoteCall(NoteEvent(params, result))
    ensures Candidate(NoteEvent(params, result), readId)
            == var given := Get(params, "note_id");
               if given.Some? && Truthy(given.value) then Some(Found(given.value))
               else
                 var found := readId(result);
                 if found.Some? && found.value != "" then Some(Found(JStr(found.value))) else None
  {
    var ev := NoteEvent(params, result);
    GetAt(ev, "tool", 0);
    GetAt(ev, "parsed_parameters", 1);
    GetAt(ev, "result", 2);
  }

  /** The conclusion note the report prompt asks for is found as the
      report's note once the tool has created it. */
  lemma ConclusionNoteIsFound(topic: string, history: seq<Dict>, result: JValue,
                              readId: JValue -> Option<string>, id: string)
    requires readId(result) == Some(id) && id != ""
    ensures FindExistingReportNoteId(None, history + [NoteEvent(Reporter.ConclusionTemplate(topic), result)], readId)
            == Some(Some(JStr(id)))
  {
    var params := Reporter.ConclusionTemplate(topic);
    Reporter.ConclusionTemplateShape(topic);
    assert !HasKey(params, "note_id");
    NoteEventOffers(params, result, readId);
    var events := history + [NoteEvent(params, result)];
    NewestReportCallWins(events, |history|, readId);
  }

  /** A note call whose `action` is a list or a dict, recorded after
      everything else, makes the search raise before any earlier report
      call is looked at. */
  lemma UnhashableActionRaises(history: seq<Dict>, params: Dict, result: JValue,
                               readId: JValue -> Option<string>)
    requires params != []
    requires match Get(params, "action") case Some(v) => v.JArr? || v.JObj? case None => false
    ensures FindExistingReportNoteId(None, history + [NoteEvent(params, result)], readId).None?
  {
    var ev := NoteEvent(params, result);
    GetAt(ev, "tool", 0);
    GetAt(ev, "parsed_parameters", 1);
    assert ActionRaises(ev);
    NewestReportCallWins(history + [ev], |history|, readId);
  }

  /* ---------------------------------------------------------------- */
  /* _init_llm                                                        */
  /* ---------------------------------------------------------------- */

  /** The keyword arguments handed to the LLM client; an absent option is
      `None`. */
  datatype LlmOptions = LlmOptions(
    temperature: real,
    model: Option<string>,
    provider: Option<string>,
    baseUrl: Option<string>,
    apiKey: Option<string>)

  /** A configured optional text counts only when non-empty. */
  predicate IsSet(o: Option<string>) {
    o.Some? && o.value != ""
  }

  function SetOnly(o: Option<string>): (r: Option<string>)
    ensures r.Some? <==> IsSet(o)
    ensures r.Some? ==> r == o
  {
    if IsSet(o) then o else None
  }

  /** `_init_llm()`: temperature 0, the resolved model and the stripped
      provider when non-empty, then the endpoint and key by provider. */
  function InitLlm(c: Configuration): (r: LlmOptions)
    ensures r.temperature == 0.0
    ensures r.model.Some? <==> ResolvedModel(c) != ""
    ensures r.model.Some? ==> r.model.value == ResolvedModel(c)
    ensures r.provider.None? <==> AllSpace(c.llmProvider, PyWhitespace)
    ensures r.provider.Some? ==> r.provider.value != "" && Tight(r.provider.value, PyWhitespace)
    ensures r.apiKey.Some? ==> (IsSet(c.llmApiKey) && r.apiKey == c.llmApiKey)
                               || (!IsSet(c.llmApiKey) && r.provider == Some("ollama") && r.apiKey == Some("ollama"))
  {
    TrimSpec(c.llmProvider, PyWhitespace);
    var model := ResolvedModel(c);
    var provider := Trim(c.llmProvider, PyWhitespace);
    var key := SetOnly(c.llmApiKey);
    var endpoint :=
      if provider == "ollama" then (Some(SanitizedOllamaUrl(c.ollamaBaseUrl)), if key.Some? then key else Some("ollama"))
      else if provider == "lmstudio" then (Some(c.lmstudioBaseUrl), key)
      else (SetOnly(c.llmBaseUrl), key);
    LlmOptions(0.0, if model != "" then Some(model) else None,
               if provider != "" then Some(provider) else None, endpoint.0, endpoint.1)
  }

  /** Ollama always gets an OpenAI-style `/v1` endpoint and a key: the
      configured one, or `ollama`. */
  lemma OllamaOptions(c: Configuration)
    requires Trim(c.llmProvider, PyWhitespace) == "ollama"
    ensures InitLlm(c).baseUrl == Some(SanitizedOllamaUrl(c.ollamaBaseUrl))
    ensures EndsWith(InitLlm(c).baseUrl.value, "/v1")
    ensures InitLlm(c).apiKey == if IsSet(c.llmApiKey) then c.llmApiKey else Some("ollama")
  {
  }

  /** LM Studio uses its own URL and a key only when one is configured. */
  lemma LmStudioOptions(c: Configuration)
    requires Trim(c.llmProvider, PyWhitespace) == "lmstudio"
    ensures InitLlm(c).baseUrl == Some(c.lmstudioBaseUrl)
    ensures InitLlm(c).apiKey.Some? <==> IsSet(c.llmApiKey)
  {
  }

  /** Any other provider gets exactly the configured URL and key. */
  lemma OtherProviderOptions(c: Configuration)
    requires Trim(c.llmProvider, PyWhitespace) != "ollama" && Trim(c.llmProvider, PyWhitespace) != "lmstudio"
    ensures InitLlm(c).baseUrl.Some? <==> IsSet(c.llmBaseUrl)
    ensures InitLlm(c).baseUrl.Some? ==> InitLlm(c).baseUrl == c.llmBaseUrl
    ensures InitLlm(c).apiKey.Some? <==> IsSet(c.llmApiKey)
  {
  }

  /** With nothing configured the client talks to a local Ollama with
      `llama3.2`. */
  lemma DefaultLlmOptions(c: Configuration)
    requires c == Defaults()
    ensures InitLlm(c) == LlmOptions(0.0, Some("llama3.2"), Some("ollama"), Some("http://localhost:11434/v1"), Some("ollama"))
  {
    var url := c.ollamaBaseUrl;
    assert url[|url| - 1] == '4';
    assert RStrip(url, '/') == url;
    assert !EndsWith(url, V1) by { assert url[|url| - 1] != V1[2]; }
    assert SanitizedOllamaUrl(url) == url + V1 == "http://localhost:11434/v1";
    assert ResolvedModel(c) == "llama3.2";
    assert Trim(c.llmProvider, PyWhitespace) == "ollama" by { TrimTight(c.llmProvider, PyWhitespace); }
    OllamaOptions(c);
  }

  /** Which environment variable picks the model the client is given. */
  lemma LlmModelFromEnv(env: Env, co: Coercion)
    requires FromEnv(env, map[], co).Some?
    ensures var m := InitLlm(FromEnv(env, map[], co).value).model;
            if "LLM_MODEL_ID" in env && env["LLM_MODEL_ID"] != "" then m == Some(env["LLM_MODEL_ID"])
            else if "LOCAL_LLM" in env then m == (if env["LOCAL_LLM"] == "" then None else Some(env["LOCAL_LLM"]))
            else m == Some("llama3.2")
  {
    ModelFromEnv(env, co);
  }

  /* ---------------------------------------------------------------- */
  /* Steps and stream tokens (run_stream)                             */
  /* ---------------------------------------------------------------- */

  /** Where a task's events go: its step number and stream token. */
  datatype Channel = Channel(step: int, token: string)

  function StreamToken(id: int): string {
    "task_" + Decimal(id)
  }

  /** `channel_map` after the first `n` tasks: the task at position `k`
      gets step `k + 1` and the token `task_<id>`; a later task with the
      same id replaces an earlier one. */
  function ChannelsUpTo(tasks: seq<TodoItem>, n: nat): (m: map<int, Channel>)
    requires n <= |tasks|
    ensures forall k | 0 <= k < n :: tasks[k].id in m
  {
    if n == 0 then map[]
    else ChannelsUpTo(tasks, n - 1)[tasks[n - 1].id := Channel(n, StreamToken(tasks[n - 1].id))]
  }

  /** Every channel carries its task's token and a step from 1 to `n`. */
  lemma {:induction false} ChannelsShape(tasks: seq<TodoItem>, n: nat)
    requires n <= |tasks|
    ensures var m := ChannelsUpTo(tasks, n);
            forall id | id in m :: 1 <= m[id].step <= n && m[id].token == StreamToken(id)
  {
    if n > 0 {
      ChannelsShape(tasks, n - 1);
    }
  }

  function Channels(tasks: seq<TodoItem>): map<int, Channel> {
    ChannelsUpTo(tasks, |tasks|)
  }

  /** A task whose id no later task reuses gets its own position as step. */
  lemma {:induction false} ChannelOfTask(tasks: seq<TodoItem>, n: nat, k: nat)
    requires k < n <= |tasks|
    requires forall j | k < j < n :: tasks[j].id != tasks[k].id
    ensures ChannelsUpTo(tasks, n)[tasks[k].id] == Channel(k + 1, StreamToken(tasks[k].id))
  {
    var last := tasks[n - 1].id;
    assert ChannelsUpTo(tasks, n) == ChannelsUpTo(tasks, n - 1)[last := Channel(n, StreamToken(last))];
    if k < n - 1 {
      ChannelOfTask(tasks, n - 1, k);
      assert last != tasks[k].id;
    }
  }

  /** Only planned tasks have channels. */
  lemma {:induction false} ChannelsOnlyForTasks(tasks: seq<TodoItem>, n: nat, id: int)
    requires n <= |tasks|
    requires forall k | 0 <= k < n :: tasks[k].id != id
    ensures id !in ChannelsUpTo(tasks, n)
  {
    if n > 0 {
      ChannelsOnlyForTasks(tasks, n - 1, id);
      var last := tasks[n - 1].id;
      assert ChannelsUpTo(tasks, n) == ChannelsUpTo(tasks, n - 1)[last := Channel(n, StreamToken(last))];
      assert last != id;
    }
  }

  /** Each task records the token of its channel. */
  function AssignTokens(tasks: seq<TodoItem>): (r: seq<TodoItem>)
    ensures |r| == |tasks|
    ensures forall k | 0 <= k < |tasks| ::
              r[k].id == tasks[k].id && r[k].streamToken == Some(Channels(tasks)[tasks[k].id].token)
  {
    ChannelsShape(tasks, |tasks|);
    seq(|tasks|, k requires 0 <= k < |tasks| => tasks[k].(streamToken := Some(StreamToken(tasks[k].id))))
  }

  /** The tasks that run: the plan, or the fallback task when the plan is
      empty. */
  function TasksToRun(planned: seq<TodoItem>, fallback: TodoItem): (r: seq<TodoItem>)
    ensures r != []
    ensures planned != [] ==> r == planned
  {
    if planned == [] then [fallback] else planned
  }

  /** The step of everything that happens after the tasks. */
  function FinalStep(tasks: seq<TodoItem>): (s: int)
    ensures forall id | id in Channels(tasks) :: Channels(tasks)[id].step < s
  {
    ChannelsShape(tasks, |tasks|);
    |tasks| + 1
  }

  /* ---------------------------------------------------------------- */
  /* enqueue                                                          */
  /* ---------------------------------------------------------------- */

  /** The task id a hashable JSON value looks up in `channel_map`, whose
      keys are task ids: only an integer (or a boolean, filed as 1 or 0)
      can meet one. */
  function ChannelKey(v: JValue): Option<int> {
    match HashKey(v)
    case Some(JInt(i)) => Some(i)
    case _ => None
  }

  /** `channel_map.get(target_task_id)` raises `TypeError`: no task is
      given and the event's own `task_id` is a list or a dict. */
  predicate LookupRaises(event: Dict, task: Option<TodoItem>) {
    && task.None?
    && match Get(event, "task_id")
       case Some(v) => HashKey(v).None?
       case None => false
  }

  /** The channel an event is routed to: the given task's, else the one
      of the event's own `task_id`. */
  function ChannelFor(event: Dict, channels: map<int, Channel>, task: Option<TodoItem>): Option<Channel> {
    var target :=
      if task.Some? then Some(task.value.id)
      else match Get(event, "task_id") case Some(v) => ChannelKey(v) case None => None;
    if target.Some? && target.value in channels then Some(channels[target.value]) else None
  }

  /** The payload names the given task. */
  function WithTask(event: Dict, task: Option<TodoItem>): (r: Dict)
    ensures Get(r, "task_id") == if task.Some? then Some(JInt(task.value.id)) else Get(event, "task_id")
    ensures forall k | k != "task_id" :: Get(r, k) == Get(event, k)
  {
    if task.Some? then Put(event, "task_id", JInt(task.value.id)) else event
  }

  /** A routed payload keeps its own step and always takes the channel's
      token. */
  function Route(d: Dict, channel: Option<Channel>): (r: Dict)
    ensures Get(r, "stream_token") == if channel.Some? then Some(JStr(channel.value.token)) else Get(d, "stream_token")
    ensures Get(r, "step") == if channel.Some? && !HasKey(d, "step") then Some(JInt(channel.value.step)) else Get(d, "step")
    ensures forall k | k != "step" && k != "stream_token" :: Get(r, k) == Get(d, k)
  {
    if channel.Some? then
      var d' := SetDefault(d, "step", JInt(channel.value.step));
      Put(d', "stream_token", JStr(channel.value.token))
    else d
  }

  /** An explicit step wins. */
  function OverrideStep(d: Dict, stepOverride: Option<int>): (r: Dict)
    ensures Get(r, "step") == if stepOverride.Some? then Some(JInt(stepOverride.value)) else Get(d, "step")
    ensures forall k | k != "step" :: Get(r, k) == Get(d, k)
  {
    if stepOverride.Some? then Put(d, "step", JInt(stepOverride.value)) else d
  }

  /** `enqueue(event, task=..., step_override=...)`: the payload put on the
      queue, `None` where the channel lookup raises. Only `task_id`, `step`
      and `stream_token` can change. */
  function Enqueue(event: Dict, channels: map<int, Channel>, task: Option<TodoItem>, stepOverride: Option<int>)
    : (r: Option<Dict>)
    ensures r.None? <==> LookupRaises(event, task)
    ensures r.Some? ==>
              Get(r.value, "task_id") == if task.Some? then Some(JInt(task.value.id)) else Get(event, "task_id")
    ensures var ch := ChannelFor(event, channels, task);
            r.Some? ==>
              Get(r.value, "stream_token") == if ch.Some? then Some(JStr(ch.value.token)) else Get(event, "stream_token")
    ensures var ch := ChannelFor(event, channels, task);
            r.Some? ==>
              Get(r.value, "step") == if stepOverride.Some? then Some(JInt(stepOverride.value))
                                      else if ch.Some? && !HasKey(event, "step") then Some(JInt(ch.value.step))
                                      else Get(event, "step")
  {
    if LookupRaises(event, task) then None
    else
      var channel := ChannelFor(event, channels, task);
      var withTask := WithTask(event, task);
      var routed := Route(withTask, channel);
      var r := OverrideStep(routed, stepOverride);
      assert Get(r, "task_id") == Get(routed, "task_id") == Get(withTask, "task_id");
      assert Get(r, "stream_token") == Get(routed, "stream_token");
      assert Get(withTask, "step") == Get(event, "step");
      assert HasKey(withTask, "step") == HasKey(event, "step");
      Some(r)
  }

  /** Every other field of the event reaches the queue unchanged. */
  lemma EnqueueKeepsOtherFields(event: Dict, channels: map<int, Channel>, task: Option<TodoItem>,
                                stepOverride: Option<int>, k: string)
    requires k != "task_id" && k != "step" && k != "stream_token"
    ensures var r := Enqueue(event, channels, task, stepOverride);
            r.Some? ==> Get(r.value, k) == Get(event, k)
  {
    var withTask := WithTask(event, task);
    var routed := Route(withTask, ChannelFor(event, channels, task));
    assert Get(routed, k) == Get(withTask, k) == Get(event, k);
  }

  /** An event a worker enqueues for its task carries the task's token, and
      the task's position as step unless the event names one. */
  lemma WorkerEventRouted(tasks: seq<TodoItem>, k: nat, event: Dict)
    requires k < |tasks|
    requires forall j | k < j < |tasks| :: tasks[j].id != tasks[k].id
    ensures var r := Enqueue(event, Channels(tasks), Some(tasks[k]), None);
            && r.Some?
            && Get(r.value, "task_id") == Some(JInt(tasks[k].id))
            && Get(r.value, "stream_token") == Some(JStr(StreamToken(tasks[k].id)))
            && Get(r.value, "step") == if HasKey(event, "step") then Get(event, "step") else Some(JInt(k + 1))
  {
    ChannelOfTask(tasks, |tasks|, k);
  }

  /** An event naming no planned task finds no channel. */
  lemma UnknownTaskHasNoChannel(tasks: seq<TodoItem>, event: Dict, key: Option<int>)
    requires key == match Get(event, "task_id") case Some(v) => ChannelKey(v) case None => None
    requires key.Some? ==> forall k | 0 <= k < |tasks| :: tasks[k].id != key.value
    ensures ChannelFor(event, Channels(tasks), None).None?
  {
    if key.Some? {
      ChannelsOnlyForTasks(tasks, |tasks|, key.value);
    }
  }

  /** An event of no task raises when its `task_id` is a list or a dict;
      otherwise, when it names no planned task, it goes out untouched. */
  lemma UnknownTaskNotRouted(tasks: seq<TodoItem>, event: Dict, key: Option<int>)
    requires key == match Get(event, "task_id") case Some(v) => ChannelKey(v) case None => None
    requires key.Some? ==> forall k | 0 <= k < |tasks| :: tasks[k].id != key.value
    ensures Enqueue(event, Channels(tasks), None, None)
            == if match Get(event, "task_id") case Some(v) => v.JArr? || v.JObj? case None => false
               then None else Some(event)
  {
    UnknownTaskHasNoChannel(tasks, event, key);
  }

  /* ---------------------------------------------------------------- */
  /* Workers and the done-marker consumer                             */
  /* ---------------------------------------------------------------- */

  const DoneType: string := "__task_done__"

  predicate IsDoneMarker(event: Dict) {
    Get(event, "type") == Some(JStr(DoneType))
  }

  function DoneMarker(id: int): Dict {
    [("type", JStr(DoneType)), ("task_id", JInt(id))]
  }

  function TaskStatus(task: TodoItem, status: string, detail: Option<string>): Dict {
    [("type", JStr("task_status")), ("task_id", JInt(task.id)), ("status", JStr(status))]
    + (if detail.Some? then [("detail", JStr(detail.value))] else [])
    + [("title", JStr(task.title)), ("intent", JStr(task.intent)),
       ("note_id", OptStr(task.noteId)), ("note_path", OptStr(task.notePath))]
  }

  function EnqueueAll(events: seq<Dict>, channels: map<int, Channel>, task: TodoItem): (r: seq<Dict>)
    ensures |r| == |events|
    ensures forall i | 0 <= i < |events| :: Some(r[i]) == Enqueue(events[i], channels, Some(task), None)
  {
    seq(|events|, i requires 0 <= i < |events| => Enqueue(events[i], channels, Some(task), None).value)
  }

  /** The events a worker enqueues for its task: the task's start, the
      events its execution produced, and a failure status if the execution
      raised `failure`. */
  function WorkerEvents(task: TodoItem, produced: seq<Dict>, failure: Option<string>): seq<Dict> {
    [TaskStatus(task, "in_progress", None)] + produced
    + (if failure.Some? then [TaskStatus(task, "failed", failure)] else [])
  }

  /** Everything one worker puts on the queue; the `finally` clause puts
      the done marker last whatever happened. */
  function WorkerQueue(task: TodoItem, channels: map<int, Channel>, produced: seq<Dict>,
                       failure: Option<string>): seq<Dict> {
    MarkerIsHashable(task.id);
    EnqueueAll(WorkerEvents(task, produced, failure), channels, task)
    + [Enqueue(DoneMarker(task.id), channels, None, None).value]
  }

  /** How many done markers the first `n` items hold. */
  function MarkersUpTo(events: seq<Dict>, n: nat): nat
    requires n <= |events|
  {
    if n == 0 then 0
    else MarkersUpTo(events, n - 1) + (if IsDoneMarker(events[n - 1]) then 1 else 0)
  }

  function Markers(events: seq<Dict>): nat {
    MarkersUpTo(events, |events|)
  }

  /** The first `n` items that are not done markers, in order. */
  function ForwardedUpTo(events: seq<Dict>, n: nat): seq<Dict>
    requires n <= |events|
  {
    if n == 0 then []
    else ForwardedUpTo(events, n - 1) + (if IsDoneMarker(events[n - 1]) then [] else [events[n - 1]])
  }

  function Forwarded(events: seq<Dict>): seq<Dict> {
    ForwardedUpTo(events, |events|)
  }

  /** Forwarding keeps events and drops every marker. */
  lemma {:induction false} ForwardedHasNoMarkers(events: seq<Dict>, n: nat)
    requires n <= |events|
    ensures forall e | e in ForwardedUpTo(events, n) :: e in events && !IsDoneMarker(e)
  {
    if n > 0 {
      ForwardedHasNoMarkers(events, n - 1);
    }
  }

  /** Counting the markers of two sequences one after the other. */
  lemma {:induction false} MarkersAppend(a: seq<Dict>, b: seq<Dict>, n: nat)
    requires n <= |b|
    ensures MarkersUpTo(a + b, |a| + n) == Markers(a) + MarkersUpTo(b, n)
  {
    if n > 0 {
      MarkersAppend(a, b, n - 1);
      assert (a + b)[|a| + n - 1] == b[n - 1];
    } else {
      MarkersPrefix(a, b, |a|);
    }
  }

  /** Counting within a prefix ignores what follows. */
  lemma {:induction false} MarkersPrefix(a: seq<Dict>, b: seq<Dict>, n: nat)
    requires n <= |a|
    ensures MarkersUpTo(a + b, n) == MarkersUpTo(a, n)
  {
    if n > 0 {
      MarkersPrefix(a, b, n - 1);
      assert (a + b)[n - 1] == a[n - 1];
    }
  }

  lemma {:induction false} NoMarkers(events: seq<Dict>, n: nat)
    requires n <= |events|
    requires forall i | 0 <= i < n :: !IsDoneMarker(events[i])
    ensures MarkersUpTo(events, n) == 0
  {
    if n > 0 {
      NoMarkers(events, n - 1);
    }
  }

  /** A worker puts exactly one done marker on the queue, and puts it
      last, as long as the task's own events are not markers. */
  lemma WorkerMarksDoneOnce(task: TodoItem, channels: map<int, Channel>, produced: seq<Dict>,
                            failure: Option<string>)
    requires forall i | 0 <= i < |produced| :: !IsDoneMarker(produced[i])
    ensures var q := WorkerQueue(task, channels, produced, failure);
            Markers(q) == 1 && IsDoneMarker(q[|q| - 1])
  {
    var body := EnqueueAll(WorkerEvents(task, produced, failure), channels, task);
    MarkerIsHashable(task.id);
    var marker := Enqueue(DoneMarker(task.id), channels, None, None).value;
    WorkerBodyHasNoMarker(task, channels, produced, failure);
    EnqueuedMarker(task.id, channels);
    OneMarkerLast(body, marker);
  }

  /** Items without markers followed by one marker hold exactly one. */
  lemma OneMarkerLast(body: seq<Dict>, marker: Dict)
    requires Markers(body) == 0 && IsDoneMarker(marker)
    ensures Markers(body + [marker]) == 1
  {
    MarkersAppend(body, [marker], 1);
  }

  lemma WorkerBodyHasNoMarker(task: TodoItem, channels: map<int, Channel>, produced: seq<Dict>,
                              failure: Option<string>)
    requires forall i | 0 <= i < |produced| :: !IsDoneMarker(produced[i])
    ensures Markers(EnqueueAll(WorkerEvents(task, produced, failure), channels, task)) == 0
  {
    var events := WorkerEvents(task, produced, failure);
    var body := EnqueueAll(events, channels, task);
    forall i | 0 <= i < |body|
      ensures !IsDoneMarker(body[i])
    {
      WorkerEventIsNoMarker(task, produced, failure, i);
      EnqueueKeepsOtherFields(events[i], channels, Some(task), None, "type");
    }
    NoMarkers(body, |body|);
  }

  /** The done marker names its task by an integer, so enqueueing it never
      raises. */
  lemma MarkerIsHashable(id: int)
    ensures Get(DoneMarker(id), "task_id") == Some(JInt(id))
    ensures !LookupRaises(DoneMarker(id), None)
  {
    GetAt(DoneMarker(id), "task_id", 1);
  }

  /** The done marker is still a done marker once enqueued. */
  lemma EnqueuedMarker(id: int, channels: map<int, Channel>)
    ensures var r := Enqueue(DoneMarker(id), channels, None, None);
            r.Some? && IsDoneMarker(r.value)
  {
    MarkerIsHashable(id);
    GetAt(DoneMarker(id), "type", 0);
    EnqueueKeepsOtherFields(DoneMarker(id), channels, None, None, "type");
  }

  lemma WorkerEventIsNoMarker(task: TodoItem, produced: seq<Dict>, failure: Option<string>, i: nat)
    requires forall j | 0 <= j < |produced| :: !IsDoneMarker(produced[j])
    requires i < |WorkerEvents(task, produced, failure)|
    ensures !IsDoneMarker(WorkerEvents(task, produced, failure)[i])
  {
    StatusIsNoMarker(task, "in_progress", None);
    StatusIsNoMarker(task, "failed", failure);
  }

  lemma StatusIsNoMarker(task: TodoItem, status: string, detail: Option<string>)
    ensures Get(TaskStatus(task, status, detail), "type") == Some(JStr("task_status"))
  {
    GetAt(TaskStatus(task, status, detail), "type", 0);
  }

  /** The workers' queues one after another. */
  function Flatten(queues: seq<seq<Dict>>): seq<Dict> {
    if queues == [] then [] else Flatten(queues[..|queues| - 1]) + queues[|queues| - 1]
  }

  /** When every worker marks itself done once, the queue holds one marker
      per worker: exactly what the consumer waits for. */
  lemma {:induction false} OneMarkerPerWorker(queues: seq<seq<Dict>>)
    requires forall i | 0 <= i < |queues| :: Markers(queues[i]) == 1
    ensures Markers(Flatten(queues)) == |queues|
    decreases |queues|
  {
    if queues != [] {
      var n := |queues| - 1;
      assert forall i | 0 <= i < n :: queues[..n][i] == queues[i];
      OneMarkerPerWorker(queues[..n]);
      MarkersAppend(Flatten(queues[..n]), queues[n], |queues[n]|);
    }
  }

  /** How the consumer ended: it ran out of workers to wait for and
      drained the queue, or it is still waiting for a marker. */
  datatype Consumed = Drained(events: seq<Dict>) | Waiting(events: seq<Dict>)

  /** The consumer loop of `run_stream` over the queue's contents in the
      order they were put: it forwards everything but done markers, counts
      markers until every worker has reported, then takes what is left
      without waiting. `taken` is how many items the counting loop took. */
  method Consume(queue: seq<Dict>, workers: nat) returns (r: Consumed, taken: nat)
    ensures r.events == Forwarded(queue)
    ensures r.Drained? <==> Markers(queue) >= workers
    ensures r.Drained? ==> taken <= |queue| && MarkersUpTo(queue, taken) == workers
    ensures r.Drained? && workers > 0 ==> 0 < taken && IsDoneMarker(queue[taken - 1])
  {
    var out: seq<Dict> := [];
    var finished := 0;
    var i := 0;
    while finished < workers && i < |queue|
      invariant i <= |queue| && finished <= workers
      invariant finished == MarkersUpTo(queue, i)
      invariant out == ForwardedUpTo(queue, i)
      invariant i > 0 && finished == workers ==> IsDoneMarker(queue[i - 1])
    {
      if IsDoneMarker(queue[i]) {
        finished := finished + 1;
      } else {
        out := out + [queue[i]];
      }
      i := i + 1;
    }
    if finished < workers {
      MarkersGrow(queue, i);
      return Waiting(out), i;
    }
    taken := i;
    while i < |queue|
      invariant taken <= i <= |queue|
      invariant out == ForwardedUpTo(queue, i)
    {
      if !IsDoneMarker(queue[i]) {
        out := out + [queue[i]];
      }
      i := i + 1;
    }
    MarkersGrow(queue, taken);
    return Drained(out), taken;
  }

  /** Markers only accumulate along the queue. */
  lemma {:induction false} MarkersGrow(queue: seq<Dict>, i: nat)
    requires i <= |queue|
    ensures MarkersUpTo(queue, i) <= Markers(queue)
    decreases |queue| - i
  {
    if i < |queue| {
      MarkersGrow(queue, i + 1);
    }
  }

  /* ---------------------------------------------------------------- */
  /* The end of the stream                                            */
  /* ---------------------------------------------------------------- */

  /** What `run_stream` yields after the workers: the tool events drained
      at the final step, the report-note event when there is one, the
      final report and `done`. `noteId` and `notePath` are what the run
      state holds after the report is persisted (agent.py:281-282): when
      no note is recorded, or no notes workspace is set, they are left
      over from earlier and need not name this report. */
  function StreamEnd(finalTools: seq<Dict>, noteEvent: Option<Dict>, report: string,
                     noteId: Option<JValue>, notePath: Option<string>): (r: seq<Dict>)
    ensures |r| >= |finalTools| + 2
    ensures Get(r[|r| - 2], "type") == Some(JStr("final_report")) && Get(r[|r| - 2], "report") == Some(JStr(report))
    ensures r[|r| - 1] == [("type", JStr("done"))] && Get(r[|r| - 1], "type") == Some(JStr("done"))
    ensures r[..|finalTools|] == finalTools
  {
    var finalReport := [("type", JStr("final_report")), ("report", JStr(report)),
                        ("note_id", if noteId.Some? then noteId.value else JNull), ("note_path", OptStr(notePath))];
    GetAt(finalReport, "type", 0);
    GetAt(finalReport, "report", 1);
    GetAt([("type", JStr("done"))], "type", 0);
    var note := if noteEvent.Some? && noteEvent.value != [] then [noteEvent.value] else [];
    finalTools + note + [finalReport, [("type", JStr("done"))]]
  }

  /* ---------------------------------------------------------------- */
  /* _persist_final_report                                            */
  /* ---------------------------------------------------------------- */

  const ReportTags: JValue := JArr([JStr("deep_research"), JStr("report")])

  /** `f"研究报告：{topic}".strip() or "研究报告"`. */
  function ReportNoteTitle(topic: string): (r: string)
    ensures StartsWith(r, Reporter.ReportTitlePrefix)
  {
    var title := Reporter.ReportTitlePrefix + "：" + topic;
    assert title[..4] == Reporter.ReportTitlePrefix;
    TrimKeepsLead(title, 4, PyWhitespace);
    var r := Trim(title, PyWhitespace);
    if r != "" then r else Reporter.ReportTitlePrefix
  }

  function UpdateCall(id: JValue, title: string, content: string): Dict {
    [("action", JStr("update")), ("note_id", id), ("title", JStr(title)),
     ("note_type", JStr("conclusion")), ("tags", ReportTags), ("content", JStr(content))]
  }

  function CreateCall(title: string, content: string): Dict {
    [("action", JStr("create")), ("title", JStr(title)),
     ("note_type", JStr("conclusion")), ("tags", ReportTags), ("content", JStr(content))]
  }

  /** What saving the report did: the note-tool calls made, in order, and,
      when a note holds the report, its id, its path and the event that
      announces it. */
  datatype Persisted = Persisted(calls: seq<Dict>, noteId: Option<JValue>, notePath: Option<string>,
                                 event: Option<Dict>)

  /** The `report_note` event. */
  function ReportNoteEvent(id: JValue, title: string, content: string, path: Option<string>): (r: Dict)
    ensures Get(r, "type") == Some(JStr("report_note")) && Get(r, "note_id") == Some(id)
    ensures Get(r, "content") == Some(JStr(content))
  {
    var r := [("type", JStr("report_note")), ("note_id", id), ("title", JStr(title)), ("content", JStr(content))]
             + (if path.Some? then [("note_path", JStr(path.value))] else []);
    GetAt(r, "type", 0);
    GetAt(r, "note_id", 1);
    GetAt(r, "content", 3);
    r
  }

  /** The state records the note; its path is known only with a notes
      workspace (`pathOf` renders `Path(workspace) / f"{note_id}.md"`). */
  function Saved(id: JValue, calls: seq<Dict>, title: string, content: string, workspace: string,
                 pathOf: JValue -> string): Persisted {
    var path := if workspace != "" then Some(pathOf(id)) else None;
    Persisted(calls, Some(id), path, Some(ReportNoteEvent(id, title, content, path)))
  }

  /** `_persist_final_report(state, report)`. `existing` is what
      `_find_existing_report_note_id` answered when it did not raise (a
      raising search is stated on `FindExistingReportNoteId`), and
      `noteTool` gives the note tool's reply to each call. */
  function PersistFinalReport(notesEnabled: bool, topic: string, report: string, existing: Option<JValue>,
                              noteTool: Dict -> string, workspace: string, pathOf: JValue -> string): (r: Persisted)
    ensures !notesEnabled || AllSpace(report, PyWhitespace) <==> r.calls == []
    ensures |r.calls| <= 2
    ensures r.noteId.Some? <==> r.event.Some?
    ensures r.noteId.Some? ==> Truthy(r.noteId.value)
    ensures r.event.Some? ==> Get(r.event.value, "note_id") == Some(r.noteId.value)
                              && Get(r.event.value, "content") == Some(JStr(Trim(report, PyWhitespace)))
    ensures r.notePath.Some? ==> workspace != "" && r.noteId.Some?
  {
    TrimSpec(report, PyWhitespace);
    if !notesEnabled || Trim(report, PyWhitespace) == "" then Persisted([], None, None, None)
    else
      var title := ReportNoteTitle(topic);
      var content := Trim(report, PyWhitespace);
      var update := if existing.Some? && Truthy(existing.value) then [UpdateCall(existing.value, title, content)] else [];
      if update != [] && !StartsWith(noteTool(update[0]), "❌") then
        Saved(existing.value, update, title, content, workspace, pathOf)
      else
        var create := CreateCall(title, content);
        var id := ExtractNoteIdFromText(noteTool(create));
        if id.Some? && id.value != "" then Saved(JStr(id.value), update + [create], title, content, workspace, pathOf)
        else Persisted(update + [create], None, None, None)
  }

  /** A known report note is updated in place; when the tool accepts the
      update nothing is created. */
  lemma UpdateKeepsNote(topic: string, report: string, id: JValue, noteTool: Dict -> string,
                        workspace: string, pathOf: JValue -> string)
    requires !AllSpace(report, PyWhitespace) && Truthy(id)
    requires !StartsWith(noteTool(UpdateCall(id, ReportNoteTitle(topic), Trim(report, PyWhitespace))), "❌")
    ensures var r := PersistFinalReport(true, topic, report, Some(id), noteTool, workspace, pathOf);
            r.calls == [UpdateCall(id, ReportNoteTitle(topic), Trim(report, PyWhitespace))] && r.noteId == Some(id)
  {
    TrimSpec(report, PyWhitespace);
  }

  /** A refused update (a reply starting with ❌), or no known note, leads
      to one create call, and the note is whatever id its reply names. */
  lemma CreateWhenNoUsableNote(topic: string, report: string, existing: Option<JValue>, noteTool: Dict -> string,
                               workspace: string, pathOf: JValue -> string)
    requires !AllSpace(report, PyWhitespace)
    requires existing.Some? && Truthy(existing.value) ==>
               StartsWith(noteTool(UpdateCall(existing.value, ReportNoteTitle(topic), Trim(report, PyWhitespace))), "❌")
    ensures var r := PersistFinalReport(true, topic, report, existing, noteTool, workspace, pathOf);
            var create := CreateCall(ReportNoteTitle(topic), Trim(report, PyWhitespace));
            var id := ExtractNoteIdFromText(noteTool(create));
            && r.calls[|r.calls| - 1] == create
            && (|r.calls| == 2 <==> existing.Some? && Truthy(existing.value))
            && r.noteId == if id.Some? && id.value != "" then Some(JStr(id.value)) else None
  {
    TrimSpec(report, PyWhitespace);
  }

  /** Every call that saves the report is recognised as a report call the
      next time the existing note is looked up: the update names its note
      itself. */
  lemma UpdateCallIsReportCall(title: string, content: string, id: JValue, result: JValue,
                               readId: JValue -> Option<string>)
    requires Truthy(id)
    ensures Candidate(NoteEvent(UpdateCall(id, title, content), result), readId) == Some(Found(id))
  {
    var u := UpdateCall(id, title, content);
    GetAt(u, "action", 0);
    GetAt(u, "note_id", 1);
    GetAt(u, "note_type", 3);
    NoteEventOffers(u, result, readId);
  }

  /** The create call is a report call too; its note is what the tracker
      reads from the tool's reply. */
  lemma CreateCallIsReportCall(title: string, content: string, result: JValue, readId: JValue -> Option<string>)
    ensures IsReportNoteCall(NoteEvent(CreateCall(title, content), result))
  {
    var c := CreateCall(title, content);
    GetAt(c, "action", 0);
    GetAt(c, "note_type", 2);
    NoteEventOffers(c, result, readId);
  }

  /** So a report note that was updated is found again by the next run of
      the search, even without the state's record. */
  lemma UpdatedNoteIsFoundAgain(history: seq<Dict>, title: string, content: string, id: JValue, result: JValue,
                                readId: JValue -> Option<string>)
    requires Truthy(id)
    ensures FindExistingReportNoteId(None, history + [NoteEvent(UpdateCall(id, title, content), result)], readId)
            == Some(Some(id))
  {
    UpdateCallIsReportCall(title, content, id, result, readId);
    NewestReportCallWins(history + [NoteEvent(UpdateCall(id, title, content), result)], |history|, readId);
  }
}
