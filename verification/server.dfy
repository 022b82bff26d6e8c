/** The HTTP layer of the research service (backend/src/main.py): secret
    masking for the startup log, how a request turns into a configuration,
    and the replies of `/research` and `/research/stream`. */
module Server {
  import opened Wrappers
  import opened Text
  import opened PyJson
  import opened Config
  import opened Models
  import opened EventStream

  /* ---------------------------------------------------------------- */
  /* _mask_secret                                                     */
  /* ---------------------------------------------------------------- */

  const DefaultVisible: int := 4

  /** `_mask_secret(value, visible)`: `"unset"` for a missing or empty
      value, stars for a short one, otherwise the two ends around `...`. */
  function MaskSecret(value: Option<string>, visible: int): (r: string)
    ensures value.None? || value == Some("") <==> r == "unset"
  {
    if value.None? || value.value == "" then "unset"
    else
      var v := value.value;
      if |v| <= visible * 2 then
        var r := Repeat('*', |v|);
        assert r[0] != "unset"[0];
        r
      else
        var head := PyPrefix(v, visible);
        var r := head + "..." + PySuffix(v, -visible);
        assert r != "unset" by {
          assert r[|head|] == '.';
          assert forall i :: 0 <= i < |"unset"| ==> "unset"[i] != '.';
        }
        r
  }

  /** A short secret is replaced by as many stars as it has characters:
      nothing of it is revealed. */
  lemma MaskShortSecret(v: string, visible: int)
    requires v != "" && |v| <= visible * 2
    ensures |MaskSecret(Some(v), visible)| == |v|
    ensures forall i :: 0 <= i < |v| ==> MaskSecret(Some(v), visible)[i] == '*'
  {
  }

  /** A long secret shows its first and last `visible` characters around
      `...`, so the mask is `2 * visible + 3` characters long. */
  lemma MaskLongSecret(v: string, visible: int)
    requires visible > 0 && |v| > visible * 2
    ensures MaskSecret(Some(v), visible) == v[..visible] + "..." + v[|v| - visible..]
    ensures |MaskSecret(Some(v), visible)| == 2 * visible + 3
  {
  }

  /** The mask depends on nothing but the length and the two visible ends:
      secrets that agree there are masked alike. */
  lemma MaskSeesOnlyEnds(a: string, b: string, visible: int)
    requires visible > 0 && a != "" && |a| == |b|
    requires |a| > visible * 2 ==>
               a[..visible] == b[..visible] && a[|a| - visible..] == b[|b| - visible..]
    ensures MaskSecret(Some(a), visible) == MaskSecret(Some(b), visible)
  {
    if |a| > visible * 2 {
      MaskLongSecret(a, visible);
      MaskLongSecret(b, visible);
    }
  }

  /* ---------------------------------------------------------------- */
  /* _build_config                                                    */
  /* ---------------------------------------------------------------- */

  /** The overrides of a request: the search backend, only when given. */
  function RequestOverrides(searchApi: Option<SearchApi>): (r: map<string, Option<Raw>>)
    ensures searchApi.None? <==> r == map[]
  {
    if searchApi.Some? then
      var r := map["search_api" := Some(FromApi(searchApi.value))];
      assert "search_api" in r;
      r
    else map[]
  }

  /** `_build_config(payload)`. */
  function BuildConfig(env: Env, co: Coercion, searchApi: Option<SearchApi>): Option<Configuration> {
    FromEnv(env, RequestOverrides(searchApi), co)
  }

  /** A request that names a search backend gets it; one that does not
      gets the backend of the environment (or the default). */
  lemma RequestSearchApi(env: Env, co: Coercion, searchApi: Option<SearchApi>)
    requires BuildConfig(env, co, searchApi).Some?
    ensures searchApi.Some? ==> BuildConfig(env, co, searchApi).value.searchApi == searchApi.value
    ensures searchApi.None? ==>
              if "SEARCH_API" in env then ApiOf(env["SEARCH_API"]) == Some(BuildConfig(env, co, searchApi).value.searchApi)
              else BuildConfig(env, co, searchApi).value.searchApi == DuckDuckGo
  {
    var ov := RequestOverrides(searchApi);
    if searchApi.Some? {
      OverrideDecidesSearchApi(env, ov, co, searchApi.value);
    } else {
      EnvDecidesSearchApi(env, ov, co);
    }
  }

  /* ---------------------------------------------------------------- */
  /* /research                                                        */
  /* ---------------------------------------------------------------- */

  /** `result.report_markdown or result.running_summary or ""`. */
  function ReportMarkdown(out: RunOutput): string {
    OrElse(out.reportMarkdown, OrElse(out.runningSummary, ""))
  }

  /** The report is the first non-empty of the report and the running
      summary, and empty only when both are missing or empty. */
  lemma ReportMarkdownFallback(out: RunOutput)
    ensures ReportMarkdown(out) == "" <==>
              (out.reportMarkdown.None? || out.reportMarkdown == Some(""))
              && (out.runningSummary.None? || out.runningSummary == Some(""))
    ensures ReportMarkdown(out) != "" ==>
              Some(ReportMarkdown(out)) == out.reportMarkdown
              || (Some(ReportMarkdown(out)) == out.runningSummary
                  && (out.reportMarkdown.None? || out.reportMarkdown == Some("")))
  {
  }

  const TodoKeys: seq<string> := ["id", "title", "intent", "query", "status", "summary",
                                  "sources_summary", "note_id", "note_path"]

  /** One entry of `todo_items` in the reply. */
  function TodoPayload(item: TodoItem): JValue {
    JObj([("id", JInt(item.id)), ("title", JStr(item.title)), ("intent", JStr(item.intent)),
          ("query", JStr(item.query)), ("status", JStr(item.status)),
          ("summary", OptStr(item.summary)), ("sources_summary", OptStr(item.sourcesSummary)),
          ("note_id", OptStr(item.noteId)), ("note_path", OptStr(item.notePath))])
  }

  /** The reply lists the nine public fields of a task, in order; the
      notices and the stream token stay internal. */
  lemma TodoPayloadShape(item: TodoItem)
    ensures |TodoPayload(item).fields| == |TodoKeys|
    ensures forall i :: 0 <= i < |TodoKeys| ==> TodoPayload(item).fields[i].0 == TodoKeys[i]
    ensures Get(TodoPayload(item).fields, "note_id") == Some(OptStr(item.noteId))
  {
    var f := TodoPayload(item).fields;
    assert f[7] == ("note_id", OptStr(item.noteId));
    assert forall j :: 0 <= j < 7 ==> f[j].0 != "note_id";
  }

  /** How the agent's run ended. */
  datatype AgentResult =
    | Finished(out: RunOutput)
    | RaisedValueError(message: string)
    | RaisedOther

  datatype Reply =
    | ResearchReply(reportMarkdown: string, todoItems: seq<JValue>)
    | HttpError(status: int, detail: string)

  /** `run_research`. The configuration is `None` when validation raised a
      `ValueError` with text `invalid`. */
  function RunResearch(config: Option<Configuration>, invalid: string, result: AgentResult): (r: Reply)
    ensures r.HttpError? ==> r.status == 400 || r == HttpError(500, "Research failed")
    ensures config.None? ==> r == HttpError(400, invalid)
    ensures r.ResearchReply? <==> config.Some? && result.Finished?
  {
    if config.None? then HttpError(400, invalid)
    else
      match result
      case RaisedValueError(m) => HttpError(400, m)
      case RaisedOther => HttpError(500, "Research failed")
      case Finished(out) =>
        ResearchReply(ReportMarkdown(out), seq(|out.todoItems|, i requires 0 <= i < |out.todoItems| =>
                                                 TodoPayload(out.todoItems[i])))
  }

  /** A successful reply carries one payload per task, in task order. */
  lemma ReplyListsEveryTask(config: Configuration, out: RunOutput, invalid: string)
    ensures var r := RunResearch(Some(config), invalid, Finished(out));
            |r.todoItems| == |out.todoItems|
            && (forall i :: 0 <= i < |out.todoItems| ==> r.todoItems[i] == TodoPayload(out.todoItems[i]))
            && r.reportMarkdown == ReportMarkdown(out)
  {
  }

  /* ---------------------------------------------------------------- */
  /* /research/stream                                                 */
  /* ---------------------------------------------------------------- */

  datatype StreamReply = StreamRejected(status: int, detail: string) | Streamed(frames: seq<string>)

  /** `stream_research`: a configuration error is reported before any
      frame is sent; otherwise the body is `event_iterator()`. */
  function StreamResearch(config: Option<Configuration>, invalid: string, run: AgentRun): (r: StreamReply)
    ensures config.None? ==> r == StreamRejected(400, invalid)
    ensures config.Some? ==> r.Streamed? && |r.frames| == |Emitted(run)|
  {
    if config.None? then StreamRejected(400, invalid) else Streamed(EventIterator(run))
  }
}
