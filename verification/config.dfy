/** The research assistant's settings: `Configuration` in
    backend/src/config.py, how `from_env` merges the environment with
    explicit overrides, and the two derived settings `sanitized_ollama_url`
    and `resolved_model`.

    The environment is a finite map from variable names to texts. Pydantic's
    coercion of texts into integers and booleans is a foreign library
    routine and is a parameter here; enum values and plain strings are
    coerced as pydantic does it. */
module Config {
  import opened Wrappers
  import opened Text

  /** `SearchAPI`, with the texts that select each member. */
  datatype SearchApi = Perplexity | Tavily | DuckDuckGo | Searxng | Advanced

  function ApiText(a: SearchApi): string {
    match a
    case Perplexity => "perplexity"
    case Tavily => "tavily"
    case DuckDuckGo => "duckduckgo"
    case Searxng => "searxng"
    case Advanced => "advanced"
  }

  /** `SearchAPI(s)`: lookup by value; `None` when no member has it. */
  function ApiOf(s: string): Option<SearchApi> {
    if s == "perplexity" then Some(Perplexity)
    else if s == "tavily" then Some(Tavily)
    else if s == "duckduckgo" then Some(DuckDuckGo)
    else if s == "searxng" then Some(Searxng)
    else if s == "advanced" then Some(Advanced)
    else None
  }

  /** Each member is selected by exactly its own value. */
  lemma ApiTextRoundTrip(a: SearchApi, s: string)
    ensures ApiOf(ApiText(a)) == Some(a)
    ensures ApiOf(s) == Some(a) <==> s == ApiText(a)
  {
  }

  datatype Configuration = Configuration(
    maxWebResearchLoops: int,
    localLlm: string,
    llmProvider: string,
    searchApi: SearchApi,
    enableNotes: bool,
    notesWorkspace: string,
    fetchFullPage: bool,
    ollamaBaseUrl: string,
    lmstudioBaseUrl: string,
    stripThinkingTokens: bool,
    useToolCalling: bool,
    llmApiKey: Option<string>,
    llmBaseUrl: Option<string>,
    llmModelId: Option<string>)

  /** The declared defaults. */
  function Defaults(): Configuration {
    Configuration(
      maxWebResearchLoops := 3,
      localLlm := "llama3.2",
      llmProvider := "ollama",
      searchApi := DuckDuckGo,
      enableNotes := true,
      notesWorkspace := "./notes",
      fetchFullPage := true,
      ollamaBaseUrl := "http://localhost:11434",
      lmstudioBaseUrl := "http://localhost:1234/v1",
      stripThinkingTokens := true,
      useToolCalling := false,
      llmApiKey := None,
      llmBaseUrl := None,
      llmModelId := None)
  }

  /** The field names, in declaration order. */
  const Fields: seq<string> := [
    "max_web_research_loops", "local_llm", "llm_provider", "search_api",
    "enable_notes", "notes_workspace", "fetch_full_page", "ollama_base_url",
    "lmstudio_base_url", "strip_thinking_tokens", "use_tool_calling",
    "llm_api_key", "llm_base_url", "llm_model_id"]

  /* ---------------------------------------------------------------- */
  /* Merging the sources of raw values                                */
  /* ---------------------------------------------------------------- */

  /** A raw value before validation: text read from the environment, or a
      `SearchAPI` member passed as an override. */
  datatype Raw = FromText(text: string) | FromApi(api: SearchApi)

  type Env = map<string, string>

  /** The variable a field is read from: its name upper-cased. */
  function EnvName(field: string): string {
    AsciiUpper(field)
  }

  /** The first loop: every field whose upper-cased name is set. */
  function EnvValues(env: Env): map<string, Raw> {
    map f | f in Fields && EnvName(f) in env :: FromText(env[EnvName(f)])
  }

  /** The explicit alias table, in its source order. */
  const Aliases: seq<(string, string)> := [
    ("local_llm", "LOCAL_LLM"), ("llm_provider", "LLM_PROVIDER"),
    ("llm_api_key", "LLM_API_KEY"), ("llm_model_id", "LLM_MODEL_ID"),
    ("llm_base_url", "LLM_BASE_URL"), ("lmstudio_base_url", "LMSTUDIO_BASE_URL"),
    ("ollama_base_url", "OLLAMA_BASE_URL"),
    ("max_web_research_loops", "MAX_WEB_RESEARCH_LOOPS"),
    ("fetch_full_page", "FETCH_FULL_PAGE"),
    ("strip_thinking_tokens", "STRIP_THINKING_TOKENS"),
    ("use_tool_calling", "USE_TOOL_CALLING"), ("search_api", "SEARCH_API"),
    ("enable_notes", "ENABLE_NOTES"), ("notes_workspace", "NOTES_WORKSPACE")]

  /** The second loop: `raw_values.setdefault(key, os.getenv(name))` for
      every alias whose variable is set. */
  function ApplyAliases(raw: map<string, Raw>, env: Env, aliases: seq<(string, string)>): map<string, Raw>
    decreases |aliases|
  {
    if |aliases| == 0 then raw
    else
      var (key, name) := aliases[0];
      var next := if name in env && key !in raw then raw[key := FromText(env[name])] else raw;
      ApplyAliases(next, env, aliases[1..])
  }

  /** The third loop: every override that is not `None` replaces the
      value. A Python dict has one entry per key, so the order of the loop
      does not matter. */
  function ApplyOverrides(raw: map<string, Raw>, overrides: map<string, Option<Raw>>): map<string, Raw> {
    raw + map k | k in overrides && overrides[k].Some? :: overrides[k].value
  }

  /** The keyword arguments `from_env` passes to the constructor. */
  function RawValues(env: Env, overrides: map<string, Option<Raw>>): map<string, Raw> {
    ApplyOverrides(ApplyAliases(EnvValues(env), env, Aliases), overrides)
  }

  /** The alias names a field and the variable the first loop reads for
      that field. */
  predicate Redundant(a: (string, string)) {
    a.0 in Fields && a.1 == EnvName(a.0)
  }

  /* One fact per alias: each is a literal upper-casing. */

  lemma LocalLlmAlias()
    ensures Redundant(Aliases[0])
  {
    assert Aliases[0] == ("local_llm", "LOCAL_LLM");
  }

  lemma LlmProviderAlias()
    ensures Redundant(Aliases[1])
  {
    assert Aliases[1] == ("llm_provider", "LLM_PROVIDER");
  }

  lemma LlmApiKeyAlias()
    ensures Redundant(Aliases[2])
  {
    assert Aliases[2] == ("llm_api_key", "LLM_API_KEY");
  }

  lemma LlmModelIdAlias()
    ensures Redundant(Aliases[3])
  {
    assert Aliases[3] == ("llm_model_id", "LLM_MODEL_ID");
  }

  lemma LlmBaseUrlAlias()
    ensures Redundant(Aliases[4])
  {
    assert Aliases[4] == ("llm_base_url", "LLM_BASE_URL");
  }

  lemma LmstudioBaseUrlAlias()
    ensures Redundant(Aliases[5])
  {
    assert Aliases[5] == ("lmstudio_base_url", "LMSTUDIO_BASE_URL");
  }

  lemma OllamaBaseUrlAlias()
    ensures Redundant(Aliases[6])
  {
    assert Aliases[6] == ("ollama_base_url", "OLLAMA_BASE_URL");
  }

  lemma MaxWebResearchLoopsAlias()
    ensures Redundant(Aliases[7])
  {
    assert Aliases[7] == ("max_web_research_loops", "MAX_WEB_RESEARCH_LOOPS");
  }

  lemma FetchFullPageAlias()
    ensures Redundant(Aliases[8])
  {
    assert Aliases[8] == ("fetch_full_page", "FETCH_FULL_PAGE");
  }

  lemma StripThinkingTokensAlias()
    ensures Redundant(Aliases[9])
  {
    assert Aliases[9] == ("strip_thinking_tokens", "STRIP_THINKING_TOKENS");
  }

  lemma UseToolCallingAlias()
    ensures Redundant(Aliases[10])
  {
    assert Aliases[10] == ("use_tool_calling", "USE_TOOL_CALLING");
  }

  lemma SearchApiAlias()
    ensures Redundant(Aliases[11])
  {
    assert Aliases[11] == ("search_api", "SEARCH_API");
  }

  lemma EnableNotesAlias()
    ensures Redundant(Aliases[12])
  {
    assert Aliases[12] == ("enable_notes", "ENABLE_NOTES");
  }

  lemma NotesWorkspaceAlias()
    ensures Redundant(Aliases[13])
  {
    assert Aliases[13] == ("notes_workspace", "NOTES_WORKSPACE");
  }

  /** The first loop sets a field exactly when its upper-cased variable is
      set. */
  lemma EnvValuesAt(env: Env, f: string)
    requires f in Fields
    ensures f in EnvValues(env) <==> EnvName(f) in env
    ensures f in EnvValues(env) ==> EnvValues(env)[f] == FromText(env[EnvName(f)])
  {
  }

  lemma AliasAt(i: nat)
    requires i < |Aliases|
    ensures Redundant(Aliases[i])
  {
    if i == 0 { LocalLlmAlias(); }
    else if i == 1 { LlmProviderAlias(); }
    else if i == 2 { LlmApiKeyAlias(); }
    else if i == 3 { LlmModelIdAlias(); }
    else if i == 4 { LlmBaseUrlAlias(); }
    else if i == 5 { LmstudioBaseUrlAlias(); }
    else if i == 6 { OllamaBaseUrlAlias(); }
    else if i == 7 { MaxWebResearchLoopsAlias(); }
    else if i == 8 { FetchFullPageAlias(); }
    else if i == 9 { StripThinkingTokensAlias(); }
    else if i == 10 { UseToolCallingAlias(); }
    else if i == 11 { SearchApiAlias(); }
    else if i == 12 { EnableNotesAlias(); }
    else { NotesWorkspaceAlias(); }
  }

  /** `setdefault` only fills keys that are unset, and every alias from
      the `i`-th on names a field whose variable the first loop already
      read: the rest of the alias loop changes nothing. */
  lemma {:induction false} AliasesFrom(env: Env, i: nat)
    requires i <= |Aliases|
    ensures ApplyAliases(EnvValues(env), env, Aliases[i..]) == EnvValues(env)
    decreases |Aliases| - i
  {
    if i < |Aliases| {
      AliasAt(i);
      EnvValuesAt(env, Aliases[i].0);
      assert Aliases[i..][1..] == Aliases[i + 1..];
      AliasesFrom(env, i + 1);
    }
  }

  /** The alias loop never changes anything. */
  lemma AliasesAreRedundant(env: Env)
    ensures ApplyAliases(EnvValues(env), env, Aliases) == EnvValues(env)
  {
    AliasesFrom(env, 0);
    assert Aliases[0..] == Aliases;
  }

  /** Merge precedence for a field: a non-`None` override, else the
      variable named after the field, else nothing (the default applies). */
  lemma Precedence(env: Env, overrides: map<string, Option<Raw>>, f: string)
    requires f in Fields
    ensures f in overrides && overrides[f].Some? ==>
              f in RawValues(env, overrides) && RawValues(env, overrides)[f] == overrides[f].value
    ensures !(f in overrides && overrides[f].Some?) ==>
              (f in RawValues(env, overrides) <==> EnvName(f) in env)
              && (EnvName(f) in env ==> RawValues(env, overrides)[f] == FromText(env[EnvName(f)]))
  {
    AliasesAreRedundant(env);
    assert RawValues(env, overrides) == ApplyOverrides(EnvValues(env), overrides);
    OverrideAt(EnvValues(env), overrides, f);
    EnvValuesAt(env, f);
  }

  /** A non-`None` override decides the key; otherwise the key keeps what
      it had. */
  lemma OverrideAt(raw: map<string, Raw>, overrides: map<string, Option<Raw>>, k: string)
    ensures k in overrides && overrides[k].Some? ==>
              k in ApplyOverrides(raw, overrides) && ApplyOverrides(raw, overrides)[k] == overrides[k].value
    ensures !(k in overrides && overrides[k].Some?) ==>
              (k in ApplyOverrides(raw, overrides) <==> k in raw)
              && (k in raw ==> ApplyOverrides(raw, overrides)[k] == raw[k])
  {
  }

  /* ---------------------------------------------------------------- */
  /* Validation                                                       */
  /* ---------------------------------------------------------------- */

  /** Pydantic's lax coercion of environment texts; `None` when it
      rejects the text. */
  datatype Coercion = Coercion(toInt: string -> Option<int>, toBool: string -> Option<bool>)

  function IntField(raw: map<string, Raw>, key: string, default: int, co: Coercion): Option<int> {
    if key !in raw then Some(default)
    else match raw[key]
      case FromText(s) => co.toInt(s)
      case FromApi(_) => None
  }

  function BoolField(raw: map<string, Raw>, key: string, default: bool, co: Coercion): Option<bool> {
    if key !in raw then Some(default)
    else match raw[key]
      case FromText(s) => co.toBool(s)
      case FromApi(_) => None
  }

  function StrField(raw: map<string, Raw>, key: string, default: string): Option<string> {
    if key !in raw then Some(default)
    else match raw[key]
      case FromText(s) => Some(s)
      case FromApi(_) => None
  }

  function OptStrField(raw: map<string, Raw>, key: string): Option<Option<string>> {
    if key !in raw then Some(None)
    else match raw[key]
      case FromText(s) => Some(Some(s))
      case FromApi(_) => None
  }

  function ApiField(raw: map<string, Raw>, key: string, default: SearchApi): Option<SearchApi> {
    if key !in raw then Some(default)
    else match raw[key]
      case FromText(s) => ApiOf(s)
      case FromApi(a) => Some(a)
  }

  /** `Configuration(**raw_values)`: `None` when validation fails (a
      `ValidationError`, which is a `ValueError`). Unknown keys are
      ignored. */
  function Build(raw: map<string, Raw>, co: Coercion): Option<Configuration> {
    var d := Defaults();
    var loops := IntField(raw, "max_web_research_loops", d.maxWebResearchLoops, co);
    var local := StrField(raw, "local_llm", d.localLlm);
    var provider := StrField(raw, "llm_provider", d.llmProvider);
    var api := ApiField(raw, "search_api", d.searchApi);
    var notes := BoolField(raw, "enable_notes", d.enableNotes, co);
    var workspace := StrField(raw, "notes_workspace", d.notesWorkspace);
    var full := BoolField(raw, "fetch_full_page", d.fetchFullPage, co);
    var ollama := StrField(raw, "ollama_base_url", d.ollamaBaseUrl);
    var lmstudio := StrField(raw, "lmstudio_base_url", d.lmstudioBaseUrl);
    var strip := BoolField(raw, "strip_thinking_tokens", d.stripThinkingTokens, co);
    var tools := BoolField(raw, "use_tool_calling", d.useToolCalling, co);
    var key := OptStrField(raw, "llm_api_key");
    var base := OptStrField(raw, "llm_base_url");
    var model := OptStrField(raw, "llm_model_id");
    if loops.None? || local.None? || provider.None? || api.None? || notes.None?
       || workspace.None? || full.None? || ollama.None? || lmstudio.None? || strip.None?
       || tools.None? || key.None? || base.None? || model.None?
    then None
    else Some(Configuration(loops.value, local.value, provider.value, api.value, notes.value,
                            workspace.value, full.value, ollama.value, lmstudio.value,
                            strip.value, tools.value, key.value, base.value, model.value))
  }

  /** `Configuration.from_env(overrides)`. */
  function FromEnv(env: Env, overrides: map<string, Option<Raw>>, co: Coercion): Option<Configuration> {
    Build(RawValues(env, overrides), co)
  }

  /** With nothing set, every field takes its declared default. */
  lemma NothingSetGivesDefaults(co: Coercion)
    ensures Build(map[], co) == Some(Defaults())
    ensures Defaults().maxWebResearchLoops == 3 && Defaults().llmProvider == "ollama"
            && Defaults().searchApi == DuckDuckGo && Defaults().localLlm == "llama3.2"
  {
  }

  /** A key that is not set takes its declared default, whatever else is
      set. */
  lemma UnsetKeepsDefault(raw: map<string, Raw>, co: Coercion)
    requires Build(raw, co).Some?
    ensures var c := Build(raw, co).value;
            ("max_web_research_loops" !in raw ==> c.maxWebResearchLoops == 3)
            && ("local_llm" !in raw ==> c.localLlm == "llama3.2")
            && ("llm_provider" !in raw ==> c.llmProvider == "ollama")
            && ("search_api" !in raw ==> c.searchApi == DuckDuckGo)
            && ("enable_notes" !in raw ==> c.enableNotes)
            && ("notes_workspace" !in raw ==> c.notesWorkspace == "./notes")
            && ("fetch_full_page" !in raw ==> c.fetchFullPage)
            && ("ollama_base_url" !in raw ==> c.ollamaBaseUrl == "http://localhost:11434")
            && ("lmstudio_base_url" !in raw ==> c.lmstudioBaseUrl == "http://localhost:1234/v1")
            && ("strip_thinking_tokens" !in raw ==> c.stripThinkingTokens)
            && ("use_tool_calling" !in raw ==> !c.useToolCalling)
            && ("llm_api_key" !in raw ==> c.llmApiKey.None?)
            && ("llm_base_url" !in raw ==> c.llmBaseUrl.None?)
            && ("llm_model_id" !in raw ==> c.llmModelId.None?)
  {
  }

  /** The validated fields read from the raw values. */
  lemma BuildReads(raw: map<string, Raw>, co: Coercion)
    requires Build(raw, co).Some?
    ensures Build(raw, co).value.searchApi == ApiField(raw, "search_api", DuckDuckGo).value
    ensures Build(raw, co).value.localLlm == StrField(raw, "local_llm", "llama3.2").value
    ensures Build(raw, co).value.llmModelId == OptStrField(raw, "llm_model_id").value
  {
  }

  lemma SearchApiVariable()
    ensures "search_api" in Fields && EnvName("search_api") == "SEARCH_API"
  {
  }

  /** A search backend passed as an override is the one configured. */
  lemma OverrideDecidesSearchApi(env: Env, overrides: map<string, Option<Raw>>, co: Coercion, a: SearchApi)
    requires "search_api" in overrides && overrides["search_api"] == Some(FromApi(a))
    requires FromEnv(env, overrides, co).Some?
    ensures FromEnv(env, overrides, co).value.searchApi == a
  {
    var raw := RawValues(env, overrides);
    SearchApiVariable();
    Precedence(env, overrides, "search_api");
    assert ApiField(raw, "search_api", DuckDuckGo) == Some(a);
    BuildReads(raw, co);
  }

  /** Without an override, the `SEARCH_API` variable selects the backend
      by value; when it is unset the default DuckDuckGo applies. */
  lemma EnvDecidesSearchApi(env: Env, overrides: map<string, Option<Raw>>, co: Coercion)
    requires !("search_api" in overrides && overrides["search_api"].Some?)
    requires FromEnv(env, overrides, co).Some?
    ensures var c := FromEnv(env, overrides, co).value;
            if "SEARCH_API" in env then ApiOf(env["SEARCH_API"]) == Some(c.searchApi)
            else c.searchApi == DuckDuckGo
  {
    BuildReads(RawValues(env, overrides), co);
    SearchApiVariable();
    Precedence(env, overrides, "search_api");
  }

  /* ---------------------------------------------------------------- */
  /* Derived settings                                                 */
  /* ---------------------------------------------------------------- */

  /** `s.rstrip(c)` for a single character. */
  function RStrip(s: string, c: char): (r: string)
    ensures |r| <= |s|
    decreases |s|
  {
    if |s| > 0 && s[|s| - 1] == c then RStrip(s[..|s| - 1], c) else s
  }

  /** `rstrip` drops exactly the trailing run of `c`. */
  lemma {:induction false} RStripSpec(s: string, c: char)
    ensures var r := RStrip(s, c);
            |r| <= |s| && r == s[..|r|]
            && (r == "" || r[|r| - 1] != c)
            && (forall i :: |r| <= i < |s| ==> s[i] == c)
    decreases |s|
  {
    if |s| > 0 && s[|s| - 1] == c {
      var t := s[..|s| - 1];
      RStripSpec(t, c);
      var r := RStrip(t, c);
      assert t[..|r|] == s[..|r|];
    }
  }

  const V1: string := "/v1"

  /** `sanitized_ollama_url()`: trailing slashes dropped, then `/v1`
      appended unless already there. */
  function SanitizedOllamaUrl(url: string): (r: string)
    ensures EndsWith(r, V1)
  {
    var base := RStrip(url, '/');
    if EndsWith(base, V1) then base else base + V1
  }

  /** The result is the slash-stripped URL, with `/v1` added exactly when
      it did not already end so. */
  lemma SanitizeShape(url: string)
    ensures var base := RStrip(url, '/');
            SanitizedOllamaUrl(url) == (if EndsWith(base, V1) then base else base + V1)
            && url == base + url[|base|..]
            && (forall i :: |base| <= i < |url| ==> url[i] == '/')
  {
    RStripSpec(url, '/');
    var base := RStrip(url, '/');
    assert url == url[..|base|] + url[|base|..];
  }

  /** Sanitising a sanitised URL changes nothing. */
  lemma SanitizeIdempotent(url: string)
    ensures SanitizedOllamaUrl(SanitizedOllamaUrl(url)) == SanitizedOllamaUrl(url)
  {
    var r := SanitizedOllamaUrl(url);
    assert r[|r| - 1] == '1';
    assert RStrip(r, '/') == r;
  }

  /** `resolved_model()`: `llm_model_id or local_llm`. */
  function ResolvedModel(c: Configuration): (r: string)
    ensures r == c.localLlm || (c.llmModelId == Some(r) && r != "")
    ensures c.llmModelId.Some? && c.llmModelId.value != "" ==> r == c.llmModelId.value
    ensures c.llmModelId.None? || c.llmModelId.value == "" ==> r == c.localLlm
  {
    if c.llmModelId.Some? && c.llmModelId.value != "" then c.llmModelId.value else c.localLlm
  }

  /** Which environment variable decides the model: a non-empty
      `LLM_MODEL_ID`, else `LOCAL_LLM`, else the default `llama3.2`. */
  lemma ModelVariables()
    ensures "llm_model_id" in Fields && EnvName("llm_model_id") == "LLM_MODEL_ID"
    ensures "local_llm" in Fields && EnvName("local_llm") == "LOCAL_LLM"
  {
  }

  lemma ModelFromEnv(env: Env, co: Coercion)
    requires FromEnv(env, map[], co).Some?
    ensures var m := ResolvedModel(FromEnv(env, map[], co).value);
            if "LLM_MODEL_ID" in env && env["LLM_MODEL_ID"] != "" then m == env["LLM_MODEL_ID"]
            else if "LOCAL_LLM" in env then m == env["LOCAL_LLM"]
            else m == "llama3.2"
  {
    var raw := RawValues(env, map[]);
    BuildReads(raw, co);
    ModelVariables();
    Precedence(env, map[], "llm_model_id");
    Precedence(env, map[], "local_llm");
  }
}
