/** Helpers shared by the research services (backend/src/utils.py):
    reading a configuration value as text, removing `<think>` blocks from
    a model reply, and turning search results into prompt text. */
module Utils {
  import opened Wrappers
  import opened Text
  import opened PyJson
  import opened Config

  /* ---------------------------------------------------------------- */
  /* get_config_value                                                 */
  /* ---------------------------------------------------------------- */

  /** A configuration value: plain text or a member of the search-backend
      enumeration. */
  datatype Setting = Plain(text: string) | Member(api: SearchApi)

  /** `get_config_value`: text is returned as it is, an enumeration member
      as its `.value`. */
  function GetConfigValue(v: Setting): (r: string)
    ensures v.Plain? ==> r == v.text
    ensures v.Member? ==> ApiOf(r) == Some(v.api)
  {
    match v
    case Plain(t) => t
    case Member(a) => ApiTextRoundTrip(a, ""); ApiText(a)
  }

  /* ---------------------------------------------------------------- */
  /* strip_thinking_tokens                                            */
  /* ---------------------------------------------------------------- */

  const OpenTag: string := "<think>"
  const CloseTag: string := "</think>"

  /** The loop condition: both tags occur somewhere in `text`. */
  predicate HasBothTags(text: string) {
    Find(text, OpenTag, 0) != -1 && Find(text, CloseTag, 0) != -1
  }

  /** A think block: an opening tag with a closing tag at or after it. */
  predicate HasBlock(text: string) {
    exists i, j | 0 <= i <= j <= |text| :: OccursAt(text, OpenTag, i) && OccursAt(text, CloseTag, j)
  }

  /** An opening tag and a closing tag cannot overlap: neither has a `<`
      after its first character. */
  lemma TagsApart(text: string, i: int, j: int)
    requires OccursAt(text, OpenTag, i) && OccursAt(text, CloseTag, j)
    ensures i < j ==> i + |OpenTag| <= j
    ensures j < i ==> j + |CloseTag| <= i
  {
    assert text[i] == '<' by { assert text[i] == text[i..i + |OpenTag|][0]; }
    assert text[j] == '<' by { assert text[j] == text[j..j + |CloseTag|][0]; }
    forall k | i < k < i + |OpenTag|
      ensures text[k] != '<'
    {
      assert text[k] == text[i..i + |OpenTag|][k - i];
    }
    forall k | j < k < j + |CloseTag|
      ensures text[k] != '<'
    {
      assert text[k] == text[j..j + |CloseTag|][k - j];
    }
  }

  /** One pass of the loop as written: cut from the first opening tag to
      the end of the first closing tag, wherever that closing tag is. */
  function AsWrittenStep(text: string): string
    requires HasBothTags(text)
  {
    var start := Find(text, OpenTag, 0);
    var end := Find(text, CloseTag, 0) + |CloseTag|;
    text[..start] + text[end..]
  }

  /** `strip_thinking_tokens` as written, run for at most `fuel` passes;
      `None` when the passes run out. On return no longer both tags
      occur. */
  function StripThinkingAsWritten(text: string, fuel: nat): (r: Option<string>)
    ensures r.Some? ==> !HasBothTags(r.value)
    decreases fuel
  {
    if !HasBothTags(text) then Some(text)
    else if fuel == 0 then None
    else StripThinkingAsWritten(AsWrittenStep(text), fuel - 1)
  }

  /** The first closing tag comes before the first opening tag. */
  predicate Inverted(text: string) {
    HasBothTags(text) && Find(text, CloseTag, 0) < Find(text, OpenTag, 0)
  }

  /** A pass over an inverted text keeps everything before the opening
      tag, so the stray closing tag stays first, and re-inserts the
      opening tag further right: the text stays inverted. */
  lemma InvertedPersists(text: string)
    requires Inverted(text)
    ensures Inverted(AsWrittenStep(text))
  {
    var c, s := Find(text, CloseTag, 0), Find(text, OpenTag, 0);
    FindFound(text, CloseTag, 0);
    FindFound(text, OpenTag, 0);
    TagsApart(text, s, c);
    var head, rest := text[..s], text[c + |CloseTag|..];
    assert AsWrittenStep(text) == head + rest;
    StrayCloseStaysFirst(text, head, rest, c);
    OpenTagMovesRight(text, head, rest, c, s);
  }

  /** The closing tag at `c`, the first of `text`, lies wholly in the kept
      head and stays the first. */
  lemma StrayCloseStaysFirst(text: string, head: string, rest: string, c: nat)
    requires OccursAt(text, CloseTag, c) && Find(text, CloseTag, 0) == c
    requires |head| <= |text| && head == text[..|head|] && c + |CloseTag| <= |head|
    ensures Find(head + rest, CloseTag, 0) == c
  {
    FindIsLeftmost(text, CloseTag, 0);
    assert head + text[|head|..] == text;
    forall i | 0 <= i <= c
      ensures OccursAt(head + rest, CloseTag, i) <==> OccursAt(text, CloseTag, i)
    {
      OccursInPrefix(head, rest, CloseTag, i);
      OccursInPrefix(head, text[|head|..], CloseTag, i);
    }
    FindIsFirst(head + rest, CloseTag, c);
  }

  /** The opening tag reappears inside `rest`, and no opening tag starts
      at or before `c`, so the first one comes after the closing tag. */
  lemma OpenTagMovesRight(text: string, head: string, rest: string, c: nat, s: nat)
    requires OccursAt(text, OpenTag, s) && Find(text, OpenTag, 0) == s
    requires c + |CloseTag| <= s
    requires head == text[..s] && rest == text[c + |CloseTag|..]
    ensures Find(head + rest, OpenTag, 0) > c
  {
    var t := head + rest;
    var q := s + (s - c - |CloseTag|);
    OpenTagInRest(text, head, rest, c, s);
    assert OccursAt(t, OpenTag, q);
    FindIsLeftmost(text, OpenTag, 0);
    assert head + text[s..] == text;
    forall i | 0 <= i <= c
      ensures !OccursAt(t, OpenTag, i)
    {
      OccursInPrefix(head, rest, OpenTag, i);
      OccursInPrefix(head, text[s..], OpenTag, i);
    }
    FindIsLeftmost(t, OpenTag, 0);
    if Find(t, OpenTag, 0) != -1 {
      FindFound(t, OpenTag, 0);
    }
  }

  lemma OpenTagInRest(text: string, head: string, rest: string, c: nat, s: nat)
    requires OccursAt(text, OpenTag, s)
    requires c + |CloseTag| <= s
    requires head == text[..s] && rest == text[c + |CloseTag|..]
    ensures OccursAt(head + rest, OpenTag, s + (s - c - |CloseTag|))
  {
    var k := s - c - |CloseTag|;
    assert (head + rest)[s + k..s + k + |OpenTag|] == rest[k..k + |OpenTag|];
    assert rest[k..k + |OpenTag|] == text[s..s + |OpenTag|];
  }

  /** An inverted text is never left: the loop as written does not
      terminate on it, however many passes it is given. */
  lemma {:induction false} InvertedNeverReturns(text: string, fuel: nat)
    requires Inverted(text)
    ensures StripThinkingAsWritten(text, fuel) == None
    decreases fuel
  {
    if fuel > 0 {
      var next := AsWrittenStep(text);
      assert StripThinkingAsWritten(text, fuel) == StripThinkingAsWritten(next, fuel - 1);
      InvertedPersists(text);
      InvertedNeverReturns(next, fuel - 1);
    }
  }

  /** `"</think><think>"` is such an input. */
  lemma AsWrittenLoopsForever(fuel: nat)
    ensures StripThinkingAsWritten("</think><think>", fuel) == None
  {
    var t := "</think><think>";
    assert OccursAt(t, CloseTag, 0);
    FindIsFirst(t, CloseTag, 0);
    assert OccursAt(t, OpenTag, 8);
    forall i | 0 <= i < 8
      ensures !OccursAt(t, OpenTag, i)
    {
      if i == 0 {
        assert t[i..i + 7][1] == '/';
      } else {
        assert t[i..i + 7][0] == t[i] != '<';
      }
    }
    FindIsFirst(t, OpenTag, 8);
    InvertedNeverReturns(t, fuel);
  }

  /** `strip_thinking_tokens` as evidently intended: the closing tag is
      searched from the opening tag on, so each pass removes one whole
      think block and the text shrinks. */
  function StripThinking(text: string): (r: string)
    ensures |r| <= |text|
    decreases |text|
  {
    var start := Find(text, OpenTag, 0);
    if start == -1 then text
    else
      var close := Find(text, CloseTag, start);
      if close == -1 then text
      else StripThinking(text[..start] + text[close + |CloseTag|..])
  }

  /** `Find` sees a think block exactly when one exists. */
  lemma BlockFound(text: string)
    ensures HasBlock(text) <==>
              Find(text, OpenTag, 0) != -1 && Find(text, CloseTag, Find(text, OpenTag, 0)) != -1
  {
    var s := Find(text, OpenTag, 0);
    FindIsLeftmost(text, OpenTag, 0);
    if s != -1 {
      FindFound(text, OpenTag, 0);
      FindIsLeftmost(text, CloseTag, s);
      if Find(text, CloseTag, s) != -1 {
        FindFound(text, CloseTag, s);
      }
    }
  }

  /** Without a think block the text is returned as it is; in particular
      when either tag is missing. */
  lemma StripThinkingKeepsBlockFree(text: string)
    requires !HasBlock(text)
    ensures StripThinking(text) == text
  {
    BlockFound(text);
  }

  lemma StripThinkingKeepsTagless(text: string)
    requires Find(text, OpenTag, 0) == -1 || Find(text, CloseTag, 0) == -1
    ensures StripThinking(text) == text
  {
    var s := Find(text, OpenTag, 0);
    if s != -1 {
      FindNoneFrom(text, CloseTag, s);
    }
  }

  /** No think block survives. */
  lemma {:induction false} StripThinkingRemovesBlocks(text: string)
    ensures !HasBlock(StripThinking(text))
    decreases |text|
  {
    var start := Find(text, OpenTag, 0);
    if start == -1 || Find(text, CloseTag, start) == -1 {
      BlockFound(text);
    } else {
      var close := Find(text, CloseTag, start);
      StripThinkingRemovesBlocks(text[..start] + text[close + |CloseTag|..]);
    }
  }

  lemma StripThinkingIdempotent(text: string)
    ensures StripThinking(StripThinking(text)) == StripThinking(text)
  {
    StripThinkingRemovesBlocks(text);
    StripThinkingKeepsBlockFree(StripThinking(text));
  }

  /** When the first closing tag follows the first opening tag, the pass
      as written is the intended pass. */
  lemma AsWrittenStepAgrees(text: string)
    requires HasBothTags(text) && !Inverted(text)
    ensures StripThinking(text) == StripThinking(AsWrittenStep(text))
  {
    var s := Find(text, OpenTag, 0);
    FindIsLeftmost(text, CloseTag, 0);
    FindSkip(text, CloseTag, s);
  }

  /** Whenever the loop as written returns, it returns the intended
      result; it fails only by never returning. */
  lemma {:induction false} AsWrittenAgrees(text: string, fuel: nat)
    ensures StripThinkingAsWritten(text, fuel).Some? ==>
              StripThinkingAsWritten(text, fuel) == Some(StripThinking(text))
    decreases fuel
  {
    if HasBothTags(text) && !Inverted(text) && fuel > 0 {
      AsWrittenAgrees(AsWrittenStep(text), fuel - 1);
      AsWrittenPass(text, fuel);
    } else {
      AsWrittenEnds(text, fuel);
    }
  }

  /** Without a pass to make, the loop as written either has nothing left
      to strip or never returns. */
  lemma AsWrittenEnds(text: string, fuel: nat)
    requires !(HasBothTags(text) && !Inverted(text) && fuel > 0)
    ensures StripThinkingAsWritten(text, fuel).Some? ==>
              StripThinkingAsWritten(text, fuel) == Some(StripThinking(text))
  {
    if !HasBothTags(text) {
      StripThinkingKeepsTagless(text);
    } else if Inverted(text) {
      InvertedNeverReturns(text, fuel);
    }
  }

  /** One pass as written is one intended pass, so agreement after it
      is agreement before it. */
  lemma AsWrittenPass(text: string, fuel: nat)
    requires HasBothTags(text) && !Inverted(text) && fuel > 0
    requires StripThinkingAsWritten(AsWrittenStep(text), fuel - 1).Some? ==>
               StripThinkingAsWritten(AsWrittenStep(text), fuel - 1) == Some(StripThinking(AsWrittenStep(text)))
    ensures StripThinkingAsWritten(text, fuel).Some? ==>
              StripThinkingAsWritten(text, fuel) == Some(StripThinking(text))
  {
    var next := AsWrittenStep(text);
    assert StripThinkingAsWritten(text, fuel) == StripThinkingAsWritten(next, fuel - 1);
    AsWrittenStepAgrees(text);
  }

  /* ---------------------------------------------------------------- */
  /* deduplicate_and_format_sources                                   */
  /* ---------------------------------------------------------------- */

  /** What the search service returns: a dict holding a `"results"` list,
      or the list itself. */
  datatype SearchResponse = ResponseDict(d: Dict) | ResponseList(items: seq<JValue>)

  /** What `for x in v` walks over: a list's items, a string's characters,
      a dict's keys; `None` when `v` cannot be iterated. */
  function Items(v: JValue): (r: Option<seq<JValue>>)
    ensures r.None? <==> !(v.JArr? || v.JStr? || v.JObj?)
    ensures v.JArr? ==> r == Some(v.items)
  {
    match v
    case JArr(xs) => Some(xs)
    case JStr(t) => Some(seq(|t|, i requires 0 <= i < |t| => JStr([t[i]])))
    case JObj(d) => Some(seq(|d|, i requires 0 <= i < |d| => JStr(d[i].0)))
    case _ => None
  }

  /** The items read as dicts; `None` when one is not a dict, where
      Python's `.get` raises. */
  function AsDicts(xs: seq<JValue>): (r: Option<seq<Dict>>)
    ensures r.Some? <==> forall i :: 0 <= i < |xs| ==> xs[i].JObj?
    ensures r.Some? ==> |r.value| == |xs| && forall i :: 0 <= i < |xs| ==> xs[i] == JObj(r.value[i])
  {
    if |xs| == 0 then Some([])
    else
      var init := AsDicts(xs[..|xs| - 1]);
      if init.Some? && xs[|xs| - 1].JObj? then Some(init.value + [xs[|xs| - 1].fields])
      else None
  }

  /** `sources_list`: a dict contributes its `"results"` (an empty list
      when absent), a list is taken as it is. */
  function SourcesList(resp: SearchResponse): Option<seq<Dict>> {
    match resp
    case ResponseList(xs) => AsDicts(xs)
    case ResponseDict(d) =>
      var xs := Items(Get(d, "results").GetOr(JArr([])));
      if xs.None? then None else AsDicts(xs.value)
  }

  /** `source.get("url")` */
  function Url(src: Dict): Option<JValue> {
    Get(src, "url")
  }

  /** The url is present and truthy. */
  predicate HasUrl(src: Dict) {
    Url(src).Some? && Truthy(Url(src).value)
  }

  /** The key `unique_sources` files a source's url under; `None`
      without a url, or where the url cannot be a dict key. */
  function Key(src: Dict): Option<JValue> {
    if Url(src).Some? then HashKey(Url(src).value) else None
  }

  /** Every url that reaches the `in` test can be a dict key. */
  predicate Hashable(sources: seq<Dict>) {
    forall i :: 0 <= i < |sources| && HasUrl(sources[i]) ==> Key(sources[i]).Some?
  }

  /** Source `i` has a url, and no earlier source has one under the same
      key. */
  predicate FirstWithUrl(sources: seq<Dict>, i: int)
    requires 0 <= i < |sources|
  {
    HasUrl(sources[i]) && forall j :: 0 <= j < i && HasUrl(sources[j]) ==> Key(sources[j]) != Key(sources[i])
  }

  /** The sources kept by deduplication, as a definition: those that are
      the first with their url, in input order. */
  function Unique(sources: seq<Dict>): seq<Dict> {
    if |sources| == 0 then []
    else Unique(sources[..|sources| - 1])
         + (if FirstWithUrl(sources, |sources| - 1) then [sources[|sources| - 1]] else [])
  }

  lemma FirstWithUrlInPrefix(sources: seq<Dict>, n: nat, i: nat)
    requires i < n <= |sources|
    ensures FirstWithUrl(sources[..n], i) <==> FirstWithUrl(sources, i)
  {
    assert forall j :: 0 <= j <= i ==> sources[..n][j] == sources[j];
  }

  /** Each kept source is the first with its url (so it has one). */
  lemma {:induction false} UniqueKeepsFirsts(sources: seq<Dict>)
    ensures forall k :: 0 <= k < |Unique(sources)| ==>
              exists i :: 0 <= i < |sources| && sources[i] == Unique(sources)[k] && FirstWithUrl(sources, i)
  {
    if |sources| > 0 {
      var n := |sources| - 1;
      var init := sources[..n];
      UniqueKeepsFirsts(init);
      var u, r := Unique(init), Unique(sources);
      assert r == u + (if FirstWithUrl(sources, n) then [sources[n]] else []);
      forall k | 0 <= k < |r|
        ensures exists i :: 0 <= i < |sources| && sources[i] == r[k] && FirstWithUrl(sources, i)
      {
        if k < |u| {
          var i :| 0 <= i < n && init[i] == u[k] && FirstWithUrl(init, i);
          FirstWithUrlInPrefix(sources, n, i);
          assert sources[i] == r[k];
        } else {
          assert FirstWithUrl(sources, n) && sources[n] == r[k];
        }
      }
    } else {
      assert Unique(sources) == [];
    }
  }

  /** No url is kept twice: the kept sources' keys differ. */
  lemma {:induction false} UniqueDistinct(sources: seq<Dict>)
    ensures forall k, l :: 0 <= k < l < |Unique(sources)| ==> Key(Unique(sources)[k]) != Key(Unique(sources)[l])
  {
    if |sources| > 0 {
      var n := |sources| - 1;
      var init := sources[..n];
      UniqueDistinct(init);
      UniqueKeepsFirsts(init);
      var u := Unique(init);
      if FirstWithUrl(sources, n) {
        forall k | 0 <= k < |u|
          ensures Key(u[k]) != Key(sources[n])
        {
          var i :| 0 <= i < n && init[i] == u[k] && FirstWithUrl(init, i);
          assert sources[i] == u[k];
        }
      }
    }
  }

  /** Every url of `sources` is filed, under its key, by some member of
      `kept`. */
  predicate CoversUrls(sources: seq<Dict>, kept: seq<Dict>) {
    forall i :: 0 <= i < |sources| && HasUrl(sources[i]) ==>
      exists k :: 0 <= k < |kept| && Key(kept[k]) == Key(sources[i])
  }

  /** Every url of the input is kept. */
  lemma {:induction false} UniqueCovers(sources: seq<Dict>)
    ensures CoversUrls(sources, Unique(sources))
  {
    if |sources| > 0 {
      var n := |sources| - 1;
      var init := sources[..n];
      UniqueCovers(init);
      var u, r := Unique(init), Unique(sources);
      assert r == u + (if FirstWithUrl(sources, n) then [sources[n]] else []);
      forall i | 0 <= i < |sources| && HasUrl(sources[i])
        ensures exists k :: 0 <= k < |r| && Key(r[k]) == Key(sources[i])
      {
        if i < n {
          assert init[i] == sources[i];
          var k :| 0 <= k < |u| && Key(u[k]) == Key(init[i]);
          assert r[k] == u[k];
        } else if !FirstWithUrl(sources, n) {
          var j :| 0 <= j < n && HasUrl(sources[j]) && Key(sources[j]) == Key(sources[n]);
          assert init[j] == sources[j];
          var k :| 0 <= k < |u| && Key(u[k]) == Key(init[j]);
          assert r[k] == u[k];
        } else {
          assert r[|u|] == sources[n];
        }
      }
    }
  }

  /** A source without a url, or with a url filed before, changes nothing. */
  predicate Repeats(sources: seq<Dict>, src: Dict) {
    !HasUrl(src) || exists j :: 0 <= j < |sources| && HasUrl(sources[j]) && Key(sources[j]) == Key(src)
  }

  lemma UniqueIgnoresRepeats(sources: seq<Dict>, src: Dict)
    requires Repeats(sources, src)
    ensures Unique(sources + [src]) == Unique(sources)
  {
    var all := sources + [src];
    assert all[..|sources|] == sources;
    if HasUrl(src) {
      var j :| 0 <= j < |sources| && HasUrl(sources[j]) && Key(sources[j]) == Key(src);
      assert all[j] == sources[j];
    }
    assert !FirstWithUrl(all, |sources|);
  }

  /** The loop of `deduplicate_and_format_sources` over a Python dict keyed
      by url; the dict's values, in insertion order, are `kept`. `None`
      where a url cannot be a key and the `in` test raises. */
  method UniqueSources(sources: seq<Dict>) returns (kept: Option<seq<Dict>>)
    ensures kept.None? <==> !Hashable(sources)
    ensures kept.Some? ==> kept.value == Unique(sources)
  {
    var seen: set<JValue> := {};
    var acc: seq<Dict> := [];
    for i := 0 to |sources|
      invariant acc == Unique(sources[..i])
      invariant Hashable(sources[..i])
      invariant forall u :: u in seen <==> exists j :: 0 <= j < i && HasUrl(sources[j]) && Key(sources[j]) == Some(u)
    {
      var src := sources[i];
      var prefix := sources[..i + 1];
      assert prefix[..i] == sources[..i];
      assert prefix[i] == src;
      assert forall m :: 0 <= m < i ==> prefix[m] == sources[..i][m];
      FirstWithUrlInPrefix(sources, i + 1, i);
      if !HasUrl(src) {
        continue;
      }
      var key := Key(src);
      if key.None? {
        assert !Hashable(sources) by {
          assert HasUrl(sources[i]) && Key(sources[i]).None?;
        }
        return None;
      }
      if key.value !in seen {
        seen := seen + {key.value};
        acc := acc + [src];
      }
    }
    assert sources[..|sources|] == sources;
    return Some(acc);
  }

  const CharsPerToken: int := 4
  const TruncationMark: string := "... [truncated]"

  /** Raw page content longer than `limit` characters is cut to `limit`
      characters and marked. */
  function Truncate(raw: string, limit: int): string {
    if |raw| > limit then PyPrefix(raw, limit) + TruncationMark else raw
  }

  /** Content within the limit is kept whole; longer content keeps exactly
      its first `limit` characters, followed by the mark. */
  lemma TruncateSpec(raw: string, limit: nat)
    ensures |raw| <= limit ==> Truncate(raw, limit) == raw
    ensures |raw| > limit ==>
              |Truncate(raw, limit)| == limit + |TruncationMark|
              && Truncate(raw, limit)[..limit] == raw[..limit]
              && EndsWith(Truncate(raw, limit), TruncationMark)
  {
  }

  /** The full-page text of a source, read from `raw_content` and cut to
      `limit`: missing or `None` reads as `""`; text is truncated by
      characters; a list is cut to `limit` items and shown with `str`; a
      dict is shown when within the limit, where slicing a longer one
      raises; a number or a boolean has no `len` and raises. `None` where
      Python raises. */
  function PageText(src: Dict, limit: int, show: JValue -> string): (r: Option<string>)
    ensures r.None? <==> match Get(src, "raw_content")
                         case Some(JInt(_)) => true
                         case Some(JBool(_)) => true
                         case Some(JObj(d)) => |d| > limit
                         case _ => false
    ensures Get(src, "raw_content").None? || Get(src, "raw_content") == Some(JNull) ==>
              r == Some(Truncate("", limit))
    ensures forall t :: Get(src, "raw_content") == Some(JStr(t)) ==> r == Some(Truncate(t, limit))
  {
    match Get(src, "raw_content")
    case None => Some(Truncate("", limit))
    case Some(JNull) => Some(Truncate("", limit))
    case Some(JStr(t)) => Some(Truncate(t, limit))
    case Some(JArr(xs)) =>
      if |xs| > limit then Some(show(JArr(xs[..SliceBound(|xs|, limit)])) + TruncationMark)
      else Some(show(JArr(xs)))
    case Some(JObj(d)) => if |d| > limit then None else Some(show(JObj(d)))
    case Some(_) => None
  }

  /** `source.get("title") or source.get("url", "")` */
  function BlockTitle(src: Dict): JValue {
    var title := Get(src, "title");
    if title.Some? && Truthy(title.value) then title.value else Url(src).GetOr(JStr(""))
  }

  /** The text contributed by one kept source; `show` is Python's `str`. */
  function SourceBlock(src: Dict, maxTokens: int, fetchFullPage: bool, show: JValue -> string): (r: Option<string>)
    ensures r.None? <==> fetchFullPage && PageText(src, maxTokens * CharsPerToken, show).None?
  {
    var head := "信息来源: " + show(BlockTitle(src)) + "\n\n"
                + "URL: " + show(Url(src).GetOr(JStr(""))) + "\n\n"
                + "信息内容: " + show(Get(src, "content").GetOr(JStr(""))) + "\n\n";
    if !fetchFullPage then Some(head)
    else
      var raw := PageText(src, maxTokens * CharsPerToken, show);
      if raw.None? then None
      else Some(head + "详细信息内容限制为 " + Decimal(maxTokens) + " 个 token: " + raw.value + "\n\n")
  }

  /** Applies `f` to each of `xs` in order; `None` as soon as one fails. */
  function Collect(xs: seq<Dict>, f: Dict -> Option<string>): (r: Option<seq<string>>)
    ensures r.Some? ==> |r.value| == |xs|
  {
    if |xs| == 0 then Some([])
    else
      var init := Collect(xs[..|xs| - 1], f);
      var last := f(xs[|xs| - 1]);
      if init.None? || last.None? then None else Some(init.value + [last.value])
  }

  /** `Collect` fails exactly when `f` fails on a member, and otherwise
      its item `k` is `f` of member `k`. */
  lemma {:induction false} CollectSpec(xs: seq<Dict>, f: Dict -> Option<string>)
    ensures Collect(xs, f).None? <==> exists k :: 0 <= k < |xs| && f(xs[k]).None?
    ensures Collect(xs, f).Some? ==> forall k :: 0 <= k < |xs| ==> f(xs[k]) == Some(Collect(xs, f).value[k])
  {
    if |xs| > 0 {
      var init := xs[..|xs| - 1];
      CollectSpec(init, f);
      assert forall k :: 0 <= k < |init| ==> init[k] == xs[k];
    }
  }

  /** The blocks of the kept sources, in order. */
  function Blocks(kept: seq<Dict>, maxTokens: int, fetchFullPage: bool, show: JValue -> string): (r: Option<seq<string>>)
    ensures r.Some? ==> |r.value| == |kept|
  {
    Collect(kept, (src: Dict) => SourceBlock(src, maxTokens, fetchFullPage, show))
  }

  /** The blocks fail exactly when the block of one source fails, and
      otherwise block `k` is that of source `k`. */
  lemma BlocksSpec(kept: seq<Dict>, maxTokens: int, fetchFullPage: bool, show: JValue -> string)
    ensures Blocks(kept, maxTokens, fetchFullPage, show).None? <==>
              exists k :: 0 <= k < |kept| && SourceBlock(kept[k], maxTokens, fetchFullPage, show).None?
    ensures Blocks(kept, maxTokens, fetchFullPage, show).Some? ==>
              forall k :: 0 <= k < |kept| ==>
                SourceBlock(kept[k], maxTokens, fetchFullPage, show) == Some(Blocks(kept, maxTokens, fetchFullPage, show).value[k])
  {
    CollectSpec(kept, (src: Dict) => SourceBlock(src, maxTokens, fetchFullPage, show));
  }

  /** `deduplicate_and_format_sources`; `None` where Python raises. */
  function DeduplicateAndFormatSources(resp: SearchResponse, maxTokens: int, fetchFullPage: bool,
                                       show: JValue -> string): (r: Option<string>)
    ensures r.Some? ==> Tight(r.value, PyWhitespace)
  {
    var sources := SourcesList(resp);
    if sources.None? || !Hashable(sources.value) then None
    else
      var blocks := Blocks(Unique(sources.value), maxTokens, fetchFullPage, show);
      if blocks.None? then None
      else
        TrimSpec(Concat(blocks.value), PyWhitespace);
        Some(Trim(Concat(blocks.value), PyWhitespace))
  }

  /** `kept` is what deduplicating `sources` must keep: each member is the
      first source with its url, no url is kept twice, and every url is
      kept. */
  predicate Deduplicated(sources: seq<Dict>, kept: seq<Dict>) {
    (forall k :: 0 <= k < |kept| ==> IsFirstWithUrl(sources, kept[k]))
    && (forall k, l :: 0 <= k < l < |kept| ==> Key(kept[k]) != Key(kept[l]))
    && CoversUrls(sources, kept)
  }

  /** `src` is some source that is the first with its url. */
  predicate IsFirstWithUrl(sources: seq<Dict>, src: Dict) {
    exists i :: 0 <= i < |sources| && sources[i] == src && FirstWithUrl(sources, i)
  }

  /** Some source's raw content cannot be formatted. */
  predicate PageFails(kept: seq<Dict>, limit: int, show: JValue -> string) {
    exists k :: 0 <= k < |kept| && PageText(kept[k], limit, show).None?
  }

  /** When the formatting fails: Python raises exactly when the sources
      are not a list of dicts, a url cannot be a dict key, or full-page
      fetching meets a kept source whose raw content cannot be formatted. */
  lemma DeduplicateAndFormatSourcesFails(resp: SearchResponse, maxTokens: int, fetchFullPage: bool,
                                         show: JValue -> string)
    ensures var sources := SourcesList(resp);
            DeduplicateAndFormatSources(resp, maxTokens, fetchFullPage, show).None? <==>
              sources.None? || !Hashable(sources.value)
              || (fetchFullPage && PageFails(Unique(sources.value), maxTokens * CharsPerToken, show))
  {
    var sources := SourcesList(resp);
    if sources.Some? {
      BlocksSpec(Unique(sources.value), maxTokens, fetchFullPage, show);
    }
  }

  /** The formatted text in full: the trimmed run of one block per kept
      source, in order. What is kept is `Unique`, which
      `UniqueDeduplicated` shows is exactly the first source of each url. */
  lemma DeduplicateAndFormatSourcesSpec(resp: SearchResponse, maxTokens: int, fetchFullPage: bool,
                                        show: JValue -> string)
    ensures var r := DeduplicateAndFormatSources(resp, maxTokens, fetchFullPage, show);
            r.Some? ==>
              var kept := Unique(SourcesList(resp).value);
              var blocks := Blocks(kept, maxTokens, fetchFullPage, show);
              && blocks.Some? && |blocks.value| == |kept|
              && r.value == Trim(Concat(blocks.value), PyWhitespace)
              && (forall k :: 0 <= k < |kept| ==>
                    SourceBlock(kept[k], maxTokens, fetchFullPage, show) == Some(blocks.value[k]))
  {
    var sources := SourcesList(resp);
    if sources.Some? {
      BlocksSpec(Unique(sources.value), maxTokens, fetchFullPage, show);
    }
  }

  /** `Unique` keeps what deduplication must keep. */
  lemma UniqueDeduplicated(sources: seq<Dict>)
    ensures Deduplicated(sources, Unique(sources))
  {
    var kept := Unique(sources);
    UniqueKeepsFirsts(sources);
    UniqueDistinct(sources);
    UniqueCovers(sources);
    forall k | 0 <= k < |kept|
      ensures IsFirstWithUrl(sources, kept[k])
    {
      var i :| 0 <= i < |sources| && sources[i] == Unique(sources)[k] && FirstWithUrl(sources, i);
      assert sources[i] == kept[k];
    }
  }

  /** A source that repeats an earlier url, or has none, leaves the
      formatted text as it was. */
  lemma RepeatedSourceIsInvisible(sources: seq<Dict>, src: Dict, maxTokens: int, fetchFullPage: bool,
                                  show: JValue -> string)
    requires Repeats(sources, src)
    ensures DeduplicateAndFormatSources(ResponseList(Objects(sources + [src])), maxTokens, fetchFullPage, show)
            == DeduplicateAndFormatSources(ResponseList(Objects(sources)), maxTokens, fetchFullPage, show)
  {
    UniqueIgnoresRepeats(sources, src);
    ObjectsAreDicts(sources + [src]);
    ObjectsAreDicts(sources);
    HashableRepeat(sources, src);
  }

  /** Appending a repeat cannot change whether every url can be a key. */
  lemma HashableRepeat(sources: seq<Dict>, src: Dict)
    requires Repeats(sources, src)
    ensures Hashable(sources + [src]) <==> Hashable(sources)
  {
    var all := sources + [src];
    assert forall i :: 0 <= i < |sources| ==> all[i] == sources[i];
    assert all[|sources|] == src;
    if HasUrl(src) && Key(src).None? {
      var j :| 0 <= j < |sources| && HasUrl(sources[j]) && Key(sources[j]) == Key(src);
      assert !Hashable(sources);
    }
  }

  function Objects(ds: seq<Dict>): (r: seq<JValue>)
    ensures |r| == |ds|
  {
    seq(|ds|, i requires 0 <= i < |ds| => JObj(ds[i]))
  }

  lemma {:induction false} ObjectsAreDicts(ds: seq<Dict>)
    ensures AsDicts(Objects(ds)) == Some(ds)
  {
    if |ds| > 0 {
      var init := ds[..|ds| - 1];
      ObjectsAreDicts(init);
      assert Objects(ds)[..|ds| - 1] == Objects(init);
      assert ds == init + [ds[|ds| - 1]];
    }
  }

  /** A dict without `"results"`, and a list without any url, give `""`. */
  lemma NoSourcesGiveEmptyText(resp: SearchResponse, maxTokens: int, fetchFullPage: bool,
                               show: JValue -> string)
    requires resp.ResponseDict? ==> !HasKey(resp.d, "results")
    requires resp.ResponseList? ==> forall i :: 0 <= i < |resp.items| ==> resp.items[i] == JObj([])
    ensures DeduplicateAndFormatSources(resp, maxTokens, fetchFullPage, show) == Some("")
  {
    var sources := SourcesList(resp);
    assert sources.Some?;
    if resp.ResponseList? {
      forall i | 0 <= i < |sources.value|
        ensures !HasUrl(sources.value[i])
      {
        assert JObj(sources.value[i]) == resp.items[i];
      }
    }
    UniqueKeepsFirsts(sources.value);
    if |Unique(sources.value)| > 0 {
      var i :| 0 <= i < |sources.value| && sources.value[i] == Unique(sources.value)[0]
               && FirstWithUrl(sources.value, i);
    }
  }

  /* ---------------------------------------------------------------- */
  /* format_sources                                                   */
  /* ---------------------------------------------------------------- */

  /** `"* {item.get('title', item.get('url', ''))} : {item.get('url', '')}"`:
      unlike the blocks above, a present but empty title is shown as it is. */
  function SourceLine(item: Dict, show: JValue -> string): string {
    var url := Url(item).GetOr(JStr(""));
    "* " + show(Get(item, "title").GetOr(url)) + " : " + show(url)
  }

  /** The items that have a url, in order. */
  function Listed(items: seq<Dict>): (r: seq<Dict>)
    ensures |r| <= |items|
  {
    if |items| == 0 then []
    else Listed(items[..|items| - 1]) + (if HasUrl(items[|items| - 1]) then [items[|items| - 1]] else [])
  }

  /** `format_sources`; `None` where Python raises. */
  function FormatSources(searchResults: Option<Dict>, show: JValue -> string): (r: Option<string>)
    ensures searchResults.None? || searchResults == Some([]) ==> r == Some("")
  {
    if searchResults.None? || searchResults.value == [] then Some("")
    else
      var xs := Items(Get(searchResults.value, "results").GetOr(JArr([])));
      if xs.None? then None
      else
        var items := AsDicts(xs.value);
        if items.None? then None
        else
          var listed := Listed(items.value);
          Some(Join("\n", seq(|listed|, i requires 0 <= i < |listed| => SourceLine(listed[i], show))))
  }

  /** Join of non-empty parts is empty exactly when there are no parts. */
  lemma JoinEmpty(sep: string, parts: seq<string>)
    requires forall i :: 0 <= i < |parts| ==> parts[i] != ""
    ensures Join(sep, parts) == "" <==> |parts| == 0
  {
  }

  /** Every item that has a url is listed and nothing else. */
  lemma {:induction false} ListedSpec(items: seq<Dict>)
    ensures forall k :: 0 <= k < |Listed(items)| ==> HasUrl(Listed(items)[k]) && Listed(items)[k] in items
    ensures |Listed(items)| == 0 <==> forall i :: 0 <= i < |items| ==> !HasUrl(items[i])
  {
    if |items| > 0 {
      var init := items[..|items| - 1];
      ListedSpec(init);
      assert forall i :: 0 <= i < |init| ==> init[i] == items[i];
      assert forall d :: d in init ==> d in items;
    }
  }

  /** The listing is empty exactly when no result has a url. */
  lemma FormatSourcesEmpty(d: Dict, xs: seq<JValue>, show: JValue -> string)
    requires d != [] && Get(d, "results") == Some(JArr(xs))
    requires forall i :: 0 <= i < |xs| ==> xs[i].JObj?
    ensures FormatSources(Some(d), show) == Some("") <==>
              forall i :: 0 <= i < |xs| ==> !HasUrl(xs[i].fields)
  {
    var items := AsDicts(xs).value;
    var listed := Listed(items);
    ListedSpec(items);
    var lines := seq(|listed|, i requires 0 <= i < |listed| => SourceLine(listed[i], show));
    assert FormatSources(Some(d), show) == Some(Join("\n", lines));
    assert forall i :: 0 <= i < |lines| ==> lines[i][0] == '*';
    JoinEmpty("\n", lines);
    assert forall i :: 0 <= i < |xs| ==> xs[i].fields == items[i];
  }

  /** A present but empty title is kept in the listing, where the blocks
      of `deduplicate_and_format_sources` fall back to the url. */
  lemma EmptyTitleDiffers(src: Dict, show: JValue -> string)
    requires Get(src, "title") == Some(JStr("")) && HasUrl(src)
    ensures SourceLine(src, show) == "* " + show(JStr("")) + " : " + show(Url(src).value)
    ensures BlockTitle(src) == Url(src).value
  {
  }
}
