/** The AIME problem generator (chapter12 data_generation/aime_generator.py):
    reading a problem out of the model's reply, retrying a failed
    generation, numbering a batch, and counting topics for the report. The
    language model, `json.loads` and `int()` are parameters; files, clocks,
    sleeping and progress bars are not modelled. */
module Aime {
  import opened Wrappers
  import opened Text
  import opened PyJson

  /* ---------------------------------------------------------------- */
  /* Finding the JSON text in a reply                                 */
  /* ---------------------------------------------------------------- */

  const JsonFence := "```json"
  const Fence := "```"

  /** `s.split(sep)[0]`: everything before the first separator. */
  function SplitFirst(s: string, sep: string): (r: string)
    requires sep != ""
    ensures StartsWith(s, r)
    ensures !Contains(r, sep)
    ensures !Contains(s, sep) ==> r == s
  {
    var i := Find(s, sep, 0);
    var r := if i == -1 then s else s[..i];
    assert !Contains(r, sep) by { BeforeFirstLacks(s, sep); }
    assert !Contains(s, sep) ==> i == -1 by { FindContains(s, sep); }
    r
  }

  lemma BeforeFirstLacks(s: string, sep: string)
    requires sep != ""
    ensures var i := Find(s, sep, 0);
            !Contains(if i == -1 then s else s[..i], sep)
  {
    FindIsLeftmost(s, sep, 0);
    var i := Find(s, sep, 0);
    var r := if i == -1 then s else s[..i];
    forall k | 0 <= k <= |r|
      ensures !OccursAt(r, sep, k)
    {
      if k + |sep| <= |r| {
        OccursInPrefix(r, s[|r|..], sep, k);
        assert r + s[|r|..] == s;
      }
    }
  }

  /** `s.split(sep)[1]` when `sep` occurs: what lies between the first
      separator and the next one (or the end), that is, the first part of
      what follows the first separator. */
  function SplitSecond(s: string, sep: string): (r: string)
    requires sep != "" && Contains(s, sep)
  {
    FindContains(s, sep);
    SplitFirst(s[Find(s, sep, 0) + |sep|..], sep)
  }

  /** The part of a reply that holds the JSON text: the body of the first
      ```` ```json ```` block, else of the first ```` ``` ```` block, else the
      whole reply. It never holds a fence. */
  function FencedBody(response: string): (r: string)
    ensures !Contains(r, Fence)
  {
    if Contains(response, JsonFence) then SplitFirst(SplitSecond(response, JsonFence), Fence)
    else if Contains(response, Fence) then SplitFirst(SplitSecond(response, Fence), Fence)
    else response
  }

  /** The JSON text of a reply: its fenced body stripped of surrounding
      whitespace. It never holds a fence and never has whitespace at its
      ends. */
  function ExtractJson(response: string): (r: string)
    ensures !Contains(r, Fence)
    ensures Tight(r, PyWhitespace)
  {
    var body := FencedBody(response);
    TrimmedLacks(body, Fence);
    Trim(body, PyWhitespace)
  }

  /** Trimming keeps a text free of a pattern it did not hold. */
  lemma TrimmedLacks(body: string, p: string)
    requires !Contains(body, p)
    ensures !Contains(Trim(body, PyWhitespace), p)
    ensures Tight(Trim(body, PyWhitespace), PyWhitespace)
  {
    TrimSpec(body, PyWhitespace);
    TrimIsSlice(body, PyWhitespace);
    NoOccurrenceInSlice(body, p, TrimStart(body, PyWhitespace), TrimStart(body, PyWhitespace) + |Trim(body, PyWhitespace)|);
  }

  /** A slice holds no occurrence its whole does not. */
  lemma NoOccurrenceInSlice(s: string, p: string, a: nat, b: nat)
    requires a <= b <= |s| && !Contains(s, p)
    ensures !Contains(s[a..b], p)
  {
    forall k | 0 <= k <= b - a
      ensures !OccursAt(s[a..b], p, k)
    {
      if k + |p| <= b - a {
        SliceOfSlice(s, a, b, k, |p|);
        assert !OccursAt(s, p, a + k);
      }
    }
  }

  /** Where no backtick stands between `from` and `k`, no fence-like
      pattern starts before `k`. */
  lemma FindPastPlain(s: string, p: string, from: nat, k: nat)
    requires |p| > 0 && p[0] == '`' && from <= k
    requires forall i :: from <= i < k && i < |s| ==> s[i] != '`'
    ensures Find(s, p, from) == -1 || Find(s, p, from) >= k
    ensures OccursAt(s, p, k) ==> Find(s, p, from) == k
  {
    FindIsLeftmost(s, p, from);
    var r := Find(s, p, from);
    if r != -1 {
      FindFound(s, p, from);
      assert s[r] == s[r..r + |p|][0] == '`';
    }
  }

  /** The first `sep`-split part of a segment that opens with `body`
      followed by a fence, or is `body` alone, is `body`. */
  lemma SplitFirstOfBody(seg: string, body: string)
    requires Lacks(body, '`')
    requires seg == body || StartsWith(seg, body + Fence)
    ensures SplitFirst(seg, Fence) == body
  {
    FindPastPlain(seg, Fence, 0, |body|);
    if seg != body {
      assert seg[|body|..|body| + 3] == (body + Fence)[|body|..];
      assert seg[..|body|] == (body + Fence)[..|body|];
    }
  }

  /** The second split part of a text written as what precedes the first
      separator, the separator and the rest is the first part of the rest. */
  lemma SecondIsFirstOfRest(before: string, sep: string, t: string)
    requires sep != "" && Find(before + sep + t, sep, 0) == |before|
    ensures Contains(before + sep + t, sep)
    ensures SplitSecond(before + sep + t, sep) == SplitFirst(t, sep)
  {
    var s := before + sep + t;
    FindContains(s, sep);
    assert s[|before| + |sep|..] == t;
  }

  /** The first `JsonFence`-part of a block body, its closing fence and
      what follows, opens with the body and a fence or is the body. */
  lemma JsonPartOfBlock(body: string, after: string)
    requires Lacks(body, '`') && (after == [] || after[0] != '`')
    ensures var seg := SplitFirst(body + Fence + after, JsonFence);
            seg == body || StartsWith(seg, body + Fence)
  {
    var t := body + Fence + after;
    var e := |body|;
    FindPastPlain(t, JsonFence, 0, e);
    var j := Find(t, JsonFence, 0);
    FindIsLeftmost(t, JsonFence, 0);
    if j != -1 {
      FindFound(t, JsonFence, 0);
      var m := t[j..j + 7];
      assert m == JsonFence;
      assert t[j + 1] == m[1] == '`' && t[j + 2] == m[2] == '`';
      assert e + 3 < |t| ==> t[e + 3] == after[0];
      assert j != e + 1 && j != e + 2;
    }
    var seg := SplitFirst(t, JsonFence);
    if j == -1 || j >= e + 3 {
      assert seg[..e + 3] == t[..e + 3] == body + Fence;
    } else {
      assert seg == t[..e] == body;
    }
  }

  /** A reply with a ```` ```json ```` block yields the block's body, trimmed. */
  lemma JsonBlockExtracted(before: string, body: string, after: string)
    requires Lacks(before, '`') && Lacks(body, '`')
    requires after == [] || after[0] != '`'
    ensures ExtractJson(before + JsonFence + body + Fence + after) == Trim(body, PyWhitespace)
  {
    var t := body + Fence + after;
    var s := before + JsonFence + t;
    assert s == before + JsonFence + body + Fence + after;
    var b := |before|;
    assert OccursAt(s, JsonFence, b) by { assert s[b..b + 7] == JsonFence; }
    FindPastPlain(s, JsonFence, 0, b);
    SecondIsFirstOfRest(before, JsonFence, t);
    JsonPartOfBlock(body, after);
    SplitFirstOfBody(SplitFirst(t, JsonFence), body);
  }

  /** Without a ```` ```json ```` anywhere, the first plain block is used. */
  lemma PlainBlockExtracted(before: string, body: string, after: string)
    requires Lacks(before, '`') && Lacks(body, '`')
    requires !Contains(before + Fence + body + Fence + after, JsonFence)
    ensures ExtractJson(before + Fence + body + Fence + after) == Trim(body, PyWhitespace)
  {
    var t := body + Fence + after;
    var s := before + Fence + t;
    assert s == before + Fence + body + Fence + after;
    var b := |before|;
    assert OccursAt(s, Fence, b) by { assert s[b..b + 3] == Fence; }
    FindPastPlain(s, Fence, 0, b);
    SecondIsFirstOfRest(before, Fence, t);
    assert t[..|body| + 3] == body + Fence;
    SplitFirstOfBody(t, body);
    SplitFirstOfBody(body, body);
  }

  /** A reply without any fence is only stripped. */
  lemma UnfencedReplyStripped(response: string)
    requires !Contains(response, Fence)
    ensures ExtractJson(response) == Trim(response, PyWhitespace)
  {
    if Contains(response, JsonFence) {
      var i :| 0 <= i <= |response| && OccursAt(response, JsonFence, i);
      assert response[i..i + 3] == response[i..i + 7][..3] == Fence;
      assert OccursAt(response, Fence, i);
    }
  }

  /* ---------------------------------------------------------------- */
  /* Repairing LaTeX backslashes                                      */
  /* ---------------------------------------------------------------- */

  /** Characters after which a backslash is left alone, being read as a
      JSON escape: `" \ / b f n r t u`. */
  predicate IsKeptEscape(c: char) {
    c == '"' || c == '\\' || c == '/' || c == 'b' || c == 'f' || c == 'n' || c == 'r' || c == 't' || c == 'u'
  }

  /** The first character of `s` is a backslash the repair doubles: the
      character before it (`afterBackslash`) is not a backslash and the one
      after it is not a kept escape. */
  predicate LoneBackslash(afterBackslash: bool, s: string) {
    |s| > 0 && s[0] == '\\' && !afterBackslash && (|s| == 1 || !IsKeptEscape(s[1]))
  }

  /** `re.sub(r'(?<!\\)\\(?!["\\/bfnrtu])', r'\\\\', s)` read from the
      position after a backslash (`afterBackslash`) or not. Both lookarounds
      look at the original text. */
  function Repair(afterBackslash: bool, s: string): (r: string)
    ensures |r| >= |s|
    ensures |s| > 0 ==> |r| > 0 && r[0] == s[0]
    decreases |s|
  {
    if s == [] then []
    else if LoneBackslash(afterBackslash, s) then "\\\\" + Repair(true, s[1..])
    else [s[0]] + Repair(s[0] == '\\', s[1..])
  }

  function RepairEscapes(s: string): string {
    Repair(false, s)
  }

  /** No backslash in `s` is one the repair would double. */
  predicate NoLone(afterBackslash: bool, s: string)
    decreases |s|
  {
    s == [] || (!LoneBackslash(afterBackslash, s) && NoLone(s[0] == '\\', s[1..]))
  }

  /** Text without a doubled-up backslash is left exactly as it is. */
  lemma {:induction false} RepairKeepsValid(afterBackslash: bool, s: string)
    requires NoLone(afterBackslash, s)
    ensures Repair(afterBackslash, s) == s
    decreases |s|
  {
    if s != [] {
      RepairKeepsValid(s[0] == '\\', s[1..]);
    }
  }

  /** After the repair no lone backslash is left. */
  lemma {:induction false} RepairLeavesNoLone(afterBackslash: bool, s: string)
    ensures NoLone(afterBackslash, Repair(afterBackslash, s))
    decreases |s|
  {
    if s != [] {
      RepairLeavesNoLone(if LoneBackslash(afterBackslash, s) then true else s[0] == '\\', s[1..]);
      var rest := Repair(if LoneBackslash(afterBackslash, s) then true else s[0] == '\\', s[1..]);
      if LoneBackslash(afterBackslash, s) {
        var r := "\\\\" + rest;
        assert r[1..] == "\\" + rest && r[1..][1..] == rest;
        assert NoLone(true, r[1..]);
      } else {
        var r := [s[0]] + rest;
        assert r[1..] == rest;
        assert |s| > 1 ==> r[1] == s[1];
      }
    }
  }

  /** Repairing twice changes nothing more. */
  lemma RepairIdempotent(s: string)
    ensures RepairEscapes(RepairEscapes(s)) == RepairEscapes(s)
  {
    RepairLeavesNoLone(false, s);
    RepairKeepsValid(false, RepairEscapes(s));
  }

  /** Text without backslashes is left alone. */
  lemma {:induction false} RepairWithoutBackslash(afterBackslash: bool, s: string)
    requires Lacks(s, '\\')
    ensures Repair(afterBackslash, s) == s
    decreases |s|
  {
    if s != [] {
      RepairWithoutBackslash(false, s[1..]);
    }
  }

  /** `\sqrt` is doubled into a valid JSON escape `\\sqrt`. */
  lemma SqrtIsDoubled()
    ensures RepairEscapes("\\sqrt") == "\\\\sqrt"
  {
    RepairWithoutBackslash(true, "sqrt");
  }

  /** `\frac` is not: `f` follows the backslash, so JSON reads `\f` as a
      form feed. The same holds for `\binom`, `\nabla`, `\right` and
      `\times`. */
  lemma FracIsKept()
    ensures RepairEscapes("\\frac") == "\\frac"
  {
    RepairWithoutBackslash(true, "frac");
  }

  /* ---------------------------------------------------------------- */
  /* _parse_response                                                  */
  /* ---------------------------------------------------------------- */

  /** Why reading a problem raised. */
  datatype Failure =
    | AgentRaised       // the model call itself raised
    | Undecodable       // `json.loads` failed before and after the repair
    | NotADict          // the JSON value is not an object, so a lookup raises
    | MissingField      // no `"problem"` or no `"answer"`: ValueError
    | AnswerNotInteger  // `int()` of the answer raised

  datatype Parse = Parsed(data: Dict) | Raised(failure: Failure)

  /** `json.loads` and `int()` of the host language: `None` where they raise. */
  type Loads = string -> Option<JValue>
  type ToInt = JValue -> Option<int>

  /** `json.loads` of the JSON text, retried once on the repaired text. */
  function Decode(response: string, loads: Loads): (r: Option<JValue>)
    ensures loads(ExtractJson(response)).Some? ==> r == loads(ExtractJson(response))
    ensures r.None? <==> loads(ExtractJson(response)).None? && loads(RepairEscapes(ExtractJson(response))).None?
  {
    var text := ExtractJson(response);
    match loads(text)
    case Some(v) => Some(v)
    case None => loads(RepairEscapes(text))
  }

  const MinAnswer := 0
  const MaxAnswer := 999

  /** `max(0, min(999, answer))`. */
  function ClampAnswer(a: int): (r: int)
    ensures MinAnswer <= r <= MaxAnswer
    ensures MinAnswer <= a <= MaxAnswer ==> r == a
    ensures a < MinAnswer ==> r == MinAnswer
    ensures a > MaxAnswer ==> r == MaxAnswer
  {
    if a < MinAnswer then MinAnswer else if a > MaxAnswer then MaxAnswer else a
  }

  /** Clamping never reorders two answers. */
  lemma ClampMonotone(a: int, b: int)
    requires a <= b
    ensures ClampAnswer(a) <= ClampAnswer(b)
  {
  }

  const NoSolution := "No solution provided"
  const Uncategorized := "Uncategorized"

  /** The answer check: an answer outside 0..999 is replaced by its
      clamped value, one inside is left exactly as given. */
  function FixAnswer(d: Dict, a: int): (r: Dict)
    ensures Get(r, "answer") == if MinAnswer <= a <= MaxAnswer then Get(d, "answer") else Some(JInt(ClampAnswer(a)))
    ensures forall k :: k != "answer" ==> Get(r, k) == Get(d, k)
  {
    if MinAnswer <= a <= MaxAnswer then d else Put(d, "answer", JInt(ClampAnswer(a)))
  }

  /** The two `setdefault` calls: solution and topic kept, or filled in. */
  function FillDefaults(d: Dict): (r: Dict)
    ensures Get(r, "solution") == if HasKey(d, "solution") then Get(d, "solution") else Some(JStr(NoSolution))
    ensures Get(r, "topic") == if HasKey(d, "topic") then Get(d, "topic") else Some(JStr(Uncategorized))
    ensures forall k :: k != "solution" && k != "topic" ==> Get(r, k) == Get(d, k)
  {
    SetDefault(SetDefault(d, "solution", JStr(NoSolution)), "topic", JStr(Uncategorized))
  }

  /** A problem record: it has the four fields. */
  predicate IsProblem(d: Dict) {
    Get(d, "problem").Some? && Get(d, "answer").Some? && Get(d, "solution").Some? && Get(d, "topic").Some?
  }

  /** What `_parse_response` does with the decoded JSON value (`None`
      when it could not be decoded). */
  function ReadProblem(decoded: Option<JValue>, toInt: ToInt): (r: Parse)
    ensures r.Parsed? ==> IsProblem(r.data)
    ensures r == Raised(Undecodable) <==> decoded.None?
    ensures r.Parsed? ==> decoded.Some? && decoded.value.JObj?
  {
    match decoded
    case None => Raised(Undecodable)
    case Some(v) =>
      if !v.JObj? then Raised(NotADict)
      else
        var d := v.fields;
        if !HasKey(d, "problem") || !HasKey(d, "answer") then Raised(MissingField)
        else
          match toInt(Get(d, "answer").value)
          case None => Raised(AnswerNotInteger)
          case Some(a) => Parsed(Accept(d, a))
  }

  /** The record an accepted object becomes. */
  function Accept(d: Dict, a: int): (r: Dict)
    requires HasKey(d, "problem") && HasKey(d, "answer")
    ensures IsProblem(r)
  {
    var f := FixAnswer(d, a);
    assert Get(f, "problem") == Get(d, "problem");
    FillDefaults(f)
  }

  /** `_parse_response(response)`. */
  function ParseResponse(response: string, loads: Loads, toInt: ToInt): Parse {
    ReadProblem(Decode(response, loads), toInt)
  }

  /** What acceptance does to each field. */
  lemma AcceptFields(d: Dict, a: int)
    requires HasKey(d, "problem") && HasKey(d, "answer")
    ensures var p := Accept(d, a);
            && Get(p, "problem") == Get(d, "problem")
            && Get(p, "answer") == (if MinAnswer <= a <= MaxAnswer then Get(d, "answer") else Some(JInt(ClampAnswer(a))))
            && Get(p, "solution") == (if HasKey(d, "solution") then Get(d, "solution") else Some(JStr(NoSolution)))
            && Get(p, "topic") == (if HasKey(d, "topic") then Get(d, "topic") else Some(JStr(Uncategorized)))
  {
    var f := FixAnswer(d, a);
    assert Accept(d, a) == FillDefaults(f);
    assert Get(f, "solution") == Get(d, "solution") && Get(f, "topic") == Get(d, "topic");
  }

  /** A decoded object with both fields is accepted: its problem is kept,
      its answer kept when within 0..999 and clamped otherwise, and its
      solution and topic kept or filled with the defaults. */
  lemma ParsedFields(d: Dict, toInt: ToInt, a: int)
    requires HasKey(d, "problem") && HasKey(d, "answer")
    requires toInt(Get(d, "answer").value) == Some(a)
    ensures ReadProblem(Some(JObj(d)), toInt).Parsed?
    ensures var p := ReadProblem(Some(JObj(d)), toInt).data;
            && Get(p, "problem") == Get(d, "problem")
            && Get(p, "answer") == (if MinAnswer <= a <= MaxAnswer then Get(d, "answer") else Some(JInt(ClampAnswer(a))))
            && Get(p, "solution") == (if HasKey(d, "solution") then Get(d, "solution") else Some(JStr(NoSolution)))
            && Get(p, "topic") == (if HasKey(d, "topic") then Get(d, "topic") else Some(JStr(Uncategorized)))
  {
    assert ReadProblem(Some(JObj(d)), toInt) == Parsed(Accept(d, a));
    AcceptFields(d, a);
  }

  /** A decoded object without `"problem"` or without `"answer"` raises. */
  lemma MissingFieldRaises(d: Dict, toInt: ToInt)
    requires !HasKey(d, "problem") || !HasKey(d, "answer")
    ensures ReadProblem(Some(JObj(d)), toInt) == Raised(MissingField)
  {
  }

  /** A JSON value that is not an object raises. */
  lemma NonObjectRaises(v: JValue, toInt: ToInt)
    requires !v.JObj?
    ensures ReadProblem(Some(v), toInt) == Raised(NotADict)
  {
  }

  /** When `int()` reads integers as themselves, every accepted answer is an
      integer within 0..999. */
  lemma ParsedAnswerInRange(decoded: Option<JValue>, toInt: ToInt)
    requires forall n: int :: toInt(JInt(n)) == Some(n)
    requires ReadProblem(decoded, toInt).Parsed?
    ensures var p := ReadProblem(decoded, toInt).data;
            exists a :: toInt(Get(p, "answer").value) == Some(a) && MinAnswer <= a <= MaxAnswer
  {
    var d := decoded.value.fields;
    var a := toInt(Get(d, "answer").value).value;
    ParsedFields(d, toInt, a);
    var p := ReadProblem(decoded, toInt).data;
    assert toInt(Get(p, "answer").value) == Some(ClampAnswer(a));
  }

  /* ---------------------------------------------------------------- */
  /* generate_single                                                  */
  /* ---------------------------------------------------------------- */

  /** `_get_default_problem()`. */
  const DefaultProblem: Dict := [("problem", JStr("生成失败，请重新生成")), ("answer", JInt(0)),
                                 ("solution", JStr("N/A")), ("topic", JStr("未知"))]

  /** The `k`-th attempt: the model's reply (`None` when the call raised),
      read as a problem. */
  function Attempt(replies: nat -> Option<string>, k: nat, loads: Loads, toInt: ToInt): (r: Parse)
    ensures r.Parsed? ==> IsProblem(r.data)
  {
    match replies(k)
    case None => Raised(AgentRaised)
    case Some(response) => ParseResponse(response, loads, toInt)
  }

  /** How every attempt ends. */
  function Outcomes(replies: nat -> Option<string>, loads: Loads, toInt: ToInt): nat -> Parse {
    (k: nat) => Attempt(replies, k, loads, toInt)
  }

  /** The attempt loop from attempt `k` on, the last one being
      `maxRetries - 1`; `outcome(i)` is how attempt `i` ends. */
  function AttemptFrom(outcome: nat -> Parse, k: nat, maxRetries: nat): (d: Dict)
    requires k < maxRetries
    decreases maxRetries - k
  {
    if outcome(k).Parsed? then outcome(k).data
    else if k < maxRetries - 1 then AttemptFrom(outcome, k + 1, maxRetries)
    else DefaultProblem
  }

  /** `generate_single(max_retries)`: the first attempt that reads as a
      problem, else the default problem; no attempt at all (and Python's
      implicit `None`) when `max_retries` is not positive. */
  function GenerateSingle(maxRetries: int, replies: nat -> Option<string>, loads: Loads, toInt: ToInt)
    : (r: Option<Dict>)
    ensures r.None? <==> maxRetries <= 0
  {
    if maxRetries <= 0 then None
    else Some(AttemptFrom(Outcomes(replies, loads, toInt), 0, maxRetries))
  }

  /** The first successful attempt decides, whatever follows it. */
  lemma {:induction false} FirstSuccessWins(outcome: nat -> Parse, k: nat, j: nat, maxRetries: nat)
    requires k <= j < maxRetries
    requires forall i :: k <= i < j ==> outcome(i).Raised?
    requires outcome(j).Parsed?
    ensures AttemptFrom(outcome, k, maxRetries) == outcome(j).data
    decreases j - k
  {
    if k < j {
      FirstSuccessWins(outcome, k + 1, j, maxRetries);
    }
  }

  /** When every attempt fails the default problem is returned. */
  lemma {:induction false} AllFailedGivesDefault(outcome: nat -> Parse, k: nat, maxRetries: nat)
    requires k < maxRetries
    requires forall i :: k <= i < maxRetries ==> outcome(i).Raised?
    ensures AttemptFrom(outcome, k, maxRetries) == DefaultProblem
    decreases maxRetries - k
  {
    if k < maxRetries - 1 {
      AllFailedGivesDefault(outcome, k + 1, maxRetries);
    }
  }

  /** At most `max_retries` attempts are made: later ones never matter. */
  lemma {:induction false} OnlyFirstAttemptsMatter(a: nat -> Parse, b: nat -> Parse, k: nat, maxRetries: nat)
    requires k < maxRetries
    requires forall i :: k <= i < maxRetries ==> a(i) == b(i)
    ensures AttemptFrom(a, k, maxRetries) == AttemptFrom(b, k, maxRetries)
    decreases maxRetries - k
  {
    if k < maxRetries - 1 {
      OnlyFirstAttemptsMatter(a, b, k + 1, maxRetries);
    }
  }

  /** Some attempt succeeds, so a first one does. */
  lemma {:induction false} FirstParsedExists(outcome: nat -> Parse, j0: nat)
    requires outcome(j0).Parsed?
    ensures exists j :: 0 <= j <= j0 && outcome(j).Parsed? && forall i :: 0 <= i < j ==> outcome(i).Raised?
    decreases j0
  {
    if exists i :: 0 <= i < j0 && outcome(i).Parsed? {
      var i :| 0 <= i < j0 && outcome(i).Parsed?;
      FirstParsedExists(outcome, i);
    }
  }

  /** The loop ends with the first success, or with the default problem
      when every attempt failed. */
  lemma AttemptFromCases(o: nat -> Parse, maxRetries: nat)
    requires maxRetries > 0
    ensures var r := AttemptFrom(o, 0, maxRetries);
            (exists j :: 0 <= j < maxRetries && o(j).Parsed? && (forall i :: 0 <= i < j ==> o(i).Raised?)
                         && r == o(j).data)
            || ((forall i :: 0 <= i < maxRetries ==> o(i).Raised?) && r == DefaultProblem)
  {
    if j0 :| 0 <= j0 < maxRetries && o(j0).Parsed? {
      FirstParsedExists(o, j0);
      var j :| 0 <= j <= j0 && o(j).Parsed? && forall i :: 0 <= i < j ==> o(i).Raised?;
      FirstSuccessWins(o, 0, j, maxRetries);
    } else {
      AllFailedGivesDefault(o, 0, maxRetries);
    }
  }

  /** Every problem `generate_single` returns is the first successful
      attempt, or the default problem after `max_retries` failures. */
  lemma GenerateSingleOutcome(maxRetries: int, replies: nat -> Option<string>, loads: Loads, toInt: ToInt)
    requires maxRetries > 0
    ensures var o, r := Outcomes(replies, loads, toInt), GenerateSingle(maxRetries, replies, loads, toInt).value;
            (exists j :: 0 <= j < maxRetries && o(j).Parsed? && (forall i :: 0 <= i < j ==> o(i).Raised?)
                         && r == o(j).data)
            || ((forall i :: 0 <= i < maxRetries ==> o(i).Raised?) && r == DefaultProblem)
  {
    AttemptFromCases(Outcomes(replies, loads, toInt), maxRetries);
  }

  /** Whatever the loop returns has the four fields of a problem. */
  lemma {:induction false} AttemptFromIsProblem(o: nat -> Parse, k: nat, maxRetries: nat)
    requires k < maxRetries
    requires forall i :: o(i).Parsed? ==> IsProblem(o(i).data)
    ensures IsProblem(AttemptFrom(o, k, maxRetries))
    decreases maxRetries - k
  {
    if !o(k).Parsed? && k < maxRetries - 1 {
      AttemptFromIsProblem(o, k + 1, maxRetries);
    } else if !o(k).Parsed? {
      assert DefaultProblem[0].0 == "problem" && DefaultProblem[1].0 == "answer";
      assert DefaultProblem[2].0 == "solution" && DefaultProblem[3].0 == "topic";
    }
  }

  lemma GeneratedIsProblem(maxRetries: int, replies: nat -> Option<string>, loads: Loads, toInt: ToInt)
    requires maxRetries > 0
    ensures IsProblem(GenerateSingle(maxRetries, replies, loads, toInt).value)
  {
    var o := Outcomes(replies, loads, toInt);
    forall i ensures o(i).Parsed? ==> IsProblem(o(i).data) {
      assert o(i) == Attempt(replies, i, loads, toInt);
    }
    AttemptFromIsProblem(o, 0, maxRetries);
  }

  /** Replies after the first `max_retries` are never asked for. */
  lemma RepliesAfterLastIgnored(maxRetries: int, a: nat -> Option<string>, b: nat -> Option<string>,
                                loads: Loads, toInt: ToInt)
    requires forall i :: 0 <= i < maxRetries ==> a(i) == b(i)
    ensures GenerateSingle(maxRetries, a, loads, toInt) == GenerateSingle(maxRetries, b, loads, toInt)
  {
    if maxRetries > 0 {
      OnlyFirstAttemptsMatter(Outcomes(a, loads, toInt), Outcomes(b, loads, toInt), 0, maxRetries);
    }
  }

  /* ---------------------------------------------------------------- */
  /* generate_batch: numbering                                        */
  /* ---------------------------------------------------------------- */

  /** The id of the problem at position `i`: `f"gen_aime_{i + 1}"`. */
  function BatchId(i: nat): string {
    "gen_aime_" + Decimal(i + 1)
  }

  /** Distinct positions get distinct ids. */
  lemma BatchIdsDistinct(i: nat, j: nat)
    requires i != j
    ensures BatchId(i) != BatchId(j)
  {
    var a, b := Decimal(i + 1), Decimal(j + 1);
    if BatchId(i) == BatchId(j) {
      PrefixCancels("gen_aime_", a, b);
      DecimalInjective(i + 1, j + 1);
    }
  }

  lemma PrefixCancels(p: string, a: string, b: string)
    requires p + a == p + b
    ensures a == b
  {
    assert a == (p + a)[|p|..];
    assert b == (p + b)[|p|..];
  }

  /** A generated problem as the batch keeps it: numbered and stamped with
      the time `now`, whatever id it came with. */
  function Stamp(problem: Dict, i: nat, now: string): Dict {
    Put(Put(problem, "id", JStr(BatchId(i))), "generated_at", JStr(now))
  }

  /** The list a batch run ends with: what the checkpoint held, then
      `make(i)` for each position `i` from there up to `num - 1`. */
  function Extend<T>(checkpoint: seq<T>, num: int, make: nat -> T): (r: seq<T>)
    ensures |r| == if num > |checkpoint| then num else |checkpoint|
    ensures r[..|checkpoint|] == checkpoint
    ensures forall i :: |checkpoint| <= i < |r| ==> r[i] == make(i)
    decreases num - |checkpoint|
  {
    if num <= |checkpoint| then checkpoint
    else
      var r := Extend(checkpoint + [make(|checkpoint|)], num, make);
      assert r[..|checkpoint|] == r[..|checkpoint| + 1][..|checkpoint|];
      r
  }

  /** Stopping after `k` positions and resuming from that list gives the
      list of an uninterrupted run. */
  lemma ExtendResumes<T>(k: nat, num: int, make: nat -> T)
    requires k <= num
    ensures Extend(Extend([], k, make), num, make) == Extend([], num, make)
  {
    var a := Extend([], k, make);
    var r := Extend(a, num, make);
    var whole := Extend([], num, make);
    assert |r| == |whole|;
    forall i | 0 <= i < |r|
      ensures r[i] == whole[i]
    {
      if i < k {
        assert r[i] == r[..k][i] == a[i];
      }
    }
  }

  /** `generate_batch(num_problems)` after the checkpoint was read: the
      checkpoint's problems, then one generated problem per position from
      `len(checkpoint)` to `num_problems - 1`. `generated(i)` is what
      `generate_single` returned for position `i` and `now(i)` the clock. */
  function GenerateBatch(checkpoint: seq<Dict>, num: int, generated: nat -> Dict, now: nat -> string)
    : seq<Dict>
  {
    Extend(checkpoint, num, (i: nat) => Stamp(generated(i), i, now(i)))
  }

  /** The batch has `num_problems` problems (or the checkpoint's, if more);
      those already in the checkpoint are kept as they were; each new one
      is numbered by its position and keeps every other field
      `generate_single` gave it. */
  lemma BatchNumbering(checkpoint: seq<Dict>, num: int, generated: nat -> Dict, now: nat -> string, i: nat)
    ensures |GenerateBatch(checkpoint, num, generated, now)| == if num > |checkpoint| then num else |checkpoint|
    ensures var r := GenerateBatch(checkpoint, num, generated, now);
            && (i < |checkpoint| ==> r[i] == checkpoint[i])
            && (|checkpoint| <= i < |r| ==>
                  && Get(r[i], "id") == Some(JStr(BatchId(i)))
                  && Get(r[i], "generated_at") == Some(JStr(now(i)))
                  && forall k :: k != "id" && k != "generated_at" ==> Get(r[i], k) == Get(generated(i), k))
  {
    var r := GenerateBatch(checkpoint, num, generated, now);
    if i < |checkpoint| {
      assert r[i] == r[..|checkpoint|][i];
    } else if i < |r| {
      var d := Put(generated(i), "id", JStr(BatchId(i)));
      assert r[i] == Put(d, "generated_at", JStr(now(i)));
    }
  }

  /** Resuming from a checkpoint of an earlier run continues its numbering:
      the result is the uninterrupted run's. */
  lemma ResumedBatchContinues(k: nat, num: nat, generated: nat -> Dict, now: nat -> string)
    requires k <= num
    ensures GenerateBatch(GenerateBatch([], k, generated, now), num, generated, now)
            == GenerateBatch([], num, generated, now)
  {
    ExtendResumes(k, num, (i: nat) => Stamp(generated(i), i, now(i)));
  }

  /** Every problem added by one run has its own id. */
  lemma BatchIdsUnique(checkpoint: seq<Dict>, num: int, generated: nat -> Dict, now: nat -> string, i: nat, j: nat)
    requires |checkpoint| <= i < num && |checkpoint| <= j < num && i != j
    ensures var r := GenerateBatch(checkpoint, num, generated, now);
            Get(r[i], "id") != Get(r[j], "id")
  {
    BatchNumbering(checkpoint, num, generated, now, i);
    BatchNumbering(checkpoint, num, generated, now, j);
    BatchIdsDistinct(i, j);
  }

  /* ---------------------------------------------------------------- */
  /* _generate_statistics_report: the topic table                     */
  /* ---------------------------------------------------------------- */

  /** `topics`: counts per topic, in order of first appearance. */
  type Counts = seq<(JValue, nat)>

  /** `problem.get("topic", "未知")`. */
  function TopicOf(problem: Dict): JValue {
    Get(problem, "topic").GetOr(JStr("未知"))
  }

  /** `topics.get(k, 0)`. */
  function CountOf(c: Counts, k: JValue): nat {
    if c == [] then 0 else if c[0].0 == k then c[0].1 else CountOf(c[1..], k)
  }

  function Total(c: Counts): nat {
    if c == [] then 0 else c[0].1 + Total(c[1..])
  }

  predicate KeysDistinct(c: Counts) {
    forall i, j :: 0 <= i < j < |c| ==> c[i].0 != c[j].0
  }

  predicate Positive(c: Counts) {
    forall i :: 0 <= i < |c| ==> c[i].1 > 0
  }

  /** `topics[k] = topics.get(k, 0) + 1`. */
  function Bump(c: Counts, k: JValue): (r: Counts)
    ensures CountOf(r, k) == CountOf(c, k) + 1
    ensures forall k' :: k' != k ==> CountOf(r, k') == CountOf(c, k')
    ensures Total(r) == Total(c) + 1
    ensures Positive(c) ==> Positive(r)
    ensures forall i :: 0 <= i < |r| ==> r[i].0 == k || r[i] in c
  {
    if c == [] then [(k, 1)]
    else if c[0].0 == k then [(k, c[0].1 + 1)] + c[1..]
    else
      var rest := Bump(c[1..], k);
      var r := [c[0]] + rest;
      assert r[1..] == rest;
      assert forall i :: 1 <= i < |r| ==> r[i] == rest[i - 1];
      r
  }

  lemma {:induction false} BumpKeepsKeysDistinct(c: Counts, k: JValue)
    requires KeysDistinct(c)
    ensures KeysDistinct(Bump(c, k))
  {
    if c != [] && c[0].0 != k {
      BumpKeepsKeysDistinct(c[1..], k);
      var rest := Bump(c[1..], k);
      assert Bump(c, k) == [c[0]] + rest;
      forall j | 0 <= j < |rest|
        ensures rest[j].0 != c[0].0
      {
        if rest[j].0 != k {
          assert rest[j] in c[1..];
        }
      }
    }
  }

  /** The loop over the problems. */
  function CountTopics(problems: seq<Dict>): Counts {
    if problems == [] then []
    else Bump(CountTopics(problems[..|problems| - 1]), TopicOf(problems[|problems| - 1]))
  }

  /** How many problems have topic `k`. */
  function Occurrences(problems: seq<Dict>, k: JValue): nat {
    if problems == [] then 0
    else Occurrences(problems[..|problems| - 1], k) + if TopicOf(problems[|problems| - 1]) == k then 1 else 0
  }

  /** Each topic is counted as often as it occurs; the counts sum to the
      number of problems; each topic is listed once with a positive
      count. */
  lemma {:induction false} CountTopicsCorrect(problems: seq<Dict>)
    ensures forall k :: CountOf(CountTopics(problems), k) == Occurrences(problems, k)
    ensures Total(CountTopics(problems)) == |problems|
    ensures KeysDistinct(CountTopics(problems)) && Positive(CountTopics(problems))
  {
    if problems != [] {
      var init := problems[..|problems| - 1];
      CountTopicsCorrect(init);
      BumpKeepsKeysDistinct(CountTopics(init), TopicOf(problems[|problems| - 1]));
    }
  }

  /** An entry of a table with distinct keys is what `CountOf` finds. */
  lemma {:induction false} EntryIsCount(c: Counts, k: JValue, n: nat)
    requires KeysDistinct(c) && Positive(c)
    ensures (k, n) in c <==> n > 0 && CountOf(c, k) == n
  {
    if c != [] {
      EntryIsCount(c[1..], k, n);
      if c[0].0 == k {
        assert forall i :: 0 <= i < |c[1..]| ==> c[1..][i].0 != k by {
          forall i | 0 <= i < |c[1..]| ensures c[1..][i].0 != k {
            assert c[1..][i] == c[i + 1];
          }
        }
        assert CountOf(c[1..], k) == 0 by { AbsentCountsZero(c[1..], k); }
      }
    }
  }

  lemma {:induction false} AbsentCountsZero(c: Counts, k: JValue)
    requires forall i :: 0 <= i < |c| ==> c[i].0 != k
    ensures CountOf(c, k) == 0
  {
    if c != [] {
      assert forall i :: 0 <= i < |c[1..]| ==> c[1..][i] == c[i + 1];
      AbsentCountsZero(c[1..], k);
    }
  }

  /* Sorting by count, highest first. Python's sort is stable, so topics
     with equal counts stay in order of first appearance. */

  predicate Descending(c: Counts) {
    forall i, j :: 0 <= i < j < |c| ==> c[i].1 >= c[j].1
  }

  /** Puts `x` before the first entry whose count is not above its own. */
  function Insert(x: (JValue, nat), c: Counts): (r: Counts)
    ensures multiset(r) == multiset(c) + multiset{x}
    ensures |r| > 0 && (r[0] == x || (c != [] && r[0] == c[0]))
    ensures forall i :: 0 <= i < |r| ==> r[i] == x || r[i] in c
  {
    if c == [] then [x]
    else if c[0].1 <= x.1 then [x] + c
    else
      assert c == [c[0]] + c[1..];
      var rest := Insert(x, c[1..]);
      assert forall i :: 1 <= i < |rest| + 1 ==> ([c[0]] + rest)[i] == rest[i - 1];
      [c[0]] + rest
  }

  lemma {:induction false} InsertKeepsDescending(x: (JValue, nat), c: Counts)
    requires Descending(c)
    ensures Descending(Insert(x, c))
  {
    if c != [] && c[0].1 > x.1 {
      var rest := Insert(x, c[1..]);
      InsertKeepsDescending(x, c[1..]);
      var r := [c[0]] + rest;
      forall j | 0 <= j < |rest|
        ensures c[0].1 >= rest[j].1
      {
        if rest[j] != x {
          var m :| 0 <= m < |c[1..]| && c[1..][m] == rest[j];
          assert c[1..][m] == c[m + 1];
        }
      }
      assert forall i :: 0 < i < |r| ==> r[i] == rest[i - 1];
    } else if c != [] {
      assert forall j :: 0 < j < |c| + 1 ==> ([x] + c)[j] == c[j - 1];
    }
  }

  /** `sorted(topics.items(), key=count, reverse=True)`. */
  function SortByCount(c: Counts): (r: Counts)
    ensures multiset(r) == multiset(c)
    ensures Descending(r)
  {
    if c == [] then []
    else
      var rest := SortByCount(c[1..]);
      InsertKeepsDescending(c[0], rest);
      assert c == [c[0]] + c[1..];
      Insert(c[0], rest)
  }

  /** The report's topic table. */
  function TopicTable(problems: seq<Dict>): Counts {
    SortByCount(CountTopics(problems))
  }

  /** Inserting an entry adds its count to the sum. */
  lemma {:induction false} InsertTotal(x: (JValue, nat), c: Counts)
    ensures Total(Insert(x, c)) == x.1 + Total(c)
  {
    if c != [] && c[0].1 > x.1 {
      InsertTotal(x, c[1..]);
      assert ([c[0]] + Insert(x, c[1..]))[1..] == Insert(x, c[1..]);
    }
  }

  /** Sorting keeps the sum. */
  lemma {:induction false} SortTotal(c: Counts)
    ensures Total(SortByCount(c)) == Total(c)
  {
    if c != [] {
      SortTotal(c[1..]);
      InsertTotal(c[0], SortByCount(c[1..]));
    }
  }

  /** The topic table: highest count first, each topic once with its number
      of problems, the counts adding up to the number of problems. */
  lemma TopicTableCorrect(problems: seq<Dict>, k: JValue, n: nat)
    ensures Descending(TopicTable(problems))
    ensures Total(TopicTable(problems)) == |problems|
    ensures (k, n) in TopicTable(problems) <==> n > 0 && n == Occurrences(problems, k)
  {
    var c := CountTopics(problems);
    CountTopicsCorrect(problems);
    SortTotal(c);
    EntryIsCount(c, k, n);
    assert (k, n) in TopicTable(problems) <==> (k, n) in multiset(c);
  }
}
