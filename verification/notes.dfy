/** The note-taking instructions given to the summariser for one task
    (backend/src/services/notes.py): which note tool calls it is asked to
    make, and the text that embeds them. */
module Notes {
  import opened Wrappers
  import opened Text
  import opened PyJson
  import opened Models

  const Header: string := "笔记协作指引：\n"

  /** The tag that ties a note to its task. */
  function TaskTag(id: int): string {
    "task_" + Decimal(id)
  }

  /** The tags every task note carries: `["deep_research", "task_<id>"]`. */
  function NoteTags(id: int): JValue {
    JArr([JStr("deep_research"), JStr(TaskTag(id))])
  }

  /** Distinct tasks are tagged differently. */
  lemma TaskTagIdentifiesTask(a: int, b: int)
    requires NoteTags(a) == NoteTags(b)
    ensures a == b
  {
    assert TaskTag(a) == NoteTags(a).items[1].s;
    assert Decimal(a) == TaskTag(a)[5..];
    assert Decimal(b) == TaskTag(b)[5..];
    DecimalInjective(a, b);
  }

  /** The title a task note gets: `任务 <id>: <title>`. */
  function NoteTitle(task: TodoItem): string {
    "任务 " + Decimal(task.id) + ": " + task.title
  }

  /** Python's truth test on `task.note_id`. */
  predicate HasNote(task: TodoItem) {
    task.noteId.Some? && task.noteId.value != ""
  }

  function ReadPayload(noteId: string): Dict {
    [("action", JStr("read")), ("note_id", JStr(noteId))]
  }

  function UpdatePayload(task: TodoItem, noteId: string): Dict {
    [("action", JStr("update")), ("note_id", JStr(noteId)), ("task_id", JInt(task.id)),
     ("title", JStr(NoteTitle(task))), ("note_type", JStr("task_state")), ("tags", NoteTags(task.id)),
     ("content", JStr("请将本轮新增信息补充到任务概览中"))]
  }

  function CreatePayload(task: TodoItem): Dict {
    [("action", JStr("create")), ("task_id", JInt(task.id)), ("title", JStr(NoteTitle(task))),
     ("note_type", JStr("task_state")), ("tags", NoteTags(task.id)),
     ("content", JStr("请记录任务概览、来源概览"))]
  }

  /** The note tool calls the guidance asks for, in the order it asks. */
  function NoteCalls(task: TodoItem): seq<Dict> {
    if HasNote(task) then [ReadPayload(task.noteId.value), UpdatePayload(task, task.noteId.value)]
    else [CreatePayload(task)]
  }

  /** A task with a note is asked to read it and then update it, both by
      its id, the update as a `task_state` note with the task's tags. */
  lemma NoteCallsWithNote(task: TodoItem)
    requires HasNote(task)
    ensures var calls := NoteCalls(task);
            var id := JStr(task.noteId.value);
            |calls| == 2
            && Get(calls[0], "action") == Some(JStr("read")) && Get(calls[0], "note_id") == Some(id)
            && Get(calls[1], "action") == Some(JStr("update")) && Get(calls[1], "note_id") == Some(id)
            && Get(calls[1], "note_type") == Some(JStr("task_state"))
            && Get(calls[1], "tags") == Some(NoteTags(task.id))
  {
    ReadPayloadShape(task.noteId.value);
    UpdatePayloadShape(task, task.noteId.value);
  }

  lemma ReadPayloadShape(id: string)
    ensures Get(ReadPayload(id), "action") == Some(JStr("read"))
    ensures Get(ReadPayload(id), "note_id") == Some(JStr(id))
  {
    GetAt(ReadPayload(id), "action", 0);
    GetAt(ReadPayload(id), "note_id", 1);
  }

  lemma UpdatePayloadShape(task: TodoItem, id: string)
    ensures Get(UpdatePayload(task, id), "action") == Some(JStr("update"))
    ensures Get(UpdatePayload(task, id), "note_id") == Some(JStr(id))
    ensures Get(UpdatePayload(task, id), "note_type") == Some(JStr("task_state"))
    ensures Get(UpdatePayload(task, id), "tags") == Some(NoteTags(task.id))
  {
    var u := UpdatePayload(task, id);
    GetAt(u, "action", 0);
    GetAt(u, "note_id", 1);
    GetAt(u, "note_type", 4);
    GetAt(u, "tags", 5);
  }

  /** A task without a note is asked to create one, with the task's id,
      title and tags and no note id. */
  lemma NoteCallsWithoutNote(task: TodoItem)
    requires !HasNote(task)
    ensures var calls := NoteCalls(task);
            |calls| == 1
            && Get(calls[0], "action") == Some(JStr("create"))
            && Get(calls[0], "task_id") == Some(JInt(task.id))
            && Get(calls[0], "title") == Some(JStr(NoteTitle(task)))
            && Get(calls[0], "tags") == Some(NoteTags(task.id))
            && !HasKey(calls[0], "note_id")
  {
    var c := CreatePayload(task);
    GetAt(c, "action", 0);
    GetAt(c, "task_id", 1);
    GetAt(c, "title", 2);
    GetAt(c, "tags", 4);
    assert forall j :: 0 <= j < |c| ==> c[j].0 != "note_id";
  }

  /** `[TOOL_CALL:note:<payload>]`, the form the agent recognises. */
  function ToolCall(payload: Dict): string {
    "[TOOL_CALL:note:" + Dumps(JObj(payload)) + "]"
  }

  /** The instruction text of the guidance around the calls: the header
      and the text before the first call, between calls, and after the last
      one. */
  function Instructions(task: TodoItem): (r: seq<string>)
    ensures |r| == |NoteCalls(task)| + 2
  {
    if HasNote(task) then
      [Header, NoteIdLine + task.noteId.value + ReadLead, UpdateLead,
       UpdateTail + TagsLead + Dumps(NoteTags(task.id)) + TagsTail]
    else
      [Header, CreateLead, CreateTail]
  }

  const NoteIdLine: string := "- 当前任务笔记 ID："
  const ReadLead: string := "。\n- 在书写总结前必须调用："
  const UpdateLead: string := " 获取最新内容。\n- 完成分析后调用："
  const UpdateTail: string := " 同步增量信息。\n- 更新时保持原有段落结构，新增内容请在对应段落中补充。\n"
  const TagsLead: string := "- 建议 tags 保持为 "
  const TagsTail: string := "，保证其他 Agent 可快速定位。\n- 成功同步到笔记后，再输出面向用户的总结。\n"
  const CreateLead: string := "- 当前任务尚未建立笔记，请先调用："
  const CreateTail: string := "。\n- 创建成功后记录返回的 note_id，并在后续所有更新中复用。\n- 同步笔记后，再输出面向用户的总结。\n"

  /** The tool calls as they are written into the text. */
  function CallTexts(task: TodoItem): (r: seq<string>)
    ensures |r| == |NoteCalls(task)|
    ensures forall k :: 0 <= k < |r| ==> r[k] == ToolCall(NoteCalls(task)[k])
  {
    var calls := NoteCalls(task);
    seq(|calls|, k requires 0 <= k < |calls| => ToolCall(calls[k]))
  }

  /** Text and calls interleaved: `texts[0]`, `texts[1]`, `calls[0]`,
      `texts[2]`, `calls[1]`, ..., the last text. */
  function Weave(texts: seq<string>, calls: seq<string>): (r: seq<string>)
    requires |texts| == |calls| + 2
    ensures |r| == 2 * |calls| + 2
    decreases |calls|
  {
    if |calls| == 0 then texts
    else Weave(texts[..|texts| - 1], calls[..|calls| - 1]) + [calls[|calls| - 1], texts[|texts| - 1]]
  }

  /** Where the `k`-th call sits among the pieces. */
  function CallPart(k: nat): nat {
    2 * k + 2
  }

  /** The pieces keep the calls at every other place, after the header and
      the first instruction, and the texts in between. */
  lemma {:induction false} WeavePlaces(texts: seq<string>, calls: seq<string>)
    requires |texts| == |calls| + 2
    ensures forall k :: 0 <= k < |calls| ==> Weave(texts, calls)[CallPart(k)] == calls[k]
    ensures Weave(texts, calls)[0] == texts[0]
    decreases |calls|
  {
    if |calls| > 0 {
      var init := Weave(texts[..|texts| - 1], calls[..|calls| - 1]);
      WeavePlaces(texts[..|texts| - 1], calls[..|calls| - 1]);
      assert Weave(texts, calls) == init + [calls[|calls| - 1], texts[|texts| - 1]];
      assert forall k :: 0 <= k < |calls| - 1 ==> Weave(texts, calls)[CallPart(k)] == init[CallPart(k)];
    }
  }

  /** `build_note_guidance(task)`: the instructions with the calls spliced
      in. */
  function BuildNoteGuidance(task: TodoItem): (r: string)
    ensures StartsWith(r, Header)
  {
    var parts := Weave(Instructions(task), CallTexts(task));
    WeavePlaces(Instructions(task), CallTexts(task));
    ConcatHasPart(parts, 0);
    assert parts[..0] == [];
    Concat(parts)
  }

  /** Where the `k`-th call sits in the guidance text. */
  function CallAt(task: TodoItem, k: nat): nat
    requires k < |NoteCalls(task)|
  {
    |Concat(Weave(Instructions(task), CallTexts(task))[..CallPart(k)])|
  }

  /** Every call of `NoteCalls` appears in the guidance, in that order. */
  lemma GuidanceEmbedsCalls(task: TodoItem)
    ensures forall k :: 0 <= k < |NoteCalls(task)| ==>
              OccursAt(BuildNoteGuidance(task), ToolCall(NoteCalls(task)[k]), CallAt(task, k))
    ensures forall k :: 0 <= k < |NoteCalls(task)| - 1 ==> CallAt(task, k) < CallAt(task, k + 1)
  {
    var texts, calls := Instructions(task), CallTexts(task);
    var parts := Weave(texts, calls);
    WeavePlaces(texts, calls);
    forall k | 0 <= k < |calls|
      ensures OccursAt(Concat(parts), ToolCall(NoteCalls(task)[k]), CallAt(task, k))
    {
      ConcatHasPart(parts, CallPart(k));
    }
    forall k | 0 <= k < |calls| - 1
      ensures CallAt(task, k) < CallAt(task, k + 1)
    {
      ConcatPrefixGrows(parts, CallPart(k));
      ConcatPrefixGrows(parts, CallPart(k) + 1);
      assert |parts[CallPart(k)]| > 0;
    }
  }
}
