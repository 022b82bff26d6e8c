/** The final report (backend/src/services/reporter.py): the prompt that
    hands every task's outcome and notes to the reporting agent, and the
    clean-up of its reply. The agent itself is not part of this model: its
    reply is a parameter. */
module Reporter {
  import opened Wrappers
  import opened Text
  import opened PyJson
  import opened Models
  import opened Notes
  import opened Utils
  import opened Summarizer

  const NoSources: string := "暂无来源"
  const NoNotes: string := "- 暂无可用任务笔记"
  const ReportFailed: string := "报告生成失败，请检查输入。"
  const ReportTitlePrefix: string := "研究报告"

  /* ---------------------------------------------------------------- */
  /* Task blocks                                                      */
  /* ---------------------------------------------------------------- */

  /** The pieces of one task's block: its heading and fields, the summary
      (or the fallback), a label, the sources (or the fallback), a line
      end. */
  function BlockParts(task: TodoItem): seq<string> {
    ["### 任务 " + Decimal(task.id) + ": " + task.title + "\n"
     + "- 任务目标：" + task.intent + "\n"
     + "- 检索查询：" + task.query + "\n"
     + "- 执行状态：" + task.status + "\n"
     + "- 任务总结：\n",
     OrElse(task.summary, NoInformation),
     "\n- 来源概览：\n",
     OrElse(task.sourcesSummary, NoSources),
     "\n"]
  }

  function TaskBlock(task: TodoItem): string {
    Concat(BlockParts(task))
  }

  /** A block always shows a summary and a source overview: the task's own
      when it has a non-empty one, the fallback text otherwise. */
  lemma TaskBlockShowsOutcome(task: TodoItem)
    ensures var parts := BlockParts(task);
            OccursAt(TaskBlock(task), parts[1], PartAt(parts, 1))
            && OccursAt(TaskBlock(task), parts[3], PartAt(parts, 3))
            && parts[1] != "" && parts[3] != ""
            && (task.summary.Some? && task.summary.value != "" ==> parts[1] == task.summary.value)
            && (task.summary.None? || task.summary == Some("") ==> parts[1] == NoInformation)
            && (task.sourcesSummary.Some? && task.sourcesSummary.value != "" ==> parts[3] == task.sourcesSummary.value)
            && (task.sourcesSummary.None? || task.sourcesSummary == Some("") ==> parts[3] == NoSources)
  {
    PartsInOrder(BlockParts(task));
  }

  /** The task overview: one block per task, in task order. */
  function TaskBlocks(tasks: seq<TodoItem>): (r: seq<string>)
    ensures |r| == |tasks|
    ensures forall i :: 0 <= i < |tasks| ==> r[i] == TaskBlock(tasks[i])
  {
    seq(|tasks|, i requires 0 <= i < |tasks| => TaskBlock(tasks[i]))
  }

  /** Every task's block sits in the overview, each after the one before. */
  lemma OverviewInOrder(tasks: seq<TodoItem>)
    ensures var blocks := TaskBlocks(tasks);
            (forall i :: 0 <= i < |tasks| ==> OccursAt(Concat(blocks), TaskBlock(tasks[i]), PartAt(blocks, i)))
            && (forall i :: 0 <= i < |tasks| ==> PartAt(blocks, i) < PartAt(blocks, i + 1))
  {
    var blocks := TaskBlocks(tasks);
    PartsInOrder(blocks);
    forall i | 0 <= i < |tasks|
      ensures |blocks[i]| > 0
    {
      PartsInOrder(BlockParts(tasks[i]));
      assert |BlockParts(tasks[i])[4]| == 1;
      assert PartAt(BlockParts(tasks[i]), 5) <= |TaskBlock(tasks[i])|;
    }
  }

  /* ---------------------------------------------------------------- */
  /* Note references                                                  */
  /* ---------------------------------------------------------------- */

  /** `- 任务 <id>《<title>》：note_id=<note_id>`. */
  function NoteReference(task: TodoItem): string
    requires HasNote(task)
  {
    "- 任务 " + Decimal(task.id) + "《" + task.title + "》：note_id=" + task.noteId.value
  }

  /** The references of the tasks that have a note, in task order. */
  function NoteReferences(tasks: seq<TodoItem>): (r: seq<string>)
    ensures |r| <= |tasks|
  {
    if |tasks| == 0 then []
    else
      var init, last := tasks[..|tasks| - 1], tasks[|tasks| - 1];
      NoteReferences(init) + (if HasNote(last) then [NoteReference(last)] else [])
  }

  /** How many tasks have a note. */
  function CountNoted(tasks: seq<TodoItem>): nat {
    if |tasks| == 0 then 0
    else CountNoted(tasks[..|tasks| - 1]) + (if HasNote(tasks[|tasks| - 1]) then 1 else 0)
  }

  /** `line` is the reference of one of the tasks that have a note. */
  predicate RefersToNoted(tasks: seq<TodoItem>, line: string) {
    exists i | 0 <= i < |tasks| :: HasNote(tasks[i]) && line == NoteReference(tasks[i])
  }

  /** One reference per task with a note, and every reference is the
      reference of such a task. */
  lemma {:induction false} ReferencesMatchNoted(tasks: seq<TodoItem>)
    ensures |NoteReferences(tasks)| == CountNoted(tasks)
    ensures forall k :: 0 <= k < |NoteReferences(tasks)| ==> RefersToNoted(tasks, NoteReferences(tasks)[k])
  {
    if |tasks| > 0 {
      var init, last := tasks[..|tasks| - 1], tasks[|tasks| - 1];
      ReferencesMatchNoted(init);
      var r := NoteReferences(tasks);
      forall k | 0 <= k < |r|
        ensures RefersToNoted(tasks, r[k])
      {
        if k < |NoteReferences(init)| {
          var i :| 0 <= i < |init| && HasNote(init[i]) && NoteReferences(init)[k] == NoteReference(init[i]);
          assert tasks[i] == init[i] && r[k] == NoteReferences(init)[k];
        } else {
          assert HasNote(last) && r[k] == NoteReference(last);
          assert tasks[|tasks| - 1] == last;
        }
      }
    }
  }

  /** No task has a note exactly when the count is zero. */
  lemma {:induction false} NoneNoted(tasks: seq<TodoItem>)
    ensures CountNoted(tasks) == 0 <==> forall i :: 0 <= i < |tasks| ==> !HasNote(tasks[i])
  {
    if |tasks| > 0 {
      var init := tasks[..|tasks| - 1];
      NoneNoted(init);
      assert forall i :: 0 <= i < |init| ==> init[i] == tasks[i];
    }
  }

  /** The notes section: the references one per line, or the fallback. */
  function NotesSection(tasks: seq<TodoItem>): string {
    var refs := NoteReferences(tasks);
    if refs != [] then Join("\n", refs) else NoNotes
  }

  /** The fallback line appears exactly when no task has a note. */
  lemma NotesSectionFallback(tasks: seq<TodoItem>)
    ensures NotesSection(tasks) == NoNotes <==> forall i :: 0 <= i < |tasks| ==> !HasNote(tasks[i])
  {
    ReferencesMatchNoted(tasks);
    NoneNoted(tasks);
    var refs := NoteReferences(tasks);
    if refs != [] {
      JoinStartsWithFirst(refs);
      assert RefersToNoted(tasks, refs[0]);
      var i :| 0 <= i < |tasks| && HasNote(tasks[i]) && refs[0] == NoteReference(tasks[i]);
      assert refs[0][2] == '任' != NoNotes[2];
    }
  }

  /** A join starts with its first part. */
  lemma {:induction false} JoinStartsWithFirst(parts: seq<string>)
    requires |parts| > 0
    ensures StartsWith(Join("\n", parts), parts[0])
  {
    if |parts| > 1 {
      JoinStartsWithFirst(parts[..|parts| - 1]);
      var j := Join("\n", parts[..|parts| - 1]);
      assert Join("\n", parts) == j + "\n" + parts[|parts| - 1];
      assert Join("\n", parts)[..|parts[0]|] == j[..|parts[0]|];
    }
  }

  /* ---------------------------------------------------------------- */
  /* The prompt                                                       */
  /* ---------------------------------------------------------------- */

  /** The placeholder the example read call carries. */
  const NotePlaceholder: string := "<note_id>"

  /** The read call the prompt shows as an example. */
  function ReadTemplate(noteId: string): Dict {
    [("action", JStr("read")), ("note_id", JStr(noteId))]
  }

  /** The note the reporting agent may create for its conclusions. */
  function ConclusionTemplate(topic: string): Dict {
    [("action", JStr("create")), ("title", JStr(ReportTitlePrefix + "：" + topic)),
     ("note_type", JStr("conclusion")), ("tags", JArr([JStr("deep_research"), JStr("report")])),
     ("content", JStr("请在此沉淀最终报告要点"))]
  }

  /** The conclusion note is titled after the topic, typed `conclusion` and
      tagged as the report of a deep research run. */
  lemma ConclusionTemplateShape(topic: string)
    ensures Get(ConclusionTemplate(topic), "action") == Some(JStr("create"))
    ensures Get(ConclusionTemplate(topic), "note_type") == Some(JStr("conclusion"))
    ensures match Get(ConclusionTemplate(topic), "title")
            case Some(JStr(t)) => StartsWith(t, ReportTitlePrefix) && EndsWith(t, topic)
            case _ => false
    ensures Get(ConclusionTemplate(topic), "tags") == Some(JArr([JStr("deep_research"), JStr("report")]))
  {
    var d := ConclusionTemplate(topic);
    GetAt(d, "action", 0);
    GetAt(d, "title", 1);
    GetAt(d, "note_type", 2);
    GetAt(d, "tags", 3);
  }

  /** The five sections of the prompt, in order: the topic line, the task
      overview, the notes, how to read notes, how to save a conclusion.
      `readCall` and `saveCall` are the two example tool calls. */
  function PromptSections(topic: string, tasks: seq<TodoItem>, readCall: string, saveCall: string): (r: seq<string>)
    ensures |r| == 5 && r[0] != "" && r[1] != "" && r[2] != "" && r[3] != ""
  {
    ["研究主题：" + topic + "\n",
     "任务概览：\n" + Concat(TaskBlocks(tasks)) + "\n",
     "可用任务笔记：\n" + NotesSection(tasks) + "\n",
     "请针对每条任务笔记使用格式：" + readCall + " 读取内容，整合所有信息后撰写报告。\n",
     "如需输出汇总结论，可追加调用：" + saveCall + " 保存报告要点。"]
  }

  /** The prompt `generate_report` hands to the agent. */
  function ReportPrompt(topic: string, tasks: seq<TodoItem>): string {
    Concat(PromptSections(topic, tasks, ToolCall(ReadTemplate(NotePlaceholder)), ToolCall(ConclusionTemplate(topic))))
  }

  /** The prompt holds its sections one after another, starting with the
      topic line, whatever the example calls are. */
  lemma PromptInOrder(topic: string, tasks: seq<TodoItem>, readCall: string, saveCall: string)
    ensures var sections := PromptSections(topic, tasks, readCall, saveCall);
            var prompt := Concat(sections);
            StartsWith(prompt, "研究主题：" + topic + "\n")
            && (forall k :: 0 <= k < 5 ==> OccursAt(prompt, sections[k], PartAt(sections, k)))
            && (forall k :: 0 <= k < 4 ==> PartAt(sections, k) < PartAt(sections, k + 1))
  {
    var sections := PromptSections(topic, tasks, readCall, saveCall);
    assert forall k :: 0 <= k < 4 ==> sections[k] != "" by {
      assert sections[0] != "" && sections[1] != "" && sections[2] != "" && sections[3] != "";
    }
    PartsInOrder(sections);
    PartsAdvance(sections);
  }

  /* ---------------------------------------------------------------- */
  /* The reply                                                        */
  /* ---------------------------------------------------------------- */

  /** `generate_report` once the agent has replied with `response`. */
  function GenerateReport(response: string, removeThinking: bool, stripToolCalls: string -> string): (r: string)
    ensures r != ""
    ensures r == ReportFailed || Tight(r, PyWhitespace)
  {
    var text := CleanReply(response, removeThinking, stripToolCalls);
    if text == "" then ReportFailed else text
  }

  /** The failure text stands in exactly for a reply that is blank once
      cleaned; any other reply is the report. */
  lemma ReportFallback(response: string, removeThinking: bool, stripToolCalls: string -> string)
    ensures CleanReply(response, removeThinking, stripToolCalls) == "" ==>
              GenerateReport(response, removeThinking, stripToolCalls) == ReportFailed
    ensures CleanReply(response, removeThinking, stripToolCalls) != "" ==>
              GenerateReport(response, removeThinking, stripToolCalls) == CleanReply(response, removeThinking, stripToolCalls)
    ensures removeThinking && (forall t :: stripToolCalls(t) == t) ==>
              !HasBlock(GenerateReport(response, removeThinking, stripToolCalls))
  {
    if removeThinking && (forall t :: stripToolCalls(t) == t) {
      CleanReplyHasNoThinkBlock(response, stripToolCalls);
      forall i | 0 <= i <= |ReportFailed|
        ensures !OccursAt(ReportFailed, OpenTag, i)
      {
        if i + |OpenTag| <= |ReportFailed| {
          assert ReportFailed[i..i + |OpenTag|][0] == ReportFailed[i] != '<';
        }
      }
    }
  }
}
