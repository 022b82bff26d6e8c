/** The research workflow's records (backend/src/models.py): one planned
    task, and the parts of the run's state the modelled code reads. */
module Models {
  import opened Wrappers

  /** `TodoItem`. */
  datatype TodoItem = TodoItem(
    id: int,
    title: string,
    intent: string,
    query: string,
    status: string,
    summary: Option<string>,
    sourcesSummary: Option<string>,
    notices: seq<string>,
    noteId: Option<string>,
    notePath: Option<string>,
    streamToken: Option<string>)

  /** A task as the planner creates it: every optional field at its
      default. */
  function NewTodo(id: int, title: string, intent: string, query: string): TodoItem {
    TodoItem(id, title, intent, query, "pending", None, None, [], None, None, None)
  }

  /** What a finished run reports: `SummaryStateOutput`. */
  datatype RunOutput = RunOutput(
    runningSummary: Option<string>,
    reportMarkdown: Option<string>,
    todoItems: seq<TodoItem>)
}
