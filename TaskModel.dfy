/** The task record and the two view-state enumerations. Dates are milliseconds since
    the epoch, the value Date.prototype.getTime gives. */
module TaskModel {
  import opened Text

  datatype Option<T> = None | Some(value: T)

  /** One to-do item: nine fields, of which only `dueDate` may be absent. */
  datatype Task = Task(
    id: string,
    title: string,
    description: string,
    priority: int,       // documented as a 1-5 scale; the type does not enforce it
    completed: bool,
    createdAt: int,
    updatedAt: int,
    dueDate: Option<int>,
    category: string)

  /** Omit<Task, 'id' | 'createdAt' | 'updatedAt'>: the caller-supplied part of a task,
      which the form submits and the store completes. */
  datatype Draft = Draft(
    title: string,
    description: string,
    priority: int,
    completed: bool,
    dueDate: Option<int>,
    category: string)

  /** The sort keys of the task list. */
  datatype SortOption = Title | Priority | CreatedAt | DueDate | Category

  /** The status filters of the task list; `HighPriority` is 'high-priority'. */
  datatype FilterOption = All | Completed | Pending | HighPriority

  /** The documented priority scale, 1 (low) to 5 (critical). */
  predicate OnPriorityScale(p: int) {
    1 <= p <= 5
  }

  /** What a stored task is meant to satisfy: a title that is not blank, a priority on
      the scale, and an update time no earlier than the creation time. */
  predicate ValidTask(t: Task) {
    Trim(t.title) != [] && OnPriorityScale(t.priority) && t.createdAt <= t.updatedAt
  }

  /** What a submitted draft is meant to satisfy: a title that is not blank and a
      priority on the scale. */
  predicate ValidDraft(d: Draft) {
    Trim(d.title) != [] && OnPriorityScale(d.priority)
  }

  /** The caller-supplied fields of a task. */
  function DraftOf(t: Task): (d: Draft) {
    Draft(t.title, t.description, t.priority, t.completed, t.dueDate, t.category)
  }
}
