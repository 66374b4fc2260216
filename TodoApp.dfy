/** The page component's wiring of its parts: the form submits to the edit handler
    while a task is being edited and to the add handler otherwise, the form's cancel
    ends the edit, a listed task's edit button hands that task to the form, and each
    render computes the list, the figures and the recent entries. Across all of these
    the page keeps one invariant: the list is well formed, every task has one of the
    form's categories and was created no later than the latest time seen, and the
    form's selects hold one of their options. */
module TodoApp {
  import opened TaskModel
  import opened TaskView
  import opened TaskStore
  import opened TaskForm
  import opened Text

  /** Every task of the list has a listed category and was created no later than `clock`. */
  ghost predicate Settled(ts: seq<Task>, clock: int) {
    forall i :: 0 <= i < |ts| ==> ts[i].category in Categories && ts[i].createdAt <= clock
  }

  lemma SettledAdd(ts: seq<Task>, d: Draft, id: string, clock: int, now: int)
    requires Settled(ts, clock) && clock <= now && d.category in Categories
    ensures Settled([NewTask(d, id, now)] + ts, now)
  {
    var r := [NewTask(d, id, now)] + ts;
    forall i | 0 < i < |r| ensures r[i].category in Categories && r[i].createdAt <= now {
      assert r[i] == ts[i - 1];
    }
  }

  lemma SettledEdit(ts: seq<Task>, snapshot: Task, d: Draft, clock: int, now: int)
    requires Settled(ts, clock) && clock <= now && d.category in Categories && snapshot.createdAt <= clock
    ensures Settled(ReplaceById(ts, snapshot.id, Edited(snapshot, d, now)), now)
  {
  }

  lemma SettledToggle(ts: seq<Task>, id: string, clock: int, now: int)
    requires Settled(ts, clock) && clock <= now
    ensures Settled(ToggleById(ts, id, now), now)
  {
  }

  /** A list made of tasks of a settled list is settled. */
  lemma SettledSubmultiset(a: seq<Task>, b: seq<Task>, clock: int)
    requires Settled(a, clock) && multiset(b) <= multiset(a)
    ensures Settled(b, clock)
  {
    forall i | 0 <= i < |b| ensures b[i].category in Categories && b[i].createdAt <= clock {
      assert b[i] in multiset(a);
      var k :| 0 <= k < |a| && a[k] == b[i];
    }
  }

  /** A new page, the form opened, a title typed and submitted: the page stores exactly
      one task, not completed, with the trimmed title, the id and the time given. */
  method FirstAddExample(title: string, parseDate: string -> int) returns (app: App)
    requires Trim(title) != []
    ensures app.Valid()
    ensures |app.store.tasks| == 1
    ensures app.store.tasks[0].title == Trim(title) && app.store.tasks[0].id == "task-1"
    ensures !app.store.tasks[0].completed && app.store.tasks[0].createdAt == 5
    ensures app.store.tasks[0].category == DefaultCategory && app.store.tasks[0].priority == 1
  {
    app := new App(0);
    app.form.Open();
    app.form.SetTitle(title);
    var draft := app.SubmitForm("task-1", 5, parseDate);
  }

  class App {
    const store: Store
    const form: Form
    /** The latest time any handler has been given; the clock does not run backwards. */
    ghost var clock: int

    /** The page invariant: the store's part, and the form's selects hold one of their
        options (and the form has an `onCancel`). */
    ghost predicate Valid()
      reads this, store, form
    {
      StoreValid() && form.OptionsOnly() && form.hasOnCancel
    }

    /** The list is well formed and settled, and the task being edited, if any, is a
        valid task with a listed category, created no later than the clock. */
    ghost predicate StoreValid()
      reads this, store
    {
      WellFormed(store.tasks) && Settled(store.tasks, clock)
      && (store.editingTask.Some? ==>
            ValidTask(store.editingTask.value) && store.editingTask.value.category in Categories
            && store.editingTask.value.createdAt <= clock)
    }

    constructor (start: int)
      ensures Valid() && fresh(store) && fresh(form) && clock == start
      ensures store.tasks == [] && store.editingTask == None && form.Cleared() && !form.isOpen
    {
      store := new Store();
      form := new Form(true);
      clock := start;
    }

    /** The form's submit, wired to the edit handler while a task is being edited and to
        the add handler otherwise. The draft the form hands over, if any, is the one
        `Form.Submit` describes, and it is valid; no draft changes nothing. */
    method SubmitForm(id: string, now: int, parseDate: string -> int) returns (draft: Option<Draft>)
      requires Valid() && clock <= now && id !in Ids(store.tasks)
      modifies this, store, form
      ensures Valid() && clock == now
      ensures draft == old(form.Submission(store.editingTask, parseDate))
      ensures draft.None? ==> unchanged(form) && store.tasks == old(store.tasks) && store.editingTask == old(store.editingTask)
      ensures draft.Some? ==>
                form.Cleared() && !form.isOpen && !form.Expanded(store.editingTask)
                && ValidDraft(draft.value) && store.editingTask == None
                && store.tasks == match old(store.editingTask)
                                  case Some(s) => ReplaceById(old(store.tasks), s.id, Edited(s, draft.value, now))
                                  case None => [NewTask(draft.value, id, now)] + old(store.tasks)
    {
      ghost var expected := form.Submission(store.editingTask, parseDate);
      draft := form.Submit(store.editingTask, parseDate);
      assert draft == expected;
      Dispatch(draft, id, now);
    }

    /** The store's half of a submit: the draft, if there is one, goes to the edit or
        the add handler; no draft only moves the clock. */
    method Dispatch(draft: Option<Draft>, id: string, now: int)
      requires Valid() && clock <= now && id !in Ids(store.tasks)
      requires draft.Some? ==> ValidDraft(draft.value) && draft.value.category in Categories
      modifies this, store
      ensures Valid() && clock == now && unchanged(form)
      ensures draft.None? ==> unchanged(store)
      ensures draft.Some? ==>
                store.editingTask == None
                && store.tasks == match old(store.editingTask)
                                  case Some(s) => ReplaceById(old(store.tasks), s.id, Edited(s, draft.value, now))
                                  case None => [NewTask(draft.value, id, now)] + old(store.tasks)
    {
      if draft.Some? {
        SubmitDraft(draft.value, id, now);
      } else {
        Advance(now);
      }
    }

    /** Moves the clock forward; nothing else changes. */
    method Advance(now: int)
      requires Valid() && clock <= now
      modifies this
      ensures Valid() && clock == now
      ensures unchanged(store, form)
    {
      clock := now;
    }

    /** The store's half of a submit. */
    method SubmitDraft(d: Draft, id: string, now: int)
      requires Valid() && clock <= now && id !in Ids(store.tasks)
      requires ValidDraft(d) && d.category in Categories
      modifies this, store
      ensures Valid() && clock == now && unchanged(form)
      ensures store.editingTask == None
      ensures store.tasks == match old(store.editingTask)
                             case Some(s) => ReplaceById(old(store.tasks), s.id, Edited(s, d, now))
                             case None => [NewTask(d, id, now)] + old(store.tasks)
    {
      match store.editingTask {
        case Some(s) => SettledEdit(store.tasks, s, d, clock, now);
        case None => SettledAdd(store.tasks, d, id, clock, now);
      }
      store.Submit(d, id, now);
      clock := now;
    }

    /** A task's edit button: the store remembers the task, and the form's effect loads
        it, but only when the task being edited actually changes. */
    method BeginEdit(i: nat, formatDate: int -> string)
      requires Valid() && i < |store.tasks|
      modifies store, form
      ensures Valid()
      ensures store.editingTask == Some(old(store.tasks[i])) && store.tasks == old(store.tasks)
      ensures old(store.editingTask) != Some(old(store.tasks[i])) ==>
                var t := old(store.tasks[i]);
                form.title == t.title && form.description == t.description && form.priority == t.priority
                && form.category == t.category && form.isOpen
                && form.dueDate == (if t.dueDate.Some? then formatDate(t.dueDate.value) else [])
      ensures old(store.editingTask) == Some(old(store.tasks[i])) ==> unchanged(form)
      ensures form.Expanded(store.editingTask)
    {
      var t := store.tasks[i];
      var changed := store.editingTask != Some(t);
      store.EditClick(t);
      if changed {
        form.Load(store.editingTask, formatDate);
      }
    }

    /** The form's cancel: the form is cleared and closed, and the edit ends. */
    method CancelForm()
      requires Valid()
      modifies store, form
      ensures Valid()
      ensures store.editingTask == None && store.tasks == old(store.tasks)
      ensures form.Cleared() && !form.isOpen && !form.Expanded(store.editingTask)
    {
      var notified := form.Cancel();
      if notified {
        store.CancelEdit();
      }
    }

    method ToggleTask(id: string, now: int)
      requires Valid() && clock <= now
      modifies this, store
      ensures Valid() && clock == now
      ensures store.tasks == ToggleById(old(store.tasks), id, now)
      ensures store.editingTask == old(store.editingTask)
    {
      SettledToggle(store.tasks, id, clock, now);
      store.ToggleComplete(id, now);
      clock := now;
    }

    method DeleteTask(id: string)
      requires Valid()
      modifies store
      ensures Valid()
      ensures store.tasks == RemoveById(old(store.tasks), id)
      ensures store.editingTask == old(store.editingTask)
    {
      var r := RemoveById(store.tasks, id);
      assert multiset(r) <= multiset(store.tasks);
      SettledSubmultiset(store.tasks, r, clock);
      store.DeleteTask(id);
    }

    /** A render of the page as written: the list, the figures and the recent entries,
        with the store's list left reordered by the sorts that act on it in place. The
        tasks themselves, the task being edited and the form are untouched, so the page
        stays valid. */
    method RenderInPlace(searchTerm: string, filterBy: FilterOption, sortBy: SortOption)
      returns (view: seq<Task>, stats: Stats, recent: seq<Task>)
      requires Valid()
      modifies store
      ensures Valid()
      ensures view == View(old(store.tasks), searchTerm, filterBy, sortBy)
      ensures stats == StatsOf(old(store.tasks))
      ensures recent == RecentActivity(if searchTerm == [] && filterBy == All then view else old(store.tasks))
      ensures store.tasks == OrderAfterRender(old(store.tasks), searchTerm, filterBy, sortBy)
      ensures store.editingTask == old(store.editingTask)
    {
      ghost var before := store.tasks;
      view, stats, recent := store.Render(searchTerm, filterBy, sortBy);
      SettledSubmultiset(before, store.tasks, clock);
    }

    /** The corrected render, with the sorts applied to copies: the list, the figures
        and the recent entries are functions of the store's list, which it leaves
        alone. */
    method Render(searchTerm: string, filterBy: FilterOption, sortBy: SortOption)
      returns (view: seq<Task>, stats: Stats, recent: seq<Task>)
      requires Valid()
      ensures view == View(store.tasks, searchTerm, filterBy, sortBy)
      ensures stats == StatsOf(store.tasks)
      ensures recent == RecentActivity(store.tasks)
    {
      view, stats, recent := store.RenderCopy(searchTerm, filterBy, sortBy);
    }
  }
}
