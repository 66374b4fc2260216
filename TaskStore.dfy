/** The application's state: the task list and the task being edited, the handlers
    that replace them, and the render step that, as written, reorders the list in
    place. The handlers build new lists with spread, `map` and `filter`; they are the
    functions below, and the Store's methods assign their results. The id generator
    and the clock are parameters. */
module TaskStore {
  import opened TaskModel
  import opened Sequences
  import opened TaskView

  // ---------------------------------------------------------------- one task

  /** The task an add creates: the draft's fields, the generated id, and the current
      time as both its creation and its update time. */
  function NewTask(d: Draft, id: string, now: int): (t: Task)
    ensures DraftOf(t) == d
    ensures t.id == id && t.createdAt == now && t.updatedAt == now
  {
    Task(id, d.title, d.description, d.priority, d.completed, now, now, d.dueDate, d.category)
  }

  /** The task an edit stores: every draft field taken from the draft (an absent due
      date included), the id and creation time kept from the snapshot, and the update
      time set to the current time. */
  function Edited(snapshot: Task, d: Draft, now: int): (t: Task)
    ensures DraftOf(t) == d
    ensures t.id == snapshot.id && t.createdAt == snapshot.createdAt && t.updatedAt == now
  {
    snapshot.(title := d.title, description := d.description, priority := d.priority,
              completed := d.completed, dueDate := d.dueDate, category := d.category,
              updatedAt := now)
  }

  /** A task with its completion flag flipped and its update time set to the current
      time. */
  function Toggled(t: Task, now: int): (r: Task)
    ensures DraftOf(r) == DraftOf(t).(completed := !t.completed)
    ensures r.id == t.id && r.createdAt == t.createdAt && r.updatedAt == now
  {
    t.(completed := !t.completed, updatedAt := now)
  }

  // ---------------------------------------------------------------- the list

  function Ids(ts: seq<Task>): set<string> {
    set t | t in ts :: t.id
  }

  /** No two tasks of the list share an id. */
  predicate UniqueIds(ts: seq<Task>) {
    forall i, j :: 0 <= i < j < |ts| ==> ts[i].id != ts[j].id
  }

  /** The edit's list update: every task with the given id is replaced by `u`, every
      other task stays where and as it is. */
  function ReplaceById(ts: seq<Task>, id: string, u: Task): (r: seq<Task>)
    ensures |r| == |ts|
    ensures forall i :: 0 <= i < |ts| ==> r[i] == if ts[i].id == id then u else ts[i]
  {
    if ts == [] then []
    else [if ts[0].id == id then u else ts[0]] + ReplaceById(ts[1..], id, u)
  }

  /** The toggle's list update: every task with the given id is toggled, every other
      task stays where and as it is. */
  function ToggleById(ts: seq<Task>, id: string, now: int): (r: seq<Task>)
    ensures |r| == |ts|
    ensures forall i :: 0 <= i < |ts| ==> r[i] == if ts[i].id == id then Toggled(ts[i], now) else ts[i]
  {
    if ts == [] then []
    else [if ts[0].id == id then Toggled(ts[0], now) else ts[0]] + ToggleById(ts[1..], id, now)
  }

  /** The delete's list update: exactly the tasks with another id, in their original
      relative order. */
  function RemoveById(ts: seq<Task>, id: string): (r: seq<Task>)
    ensures IsSubsequence(r, ts)
    ensures forall t :: multiset(r)[t] == if t.id != id then multiset(ts)[t] else 0
  {
    FilterIsSubsequence(ts, (t: Task) => t.id != id);
    FilterMultiset(ts, (t: Task) => t.id != id);
    Filter(ts, (t: Task) => t.id != id)
  }

  // ---------------------------------------------------------------- handler properties

  /** Adding with a fresh id keeps ids unique, and the new task is the only one with it. */
  lemma AddKeepsIdsUnique(ts: seq<Task>, d: Draft, id: string, now: int)
    requires UniqueIds(ts) && id !in Ids(ts)
    ensures UniqueIds([NewTask(d, id, now)] + ts)
    ensures Ids([NewTask(d, id, now)] + ts) == Ids(ts) + {id}
  {
    var r := [NewTask(d, id, now)] + ts;
    forall i, j | 0 <= i < j < |r| ensures r[i].id != r[j].id {
      assert r[j] == ts[j - 1];
      if i > 0 {
        assert r[i] == ts[i - 1];
      } else {
        assert ts[j - 1] in ts;
      }
    }
    assert forall t :: t in r <==> t == r[0] || t in ts;
  }

  /** Deleting the task just added gives back the list it was added to. */
  lemma DeleteUndoesAdd(ts: seq<Task>, d: Draft, id: string, now: int)
    requires id !in Ids(ts)
    ensures RemoveById([NewTask(d, id, now)] + ts, id) == ts
  {
    FilterOfCons(NewTask(d, id, now), ts, (t: Task) => t.id != id);
    DeleteMissingIsNoOp(ts, id);
  }

  /** Deleting an id no task has leaves the list unchanged. */
  lemma DeleteMissingIsNoOp(ts: seq<Task>, id: string)
    requires id !in Ids(ts)
    ensures RemoveById(ts, id) == ts
  {
    forall i | 0 <= i < |ts| ensures ts[i].id != id {
      assert ts[i] in ts;
    }
    FilterKeepsAll(ts, (t: Task) => t.id != id);
  }

  /** After a delete no task has the id, every other id is still there, and ids stay
      unique. */
  lemma DeleteSpec(ts: seq<Task>, id: string)
    ensures Ids(RemoveById(ts, id)) == Ids(ts) - {id}
    ensures UniqueIds(ts) ==> UniqueIds(RemoveById(ts, id))
  {
    var r := RemoveById(ts, id);
    forall t ensures t in r <==> t in ts && t.id != id {
      assert t in r <==> multiset(r)[t] > 0;
      assert t in ts <==> multiset(ts)[t] > 0;
    }
    if UniqueIds(ts) {
      SubsequenceKeepsIdsUnique(r, ts);
    }
  }

  lemma {:induction false} SubsequenceKeepsIdsUnique(a: seq<Task>, b: seq<Task>)
    requires IsSubsequence(a, b) && UniqueIds(b)
    ensures UniqueIds(a)
    decreases |b|
  {
    if a != [] {
      assert b != [];
      var b' := b[1..];
      assert UniqueIds(b') by {
        forall i, j | 0 <= i < j < |b'| ensures b'[i].id != b'[j].id {
          assert b'[i] == b[i + 1] && b'[j] == b[j + 1];
        }
      }
      if a[0] == b[0] {
        SubsequenceKeepsIdsUnique(a[1..], b');
        SubsequenceMembers(a[1..], b');
        forall j | 0 < j < |a| ensures a[0].id != a[j].id {
          assert a[j] == a[1..][j - 1];
          assert a[1..][j - 1] in a[1..];
          assert a[j] in b';
          var k :| 0 <= k < |b'| && b'[k] == a[j];
          assert b[k + 1] == a[j];
        }
        forall i, j | 0 <= i < j < |a| ensures a[i].id != a[j].id {
          if i > 0 {
            assert a[i] == a[1..][i - 1] && a[j] == a[1..][j - 1];
          }
        }
      } else {
        SubsequenceKeepsIdsUnique(a, b');
      }
    }
  }

  lemma {:induction false} SubsequenceMembers(a: seq<Task>, b: seq<Task>)
    requires IsSubsequence(a, b)
    ensures forall t :: t in a ==> t in b
    decreases |b|
  {
    if a != [] {
      if a[0] == b[0] {
        SubsequenceMembers(a[1..], b[1..]);
        assert forall t :: t in a ==> t == a[0] || t in a[1..];
      } else {
        SubsequenceMembers(a, b[1..]);
      }
      assert forall t :: t in b[1..] ==> t in b;
    }
  }

  /** Editing keeps the length and every id, so ids stay unique; with no task of the
      snapshot's id it changes nothing. */
  lemma EditSpec(ts: seq<Task>, snapshot: Task, d: Draft, now: int)
    ensures Ids(ReplaceById(ts, snapshot.id, Edited(snapshot, d, now))) == Ids(ts)
    ensures UniqueIds(ts) ==> UniqueIds(ReplaceById(ts, snapshot.id, Edited(snapshot, d, now)))
    ensures snapshot.id !in Ids(ts) ==> ReplaceById(ts, snapshot.id, Edited(snapshot, d, now)) == ts
  {
    var r := ReplaceById(ts, snapshot.id, Edited(snapshot, d, now));
    assert forall i :: 0 <= i < |ts| ==> r[i].id == ts[i].id;
    SameIdsPointwise(ts, r);
    if snapshot.id !in Ids(ts) {
      forall i | 0 <= i < |ts| ensures r[i] == ts[i] {
        assert ts[i] in ts;
      }
    }
  }

  /** Two lists of the same length with the same id at every position have the same
      id set. */
  lemma SameIdsPointwise(a: seq<Task>, b: seq<Task>)
    requires |a| == |b| && forall i :: 0 <= i < |a| ==> a[i].id == b[i].id
    ensures Ids(a) == Ids(b)
  {
    forall x | x in Ids(a) ensures x in Ids(b) {
      var t :| t in a && t.id == x;
      var i :| 0 <= i < |a| && a[i] == t;
      assert b[i] in b;
    }
    forall x | x in Ids(b) ensures x in Ids(a) {
      var t :| t in b && t.id == x;
      var i :| 0 <= i < |b| && b[i] == t;
      assert a[i] in a;
    }
  }

  /** Toggling keeps the length and every id; with no task of that id it changes nothing. */
  lemma ToggleSpec(ts: seq<Task>, id: string, now: int)
    ensures Ids(ToggleById(ts, id, now)) == Ids(ts)
    ensures UniqueIds(ts) ==> UniqueIds(ToggleById(ts, id, now))
    ensures id !in Ids(ts) ==> ToggleById(ts, id, now) == ts
  {
    var r := ToggleById(ts, id, now);
    SameIdsPointwise(ts, r);
    if id !in Ids(ts) {
      forall i | 0 <= i < |ts| ensures r[i] == ts[i] {
        assert ts[i] in ts;
      }
    }
  }

  /** Toggling twice gives every task its completion flag back; the matching tasks
      keep the time of the second toggle. */
  lemma ToggleTwice(ts: seq<Task>, id: string, first: int, second: int)
    ensures ToggleById(ToggleById(ts, id, first), id, second) ==
            ReplaceUpdatedAt(ts, id, second)
  {
    var r := ToggleById(ToggleById(ts, id, first), id, second);
    assert forall i :: 0 <= i < |ts| ==> r[i] == ReplaceUpdatedAt(ts, id, second)[i];
  }

  /** The list with `updatedAt` set to `now` on the tasks of the given id. */
  function ReplaceUpdatedAt(ts: seq<Task>, id: string, now: int): (r: seq<Task>)
    ensures |r| == |ts|
    ensures forall i :: 0 <= i < |ts| ==> r[i] == if ts[i].id == id then ts[i].(updatedAt := now) else ts[i]
  {
    if ts == [] then []
    else [if ts[0].id == id then ts[0].(updatedAt := now) else ts[0]] + ReplaceUpdatedAt(ts[1..], id, now)
  }

  // ---------------------------------------------------------------- the record invariants

  /** What every stored list is meant to satisfy: unique ids, and every task valid. */
  ghost predicate WellFormed(ts: seq<Task>) {
    UniqueIds(ts) && forall i :: 0 <= i < |ts| ==> ValidTask(ts[i])
  }

  /** No task of the list was created after `now`: the clock does not run backwards. */
  ghost predicate NotAfter(ts: seq<Task>, now: int) {
    forall i :: 0 <= i < |ts| ==> ts[i].createdAt <= now
  }

  /** Adding a valid draft under a fresh id keeps the record invariants. */
  lemma AddKeepsWellFormed(ts: seq<Task>, d: Draft, id: string, now: int)
    requires WellFormed(ts) && ValidDraft(d) && id !in Ids(ts)
    ensures WellFormed([NewTask(d, id, now)] + ts)
  {
    AddKeepsIdsUnique(ts, d, id, now);
    var r := [NewTask(d, id, now)] + ts;
    forall i | 0 <= i < |r|
      ensures ValidTask(r[i])
    {
      if i > 0 {
        assert r[i] == ts[i - 1];
      }
    }
  }

  /** Editing with a valid draft, at a time no earlier than the snapshot's creation,
      keeps the record invariants. */
  lemma EditKeepsWellFormed(ts: seq<Task>, snapshot: Task, d: Draft, now: int)
    requires WellFormed(ts) && ValidDraft(d) && snapshot.createdAt <= now
    ensures WellFormed(ReplaceById(ts, snapshot.id, Edited(snapshot, d, now)))
  {
    EditSpec(ts, snapshot, d, now);
    var u := Edited(snapshot, d, now);
    var r := ReplaceById(ts, snapshot.id, u);
    assert ValidTask(u);
    forall i | 0 <= i < |r|
      ensures ValidTask(r[i])
    {
      assert r[i] == if ts[i].id == snapshot.id then u else ts[i];
    }
  }

  /** Toggling at a time no earlier than any creation keeps the record invariants. */
  lemma ToggleKeepsWellFormed(ts: seq<Task>, id: string, now: int)
    requires WellFormed(ts) && NotAfter(ts, now)
    ensures WellFormed(ToggleById(ts, id, now))
  {
    ToggleSpec(ts, id, now);
  }

  /** Deleting keeps the record invariants. */
  lemma DeleteKeepsWellFormed(ts: seq<Task>, id: string)
    requires WellFormed(ts)
    ensures WellFormed(RemoveById(ts, id))
  {
    DeleteSpec(ts, id);
    var r := RemoveById(ts, id);
    SubsequenceMembers(r, ts);
    forall i | 0 <= i < |r|
      ensures ValidTask(r[i])
    {
      assert r[i] in r;
      var k :| 0 <= k < |ts| && ts[k] == r[i];
    }
  }

  /** Reordering a list keeps the record invariants: they are about which tasks there
      are, not where. */
  lemma PermutationKeepsWellFormed(a: seq<Task>, b: seq<Task>)
    requires multiset(a) == multiset(b) && WellFormed(a)
    ensures WellFormed(b)
  {
    PermutationKeepsIdsUnique(a, b);
    forall i | 0 <= i < |b| ensures ValidTask(b[i]) {
      assert b[i] in multiset(a);
      var k :| 0 <= k < |a| && a[k] == b[i];
    }
  }

  lemma {:induction false} PermutationKeepsIdsUnique(a: seq<Task>, b: seq<Task>)
    requires multiset(a) == multiset(b) && UniqueIds(a)
    ensures UniqueIds(b)
    decreases |a|
  {
    if a != [] {
      var x, rest := a[0], a[1..];
      assert x in multiset(b);
      var k :| 0 <= k < |b| && b[k] == x;
      var pre, post := b[..k], b[k + 1..];
      RemoveMatching(a, b, k);
      UniqueIdsTail(a);
      PermutationKeepsIdsUnique(rest, pre + post);
      HeadIdNotInTail(a, pre + post);
      InsertKeepsIdsUnique(pre, x, post);
      assert b == pre + [x] + post;
    }
  }

  /** Taking the same task out of two permutations leaves two permutations. */
  lemma RemoveMatching(a: seq<Task>, b: seq<Task>, k: nat)
    requires multiset(a) == multiset(b) && a != [] && k < |b| && b[k] == a[0]
    ensures multiset(b[..k] + b[k + 1..]) == multiset(a[1..])
  {
    assert b == b[..k] + [b[k]] + b[k + 1..];
    assert a == [a[0]] + a[1..];
    assert multiset(b) == multiset(b[..k]) + multiset{b[k]} + multiset(b[k + 1..]);
    assert multiset(a) == multiset{a[0]} + multiset(a[1..]);
    assert multiset(b[..k] + b[k + 1..]) == multiset(b[..k]) + multiset(b[k + 1..]);
    assert multiset(a[1..]) == multiset(a) - multiset{a[0]};
    assert multiset(b[..k]) + multiset(b[k + 1..]) == multiset(b) - multiset{b[k]};
  }

  lemma UniqueIdsTail(a: seq<Task>)
    requires a != [] && UniqueIds(a)
    ensures UniqueIds(a[1..])
  {
    forall i, j | 0 <= i < j < |a[1..]| ensures a[1..][i].id != a[1..][j].id {
      assert a[1..][i] == a[i + 1] && a[1..][j] == a[j + 1];
    }
  }

  /** In a list with unique ids the head's id is not in any permutation of the tail. */
  lemma HeadIdNotInTail(a: seq<Task>, r: seq<Task>)
    requires a != [] && UniqueIds(a) && multiset(r) == multiset(a[1..])
    ensures forall i :: 0 <= i < |r| ==> r[i].id != a[0].id
  {
    forall i | 0 <= i < |r| ensures r[i].id != a[0].id {
      assert r[i] in multiset(a[1..]);
      var l :| 0 <= l < |a[1..]| && a[1..][l] == r[i];
      assert a[l + 1] == r[i];
    }
  }

  /** Putting a task whose id no other task has into a list with unique ids keeps them
      unique. */
  lemma InsertKeepsIdsUnique(pre: seq<Task>, x: Task, post: seq<Task>)
    requires UniqueIds(pre + post)
    requires forall i :: 0 <= i < |pre + post| ==> (pre + post)[i].id != x.id
    ensures UniqueIds(pre + [x] + post)
  {
    var b, r, k := pre + [x] + post, pre + post, |pre|;
    forall i, j | 0 <= i < j < |b| ensures b[i].id != b[j].id {
      if i == k {
        assert b[j] == r[j - 1];
      } else if j == k {
        assert b[i] == r[i];
      } else {
        var i' := if i < k then i else i - 1;
        var j' := if j < k then j else j - 1;
        assert b[i] == r[i'] && b[j] == r[j'];
      }
    }
  }

  // ---------------------------------------------------------------- the render's side effect

  /** The store's list after one render as written: when the search term is empty and
      the filter is All, the display sort runs on the store's own array, and then the
      Recent Activity panel sorts that array by last update. */
  function OrderAfterRender(ts: seq<Task>, term: string, f: FilterOption, sortBy: SortOption): (r: seq<Task>)
    ensures multiset(r) == multiset(ts)
  {
    var shared := if term == [] && f == All then View(ts, term, f, sortBy) else ts;
    assert multiset(shared) == multiset(ts) by {
      if term == [] && f == All {
        ViewSpec(ts, term, f, sortBy);
      }
    }
    if shared == [] then shared else SortBy(shared, RecentOrder)
  }

  /** A render reorders the store's list: two tasks in the order added, the older
      update first, come out of any render with a search term swapped. */
  lemma RenderReordersList(a: Task, b: Task, term: string, f: FilterOption, sortBy: SortOption)
    requires a.updatedAt < b.updatedAt && term != []
    ensures OrderAfterRender([a, b], term, f, sortBy) == [b, a]
    ensures OrderAfterRender([a, b], term, f, sortBy) != [a, b]
  {
    assert SortBy([b], RecentOrder) == [b];
    assert [a, b][1..] == [b];
    assert Insert(a, [b], RecentOrder) == [b] + Insert(a, [], RecentOrder);
  }

  // ---------------------------------------------------------------- the store

  class Store {
    /** The task list: an add puts the new task in front, and a render as written
        reorders it (see `Render`). */
    var tasks: seq<Task>
    /** The snapshot of the task being edited, if any. */
    var editingTask: Option<Task>

    /** Starts empty with nothing being edited; loading the saved list is not modelled. */
    constructor ()
      ensures tasks == [] && editingTask == None
    {
      tasks := [];
      editingTask := None;
    }

    /** handleAddTask: the new task goes in front. */
    method AddTask(d: Draft, id: string, now: int)
      requires id !in Ids(tasks)
      modifies this
      ensures tasks == [NewTask(d, id, now)] + old(tasks)
      ensures |tasks| == |old(tasks)| + 1 && tasks[1..] == old(tasks)
      ensures UniqueIds(old(tasks)) ==> UniqueIds(tasks)
      ensures WellFormed(old(tasks)) && ValidDraft(d) ==> WellFormed(tasks)
      ensures editingTask == old(editingTask)
    {
      if UniqueIds(tasks) {
        AddKeepsIdsUnique(tasks, d, id, now);
      }
      if WellFormed(tasks) && ValidDraft(d) {
        AddKeepsWellFormed(tasks, d, id, now);
      }
      tasks := [NewTask(d, id, now)] + tasks;
    }

    /** handleEditTask: nothing happens with no task being edited; otherwise every task
        with the snapshot's id becomes the snapshot overlaid with the draft, and the
        edit ends. */
    method EditTask(d: Draft, now: int)
      modifies this
      ensures old(editingTask).None? ==> tasks == old(tasks) && editingTask == old(editingTask)
      ensures old(editingTask).Some? ==>
                tasks == ReplaceById(old(tasks), old(editingTask).value.id, Edited(old(editingTask).value, d, now))
                && editingTask == None
      ensures |tasks| == |old(tasks)| && (UniqueIds(old(tasks)) ==> UniqueIds(tasks))
      ensures WellFormed(old(tasks)) && ValidDraft(d) && (old(editingTask).Some? ==> old(editingTask).value.createdAt <= now)
              ==> WellFormed(tasks)
    {
      if editingTask.None? {
        return;
      }
      var snapshot := editingTask.value;
      EditSpec(tasks, snapshot, d, now);
      if WellFormed(tasks) && ValidDraft(d) && snapshot.createdAt <= now {
        EditKeepsWellFormed(tasks, snapshot, d, now);
      }
      tasks := ReplaceById(tasks, snapshot.id, Edited(snapshot, d, now));
      editingTask := None;
    }

    /** handleDeleteTask. */
    method DeleteTask(id: string)
      modifies this
      ensures tasks == RemoveById(old(tasks), id)
      ensures Ids(tasks) == Ids(old(tasks)) - {id}
      ensures UniqueIds(old(tasks)) ==> UniqueIds(tasks)
      ensures WellFormed(old(tasks)) ==> WellFormed(tasks)
      ensures editingTask == old(editingTask)
    {
      DeleteSpec(tasks, id);
      if WellFormed(tasks) {
        DeleteKeepsWellFormed(tasks, id);
      }
      tasks := RemoveById(tasks, id);
    }

    /** handleToggleComplete. */
    method ToggleComplete(id: string, now: int)
      modifies this
      ensures tasks == ToggleById(old(tasks), id, now)
      ensures |tasks| == |old(tasks)| && (UniqueIds(old(tasks)) ==> UniqueIds(tasks))
      ensures WellFormed(old(tasks)) && NotAfter(old(tasks), now) ==> WellFormed(tasks)
      ensures editingTask == old(editingTask)
    {
      ToggleSpec(tasks, id, now);
      if WellFormed(tasks) && NotAfter(tasks, now) {
        ToggleKeepsWellFormed(tasks, id, now);
      }
      tasks := ToggleById(tasks, id, now);
    }

    /** handleEditClick: remembers a snapshot of the task. */
    method EditClick(t: Task)
      modifies this
      ensures editingTask == Some(t) && tasks == old(tasks)
    {
      editingTask := Some(t);
    }

    /** handleCancelEdit. */
    method CancelEdit()
      modifies this
      ensures editingTask == None && tasks == old(tasks)
    {
      editingTask := None;
    }

    /** The form's submit handler: an edit while a task is being edited, an add
        otherwise. */
    method Submit(d: Draft, id: string, now: int)
      requires id !in Ids(tasks)
      modifies this
      ensures old(editingTask).Some? ==>
                tasks == ReplaceById(old(tasks), old(editingTask).value.id, Edited(old(editingTask).value, d, now))
                && editingTask == None
      ensures old(editingTask).None? ==> tasks == [NewTask(d, id, now)] + old(tasks) && editingTask == None
      ensures UniqueIds(old(tasks)) ==> UniqueIds(tasks)
      ensures WellFormed(old(tasks)) && ValidDraft(d) && (old(editingTask).Some? ==> old(editingTask).value.createdAt <= now)
              ==> WellFormed(tasks)
    {
      if editingTask.Some? {
        EditTask(d, now);
      } else {
        AddTask(d, id, now);
      }
    }

    /** One render of the page as written. It returns the displayed list, the Quick
        Stats figures and the Recent Activity entries, and leaves the store's list in
        the order `OrderAfterRender` gives: the tasks themselves never change. */
    method Render(searchTerm: string, filterBy: FilterOption, sortBy: SortOption)
      returns (view: seq<Task>, stats: Stats, recent: seq<Task>)
      modifies this
      ensures view == View(old(tasks), searchTerm, filterBy, sortBy)
      ensures stats == StatsOf(old(tasks))
      ensures recent == RecentActivity(if searchTerm == [] && filterBy == All then view else old(tasks))
      ensures tasks == OrderAfterRender(old(tasks), searchTerm, filterBy, sortBy)
      ensures multiset(tasks) == multiset(old(tasks)) && editingTask == old(editingTask)
      ensures WellFormed(old(tasks)) ==> WellFormed(tasks)
    {
      view := View(tasks, searchTerm, filterBy, sortBy);
      if searchTerm == [] && filterBy == All {
        tasks := view;
      }
      StatsPermutation(tasks, old(tasks));
      stats := StatsOf(tasks);
      recent := RecentActivity(tasks);
      if tasks != [] {
        tasks := SortBy(tasks, RecentOrder);
      }
      if WellFormed(old(tasks)) {
        PermutationKeepsWellFormed(old(tasks), tasks);
      }
    }

    /** One render with the sorts applied to copies of the list: the same three results,
        computed from the list as it is, and the store left alone. */
    method RenderCopy(searchTerm: string, filterBy: FilterOption, sortBy: SortOption)
      returns (view: seq<Task>, stats: Stats, recent: seq<Task>)
      ensures view == View(tasks, searchTerm, filterBy, sortBy)
      ensures stats == StatsOf(tasks)
      ensures recent == RecentActivity(tasks)
    {
      view := View(tasks, searchTerm, filterBy, sortBy);
      stats := StatsOf(tasks);
      recent := if tasks == [] then [] else RecentActivity(tasks);
    }
  }
}
