/** The derived task list (search, then status filter, then sort) and the summary
    figures of the sidebar, all computed from the store's list without changing it. */
module TaskView {
  import opened TaskModel
  import opened Sequences
  import opened Text

  // ---------------------------------------------------------------- search

  /** The search test: the lower-cased term occurs in the lower-cased title,
      description or category. */
  predicate Matches(t: Task, term: string)
    ensures term == [] ==> Matches(t, term)
    ensures Matches(t, term) ==> |term| <= |t.title| || |term| <= |t.description| || |term| <= |t.category|
  {
    Contains(Lower(t.title), Lower(term))
    || Contains(Lower(t.description), Lower(term))
    || Contains(Lower(t.category), Lower(term))
  }

  /** The search step: skipped for the empty term, otherwise a filter by `Matches`. */
  function Search(ts: seq<Task>, term: string): (r: seq<Task>)
    ensures IsSubsequence(r, ts)
    ensures forall t :: multiset(r)[t] == if term == [] || Matches(t, term) then multiset(ts)[t] else 0
  {
    if term == [] then
      SubsequenceReflexive(ts);
      ts
    else
      FilterIsSubsequence(ts, t => Matches(t, term));
      FilterMultiset(ts, t => Matches(t, term));
      Filter(ts, t => Matches(t, term))
  }

  /** Skipping the search for the empty term changes nothing: every task matches it. */
  lemma SearchEmptyTermIsFilter(ts: seq<Task>)
    ensures Search(ts, []) == Filter(ts, t => Matches(t, []))
  {
    forall i | 0 <= i < |ts| ensures Matches(ts[i], []) {
      ContainsEmpty(Lower(ts[i].title));
    }
    FilterKeepsAll(ts, t => Matches(t, []));
  }

  /** Searching for the same term again keeps everything. */
  lemma SearchIdempotent(ts: seq<Task>, term: string)
    ensures Search(Search(ts, term), term) == Search(ts, term)
  {
    if term != [] {
      FilterIdempotent(ts, t => Matches(t, term));
    }
  }

  // ---------------------------------------------------------------- status filter

  predicate IsCompleted(t: Task) { t.completed }
  predicate IsPending(t: Task) { !t.completed }
  predicate IsHighPriority(t: Task) { t.priority >= 4 }

  /** Which tasks each status filter shows. */
  predicate Shows(f: FilterOption, t: Task) {
    match f
    case All => true
    case Completed => t.completed
    case Pending => !t.completed
    case HighPriority => t.priority >= 4
  }

  /** The status step. */
  function StatusFilter(ts: seq<Task>, f: FilterOption): (r: seq<Task>)
    ensures IsSubsequence(r, ts) && |r| <= |ts|
    ensures forall t :: multiset(r)[t] == if Shows(f, t) then multiset(ts)[t] else 0
    ensures f == All ==> r == ts
  {
    match f
    case All => SubsequenceReflexive(ts); ts
    case Completed => FilterIsSubsequence(ts, IsCompleted); FilterMultiset(ts, IsCompleted); Filter(ts, IsCompleted)
    case Pending => FilterIsSubsequence(ts, IsPending); FilterMultiset(ts, IsPending); Filter(ts, IsPending)
    case HighPriority => FilterIsSubsequence(ts, IsHighPriority); FilterMultiset(ts, IsHighPriority); Filter(ts, IsHighPriority)
  }

  /** The search and the status filter can be applied in either order. */
  lemma SearchAndStatusCommute(ts: seq<Task>, term: string, f: FilterOption)
    ensures StatusFilter(Search(ts, term), f) == Search(StatusFilter(ts, f), term)
  {
    if term != [] {
      var m := t => Matches(t, term);
      match f
      case All =>
      case Completed => FilterCommutes(ts, m, IsCompleted);
      case Pending => FilterCommutes(ts, m, IsPending);
      case HighPriority => FilterCommutes(ts, m, IsHighPriority);
    }
  }

  // ---------------------------------------------------------------- ordering

  /** The comparators of the view's sort, plus the one the recent-activity panel
      sorts by (most recently updated first). */
  datatype Ordering = ViewOrder(sortBy: SortOption) | RecentOrder

  /** The comparator: negative when `a` goes first, positive when `b` does. */
  function Compare(o: Ordering, a: Task, b: Task): int {
    match o
    case ViewOrder(Title) => CompareStrings(a.title, b.title)
    case ViewOrder(Priority) => b.priority - a.priority
    case ViewOrder(DueDate) =>
      if a.dueDate.None? && b.dueDate.None? then 0
      else if a.dueDate.None? then 1
      else if b.dueDate.None? then -1
      else a.dueDate.value - b.dueDate.value
    case ViewOrder(Category) => CompareStrings(a.category, b.category)
    case ViewOrder(CreatedAt) => b.createdAt - a.createdAt
    case RecentOrder => b.updatedAt - a.updatedAt
  }

  /** What "`a` may come before `b`" means for each key, stated directly: titles and
      categories ascending, priority descending, dated tasks by ascending date and
      before undated ones, creation and update times newest first. */
  ghost predicate InOrder(o: Ordering, a: Task, b: Task) {
    match o
    case ViewOrder(Title) => LexLe(a.title, b.title)
    case ViewOrder(Priority) => a.priority >= b.priority
    case ViewOrder(DueDate) => b.dueDate.None? || (a.dueDate.Some? && a.dueDate.value <= b.dueDate.value)
    case ViewOrder(Category) => LexLe(a.category, b.category)
    case ViewOrder(CreatedAt) => a.createdAt >= b.createdAt
    case RecentOrder => a.updatedAt >= b.updatedAt
  }

  lemma CompareIsInOrder(o: Ordering, a: Task, b: Task)
    ensures Compare(o, a, b) <= 0 <==> InOrder(o, a, b)
  {
    match o
    case ViewOrder(Title) => CompareStringsIsLex(a.title, b.title);
    case ViewOrder(Category) => CompareStringsIsLex(a.category, b.category);
    case _ =>
  }

  lemma CompareAntisymmetric(o: Ordering, a: Task, b: Task)
    ensures Compare(o, a, b) == -Compare(o, b, a)
  {
    match o
    case ViewOrder(Title) => CompareStringsAntisymmetric(a.title, b.title);
    case ViewOrder(Category) => CompareStringsAntisymmetric(a.category, b.category);
    case _ =>
  }

  lemma CompareTransitive(o: Ordering, a: Task, b: Task, c: Task)
    requires Compare(o, a, b) <= 0 && Compare(o, b, c) <= 0
    ensures Compare(o, a, c) <= 0
  {
    match o
    case ViewOrder(Title) => CompareStringsTransitive(a.title, b.title, c.title);
    case ViewOrder(Category) => CompareStringsTransitive(a.category, b.category, c.category);
    case _ =>
  }

  /** Ties (comparator 0) form equivalence classes. */
  lemma TieTransitive(o: Ordering, a: Task, b: Task, c: Task)
    requires Compare(o, a, b) == 0 && Compare(o, b, c) == 0
    ensures Compare(o, a, c) == 0
  {
    CompareAntisymmetric(o, a, b);
    CompareAntisymmetric(o, b, c);
    CompareAntisymmetric(o, a, c);
    CompareTransitive(o, a, b, c);
    CompareTransitive(o, c, b, a);
  }

  /** Each adjacent pair respects the comparator. */
  predicate Sorted(s: seq<Task>, o: Ordering) {
    forall i :: 0 <= i < |s| - 1 ==> Compare(o, s[i], s[i + 1]) <= 0
  }

  /** In a sorted list every pair, adjacent or not, is in order. */
  lemma {:induction false} SortedAllPairs(s: seq<Task>, o: Ordering)
    requires Sorted(s, o)
    ensures forall i, j :: 0 <= i < j < |s| ==> Compare(o, s[i], s[j]) <= 0
    decreases |s|
  {
    if s != [] {
      SortedAllPairs(s[1..], o);
      forall j | 0 < j < |s| ensures Compare(o, s[0], s[j]) <= 0 {
        if j > 1 {
          assert Compare(o, s[1], s[j]) <= 0 by { assert s[1..][0] == s[1] && s[1..][j - 1] == s[j]; }
          CompareTransitive(o, s[0], s[1], s[j]);
        }
      }
      forall i, j | 0 < i < j < |s| ensures Compare(o, s[i], s[j]) <= 0 {
        assert s[1..][i - 1] == s[i] && s[1..][j - 1] == s[j];
      }
    }
  }

  /** A sorted list read against each key's direct meaning. */
  lemma SortedMeaning(s: seq<Task>, o: Ordering)
    requires Sorted(s, o)
    ensures forall i, j :: 0 <= i < j < |s| ==> InOrder(o, s[i], s[j])
  {
    SortedAllPairs(s, o);
    forall i, j | 0 <= i < j < |s| ensures InOrder(o, s[i], s[j]) {
      CompareIsInOrder(o, s[i], s[j]);
    }
  }

  // ---------------------------------------------------------------- sort

  /** Puts `x` in front of the first element it does not have to follow. */
  function Insert(x: Task, s: seq<Task>, o: Ordering): (r: seq<Task>)
    ensures multiset(r) == multiset(s) + multiset{x}
    ensures |r| == |s| + 1
  {
    if s == [] then [x]
    else if Compare(o, x, s[0]) <= 0 then [x] + s
    else
      assert s == [s[0]] + s[1..];
      [s[0]] + Insert(x, s[1..], o)
  }

  /** The stable sort the view and the recent-activity panel run (a stable insertion
      sort; SortUnique shows that every stable sort gives this result). */
  function SortBy(s: seq<Task>, o: Ordering): (r: seq<Task>)
    ensures multiset(r) == multiset(s)
    ensures |r| == |s|
  {
    if s == [] then []
    else
      assert s == [s[0]] + s[1..];
      Insert(s[0], SortBy(s[1..], o), o)
  }

  lemma {:induction false} InsertSorted(x: Task, s: seq<Task>, o: Ordering)
    requires Sorted(s, o)
    ensures Sorted(Insert(x, s, o), o)
    decreases |s|
  {
    if s != [] && Compare(o, x, s[0]) > 0 {
      CompareAntisymmetric(o, x, s[0]);
      InsertSorted(x, s[1..], o);
      var rest := Insert(x, s[1..], o);
      assert rest[0] == x || (|s| > 1 && rest[0] == s[1]) by {
        if |s| > 1 && Compare(o, x, s[1]) > 0 {
          assert rest[0] == s[1];
        }
      }
      assert Insert(x, s, o) == [s[0]] + rest;
    }
  }

  /** The sorted output respects the comparator on every adjacent pair. */
  lemma {:induction false} SortBySorted(s: seq<Task>, o: Ordering)
    ensures Sorted(SortBy(s, o), o)
    decreases |s|
  {
    if s != [] {
      SortBySorted(s[1..], o);
      InsertSorted(s[0], SortBy(s[1..], o), o);
    }
  }

  /** The elements of `s` that tie with `y`, in order. */
  function Ties(s: seq<Task>, o: Ordering, y: Task): seq<Task> {
    Filter(s, x => Compare(o, x, y) == 0)
  }

  lemma TiesOfCons(x: Task, s: seq<Task>, o: Ordering, y: Task)
    ensures Ties([x] + s, o, y) == (if Compare(o, x, y) == 0 then [x] else []) + Ties(s, o, y)
  {
    FilterOfCons(x, s, z => Compare(o, z, y) == 0);
  }

  lemma {:induction false} InsertTies(x: Task, s: seq<Task>, o: Ordering, y: Task)
    ensures Ties(Insert(x, s, o), o, y) == (if Compare(o, x, y) == 0 then [x] else []) + Ties(s, o, y)
    decreases |s|
  {
    if s == [] {
      TiesOfCons(x, [], o, y);
    } else if Compare(o, x, s[0]) <= 0 {
      TiesOfCons(x, s, o, y);
    } else {
      InsertTies(x, s[1..], o, y);
      TiesOfCons(s[0], Insert(x, s[1..], o), o, y);
      TiesOfCons(s[0], s[1..], o, y);
      assert s == [s[0]] + s[1..];
      if Compare(o, x, y) == 0 && Compare(o, s[0], y) == 0 {
        CompareAntisymmetric(o, s[0], y);
        TieTransitive(o, x, y, s[0]);
      }
    }
  }

  /** Stability: tasks the comparator cannot tell apart keep their relative order. */
  lemma {:induction false} SortStable(s: seq<Task>, o: Ordering, y: Task)
    ensures Ties(SortBy(s, o), o, y) == Ties(s, o, y)
    decreases |s|
  {
    if s != [] {
      SortStable(s[1..], o, y);
      InsertTies(s[0], SortBy(s[1..], o), o, y);
      TiesOfCons(s[0], s[1..], o, y);
      assert s == [s[0]] + s[1..];
    }
  }

  /** The first element of a sorted list may precede every element of the list. */
  lemma HeadPrecedesAll(s: seq<Task>, o: Ordering, y: Task)
    requires Sorted(s, o) && y in s
    ensures Compare(o, s[0], y) <= 0
  {
    SortedAllPairs(s, o);
    var i :| 0 <= i < |s| && s[i] == y;
    if i == 0 {
      CompareAntisymmetric(o, y, y);
    }
  }

  /** Two sorted lists with the same elements start with tying elements. */
  lemma SortedHeadsTie(a: seq<Task>, b: seq<Task>, o: Ordering)
    requires Sorted(a, o) && Sorted(b, o) && multiset(a) == multiset(b) && a != []
    ensures b != [] && Compare(o, a[0], b[0]) == 0
  {
    assert a[0] in multiset(b);
    assert b[0] in multiset(a);
    HeadPrecedesAll(a, o, b[0]);
    HeadPrecedesAll(b, o, a[0]);
    CompareAntisymmetric(o, a[0], b[0]);
  }

  /** Two sorted lists with the same elements and the same order among ties are equal. */
  lemma {:induction false} SortedPermutationsEqual(a: seq<Task>, b: seq<Task>, o: Ordering)
    requires Sorted(a, o) && Sorted(b, o) && multiset(a) == multiset(b)
    requires forall y :: Ties(a, o, y) == Ties(b, o, y)
    ensures a == b
    decreases |a|
  {
    if a == [] {
      assert |b| == |multiset(b)| == 0;
    } else {
      SortedHeadsTie(a, b, o);
      SameHead(a, b, o);
      SameTails(a, b, o);
      SortedSuffix(a, o);
      SortedSuffix(b, o);
      SortedPermutationsEqual(a[1..], b[1..], o);
      assert a == [a[0]] + a[1..] && b == [b[0]] + b[1..];
    }
  }

  /** Of two tying heads, the one that comes first among the ties is the same. */
  lemma SameHead(a: seq<Task>, b: seq<Task>, o: Ordering)
    requires a != [] && b != [] && Compare(o, a[0], b[0]) == 0
    requires Ties(a, o, a[0]) == Ties(b, o, a[0])
    ensures a[0] == b[0]
  {
    var x := a[0];
    assert a == [x] + a[1..] && b == [b[0]] + b[1..];
    CompareAntisymmetric(o, x, x);
    CompareAntisymmetric(o, x, b[0]);
    TiesOfCons(x, a[1..], o, x);
    TiesOfCons(b[0], b[1..], o, x);
    assert Ties(a, o, x)[0] == x && Ties(b, o, x)[0] == b[0];
  }

  /** Equal heads removed, the tails still agree on elements and on ties. */
  lemma SameTails(a: seq<Task>, b: seq<Task>, o: Ordering)
    requires a != [] && b != [] && a[0] == b[0] && multiset(a) == multiset(b)
    requires forall y :: Ties(a, o, y) == Ties(b, o, y)
    ensures multiset(a[1..]) == multiset(b[1..])
    ensures forall z :: Ties(a[1..], o, z) == Ties(b[1..], o, z)
  {
    var x, a', b' := a[0], a[1..], b[1..];
    assert a == [x] + a' && b == [x] + b';
    forall z ensures Ties(a', o, z) == Ties(b', o, z) {
      TiesOfCons(x, a', o, z);
      TiesOfCons(x, b', o, z);
      var pre := if Compare(o, x, z) == 0 then [x] else [];
      assert Ties(a, o, z) == Ties(b, o, z);
      assert Ties(a', o, z) == (pre + Ties(a', o, z))[|pre|..];
      assert Ties(b', o, z) == (pre + Ties(b', o, z))[|pre|..];
    }
    assert multiset(a') == multiset(a) - multiset([x]);
    assert multiset(b') == multiset(b) - multiset([x]);
  }

  lemma SortedSuffix(s: seq<Task>, o: Ordering)
    requires Sorted(s, o) && s != []
    ensures Sorted(s[1..], o)
  {
    forall i | 0 <= i < |s[1..]| - 1 ensures Compare(o, s[1..][i], s[1..][i + 1]) <= 0 {
      assert s[1..][i] == s[i + 1] && s[1..][i + 1] == s[i + 2];
    }
  }

  /** Any stable sort of `s` (a sorted permutation that keeps ties in their input
      order) is SortBy(s, o): the model of Array.prototype.sort does not depend on
      which stable algorithm the engine uses. */
  lemma SortUnique(s: seq<Task>, r: seq<Task>, o: Ordering)
    requires multiset(r) == multiset(s) && Sorted(r, o)
    requires forall y :: Ties(r, o, y) == Ties(s, o, y)
    ensures r == SortBy(s, o)
  {
    SortBySorted(s, o);
    forall y ensures Ties(SortBy(s, o), o, y) == Ties(r, o, y) {
      SortStable(s, o, y);
    }
    SortedPermutationsEqual(r, SortBy(s, o), o);
  }

  // ---------------------------------------------------------------- the view

  /** The displayed list: search, then status filter, then sort. */
  function View(ts: seq<Task>, term: string, f: FilterOption, sortBy: SortOption): seq<Task> {
    SortBy(StatusFilter(Search(ts, term), f), ViewOrder(sortBy))
  }

  /** What the displayed list holds: exactly the tasks that pass the search and the
      status filter (with their multiplicity), sorted by the chosen key, with ties in
      the order they have in the store's list (`ViewTiesInStoreOrder`); never more
      tasks than the store has. */
  lemma ViewSpec(ts: seq<Task>, term: string, f: FilterOption, sortBy: SortOption)
    ensures |View(ts, term, f, sortBy)| <= |ts|
    ensures forall t :: multiset(View(ts, term, f, sortBy))[t] ==
                        (if (term == [] || Matches(t, term)) && Shows(f, t) then multiset(ts)[t] else 0)
    ensures Sorted(View(ts, term, f, sortBy), ViewOrder(sortBy))
  {
    SortBySorted(StatusFilter(Search(ts, term), f), ViewOrder(sortBy));
  }

  /** The displayed tasks that tie with `y` under the chosen key appear in the order
      they have in the store's list. */
  lemma ViewTiesInStoreOrder(ts: seq<Task>, term: string, f: FilterOption, sortBy: SortOption, y: Task)
    ensures IsSubsequence(Ties(View(ts, term, f, sortBy), ViewOrder(sortBy), y), ts)
  {
    var o := ViewOrder(sortBy);
    var kept := StatusFilter(Search(ts, term), f);
    SortStable(kept, o, y);
    FilterIsSubsequence(kept, x => Compare(o, x, y) == 0);
    SubsequenceTransitive(Ties(kept, o, y), kept, Search(ts, term));
    SubsequenceTransitive(Ties(kept, o, y), Search(ts, term), ts);
  }

  /** The example of the high-priority filter: of "Buy milk" (priority 2) and
      "Ship release" (priority 5) only the second is shown. */
  lemma HighPriorityExample(milk: Task, ship: Task)
    requires milk.title == "Buy milk" && milk.priority == 2 && milk.category == "Shopping" && !milk.completed
    requires ship.title == "Ship release" && ship.priority == 5 && ship.category == "Work" && !ship.completed
    ensures View([milk, ship], [], HighPriority, CreatedAt) == [ship]
  {
    var ts := [milk, ship];
    assert ts[1..] == [ship] && [ship][1..] == [];
    assert Search(ts, []) == ts;
    assert Filter([ship], IsHighPriority) == [ship];
    assert StatusFilter(ts, HighPriority) == [ship];
    assert SortBy([ship], ViewOrder(CreatedAt)) == Insert(ship, [], ViewOrder(CreatedAt)) == [ship];
  }

  /** The example of the due-date sort: due dates 10, none and 5 sort as 5, 10, none. */
  lemma DueDateExample(a: Task, b: Task, c: Task)
    requires a.dueDate == Some(10) && b.dueDate == None && c.dueDate == Some(5)
    ensures SortBy([a, b, c], ViewOrder(DueDate)) == [c, a, b]
  {
    var o := ViewOrder(DueDate);
    SortByCons(c, [], o);
    SortByCons(b, [c], o);
    UndatedAfterDated(b, c);
    SortByCons(a, [b, c], o);
    assert [a] + [b, c] == [a, b, c];
    EarlierDateFirst(a, b, c);
  }

  lemma UndatedAfterDated(b: Task, c: Task)
    requires b.dueDate.None? && c.dueDate.Some?
    ensures Insert(b, [c], ViewOrder(DueDate)) == [c, b]
  {
    assert Insert(b, [], ViewOrder(DueDate)) == [b];
  }

  lemma EarlierDateFirst(a: Task, b: Task, c: Task)
    requires a.dueDate == Some(10) && b.dueDate == None && c.dueDate == Some(5)
    ensures Insert(a, [c, b], ViewOrder(DueDate)) == [c, a, b]
  {
    var o := ViewOrder(DueDate);
    assert [c, b][1..] == [b];
    assert Insert(a, [b], o) == [a, b];
  }

  lemma SortByCons(x: Task, s: seq<Task>, o: Ordering)
    ensures SortBy([x] + s, o) == Insert(x, SortBy(s, o), o)
  {
    assert ([x] + s)[1..] == s;
  }

  // ---------------------------------------------------------------- sidebar figures

  /** The Quick Stats panel: total, completed (a filter), pending (total minus
      completed) and high-priority (priority at least 4 and not completed). */
  datatype Stats = Stats(total: nat, completed: nat, pending: int, highPriority: nat)

  predicate IsOpenHighPriority(t: Task) { t.priority >= 4 && !t.completed }

  function StatsOf(ts: seq<Task>): Stats {
    var done := |Filter(ts, IsCompleted)|;
    Stats(|ts|, done, |ts| - done, |Filter(ts, IsOpenHighPriority)|)
  }

  lemma {:induction false} CompletedAndPendingPartition(ts: seq<Task>)
    ensures |Filter(ts, IsCompleted)| + |Filter(ts, IsPending)| == |ts|
    decreases |ts|
  {
    if ts != [] {
      CompletedAndPendingPartition(ts[1..]);
    }
  }

  /** The pending figure counts the tasks not completed, so completed plus pending is
      the total; the high-priority figure counts the high-priority tasks the Pending
      filter would show, which is not what the high-priority filter shows. */
  lemma StatsSpec(ts: seq<Task>)
    ensures StatsOf(ts).pending == |Filter(ts, IsPending)|
    ensures StatsOf(ts).completed + StatsOf(ts).pending == StatsOf(ts).total
    ensures StatsOf(ts).highPriority == |StatusFilter(StatusFilter(ts, HighPriority), Pending)|
    ensures StatsOf(ts).highPriority <= StatsOf(ts).pending
  {
    CompletedAndPendingPartition(ts);
    OpenHighPriorityIsPendingHighPriority(ts);
    OpenHighPriorityAtMostPending(ts);
  }

  lemma {:induction false} OpenHighPriorityIsPendingHighPriority(ts: seq<Task>)
    ensures Filter(ts, IsOpenHighPriority) == Filter(Filter(ts, IsHighPriority), IsPending)
    decreases |ts|
  {
    if ts != [] {
      OpenHighPriorityIsPendingHighPriority(ts[1..]);
      FilterOfCons(ts[0], Filter(ts[1..], IsHighPriority), IsPending);
    }
  }

  lemma {:induction false} OpenHighPriorityAtMostPending(ts: seq<Task>)
    ensures |Filter(ts, IsOpenHighPriority)| <= |Filter(ts, IsPending)|
    decreases |ts|
  {
    if ts != [] {
      OpenHighPriorityAtMostPending(ts[1..]);
    }
  }

  /** The figures do not depend on the order of the list. */
  lemma StatsPermutation(s: seq<Task>, t: seq<Task>)
    requires multiset(s) == multiset(t)
    ensures StatsOf(s) == StatsOf(t)
  {
    FilterCountPermutation(s, t, IsCompleted);
    FilterCountPermutation(s, t, IsOpenHighPriority);
    assert |s| == |multiset(s)| == |multiset(t)| == |t|;
  }

  /** The Recent Activity panel: the list sorted by last update, newest first, cut to
      its first five. */
  function RecentActivity(ts: seq<Task>): seq<Task> {
    Take(SortBy(ts, RecentOrder), 5)
  }

  /** At most five tasks, all from the list, newest update first, and none of the
      tasks left out was updated later than any task shown. */
  lemma RecentActivitySpec(ts: seq<Task>)
    ensures |RecentActivity(ts)| == Min(5, |ts|)
    ensures multiset(RecentActivity(ts)) <= multiset(ts)
    ensures forall i, j :: 0 <= i < j < |RecentActivity(ts)| ==>
                             RecentActivity(ts)[i].updatedAt >= RecentActivity(ts)[j].updatedAt
    ensures forall x, t :: x in RecentActivity(ts) && t in multiset(ts) - multiset(RecentActivity(ts)) ==>
                             x.updatedAt >= t.updatedAt
  {
    var sorted := SortBy(ts, RecentOrder);
    var r := RecentActivity(ts);
    var rest := sorted[|r|..];
    SortBySorted(ts, RecentOrder);
    SortedMeaning(sorted, RecentOrder);
    assert sorted == r + rest;
    assert multiset(ts) == multiset(r) + multiset(rest);
    assert multiset(ts) - multiset(r) == multiset(rest);
    PrefixBeforeRest(sorted, |r|);
  }

  /** In a list ordered newest update first, each of the first k is at least as recent
      as each of the others. */
  lemma PrefixBeforeRest(s: seq<Task>, k: nat)
    requires k <= |s|
    requires forall i, j :: 0 <= i < j < |s| ==> InOrder(RecentOrder, s[i], s[j])
    ensures forall x, t :: x in s[..k] && t in multiset(s[k..]) ==> x.updatedAt >= t.updatedAt
  {
    forall x, t | x in s[..k] && t in multiset(s[k..]) ensures x.updatedAt >= t.updatedAt {
      var i :| 0 <= i < k && s[..k][i] == x;
      var j :| 0 <= j < |s[k..]| && s[k..][j] == t;
      assert s[i] == x && s[k + j] == t;
      assert InOrder(RecentOrder, s[i], s[k + j]);
    }
  }
}
