/** The to-do list screen: the task-list updates its handlers hand to the
    store's setter (each a function from the previous list to the next),
    the active and archived views, the ordering of the active view and the
    history grouped by archive date. Clock readings, generated ids and the
    locale date formatter are parameters. */
module TodoList {
  import opened Wrappers
  import opened Types
  import opened Seqs
  import opened Strings
  import Sorting

  /** A generated id together with the clock reading taken for it. */
  datatype Stamp = Stamp(id: string, at: int)

  /** What `toLocaleDateString('en-CA')` returns is never the empty string. */
  type DateText = s: string | s != "" witness "1970-01-01"

  function HasId(id: string): Todo -> bool {
    (t: Todo) => t.id == id
  }

  /** `t.archivedDate` is truthy: present and not the empty string. */
  predicate IsArchived(t: Todo) {
    Truthy(t.archivedDate)
  }

  function Archivedness(): Todo -> bool {
    (t: Todo) => IsArchived(t)
  }

  function Completedness(): Todo -> bool {
    (t: Todo) => t.completed
  }

  /** A task as the handlers create it. */
  function NewTask(text: string, stamp: Stamp): Todo {
    Todo(stamp.id, text, false, stamp.at, None, None)
  }

  // ------------------------------------------------------------ updates

  /** `addTask(text)`: blank text is ignored; otherwise a new, incomplete
      task carrying the text exactly as typed goes in front. */
  function AddTask(prev: seq<Todo>, text: string, stamp: Stamp): (r: seq<Todo>)
    ensures IsBlank(text) ==> r == prev
    ensures !IsBlank(text) ==>
      && |r| == |prev| + 1 && r[1..] == prev
      && r[0].text == text && !r[0].completed
      && r[0].id == stamp.id && r[0].createdAt == stamp.at
      && r[0].completedAt == None && !IsArchived(r[0])
  {
    if IsBlank(text) then prev else [NewTask(text, stamp)] + prev
  }

  /** The change `toggleTask` makes to one task. */
  function Toggled(t: Todo, now: int): Todo {
    t.(completed := !t.completed, completedAt := if !t.completed then Some(now) else None)
  }

  function ToggleIfId(id: string, now: int): Todo -> Todo {
    (t: Todo) => if t.id == id then Toggled(t, now) else t
  }

  /** `toggleTask(id)`: every task with that id flips `completed`, gaining the
      completion time when it becomes completed and losing it otherwise;
      nothing else changes. */
  function ToggleTask(prev: seq<Todo>, id: string, now: int): (r: seq<Todo>)
    ensures |r| == |prev|
    ensures forall i :: 0 <= i < |prev| && prev[i].id != id ==> r[i] == prev[i]
    ensures forall i :: 0 <= i < |prev| && prev[i].id == id ==>
      && r[i].completed == !prev[i].completed
      && r[i].completedAt == (if r[i].completed then Some(now) else None)
      && r[i].id == prev[i].id && r[i].text == prev[i].text
      && r[i].createdAt == prev[i].createdAt && r[i].archivedDate == prev[i].archivedDate
  {
    Map(prev, ToggleIfId(id, now))
  }

  /** `deleteTask(id)`: the tasks with other ids, in their order. */
  function DeleteTask(prev: seq<Todo>, id: string): (r: seq<Todo>)
    ensures Subsequence(r, prev)
    ensures forall i :: 0 <= i < |r| ==> r[i].id != id
    ensures forall t :: t in prev && t.id != id ==> t in r
    ensures |r| == |prev| - Count(prev, HasId(id))
  {
    CountComplement(prev, HasId(id));
    Filter(prev, Not(HasId(id)))
  }

  /** `handleAiSplit`: blank input is ignored; a non-empty list of subtasks
      puts one new task per subtask in front, in the subtasks' order; an empty
      list (the assistant's answer when it fails) falls back to `addTask`. */
  function AiSplit(prev: seq<Todo>, input: string, subtasks: seq<string>,
                   stamps: seq<Stamp>, fallback: Stamp): (r: seq<Todo>)
    requires |stamps| == |subtasks|
    ensures IsBlank(input) ==> r == prev
    ensures !IsBlank(input) && |subtasks| > 0 ==>
      && |r| == |subtasks| + |prev| && r[|subtasks|..] == prev
      && forall i :: 0 <= i < |subtasks| ==>
           r[i] == NewTask(subtasks[i], stamps[i])
           && r[i].text == subtasks[i] && !r[i].completed && r[i].id == stamps[i].id
           && r[i].createdAt == stamps[i].at && r[i].completedAt == None && !IsArchived(r[i])
    ensures !IsBlank(input) && subtasks == [] ==> r == AddTask(prev, input, fallback)
  {
    if IsBlank(input) then prev
    else if |subtasks| > 0 then
      seq(|subtasks|, i requires 0 <= i < |subtasks| => NewTask(subtasks[i], stamps[i])) + prev
    else AddTask(prev, input, fallback)
  }

  /** The date `handleArchive` files a task under: that of its completion
      time, or of the current time when it has none (or it is 0). */
  function ArchiveDate(t: Todo, now: int, localDate: int -> DateText): DateText {
    if t.completedAt.Some? && t.completedAt.value != 0 then localDate(t.completedAt.value)
    else localDate(now)
  }

  function ArchiveIfDone(now: int, localDate: int -> DateText): Todo -> Todo {
    (t: Todo) => if t.completed && !IsArchived(t) then t.(archivedDate := Some(ArchiveDate(t, now, localDate))) else t
  }

  /** `handleArchive`: every completed task not yet archived gets an archive
      date; all other tasks are left as they are. */
  function ArchiveCompleted(prev: seq<Todo>, now: int, localDate: int -> DateText): (r: seq<Todo>)
    ensures |r| == |prev|
    ensures forall i :: 0 <= i < |prev| && !(prev[i].completed && !IsArchived(prev[i])) ==> r[i] == prev[i]
    ensures forall i :: 0 <= i < |prev| && prev[i].completed && !IsArchived(prev[i]) ==>
      r[i] == prev[i].(archivedDate := Some(ArchiveDate(prev[i], now, localDate)))
    ensures forall i :: 0 <= i < |r| && r[i].completed ==> IsArchived(r[i])
  {
    Map(prev, ArchiveIfDone(now, localDate))
  }

  // -------------------------------------------------------------- views

  /** `activeTasks`: the tasks without a (truthy) archive date. */
  function Active(tasks: seq<Todo>): (r: seq<Todo>)
    ensures Subsequence(r, tasks)
    ensures forall i :: 0 <= i < |r| ==> !IsArchived(r[i])
  {
    Filter(tasks, Not(Archivedness()))
  }

  /** `archivedTasks`: the tasks with one. */
  function Archived(tasks: seq<Todo>): (r: seq<Todo>)
    ensures Subsequence(r, tasks)
    ensures forall i :: 0 <= i < |r| ==> IsArchived(r[i])
  {
    Filter(tasks, Archivedness())
  }

  /** `completedCount`: the completed tasks of the active view. */
  function CompletedCount(tasks: seq<Todo>): (n: nat)
    ensures n <= |Active(tasks)|
  {
    |Filter(Active(tasks), Completedness())|
  }

  /** The two views split the list: each task is in exactly one of them and
      together they hold every task as often as the list does. */
  lemma ViewsPartition(tasks: seq<Todo>)
    ensures forall t :: t in tasks ==> (t in Active(tasks) <==> t !in Archived(tasks))
    ensures multiset(Active(tasks)) + multiset(Archived(tasks)) == multiset(tasks)
    ensures |Active(tasks)| + |Archived(tasks)| == |tasks|
  {
    FilterPartition(tasks, Archivedness());
  }

  // ---------------------------------------------------- updates and views

  /** Toggling twice puts back every field but the completion time, which
      ends up as the second call leaves it. */
  lemma ToggleTwice(s: seq<Todo>, id: string, t1: int, t2: int)
    ensures var r := ToggleTask(ToggleTask(s, id, t1), id, t2);
      && |r| == |s|
      && forall i :: 0 <= i < |s| ==>
           r[i] == s[i].(completedAt := if s[i].id == id then (if s[i].completed then Some(t2) else None)
                                        else s[i].completedAt)
  {
  }

  /** Deleting a task after toggling it is the same as deleting it. */
  lemma DeleteAfterToggle(s: seq<Todo>, id: string, now: int)
    ensures DeleteTask(ToggleTask(s, id, now), id) == DeleteTask(s, id)
  {
    FilterPointwise(s, ToggleTask(s, id, now), Not(HasId(id)));
  }

  /** Archiving twice is archiving once, whatever the clock says the second time. */
  lemma ArchiveIdempotent(s: seq<Todo>, now1: int, now2: int, localDate: int -> DateText)
    ensures ArchiveCompleted(ArchiveCompleted(s, now1, localDate), now2, localDate)
         == ArchiveCompleted(s, now1, localDate)
  {
  }

  /** After archiving, the active view is exactly the incomplete active tasks. */
  lemma {:induction false} ArchiveLeavesIncomplete(s: seq<Todo>, now: int, localDate: int -> DateText)
    ensures Active(ArchiveCompleted(s, now, localDate)) == Filter(Active(s), Not(Completedness()))
  {
    if s != [] {
      var f := ArchiveIfDone(now, localDate);
      var x, y := s[0], f(s[0]);
      var r := ArchiveCompleted(s, now, localDate);
      assert s == [x] + s[1..];
      assert r == [y] + ArchiveCompleted(s[1..], now, localDate);
      ArchiveLeavesIncomplete(s[1..], now, localDate);
      FilterCons(y, ArchiveCompleted(s[1..], now, localDate), Not(Archivedness()));
      FilterCons(x, s[1..], Not(Archivedness()));
      if !IsArchived(x) {
        FilterCons(x, Active(s[1..]), Not(Completedness()));
      }
    }
  }

  /** Nothing is left for the archive button to count once it has been pressed. */
  lemma NothingLeftToArchive(s: seq<Todo>, now: int, localDate: int -> DateText)
    ensures CompletedCount(ArchiveCompleted(s, now, localDate)) == 0
  {
    var active := Active(ArchiveCompleted(s, now, localDate));
    ArchiveLeavesIncomplete(s, now, localDate);
    FilterAllFail(active, Completedness());
  }

  // ------------------------------------------------- active view ordering

  /** The comparator of `sortedActiveTasks`: incomplete tasks first, newest
      first among equals. */
  function CompareTasks(a: Todo, b: Todo): int {
    if a.completed == b.completed then b.createdAt - a.createdAt
    else if a.completed then 1 else -1
  }

  lemma CompareTasksConsistent()
    ensures Sorting.Consistent(CompareTasks)
  {
  }

  /** `sortedActiveTasks`: a copy of the active view sorted in place. */
  method SortedActiveTasks(tasks: seq<Todo>) returns (r: seq<Todo>)
    ensures multiset(r) == multiset(Active(tasks))
    ensures forall i, j :: 0 <= i < j < |r| && r[i].completed ==> r[j].completed
    ensures forall i, j :: 0 <= i < j < |r| && r[i].completed == r[j].completed ==>
      r[i].createdAt >= r[j].createdAt
  {
    var active := Active(tasks);
    var a := new Todo[|active|](i requires 0 <= i < |active| => active[i]);
    assert a[..] == active;
    CompareTasksConsistent();
    Sorting.InsertionSort(a, CompareTasks);
    r := a[..];
    ActiveOrder(r);
  }

  /** What the comparator's order means for the list. */
  lemma ActiveOrder(r: seq<Todo>)
    requires Sorting.SortedBy(r, CompareTasks)
    ensures forall i, j :: 0 <= i < j < |r| && r[i].completed ==> r[j].completed
    ensures forall i, j :: 0 <= i < j < |r| && r[i].completed == r[j].completed ==>
      r[i].createdAt >= r[j].createdAt
  {
    forall i, j | 0 <= i < j < |r|
      ensures (r[i].completed ==> r[j].completed)
      ensures (r[i].completed == r[j].completed ==> r[i].createdAt >= r[j].createdAt)
    {
      assert CompareTasks(r[i], r[j]) <= 0;
    }
  }

  // ------------------------------------------------------------- history

  function ArchivedOn(d: string): Todo -> bool {
    (t: Todo) => t.archivedDate == Some(d)
  }

  /** The dates the archived tasks are filed under. */
  function ArchiveDates(tasks: seq<Todo>): set<string> {
    set t | t in Archived(tasks) :: ArchiveKey(t)
  }

  /** `groups` is `s` grouped by archive date, each group in order. */
  ghost predicate GroupsOf(groups: map<string, seq<Todo>>, s: seq<Todo>) {
    && groups.Keys == (set t | t in s :: ArchiveKey(t))
    && forall d :: d in groups ==> groups[d] == Filter(s, ArchivedOn(d)) && groups[d] != []
  }

  function ArchiveKey(t: Todo): string {
    t.archivedDate.GetOr("")
  }

  lemma ArchiveKeysPush(s: seq<Todo>, task: Todo)
    ensures (set t | t in s + [task] :: ArchiveKey(t)) == (set t | t in s :: ArchiveKey(t)) + {ArchiveKey(task)}
  {
    var lhs := set t | t in s + [task] :: ArchiveKey(t);
    var rhs := (set t | t in s :: ArchiveKey(t)) + {ArchiveKey(task)};
    forall k | k in lhs ensures k in rhs {
      var t :| t in s + [task] && ArchiveKey(t) == k;
      if t != task { assert t in s; }
    }
    forall k | k in rhs ensures k in lhs {
      if k != ArchiveKey(task) {
        var t :| t in s && ArchiveKey(t) == k;
        assert t in s + [task];
      } else {
        assert task in s + [task];
      }
    }
  }

  /** One step of the `reduce`: push a task onto the group of its date. */
  lemma GroupsOfPush(groups: map<string, seq<Todo>>, s: seq<Todo>, task: Todo)
    requires GroupsOf(groups, s) && IsArchived(task)
    ensures var date := ArchiveKey(task);
      GroupsOf(groups[date := (if date in groups then groups[date] else []) + [task]], s + [task])
  {
    var date := ArchiveKey(task);
    var next := groups[date := (if date in groups then groups[date] else []) + [task]];
    ArchiveKeysPush(s, task);
    assert next.Keys == (set t | t in s + [task] :: ArchiveKey(t));
    forall d | d in next
      ensures next[d] == Filter(s + [task], ArchivedOn(d)) && next[d] != []
    {
      GroupPush(groups, s, task, d);
      if d != date {
        assert next[d] == groups[d];
      }
    }
  }

  lemma GroupPush(groups: map<string, seq<Todo>>, s: seq<Todo>, task: Todo, d: string)
    requires GroupsOf(groups, s) && IsArchived(task)
    requires d in groups || d == ArchiveKey(task)
    ensures var date := ArchiveKey(task);
      Filter(s + [task], ArchivedOn(d))
        == (if d in groups then groups[d] else []) + (if d == date then [task] else [])
  {
    FilterAppend(s, [task], ArchivedOn(d));
    FilterCons(task, [], ArchivedOn(d));
    assert [task] + [] == [task];
    if d !in groups {
      forall i | 0 <= i < |s|
        ensures !ArchivedOn(d)(s[i])
      {
        assert ArchiveKey(s[i]) in groups;
      }
      FilterAllFail(s, ArchivedOn(d));
    }
  }

  /** `historyByDate`: the archived tasks grouped by archive date, each group
      in list order. */
  method HistoryByDate(tasks: seq<Todo>) returns (groups: map<string, seq<Todo>>)
    ensures groups.Keys == ArchiveDates(tasks)
    ensures forall d :: d in groups ==> groups[d] == Filter(Archived(tasks), ArchivedOn(d)) && groups[d] != []
  {
    var archived := Archived(tasks);
    groups := map[];
    var i := 0;
    while i < |archived|
      invariant 0 <= i <= |archived|
      invariant GroupsOf(groups, archived[..i])
    {
      var task := archived[i];
      var date := ArchiveKey(task);
      assert archived[..i + 1] == archived[..i] + [task];
      GroupsOfPush(groups, archived[..i], task);
      if date !in groups {
        groups := groups[date := []];
      }
      groups := groups[date := groups[date] + [task]];
      i := i + 1;
    }
    assert archived[..i] == archived;
  }

  /** The comparator of `historyDates`: `b.localeCompare(a)`, newest date first. */
  function CompareDatesDescending(a: string, b: string): int {
    LexCompare(b, a)
  }

  lemma CompareDatesDescendingConsistent()
    ensures Sorting.Consistent(CompareDatesDescending)
  {
    forall x: string, y: string
      ensures CompareDatesDescending(x, y) <= 0 || CompareDatesDescending(y, x) <= 0
    {
      LexCompareAntisymmetric(x, y);
    }
    forall x: string, y: string, z: string |
      CompareDatesDescending(x, y) <= 0 && CompareDatesDescending(y, z) <= 0
      ensures CompareDatesDescending(x, z) <= 0
    {
      LexCompareTransitive(z, y, x);
    }
  }

  /** `Object.keys(groups)`: each key once, in some order. */
  method ObjectKeys(groups: map<string, seq<Todo>>) returns (keys: seq<string>)
    ensures forall d :: d in keys <==> d in groups
    ensures NoDuplicates(keys)
    ensures |keys| == |groups.Keys|
  {
    keys := [];
    var rest := groups.Keys;
    while rest != {}
      invariant rest <= groups.Keys
      invariant forall d :: d in keys <==> d in groups && d !in rest
      invariant NoDuplicates(keys)
      invariant |keys| + |rest| == |groups.Keys|
      decreases |rest|
    {
      var k :| k in rest;
      keys := keys + [k];
      rest := rest - {k};
    }
  }

  /** `historyDates`: the group keys, latest first, each once. */
  method HistoryDates(groups: map<string, seq<Todo>>) returns (dates: seq<string>)
    ensures forall d :: d in dates <==> d in groups
    ensures |dates| == |groups.Keys|
    ensures forall i, j :: 0 <= i < j < |dates| ==> LexCompare(dates[i], dates[j]) > 0
  {
    var keys := ObjectKeys(groups);
    var a := new string[|keys|](i requires 0 <= i < |keys| => keys[i]);
    assert a[..] == keys;
    CompareDatesDescendingConsistent();
    Sorting.InsertionSort(a, CompareDatesDescending);
    dates := a[..];
    SameMembers(dates, keys);
    NoDuplicatesPermutation(dates, keys);
    StrictlyDescending(dates);
  }

  /** Distinct dates sorted by the descending comparator strictly descend. */
  lemma StrictlyDescending(dates: seq<string>)
    requires Sorting.SortedBy(dates, CompareDatesDescending) && NoDuplicates(dates)
    ensures forall i, j :: 0 <= i < j < |dates| ==> LexCompare(dates[i], dates[j]) > 0
  {
    forall i, j | 0 <= i < j < |dates|
      ensures LexCompare(dates[i], dates[j]) > 0
    {
      assert CompareDatesDescending(dates[i], dates[j]) <= 0;
      LexCompareAntisymmetric(dates[i], dates[j]);
    }
  }

  // ------------------------------------------------------------ scenario

  lemma BuyMilkNotBlank()
    ensures !IsBlank("Buy milk")
  {
    var text := "Buy milk";
    assert text[0] == 'B' && !IsJsWhitespace('B');
    BlankIffAllWhitespace(text);
  }

  /** A task is created, completed and archived: it keeps its place in the
      list but leaves the active view, filed under its completion date. */
  lemma BuyMilkScenario(localDate: int -> DateText)
    ensures var s1 := AddTask([], "Buy milk", Stamp("t1", 1000));
            var s2 := ToggleTask(s1, "t1", 2000);
            var s3 := ArchiveCompleted(s2, 3000, localDate);
            && s1 == [Todo("t1", "Buy milk", false, 1000, None, None)]
            && s2 == [Todo("t1", "Buy milk", true, 1000, Some(2000), None)]
            && s3 == [Todo("t1", "Buy milk", true, 1000, Some(2000), Some(localDate(2000)))]
            && Active(s3) == [] && Archived(s3) == s3
  {
    var t1 := Todo("t1", "Buy milk", false, 1000, None, None);
    var t2 := Todo("t1", "Buy milk", true, 1000, Some(2000), None);
    var t3 := Todo("t1", "Buy milk", true, 1000, Some(2000), Some(localDate(2000)));
    BuyMilkNotBlank();
    assert AddTask([], "Buy milk", Stamp("t1", 1000)) == [t1];
    ToggleOne(t1, 2000);
    ArchiveOne(t2, 3000, localDate);
    ArchivedOne(t3);
  }

  lemma ToggleOne(t: Todo, now: int)
    ensures ToggleTask([t], t.id, now) == [Toggled(t, now)]
  {
  }

  lemma ArchiveOne(t: Todo, now: int, localDate: int -> DateText)
    requires t.completed && t.archivedDate == None && t.completedAt.Some? && t.completedAt.value != 0
    ensures ArchiveCompleted([t], now, localDate) == [t.(archivedDate := Some(localDate(t.completedAt.value)))]
  {
  }

  lemma ArchivedOne(t: Todo)
    requires IsArchived(t)
    ensures Active([t]) == [] && Archived([t]) == [t]
  {
    FilterCons(t, [], Not(Archivedness()));
    FilterCons(t, [], Archivedness());
    assert [t] + [] == [t];
  }
}
