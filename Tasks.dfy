/**
 * The pure list logic of the task screen: the `map` and `filter` expressions
 * of updateTask, deleteTask, toggleTaskCompletion and handleSearch, the
 * new task built by addTask, and the status sort of sortTasks.
 */
module Tasks {
  import opened Text

  /** One to-do entry: `{ id, text, completed }`. */
  datatype Task = Task(id: string, text: string, completed: bool)

  function Ids(tasks: seq<Task>): (r: seq<string>)
  {
    seq(|tasks|, i requires 0 <= i < |tasks| => tasks[i].id)
  }

  /** `task.id === id` */
  predicate HasId(t: Task, id: string)
  {
    t.id == id
  }

  /** No two tasks of a list share an id. */
  ghost predicate UniqueIds(tasks: seq<Task>)
  {
    forall i, j :: 0 <= i < j < |tasks| ==> tasks[i].id != tasks[j].id
  }

  // ---------------------------------------------------------------- add

  /** The task addTask creates: the given id and text, not completed (an empty text is not rejected). */
  function NewTask(id: string, text: string): (t: Task)
    ensures t.id == id && t.text == text && !t.completed
  {
    Task(id, text, false)
  }

  // ---------------------------------------------------------------- update

  /** `tasks.map(task => task.id === edited.id ? edited : task)` */
  function Updated(tasks: seq<Task>, edited: Task): (r: seq<Task>)
    ensures |r| == |tasks|
    ensures forall i :: 0 <= i < |tasks| && !HasId(tasks[i], edited.id) ==> r[i] == tasks[i]
    ensures forall i :: 0 <= i < |tasks| && HasId(tasks[i], edited.id) ==> r[i] == edited
  {
    if tasks == [] then []
    else [if HasId(tasks[0], edited.id) then edited else tasks[0]] + Updated(tasks[1..], edited)
  }

  /** An edit never changes which ids the list holds, nor their order. */
  lemma UpdatedKeepsIds(tasks: seq<Task>, edited: Task)
    ensures Ids(Updated(tasks, edited)) == Ids(tasks)
  {
  }

  /** Of two edits of the same task, the later one wins. */
  lemma UpdatedLastWins(tasks: seq<Task>, first: Task, second: Task)
    requires first.id == second.id
    ensures Updated(Updated(tasks, first), second) == Updated(tasks, second)
  {
  }

  /** Saving a task exactly as it is stored changes nothing, provided the ids are unique. */
  lemma {:induction false} UpdatedWithStoredIsIdentity(tasks: seq<Task>, k: nat)
    requires UniqueIds(tasks) && k < |tasks|
    ensures Updated(tasks, tasks[k]) == tasks
  {
    var r := Updated(tasks, tasks[k]);
    forall i | 0 <= i < |tasks|
      ensures r[i] == tasks[i]
    {
      if i != k {
        if i < k { assert tasks[i].id != tasks[k].id; }
        else { assert tasks[k].id != tasks[i].id; }
      }
    }
  }

  // ---------------------------------------------------------------- delete

  /** `tasks.filter(task => task.id !== id)` */
  function Without(tasks: seq<Task>, id: string): (r: seq<Task>)
    ensures |r| <= |tasks|
    ensures forall t :: t in r <==> t in tasks && !HasId(t, id)
  {
    if tasks == [] then []
    else if !HasId(tasks[0], id) then [tasks[0]] + Without(tasks[1..], id)
    else Without(tasks[1..], id)
  }

  /** Deleting keeps the surviving tasks in their original order. */
  lemma {:induction false} WithoutAppend(a: seq<Task>, b: seq<Task>, id: string)
    ensures Without(a + b, id) == Without(a, id) + Without(b, id)
  {
    if a == [] {
      assert a + b == b;
    } else {
      assert (a + b)[1..] == a[1..] + b;
      WithoutAppend(a[1..], b, id);
    }
  }

  /** Deleting an id that no task carries leaves the list as it is. */
  lemma {:induction false} WithoutAbsent(tasks: seq<Task>, id: string)
    requires forall t :: t in tasks ==> !HasId(t, id)
    ensures Without(tasks, id) == tasks
  {
    if tasks != [] {
      assert tasks[0] in tasks;
      WithoutAbsent(tasks[1..], id);
    }
  }

  /** No task of the list other than task k carries task k's id. */
  ghost predicate IdOnlyAt(tasks: seq<Task>, k: nat)
    requires k < |tasks|
  {
    forall i :: 0 <= i < |tasks| && i != k ==> !HasId(tasks[i], tasks[k].id)
  }

  lemma IdAbsentOutside(tasks: seq<Task>, k: nat, lo: nat, hi: nat)
    requires k < |tasks| && IdOnlyAt(tasks, k)
    requires lo <= hi <= |tasks| && (k < lo || hi <= k)
    ensures forall t :: t in tasks[lo..hi] ==> !HasId(t, tasks[k].id)
  {
    forall t | t in tasks[lo..hi] ensures !HasId(t, tasks[k].id) {
      var i :| lo <= i < hi && tasks[i] == t;
    }
  }

  /** Removing the one task carrying `id` from between tasks that do not carry it. */
  lemma WithoutBetween(front: seq<Task>, x: Task, back: seq<Task>, id: string)
    requires forall t :: t in front ==> !HasId(t, id)
    requires forall t :: t in back ==> !HasId(t, id)
    requires HasId(x, id)
    ensures Without(front + [x] + back, id) == front + back
  {
    assert Without(front + [x], id) == front by {
      assert Without([x], id) == [] by { assert [x][1..] == []; }
      WithoutAbsent(front, id);
      WithoutAppend(front, [x], id);
      assert front + [] == front;
    }
    assert Without(back, id) == back by { WithoutAbsent(back, id); }
    WithoutAppend(front + [x], back, id);
  }

  /** When no other task shares task k's id (as with unique ids), deleting that id removes exactly task k. */
  lemma DeleteRemovesExactlyOne(tasks: seq<Task>, k: nat)
    requires k < |tasks| && IdOnlyAt(tasks, k)
    ensures Without(tasks, tasks[k].id) == tasks[..k] + tasks[k + 1..]
  {
    var id, front, back := tasks[k].id, tasks[..k], tasks[k + 1..];
    assert Without(front + [tasks[k]] + back, id) == front + back by {
      IdAbsentOutside(tasks, k, 0, k);
      IdAbsentOutside(tasks, k, k + 1, |tasks|);
      WithoutBetween(front, tasks[k], back, id);
    }
    SplitAt(tasks, k);
  }

  lemma SplitAt(tasks: seq<Task>, k: nat)
    requires k < |tasks|
    ensures tasks == tasks[..k] + [tasks[k]] + tasks[k + 1..]
  {
  }

  /** Unique ids give every task sole ownership of its id. */
  lemma UniqueIdsOnlyAt(tasks: seq<Task>, k: nat)
    requires UniqueIds(tasks) && k < |tasks|
    ensures IdOnlyAt(tasks, k)
  {
    forall i | 0 <= i < |tasks| && i != k ensures !HasId(tasks[i], tasks[k].id) {
      if i < k { assert tasks[i].id != tasks[k].id; } else { assert tasks[k].id != tasks[i].id; }
    }
  }

  /** Deleting a freshly added task undoes the add, when its id was new. */
  lemma DeleteUndoesAdd(tasks: seq<Task>, id: string, text: string)
    requires forall t :: t in tasks ==> !HasId(t, id)
    ensures Without(tasks + [NewTask(id, text)], id) == tasks
  {
    WithoutAppend(tasks, [NewTask(id, text)], id);
    WithoutAbsent(tasks, id);
    assert Without([NewTask(id, text)], id) == [];
  }

  // ---------------------------------------------------------------- toggle

  /** `tasks.map(task => task.id === id ? { ...task, completed: !task.completed } : task)` */
  function Toggled(tasks: seq<Task>, id: string): (r: seq<Task>)
    ensures |r| == |tasks|
    ensures forall i :: 0 <= i < |tasks| ==> r[i].id == tasks[i].id && r[i].text == tasks[i].text
    ensures forall i :: 0 <= i < |tasks| ==> (r[i].completed <==> (tasks[i].completed != HasId(tasks[i], id)))
  {
    if tasks == [] then []
    else
      var t := tasks[0];
      [if HasId(t, id) then t.(completed := !t.completed) else t] + Toggled(tasks[1..], id)
  }

  /** Toggling the same id twice restores the list. */
  lemma ToggledTwice(tasks: seq<Task>, id: string)
    ensures Toggled(Toggled(tasks, id), id) == tasks
  {
  }

  // ---------------------------------------------------------------- search

  /** `task.text.toLowerCase().includes(query.toLowerCase())` */
  predicate Matches(t: Task, query: string)
  {
    Includes(Lower(t.text), Lower(query))
  }

  /** `tasks.filter(task => Matches(task, query))` */
  function Matching(tasks: seq<Task>, query: string): (r: seq<Task>)
    ensures |r| <= |tasks|
    ensures forall t :: t in r <==> t in tasks && Matches(t, query)
  {
    if tasks == [] then []
    else if Matches(tasks[0], query) then [tasks[0]] + Matching(tasks[1..], query)
    else Matching(tasks[1..], query)
  }

  /** The search result keeps the stored order. */
  lemma {:induction false} MatchingAppend(a: seq<Task>, b: seq<Task>, query: string)
    ensures Matching(a + b, query) == Matching(a, query) + Matching(b, query)
  {
    if a == [] {
      assert a + b == b;
    } else {
      assert (a + b)[1..] == a[1..] + b;
      MatchingAppend(a[1..], b, query);
    }
  }

  /** Case does not matter: a query matches the same tasks as its lower-cased form. */
  lemma MatchingIgnoresQueryCase(tasks: seq<Task>, query: string)
    ensures Matching(tasks, Lower(query)) == Matching(tasks, query)
  {
    LowerIdempotent(query);
  }

  /**
   * Toggling a task in the search view and searching the toggled list again
   * give the same view: the view toggleTaskCompletion maintains is in sync.
   */
  lemma {:induction false} ToggleCommutesWithSearch(tasks: seq<Task>, id: string, query: string)
    ensures Matching(Toggled(tasks, id), query) == Toggled(Matching(tasks, query), id)
  {
    if tasks != [] {
      var t := tasks[0];
      var t' := Toggled(tasks, id)[0];
      assert Toggled(tasks, id) == [t'] + Toggled(tasks[1..], id);
      assert Matches(t', query) == Matches(t, query);
      ToggleCommutesWithSearch(tasks[1..], id, query);
      if Matches(t, query) {
        assert Matching(tasks, query) == [t] + Matching(tasks[1..], query);
        assert Toggled([t] + Matching(tasks[1..], query), id)
            == [t'] + Toggled(Matching(tasks[1..], query), id);
      }
    }
  }

  // ---------------------------------------------------------------- sort by status

  /** The comparator of sortTasks('status'): incomplete before completed, 0 on a tie. */
  function CompareByStatus(a: Task, b: Task): (c: int)
    ensures c < 0 <==> !a.completed && b.completed
    ensures c > 0 <==> a.completed && !b.completed
  {
    if a.completed == b.completed then 0 else if a.completed then 1 else -1
  }

  /** No pair of the list is out of order under the comparator. */
  ghost predicate OrderedByStatus(s: seq<Task>)
  {
    forall i, j :: 0 <= i < j < |s| ==> CompareByStatus(s[i], s[j]) <= 0
  }

  predicate HasStatus(t: Task, done: bool)
  {
    t.completed == done
  }

  /** The tasks whose `completed` equals `done`, in list order. */
  function WithStatus(tasks: seq<Task>, done: bool): (r: seq<Task>)
    ensures |r| <= |tasks|
    ensures forall t :: t in r <==> t in tasks && HasStatus(t, done)
  {
    if tasks == [] then []
    else if HasStatus(tasks[0], done) then [tasks[0]] + WithStatus(tasks[1..], done)
    else WithStatus(tasks[1..], done)
  }

  /**
   * What a stable sort with CompareByStatus produces: ordered under the
   * comparator, and within each group (the tasks comparing equal) the
   * original relative order.
   */
  ghost predicate IsStableSortByStatus(input: seq<Task>, output: seq<Task>)
  {
    && OrderedByStatus(output)
    && WithStatus(output, false) == WithStatus(input, false)
    && WithStatus(output, true) == WithStatus(input, true)
  }

  /** The result of sortTasks('status'): the incomplete tasks, then the completed ones. */
  function SortedByStatus(tasks: seq<Task>): (r: seq<Task>)
    ensures forall t :: t in r <==> t in tasks
  {
    WithStatus(tasks, false) + WithStatus(tasks, true)
  }

  lemma {:induction false} WithStatusAppend(a: seq<Task>, b: seq<Task>, done: bool)
    ensures WithStatus(a + b, done) == WithStatus(a, done) + WithStatus(b, done)
  {
    if a == [] {
      assert a + b == b;
    } else {
      assert (a + b)[1..] == a[1..] + b;
      WithStatusAppend(a[1..], b, done);
    }
  }

  /** Splitting a list by status loses and duplicates nothing. */
  lemma {:induction false} WithStatusSplits(tasks: seq<Task>)
    ensures multiset(WithStatus(tasks, false)) + multiset(WithStatus(tasks, true)) == multiset(tasks)
  {
    if tasks != [] {
      WithStatusSplits(tasks[1..]);
      assert tasks == [tasks[0]] + tasks[1..];
    }
  }

  /** A list all of whose tasks have status `done` is its own `done` group. */
  lemma {:induction false} WithStatusOfUniform(tasks: seq<Task>, done: bool)
    requires forall t :: t in tasks ==> HasStatus(t, done)
    ensures WithStatus(tasks, done) == tasks
  {
    if tasks != [] {
      WithStatusOfUniform(tasks[1..], done);
    }
  }

  /** A list none of whose tasks has status `done` has an empty `done` group. */
  lemma {:induction false} WithStatusOfOther(tasks: seq<Task>, done: bool)
    requires forall t :: t in tasks ==> !HasStatus(t, done)
    ensures WithStatus(tasks, done) == []
  {
    if tasks != [] {
      WithStatusOfOther(tasks[1..], done);
    }
  }

  /** Once a completed task appears in an ordered list, every later task is completed too. */
  lemma OrderedAfterCompleted(s: seq<Task>)
    requires OrderedByStatus(s) && s != [] && s[0].completed
    ensures forall t :: t in s ==> HasStatus(t, true)
  {
    forall t | t in s ensures HasStatus(t, true) {
      var i :| 0 <= i < |s| && s[i] == t;
      if i > 0 { assert CompareByStatus(s[0], s[i]) <= 0; }
    }
  }

  lemma OrderedTail(s: seq<Task>)
    requires OrderedByStatus(s) && s != []
    ensures OrderedByStatus(s[1..])
  {
    forall i, j | 0 <= i < j < |s| - 1 ensures CompareByStatus(s[1..][i], s[1..][j]) <= 0 {
      assert CompareByStatus(s[i + 1], s[j + 1]) <= 0;
    }
  }

  lemma UniformSplits(s: seq<Task>)
    requires forall t :: t in s ==> HasStatus(t, true)
    ensures s == WithStatus(s, false) + WithStatus(s, true)
  {
    WithStatusOfUniform(s, true);
    WithStatusOfOther(s, false);
  }

  lemma SplitsCons(s: seq<Task>)
    requires s != [] && !s[0].completed
    requires s[1..] == WithStatus(s[1..], false) + WithStatus(s[1..], true)
    ensures s == WithStatus(s, false) + WithStatus(s, true)
  {
    assert s == [s[0]] + s[1..];
  }

  /** An ordered list is already its incomplete group followed by its completed group. */
  lemma {:induction false} OrderedSplits(s: seq<Task>)
    requires OrderedByStatus(s)
    ensures s == WithStatus(s, false) + WithStatus(s, true)
  {
    if s != [] {
      if s[0].completed {
        OrderedAfterCompleted(s);
        UniformSplits(s);
      } else {
        OrderedTail(s);
        OrderedSplits(s[1..]);
        SplitsCons(s);
      }
    }
  }

  /** Every incomplete task of the status sort precedes every completed one. */
  lemma SortedByStatusOrdered(tasks: seq<Task>)
    ensures OrderedByStatus(SortedByStatus(tasks))
  {
    var inc, done := WithStatus(tasks, false), WithStatus(tasks, true);
    var r := inc + done;
    forall i, j | 0 <= i < j < |r| ensures CompareByStatus(r[i], r[j]) <= 0 {
      if i < |inc| {
        assert r[i] in inc;
        assert HasStatus(r[i], false);
      } else {
        assert r[i] in done && r[j] in done;
        assert HasStatus(r[i], true) && HasStatus(r[j], true);
      }
    }
  }

  /** Each group of the status sort is the same group of the input, in the same order. */
  lemma SortedByStatusKeepsGroups(tasks: seq<Task>)
    ensures WithStatus(SortedByStatus(tasks), false) == WithStatus(tasks, false)
    ensures WithStatus(SortedByStatus(tasks), true) == WithStatus(tasks, true)
  {
    var inc, done := WithStatus(tasks, false), WithStatus(tasks, true);
    WithStatusAppend(inc, done, false);
    WithStatusAppend(inc, done, true);
    WithStatusOfUniform(inc, false);
    WithStatusOfUniform(done, true);
    WithStatusOfOther(done, false);
    WithStatusOfOther(inc, true);
  }

  /** The status sort is a stable sort with the comparator, and a permutation of its input. */
  lemma SortedByStatusIsStableSort(tasks: seq<Task>)
    ensures IsStableSortByStatus(tasks, SortedByStatus(tasks))
    ensures multiset(SortedByStatus(tasks)) == multiset(tasks)
  {
    SortedByStatusOrdered(tasks);
    SortedByStatusKeepsGroups(tasks);
    WithStatusSplits(tasks);
  }

  /** Any stable sort with the comparator yields exactly SortedByStatus: the result is determined. */
  lemma StableSortByStatusUnique(tasks: seq<Task>, output: seq<Task>)
    requires IsStableSortByStatus(tasks, output)
    ensures output == SortedByStatus(tasks)
  {
    OrderedSplits(output);
  }
}
