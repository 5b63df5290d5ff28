/**
 * The task screen: its React state (the task list on screen, the search view,
 * the search flag and the login history) and the handlers that change that
 * state and the stored task list of the logged-in user.
 */
module Screen {
  import opened Wrappers
  import opened Text
  import opened Tasks
  import opened Storage

  class TaskScreen {
    /** The device store the screen reads and writes. */
    const store: Store
    /** `tasks`: the list on screen. */
    var tasks: seq<Task>
    /** `filteredTasks`: the search view. */
    var filtered: seq<Task>
    /** `isSearching`: whether the search view is shown. */
    var searching: bool
    /** `loginHistory`: the history as read on mount. */
    var history: seq<string>

    ghost predicate Valid()
      reads this, store
    {
      store.Valid()
    }

    /** The `username` state: the logged-in user, or '' when there is none. */
    function UserName(): (r: string)
      reads this, store
    {
      match store.LoggedIn()
      case Some(name) => name
      case None => ""
    }

    /** Mounting the screen: loadsTasks, loadUser and fetchHistory. */
    constructor (store: Store)
      requires store.Valid()
      ensures Valid() && this.store == store
      ensures tasks == (match store.LoggedIn() case Some(name) => store.TasksOf(name) case None => [])
      ensures filtered == [] && !searching && history == store.History()
    {
      this.store := store;
      var user := store.LoggedIn();
      tasks := if user.Some? then store.TasksOf(user.value) else [];
      filtered := [];
      searching := false;
      history := store.History();
    }

    /** saveTasks: stores `newTasks` under the session user's key and shows them. */
    method SaveTasks(newTasks: seq<Task>)
      requires Valid()
      modifies this, store
      ensures Valid()
      ensures store.kv == old(store.kv)[TasksKey(old(UserName())) := TaskList(newTasks)]
      ensures tasks == newTasks
      ensures filtered == old(filtered) && searching == old(searching) && history == old(history)
    {
      TaskWriteKeepsValid(store.kv, UserName(), newTasks);
      store.kv := store.kv[TasksKey(UserName()) := TaskList(newTasks)];
      tasks := newTasks;
    }

    /** updateTask: replaces every task whose id is `edited.id` by `edited`, then saves. */
    method UpdateTask(edited: Task)
      requires Valid()
      modifies this, store
      ensures Valid()
      ensures tasks == Updated(old(tasks), edited)
      ensures store.kv == old(store.kv)[TasksKey(old(UserName())) := TaskList(tasks)]
      ensures filtered == old(filtered) && searching == old(searching) && history == old(history)
    {
      SaveTasks(Updated(tasks, edited));
    }

    /**
     * TaskDetailsScreen.saveTask: the task opened on the details screen with
     * its new text; an empty text raises an alert but is saved all the same.
     */
    method EditTask(task: Task, newText: string)
      requires Valid()
      modifies this, store
      ensures Valid()
      ensures tasks == Updated(old(tasks), task.(text := newText))
      ensures store.kv == old(store.kv)[TasksKey(old(UserName())) := TaskList(tasks)]
      ensures filtered == old(filtered) && searching == old(searching) && history == old(history)
    {
      UpdateTask(task.(text := newText));
    }

    /**
     * AddTaskScreen.addTask: appends a new, not completed task with the given
     * id (the creation time) and text, then saves; an empty text raises an
     * alert but is added all the same.
     */
    method AddTask(id: string, text: string)
      requires Valid()
      modifies this, store
      ensures Valid()
      ensures tasks == old(tasks) + [NewTask(id, text)]
      ensures store.kv == old(store.kv)[TasksKey(old(UserName())) := TaskList(tasks)]
      ensures filtered == old(filtered) && searching == old(searching) && history == old(history)
    {
      SaveTasks(tasks + [NewTask(id, text)]);
    }

    /** deleteTask: on confirmation, drops every task with the id and saves; on cancel nothing changes. */
    method DeleteTask(id: string, confirmed: bool)
      requires Valid()
      modifies this, store
      ensures Valid()
      ensures !confirmed ==> tasks == old(tasks) && store.kv == old(store.kv)
      ensures confirmed ==> tasks == Without(old(tasks), id)
                            && store.kv == old(store.kv)[TasksKey(old(UserName())) := TaskList(tasks)]
      ensures filtered == old(filtered) && searching == old(searching) && history == old(history)
    {
      if confirmed {
        SaveTasks(Without(tasks, id));
      }
    }

    /**
     * clearAllTasks: on confirmation, removes the session user's stored list
     * and empties the screen; other users' lists are untouched.
     */
    method ClearAllTasks(confirmed: bool)
      requires Valid()
      modifies this, store
      ensures Valid()
      ensures !confirmed ==> tasks == old(tasks) && store.kv == old(store.kv)
      ensures confirmed ==> && tasks == []
                            && store.kv == old(store.kv) - {TasksKey(old(UserName()))}
                            && store.TasksOf(old(UserName())) == []
      ensures forall name :: name != old(UserName()) ==> store.TasksOf(name) == old(store.TasksOf(name))
      ensures filtered == old(filtered) && searching == old(searching) && history == old(history)
    {
      if confirmed {
        var user := UserName();
        TaskWriteKeepsValid(store.kv, user, []);
        ghost var before := store.kv;
        store.kv := store.kv - {TasksKey(user)};
        tasks := [];
        forall name | name != user ensures store.TasksOf(name) == TasksIn(before, name) {
          TasksKeyIsolated(name, user);
        }
      }
    }

    /** sortTasks('status'): reorders the list on screen; the stored list is not rewritten. */
    method SortTasksByStatus()
      requires Valid()
      modifies this
      ensures Valid()
      ensures tasks == SortedByStatus(old(tasks))
      ensures filtered == old(filtered) && searching == old(searching) && history == old(history)
    {
      tasks := SortedByStatus(tasks);
    }

    /**
     * handleSearch: a blank query leaves search mode with an empty view;
     * otherwise the view becomes the stored tasks of the logged-in user whose
     * text contains the query, ignoring case (with nobody logged in the
     * screen enters search mode and the view stays as it was).
     */
    method HandleSearch(query: string)
      requires Valid()
      modifies this
      ensures Valid()
      ensures IsBlank(query) ==> !searching && filtered == []
      ensures !IsBlank(query) ==> searching && filtered == (match store.LoggedIn()
                                                             case Some(name) => Matching(store.TasksOf(name), query)
                                                             case None => old(filtered))
      ensures tasks == old(tasks) && history == old(history)
    {
      if IsBlank(query) {
        searching := false;
        filtered := [];
        return;
      }
      searching := true;
      var user := store.LoggedIn();
      // `if (user)`: a session name is never '' (SessionNameNonEmpty)
      if user.Some? {
        var allTasks := store.TasksOf(user.value);
        filtered := Matching(allTasks, query);
      }
    }

    /**
     * toggleTaskCompletion: with nobody logged in nothing changes; otherwise
     * the task with the id flips its `completed` flag on screen and in the
     * stored list, and in the search view while one is shown.
     */
    method ToggleTaskCompletion(id: string)
      requires Valid()
      modifies this, store
      ensures Valid()
      ensures old(store.LoggedIn()).None? ==>
                && store.kv == old(store.kv) && tasks == old(tasks)
                && filtered == old(filtered) && searching == old(searching)
      ensures old(store.LoggedIn()).Some? ==>
                && tasks == Toggled(old(tasks), id)
                && store.kv == old(store.kv)[TasksKey(old(store.LoggedIn()).value) := TaskList(tasks)]
                && filtered == (if old(searching) then Toggled(old(filtered), id) else old(filtered))
                && searching == old(searching)
      ensures history == old(history)
    {
      var user := store.LoggedIn();
      // `if (!user) return`: a session name is never '' (SessionNameNonEmpty)
      if user.None? {
        return;
      }
      var updatedTasks := Toggled(tasks, id);
      tasks := updatedTasks;
      TaskWriteKeepsValid(store.kv, user.value, updatedTasks);
      store.kv := store.kv[TasksKey(user.value) := TaskList(updatedTasks)];
      if searching {
        filtered := Toggled(filtered, id);
      }
    }

    /** logout: removes `loggedInUser`. */
    method Logout()
      requires Valid()
      modifies store
      ensures Valid()
      ensures store.kv == old(store.kv) - {SessionKey}
      ensures store.LoggedIn() == None
    {
      store.Logout();
    }
  }
}
