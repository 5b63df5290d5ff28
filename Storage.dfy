/**
 * The device key-value store and the handlers that change it from the login
 * and registration screens: register, login and logout.
 */
module Storage {
  import opened Wrappers
  import opened Text
  import opened Accounts
  import opened Session
  import opened Tasks

  /** A stored value, already decoded from its JSON text. */
  datatype Value =
    | UserList(users: seq<User>)
    | StampList(stamps: seq<string>)
    | Name(name: string)
    | TaskList(tasks: seq<Task>)

  const UsersKey: string := "users"
  const HistoryKey: string := "loginHistory"
  const SessionKey: string := "loggedInUser"

  /** `tasks_${name}` */
  function TasksKey(name: string): (r: string)
  {
    "tasks_" + name
  }

  /** A task key never collides with a fixed key, and different users get different keys. */
  lemma TasksKeyIsolated(name: string, other: string)
    ensures TasksKey(name) != UsersKey && TasksKey(name) != HistoryKey && TasksKey(name) != SessionKey
    ensures name != other ==> TasksKey(name) != TasksKey(other)
  {
    assert TasksKey(name)[0] == 't';
    assert TasksKey(name)[6..] == name && TasksKey(other)[6..] == other;
  }

  /** Why login refuses: no `users` key at all, or no record with both the name and the password. */
  datatype LoginError = NoUsers | InvalidCredentials

  /** Usernames are unique and none is blank: what register guarantees of every directory it writes. */
  ghost predicate DirectoryValid(users: seq<User>)
  {
    UniqueUsernames(users) && forall i :: 0 <= i < |users| ==> !IsBlank(users[i].username)
  }

  /** The directory a map holds, or [] when it holds none. */
  function UsersIn(kv: map<string, Value>): (r: seq<User>)
  {
    if UsersKey in kv && kv[UsersKey].UserList? then kv[UsersKey].users else []
  }

  /** The task list a map holds for `name`, or [] when it holds none. */
  function TasksIn(kv: map<string, Value>, name: string): (r: seq<Task>)
  {
    if TasksKey(name) in kv && kv[TasksKey(name)].TaskList? then kv[TasksKey(name)].tasks else []
  }

  /** Every task key holds a task list. */
  ghost predicate TaskKeysValid(kv: map<string, Value>)
  {
    forall name :: TasksKey(name) in kv ==> kv[TasksKey(name)].TaskList?
  }

  /**
   * Each key holds the value shape the app writes under it; the directory
   * has unique, non-blank usernames; the history has at most five entries;
   * a logged-in user is a registered one.
   */
  ghost predicate StoreValid(kv: map<string, Value>)
  {
    && (UsersKey in kv ==> kv[UsersKey].UserList? && DirectoryValid(kv[UsersKey].users))
    && (HistoryKey in kv ==> kv[HistoryKey].StampList? && |kv[HistoryKey].stamps| <= HistoryLimit)
    && (SessionKey in kv ==> kv[SessionKey].Name? && Taken(UsersIn(kv), kv[SessionKey].name))
    && TaskKeysValid(kv)
  }

  /**
   * A session name is a registered, hence non-blank, username. So it is never
   * the empty string, and testing it for presence agrees with the source's
   * truthiness test `if (user)`.
   */
  lemma SessionNameNonEmpty(kv: map<string, Value>)
    requires StoreValid(kv) && SessionKey in kv
    ensures !IsBlank(kv[SessionKey].name) && kv[SessionKey].name != ""
  {
    var i :| 0 <= i < |UsersIn(kv)| && UsersIn(kv)[i].username == kv[SessionKey].name;
  }

  /** Writing a fixed key leaves every task key as it was. */
  lemma FixedWriteKeepsTaskKeys(kv: map<string, Value>, key: string, v: Value)
    requires TaskKeysValid(kv) && (key == UsersKey || key == HistoryKey || key == SessionKey)
    ensures TaskKeysValid(kv[key := v]) && TaskKeysValid(kv - {key})
  {
    forall name | TasksKey(name) in kv[key := v] ensures kv[key := v][TasksKey(name)].TaskList? {
      TasksKeyIsolated(name, name);
    }
    forall name | TasksKey(name) in kv - {key} ensures (kv - {key})[TasksKey(name)].TaskList? {
      TasksKeyIsolated(name, name);
    }
  }

  /** Growing the directory at its end keeps the store valid. */
  lemma AppendUserKeepsValid(kv: map<string, Value>, users: seq<User>)
    requires StoreValid(kv) && DirectoryValid(users) && UsersIn(kv) <= users
    ensures StoreValid(kv[UsersKey := UserList(users)])
  {
    var kv' := kv[UsersKey := UserList(users)];
    FixedWriteKeepsTaskKeys(kv, UsersKey, UserList(users));
    if SessionKey in kv {
      var i :| 0 <= i < |UsersIn(kv)| && UsersIn(kv)[i].username == kv[SessionKey].name;
      assert UsersIn(kv')[i] == UsersIn(kv)[i];
    }
  }

  /** A successful login (history pushed, a registered name logged in) keeps the store valid. */
  lemma LoginKeepsValid(kv: map<string, Value>, history: seq<string>, name: string)
    requires StoreValid(kv) && |history| <= HistoryLimit && Taken(UsersIn(kv), name)
    ensures StoreValid(kv[HistoryKey := StampList(history)][SessionKey := Name(name)])
  {
    var kv1 := kv[HistoryKey := StampList(history)];
    FixedWriteKeepsTaskKeys(kv, HistoryKey, StampList(history));
    FixedWriteKeepsTaskKeys(kv1, SessionKey, Name(name));
    assert UsersIn(kv1[SessionKey := Name(name)]) == UsersIn(kv);
  }

  /** Logging out keeps the store valid. */
  lemma LogoutKeepsValid(kv: map<string, Value>)
    requires StoreValid(kv)
    ensures StoreValid(kv - {SessionKey})
  {
    FixedWriteKeepsTaskKeys(kv, SessionKey, Name(""));
    assert UsersIn(kv - {SessionKey}) == UsersIn(kv);
  }

  /** Writing or removing one user's task list keeps the store valid. */
  lemma TaskWriteKeepsValid(kv: map<string, Value>, name: string, tasks: seq<Task>)
    requires StoreValid(kv)
    ensures StoreValid(kv[TasksKey(name) := TaskList(tasks)])
    ensures StoreValid(kv - {TasksKey(name)})
  {
    TasksKeyIsolated(name, name);
    assert UsersIn(kv[TasksKey(name) := TaskList(tasks)]) == UsersIn(kv);
    assert UsersIn(kv - {TasksKey(name)}) == UsersIn(kv);
  }

  class Store {
    /** Every key the app has written, with its value. */
    var kv: map<string, Value>

    ghost predicate Valid()
      reads this
    {
      StoreValid(kv)
    }

    /** `JSON.parse(getItem('users'))`, or [] when the key is absent; a valid store's directory is valid. */
    function Users(): (r: seq<User>)
      reads this
      ensures Valid() ==> DirectoryValid(r)
    {
      UsersIn(kv)
    }

    /** `JSON.parse(getItem('loginHistory')) || []`; in a valid store within the cap. */
    function History(): (r: seq<string>)
      reads this
      ensures Valid() ==> |r| <= HistoryLimit
    {
      if HistoryKey in kv && kv[HistoryKey].StampList? then kv[HistoryKey].stamps else []
    }

    /**
     * `getItem('loggedInUser')`. In a valid store the name is a registered
     * username, so by SessionNameNonEmpty it is never '' and `Some?` is the
     * source's truthiness test.
     */
    function LoggedIn(): (r: Option<string>)
      reads this
      ensures Valid() && r.Some? ==> Taken(Users(), r.value)
    {
      if SessionKey in kv && kv[SessionKey].Name? then Some(kv[SessionKey].name) else None
    }

    /** The stored task list of `name`, or [] when it has none. */
    function TasksOf(name: string): (r: seq<Task>)
      reads this
      ensures TasksKey(name) in kv && kv[TasksKey(name)].TaskList? ==> kv[TasksKey(name)] == TaskList(r)
      ensures TasksKey(name) !in kv ==> r == []
    {
      TasksIn(kv, name)
    }

    /** A fresh device: nothing stored. */
    constructor ()
      ensures Valid() && kv == map[]
    {
      kv := map[];
    }

    /**
     * RegisterScreen.register: validates the three fields, refuses a taken
     * name, and otherwise appends one record and rewrites the `users` key.
     * A refusal writes nothing.
     */
    method Register(name: string, password: string, confirm: string) returns (err: Option<RegisterError>)
      requires Valid()
      modifies this
      ensures Valid()
      ensures match Registered(old(Users()), name, password, confirm)
        case Success(users) => err == None && kv == old(kv)[UsersKey := UserList(users)]
        case Failure(e) => err == Some(e) && kv == old(kv)
    {
      if IsBlank(name) || IsBlank(password) || IsBlank(confirm) {
        return Some(BlankField);
      }
      if password != confirm {
        return Some(PasswordMismatch);
      }
      var users := if UsersKey in kv then kv[UsersKey].users else [];
      if Taken(users, name) {
        return Some(UsernameTaken);
      }
      RegisteredOutcome(users, name, password, confirm);
      RegisterKeepsDirectoryValid(users, name, password, confirm);
      users := users + [User(name, password)];
      AppendUserKeepsValid(kv, users);
      kv := kv[UsersKey := UserList(users)];
      err := None;
    }

    /**
     * LoginScreen.login at time `now`: with no `users` key, or with no record
     * matching both name and password, nothing changes; otherwise `now` is
     * pushed onto the history and `name` becomes the logged-in user.
     */
    method Login(name: string, password: string, now: string) returns (err: Option<LoginError>)
      requires Valid()
      modifies this
      ensures Valid()
      ensures UsersKey !in old(kv) ==> err == Some(NoUsers) && kv == old(kv)
      ensures UsersKey in old(kv) && FindUser(old(Users()), name, password).None? ==>
                err == Some(InvalidCredentials) && kv == old(kv)
      ensures UsersKey in old(kv) && FindUser(old(Users()), name, password).Some? ==>
                && err == None
                && kv == old(kv)[HistoryKey := StampList(PushHistory(old(History()), now))]
                               [SessionKey := Name(name)]
    {
      if UsersKey !in kv {
        return Some(NoUsers);
      }
      var users := kv[UsersKey].users;
      var user := FindUser(users, name, password);
      if user.None? {
        return Some(InvalidCredentials);
      }
      var history := if HistoryKey in kv then kv[HistoryKey].stamps else [];
      history := PushHistory(history, now);
      ghost var i :| 0 <= i < |users| && users[i] == User(name, password);
      assert users[i].username == name;
      LoginKeepsValid(kv, history, name);
      kv := kv[HistoryKey := StampList(history)];
      kv := kv[SessionKey := Name(name)];
      err := None;
    }

    /** TaskScreen.logout: removes `loggedInUser`; history and tasks stay. */
    method Logout()
      requires Valid()
      modifies this
      ensures Valid()
      ensures kv == old(kv) - {SessionKey}
      ensures LoggedIn() == None
    {
      LogoutKeepsValid(kv);
      kv := kv - {SessionKey};
    }
  }
}
