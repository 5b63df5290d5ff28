/**
 * The account directory stored under the `users` key: the checks of
 * RegisterScreen.register and the credential lookup of LoginScreen.login.
 */
module Accounts {
  import opened Wrappers
  import opened Text

  /** A directory record `{ username, password }`; the password is kept in plain text. */
  datatype User = User(username: string, password: string)

  /** Why register refuses, in the order its checks run. */
  datatype RegisterError = BlankField | PasswordMismatch | UsernameTaken

  /** `users.some(user => user.username === name)` */
  predicate Taken(users: seq<User>, name: string)
  {
    exists i :: 0 <= i < |users| && users[i].username == name
  }

  /** No two records share a username (exact, case-sensitive comparison). */
  ghost predicate UniqueUsernames(users: seq<User>)
  {
    forall i, j :: 0 <= i < j < |users| ==> users[i].username != users[j].username
  }

  /** `users.find(u => u.username === name && u.password === password)` */
  function FindUser(users: seq<User>, name: string, password: string): (r: Option<User>)
    ensures r.Some? <==> exists i :: 0 <= i < |users| && users[i] == User(name, password)
    ensures r.Some? ==> r.value == User(name, password)
  {
    if users == [] then None
    else if users[0].username == name && users[0].password == password then Some(users[0])
    else
      var r := FindUser(users[1..], name, password);
      assert forall i :: 0 < i < |users| ==> users[i] == users[1..][i - 1];
      r
  }

  /**
   * The directory after `register(name, password, confirm)`, or the reason it is refused.
   * A blank field is tested on the trimmed text but the name is stored as typed.
   */
  function Registered(users: seq<User>, name: string, password: string, confirm: string)
    : (r: Result<seq<User>, RegisterError>)
    ensures r == Failure(BlankField) <==> IsBlank(name) || IsBlank(password) || IsBlank(confirm)
    ensures r.Success? ==> r.value == users + [User(name, password)]
  {
    if IsBlank(name) || IsBlank(password) || IsBlank(confirm) then Failure(BlankField)
    else if password != confirm then Failure(PasswordMismatch)
    else if Taken(users, name) then Failure(UsernameTaken)
    else Success(users + [User(name, password)])
  }

  /**
   * register succeeds exactly when every field has non-blank text, the
   * confirmation repeats the password and the name is new; each refusal
   * names the first check that failed.
   */
  lemma RegisteredOutcome(users: seq<User>, name: string, password: string, confirm: string)
    ensures var r := Registered(users, name, password, confirm);
      && (r.Success? <==> !IsBlank(name) && !IsBlank(password) && !IsBlank(confirm)
                          && password == confirm && !Taken(users, name))
      && (r == Failure(PasswordMismatch) <==>
            !IsBlank(name) && !IsBlank(password) && !IsBlank(confirm) && password != confirm)
      && (r == Failure(UsernameTaken) <==>
            !IsBlank(name) && !IsBlank(password) && !IsBlank(confirm) && password == confirm && Taken(users, name))
  {
  }

  /** Registration keeps usernames unique, and every stored username is non-blank. */
  lemma RegisterKeepsDirectoryValid(users: seq<User>, name: string, password: string, confirm: string)
    requires UniqueUsernames(users)
    requires forall i :: 0 <= i < |users| ==> !IsBlank(users[i].username)
    requires Registered(users, name, password, confirm).Success?
    ensures var us := Registered(users, name, password, confirm).value;
      UniqueUsernames(us) && forall i :: 0 <= i < |us| ==> !IsBlank(us[i].username)
  {
    RegisteredOutcome(users, name, password, confirm);
    var us := users + [User(name, password)];
    assert !Taken(users, name) && !IsBlank(name);
    forall i, j | 0 <= i < j < |us| ensures us[i].username != us[j].username {
      assert us[i] == users[i];
      if j < |users| {
        assert us[j] == users[j];
      }
    }
  }

  /** A name that registered once cannot register again, whatever the password. */
  lemma RegisterTwiceFails(users: seq<User>, name: string, password: string, confirm: string,
                           password2: string, confirm2: string)
    requires Registered(users, name, password, confirm).Success?
    ensures Registered(Registered(users, name, password, confirm).value, name, password2, confirm2).Failure?
  {
    var us := Registered(users, name, password, confirm).value;
    assert us[|users|].username == name;
  }

  /**
   * After registering, login finds the new record with its password and, since
   * registration succeeds only for a name no record carries, with no other password.
   */
  lemma LoginAfterRegister(users: seq<User>, name: string, password: string, confirm: string, other: string)
    requires Registered(users, name, password, confirm).Success?
    ensures var us := Registered(users, name, password, confirm).value;
      FindUser(us, name, password) == Some(User(name, password))
      && (other != password ==> FindUser(us, name, other) == None)
  {
    RegisteredOutcome(users, name, password, confirm);
    var us := Registered(users, name, password, confirm).value;
    assert us[|users|] == User(name, password);
    if other != password {
      forall i | 0 <= i < |us| ensures us[i] != User(name, other) {
        if i < |users| { assert us[i] == users[i]; }
      }
    }
  }
}
