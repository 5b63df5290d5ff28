# To-do app data logic, modelled in Dafny

The app (`App.js`, React Native) lets a person register a username and
password, log in, and keep a personal to-do list on the device. Everything it
keeps lives in a device key-value store under four kinds of keys:

| key | value |
|---|---|
| `users` | the directory, a list of `{username, password}` |
| `loginHistory` | timestamps of successful logins, newest first, at most five |
| `loggedInUser` | the username of the current session, absent when logged out |
| `tasks_<name>` | the task list `{id, text, completed}` of user `<name>` |

This project models the data logic of the screen handlers over that store and
proves what they promise.

- `Text` — the string primitives the handlers use: the blank test `!s.trim()`
  (with ECMAScript's whitespace set), `toLowerCase` and `includes`.
- `Tasks` — the pure list expressions of the task screen: the `map` of
  `updateTask` and of `toggleTaskCompletion`, the `filter` of `deleteTask` and of
  `handleSearch`, the task `addTask` builds, and the status sort of `sortTasks`.
  The sort is specified independently, as what a stable sort with the app's
  comparator must produce, and the model's partition is proved to be the one
  and only such result and a permutation of its input.
- `Accounts` — the directory: the checks of `register` (blank fields, mismatched
  confirmation, taken name, in that order) and the credential lookup of `login`.
- `Session` — the login history: push the new timestamp, keep five.
- `Storage` — the store as a `map<string, Value>` inside the class `Store`,
  whose invariant says each key holds the shape the app writes under it,
  usernames are unique and non-blank, the history has at most five entries and
  a logged-in user is a registered one; `Register`, `Login` and `Logout` keep it.
- `Screen` — the task screen as the class `TaskScreen`, whose fields are the
  screen's state (`tasks`, `filteredTasks`, `isSearching`, `loginHistory`) and
  whose methods are its handlers.

Clock readings and dialog answers are parameters: `Login` takes the timestamp
`now`, `AddTask` takes the new task's `id` (the creation time as text), and the
confirmation dialogs of `deleteTask` and `clearAllTasks` become a boolean
`confirmed`.

Behaviours of the code worth knowing:

- `login` refuses with "user not found" only when the `users` key is absent; a
  stored but empty directory would give "wrong username or password". The app
  never stores an empty directory, since `register` only ever writes a list it
  has just appended to.
- The empty-text alert of `addTask` and of the task details screen does not
  stop the save: the model adds or saves the task with its empty text.
- `sortTasks` reorders only the list on screen; nothing is written back.
- `updateTask`, `deleteTask` and `addTask` do not touch the search view; only
  `toggleTaskCompletion` keeps it in step.

## Model

| member | source | states |
|---|---|---|
| Text.TrimStart | App.js:17 | the result is a suffix of the input, everything dropped is whitespace, and it does not start with whitespace |
| Text.TrimEnd | App.js:17 | the result is a prefix of the input, everything dropped is whitespace, and it does not end with whitespace |
| Text.Trim | App.js:17 | `s.trim()`: the result starts and ends with a non-whitespace character, and is empty exactly when every character of `s` is whitespace |
| Text.IsBlank | App.js:17 | the blank test `!s.trim()`, pinned down by BlankIffAllWhitespace and BlankIffTrimEmpty |
| Text.BlankIffAllWhitespace | App.js:17 | `!s.trim()` holds exactly when every character of `s` is whitespace |
| Text.BlankIffTrimEmpty | App.js:17 | a field is blank exactly when its trimmed form is the empty string |
| Text.IncludesIffOccurs | App.js:212 | `includes` holds exactly when the query occurs at some position of the text |
| Text.Includes | App.js:212 | `includes`, pinned down by IncludesIffOccurs: the query occurs at some position |
| Text.Lower | App.js:212 | `toLowerCase` for ASCII: same length, each capital becomes its small letter, no capital left, every other character kept |
| Text.LowerIdempotent | App.js:212 | lower-casing an already lower-cased string changes nothing |
| Tasks.NewTask | App.js:381-385 | a new task has the given id and text and is not completed |
| Tasks.Updated | App.js:153 | the list keeps its length; tasks whose id differs are unchanged and tasks with the edited id become the edited task |
| Tasks.UpdatedKeepsIds | App.js:153 | an edit keeps the list's ids and their order |
| Tasks.UpdatedLastWins | App.js:153 | of two edits of one task the later wins |
| Tasks.UpdatedWithStoredIsIdentity | App.js:153 | with unique ids, saving a task unchanged leaves the list as it was |
| Tasks.Without | App.js:167 | exactly the tasks whose id differs from the deleted id remain |
| Tasks.WithoutAppend | App.js:167 | deletion keeps the surviving tasks in their original order |
| Tasks.WithoutAbsent | App.js:167 | deleting an id no task carries changes nothing |
| Tasks.DeleteRemovesExactlyOne | App.js:167 | when no other task shares task k's id, deleting that id yields the list without position k |
| Tasks.UniqueIdsOnlyAt | App.js:167 | with unique ids, no task other than task k carries task k's id, so deletion by id removes one task |
| Tasks.DeleteUndoesAdd | App.js:167 | deleting a just-added task with a new id restores the list |
| Tasks.Toggled | App.js:222-224 | same length, ids and texts; `completed` flips exactly on the tasks with the id |
| Tasks.ToggledTwice | App.js:222-224 | toggling the same id twice restores the list |
| Tasks.Matching | App.js:212 | exactly the tasks whose lower-cased text includes the lower-cased query remain |
| Tasks.Matches | App.js:212 | the case-insensitive substring test of search; Matching keeps exactly the tasks passing it, and MatchingIgnoresQueryCase shows the query's case does not matter |
| Tasks.MatchingAppend | App.js:212 | search results keep the stored order |
| Tasks.MatchingIgnoresQueryCase | App.js:212 | a query and its lower-cased form find the same tasks |
| Tasks.ToggleCommutesWithSearch | App.js:228-232 | toggling in the search view gives the view a new search of the toggled list would give |
| Tasks.CompareByStatus | App.js:195 | negative exactly for incomplete before completed, positive exactly for the reverse, zero on ties |
| Tasks.SortedByStatusIsStableSort | App.js:193-195 | the status sort is ordered by the comparator, keeps the order within each group, and is a permutation |
| Tasks.StableSortByStatusUnique | App.js:193-195 | any stable sort with the comparator produces exactly the model's result |
| Tasks.SortedByStatus | App.js:193-195 | the status sort keeps exactly the tasks of its input; SortedByStatusIsStableSort and StableSortByStatusUnique show it is the stable sort by the comparator |
| Accounts.FindUser | App.js:69 | finds a record exactly when one matches both name and password, and then returns that record |
| Accounts.Registered | App.js:17-34 | a blank field is refused first; success appends exactly one record at the end |
| Accounts.RegisteredOutcome | App.js:17-34 | success exactly when the fields are non-blank, the confirmation matches and the name is new; each refusal names the first failed check |
| Accounts.RegisterKeepsDirectoryValid | App.js:29-34 | registration keeps usernames unique and non-blank |
| Accounts.RegisterTwiceFails | App.js:29-32 | a registered name cannot register again |
| Accounts.Taken | App.js:29 | `users.some(...)` on the username; RegisteredOutcome and RegisterTwiceFails show a taken name is refused |
| Accounts.LoginAfterRegister | App.js:69 | after registering, the name logs in with its password and with no other |
| Session.PushHistory | App.js:73-75 | the new timestamp comes first, the length is the old length plus one capped at five, the rest is a prefix of the old history |
| Session.AfterLoginsKeepsMostRecent | App.js:72-76 | after any sequence of logins the history is the five most recent entries, newest first |
| Session.ManyLoginsKeepLastFive | App.js:72-76 | after five or more logins only their five latest timestamps remain, newest first |
| Storage.TasksKeyIsolated | App.js:148 | a task key is none of the fixed keys, and different users get different task keys |
| Storage.TasksKey | App.js:148 | the key `tasks_<name>`, which TasksKeyIsolated shows is distinct from the fixed keys and from every other user's key |
| Storage.SessionNameNonEmpty | App.js:123-124 | in a valid store the session name is a non-blank username, so it is never `''` and a presence test agrees with `if (user)` |
| Storage.AppendUserKeepsValid | App.js:34-35 | rewriting `users` with a longer valid directory keeps the store invariant |
| Storage.LoginKeepsValid | App.js:76-77 | writing a capped history and a registered session user keeps the store invariant |
| Storage.LogoutKeepsValid | App.js:143 | removing `loggedInUser` keeps the store invariant |
| Storage.TaskWriteKeepsValid | App.js:148 | writing or removing one user's task list keeps the store invariant |
| Storage.Store.Register | App.js:16-38 | writes nothing on a refusal; otherwise rewrites `users` with one record appended; keeps the invariant |
| Storage.Store.Login | App.js:61-82 | no change without a `users` key or a matching record; otherwise history pushed and session set to the name |
| Storage.Store.Logout | App.js:142-145 | removes only `loggedInUser` |
| Storage.Store.Users | App.js:26-27 | the stored directory, or [] when absent; in a valid store usernames are unique and non-blank |
| Storage.Store.History | App.js:111 | `loginHistory` or [] when absent; in a valid store at most five entries |
| Storage.Store.LoggedIn | App.js:123 | `loggedInUser`; in a valid store it names a registered user |
| Storage.Store.TasksOf | App.js:208-211 | the list stored under `tasks_<name>`, or [] when that key is absent |
| Screen.TaskScreen.UserName | App.js:135-140 | the `username` state (initially '' at App.js:104) as loadUser sets it: the logged-in user, or '' when there is none |
| Screen.TaskScreen.constructor | App.js:115-140 | on mount the screen shows the session user's stored tasks and the stored history, not searching |
| Screen.TaskScreen.SaveTasks | App.js:147-150 | the session user's key holds the new list, which the screen shows; nothing else changes |
| Screen.TaskScreen.UpdateTask | App.js:152-155 | screen and store hold the edited list |
| Screen.TaskScreen.EditTask | App.js:343-351 | the opened task with its new text replaces the task with its id, even when the text is blank |
| Screen.TaskScreen.AddTask | App.js:376-390 | the list gains one new incomplete task at its end, even when the text is blank, and is stored |
| Screen.TaskScreen.DeleteTask | App.js:157-173 | on cancel nothing changes; on confirm the tasks with the id are dropped and the list is stored |
| Screen.TaskScreen.ClearAllTasks | App.js:174-190 | on confirm the session user's key is removed and the screen emptied; other users' lists are unchanged |
| Screen.TaskScreen.SortTasksByStatus | App.js:192-200 | the screen shows the status sort of its list; the store is untouched |
| Screen.TaskScreen.HandleSearch | App.js:201-215 | a blank query leaves search mode with an empty view; otherwise search mode is on, and with a session the view is the stored tasks matching the query (without one it keeps its old contents) |
| Screen.TaskScreen.ToggleTaskCompletion | App.js:218-234 | nothing without a session; otherwise the task flips on screen, in the store and in a shown search view |
| Screen.TaskScreen.Logout | App.js:142-145 | removes `loggedInUser` |

## Left out

- `sortTasks('date')` (App.js:197): it orders by parsing each task id with the platform's date parser, which is not modelled.
- Text.Lower: lower-cases ASCII letters only, where `toLowerCase` applies full Unicode case mapping; search is therefore case-insensitive for ASCII letters only.
- The store is an in-memory map of decoded values: JSON encoding and decoding, asynchronous completion, and storage failures are not modelled.
- Calls that are not awaited (`saveTasks` from `updateTask`, `deleteTask` and `addTask` at App.js:387, and the three loads `loadsTasks`, `loadUser` and `fetchHistory` started on mount at App.js:116-118) are modelled as completing before the next handler runs.
- `saveTasks` keys on the screen's `username` state, while `toggleTaskCompletion` and `handleSearch` read `loggedInUser` again; the model uses one session name, the logged-in user or the empty string when there is none, which is what the state holds after mount.
- Alerts, navigation, rendering and styles; the alert texts and the screen transitions after register and login are not modelled.
- The display formatting of history timestamps (App.js:297-304).
