# Task list state of the task-manager web client

This project models the task view of a single-page task-manager client
(`src/components/tasklist.jsx`). The view holds the task list fetched from a
remote task API and a per-user "completed" overlay of task ids. The server
knows nothing of that overlay; it lives only in the browser's key/value store.
The user's actions change these in fixed ways:

- create a task, refused locally when the title is blank;
- edit a task's title;
- delete a task;
- toggle a task's completion;
- log out.

The view shows active tasks first and completed tasks after them.

Layout:

- `seqs.dfy` (module `Seqs`): an order-preserving `Filter`, the
  `Array.prototype.filter` behind every list update, with its lemmas:
  concatenation, multiplicities, where a kept element lands, and relative order.
- `tasks.dfy` (module `Tasks`): the pure derivations. This covers the
  `String.prototype.trim` blank test, the delete and toggle updaters, toggle
  parity, and the display order `sortedTasks`, proved to be a stable partition.
- `storage.dfy` (module `Storage`): the browser store as a map. The token and
  the e-mail are text entries; each overlay sits under `completed_tasks_<email>`,
  or `completed_tasks_guest` when there is no e-mail. The module holds the
  overlay key, the load and save of the overlay, and token removal.
- `tasklist.dfy` (module `TaskListView`): the class `TaskList` with the
  component's state as fields and each handler as a method. Each method's
  `modifies` frame names only the fields that handler sets. `Synced()` says the
  overlay persisted under the current user's key equals `completed`. Every
  handler keeps it, because the save effect runs after every change of
  `completed`.

Remote calls are not executed. Each handler takes the outcome of its calls as
parameters: `Ack` for create, update and delete, and `Fetch` for `getTasks()`.
The calls a handler issues are appended to the field `requests`, so "no remote
call" means `requests` is unchanged. A handler's `ok` result is false when a
remote call fails. The source has no `catch` in `handleCreate`, `handleUpdate`
or `handleDelete`, so that exception escapes the handler.

Behaviour of the code worth knowing, all of it modelled as written:

- Logout and a failed first load remove only `token`; `user_email` stays
  (tasklist.jsx:35, 84).
- Create, update and delete have no `catch`: a failed call rejects the
  handler's promise and no message is set (tasklist.jsx:49-71).
- A create whose refetch fails has already cleared `title`, and an update
  whose refetch fails has already ended editing (tasklist.jsx:54, 69).
- The overlay is an array, so one loaded from the store may hold duplicates.
  Toggling never adds one (`Tasks.ToggledKeepsNoDuplicates`), and a
  toggle-off removes every copy (tasklist.jsx:27, 77).

## Model

| member | source | states |
|---|---|---|
| Seqs.Filter | src/components/tasklist.jsx:62-63 | `filter` returns only elements of the input that pass the test, and every passing element appears in it |
| Tasks.TrimStart | src/components/tasklist.jsx:51 | the result is a suffix of the input; everything dropped is JS white space; it does not start with white space |
| Tasks.TrimEnd | src/components/tasklist.jsx:51 | the result is a prefix of the input; everything dropped is JS white space; it does not end with white space |
| Tasks.Trim | src/components/tasklist.jsx:51 | `title.trim()` is the slice of the title that starts after its leading white space; everything cut off before and after the slice is white space, and neither end of the slice is |
| Tasks.BlankIffAllSpace | src/components/tasklist.jsx:51 | the create guard `!title.trim()` fires exactly when every character of the title is white space (the empty title included) |
| Tasks.WithoutId | src/components/tasklist.jsx:62 | removing an id from `completed` drops every occurrence of it and keeps every other id with its multiplicity |
| Tasks.WithoutTask | src/components/tasklist.jsx:63 | removing a task id from `tasks` leaves no task with that id and keeps every other task with its multiplicity |
| Tasks.WithoutTaskKeepsOrder | src/components/tasklist.jsx:63 | the tasks kept by a delete keep their fetched relative order, at positions given by the kept tasks before them |
| Tasks.WithoutIdKeepsOrder | src/components/tasklist.jsx:62 | the ids kept in `completed` by a delete keep their relative order |
| Tasks.WithoutAbsentId | src/components/tasklist.jsx:62 | deleting a task that was not completed leaves `completed` exactly as it was |
| Tasks.Toggled | src/components/tasklist.jsx:75-79 | toggling flips membership of the id; every other id keeps its membership and multiplicity; an added id goes at the end, after the old list unchanged; a removed id is filtered out as by a delete (`WithoutId`), so the other ids keep their order |
| Tasks.ToggledKeepsNoDuplicates | src/components/tasklist.jsx:75-79 | a duplicate-free `completed` stays duplicate-free after a toggle |
| Tasks.ToggleTwiceRestores | src/components/tasklist.jsx:75-79 | toggling an id that is not completed twice gives back exactly the original list |
| Tasks.ToggleParity | src/components/tasklist.jsx:74-80 | after any sequence of toggles, an id is completed exactly when its initial membership differs from the parity of its toggle count |
| Tasks.SortedTasks | src/components/tasklist.jsx:88-92 | `sortedTasks` is a permutation of `tasks`: same length, same multiset. Its first part (as long as the active tasks) holds only tasks not in `completed`; the rest holds only tasks in `completed` |
| Tasks.SortedAt | src/components/tasklist.jsx:89-92 | each fetched task `tasks[i]` is displayed at `Position(i)`. For an active task that is the number of active tasks before it. For a completed task it is the number of active tasks plus the completed tasks before it |
| Tasks.PositionsOrdered | src/components/tasklist.jsx:89-92 | distinct tasks get distinct positions (a bijection), and two tasks of the same kind keep their fetched order: a stable partition |
| Tasks.SortedExample | src/components/tasklist.jsx:89-92 | with tasks 1 "Buy milk", 2 "Pay rent" fetched and 1 completed, task 2 is displayed before task 1 |
| Storage.UserName | src/components/tasklist.jsx:12 | the stored e-mail when it is present and non-empty, otherwise "guest"; never empty |
| Storage.CompletedKey | src/components/tasklist.jsx:11-14 | the overlay key is "completed_tasks_" followed by the user name, so it is never the `token` or `user_email` key |
| Storage.KeyPerUser | src/components/tasklist.jsx:11-14 | different user names never share an overlay key |
| Storage.GuestKeyShared | src/components/tasklist.jsx:12-13 | a missing or empty e-mail and the e-mail "guest" share the key "completed_tasks_guest" |
| Storage.KeyIgnoresOtherKeys | src/components/tasklist.jsx:11-14 | writing or removing any key other than `user_email` does not move the overlay key |
| Storage.LoadCompleted | src/components/tasklist.jsx:25-28 | with no entry under the current key, `completed` starts empty |
| Storage.SaveCompleted | src/components/tasklist.jsx:41-46 | the save effect writes only the current overlay key; every other entry is kept |
| Storage.SaveThenLoad | src/components/tasklist.jsx:25-28 | what the save effect writes is what the initialiser reads back on the next mount |
| Storage.WithoutToken | src/components/tasklist.jsx:84 | `removeItem("token")` removes the token entry and keeps every other entry unchanged |
| Storage.WithoutTokenKeepsOverlay | src/components/tasklist.jsx:34-37 | removing the token keeps the user's persisted overlay and what a reload reads |
| TaskListView.TaskList.Mount | src/components/tasklist.jsx:19-46 | on mount the fields are empty and `completed` is loaded from the store. The save effect writes `completed` back, `getTasks()` is issued, and the view is synced |
| TaskListView.TaskList.SaveOverlay | src/components/tasklist.jsx:41-46 | the effect stores `completed` under the current key, leaving the view synced |
| TaskListView.TaskList.Loaded | src/components/tasklist.jsx:31-38 | a successful initial load replaces `tasks`. A failed one removes only the token, signals navigation to login, and keeps the overlay and `tasks` |
| TaskListView.TaskList.SetTitle | src/components/tasklist.jsx:125 | typing sets `title` |
| TaskListView.TaskList.SetEditTitle | src/components/tasklist.jsx:141 | typing in the edit field sets `editTitle` |
| TaskListView.TaskList.StartEdit | src/components/tasklist.jsx:160-163 | the Edit button sets `editingId` to the task's id and `editTitle` to its title |
| TaskListView.TaskList.Create | src/components/tasklist.jsx:49-56 | a blank title issues no call and changes nothing. Otherwise the untrimmed title is sent. A rejection changes nothing locally. On success `title` becomes "" and `tasks` is replaced wholesale by the refetched list (no optimistic insert), or left as it was if the refetch fails. `completed` is never touched |
| TaskListView.TaskList.Delete | src/components/tasklist.jsx:59-64 | on success every task with the id and every occurrence of the id in `completed` are gone, the rest kept, and the overlay saved. On failure neither list nor the store changes |
| TaskListView.TaskList.Update | src/components/tasklist.jsx:67-71 | `editTitle` is sent unvalidated. On success editing ends and `tasks` is replaced by the refetched list. A rejection leaves editing and `tasks` as they were |
| TaskListView.TaskList.ToggleComplete | src/components/tasklist.jsx:74-80 | membership of the id in `completed` flips (`Toggled`). The overlay is saved with no remote call, and the view stays synced |
| TaskListView.TaskList.Logout | src/components/tasklist.jsx:83-86 | only the token is removed from the store; the persisted overlay survives; navigation to login is signalled |

## Left out

- The HTTP layer of `src/api/api.js` is not part of this model. That covers
  URLs, headers, JSON bodies and the server's error messages. Each call is
  only a success or failure outcome, and a `getTasks()` success carries the
  list. The `Authorization` header built from the stored token is not
  modelled.
- `src/components/Login.jsx`, `src/App.jsx` and
  `src/components/ProtectedRoute.jsx` are not part of this model. What login
  writes (`token`, `user_email`) is part of the store a mount starts from.
- Rendering (tasklist.jsx:94-197) is left out: the stats counters, the
  "Planned" panel and the per-row checkbox state. `navigate("/login")` is
  only the flag `atLogin`; the unmount that follows is not modelled.
- React scheduling is left out: when effects run, the batching of state
  updates, StrictMode double effects, and the interleaving of concurrent
  handlers. Each handler is one sequential step, and the save effect runs at
  the end of every step that changes `completed`.
- `JSON.stringify`/`JSON.parse` of the overlay are left out. An overlay entry
  is stored as its id list. A text entry under the overlay key loads as the
  empty list. In the browser, JSON text not written by this view could throw
  or give something other than an array.
- An e-mail entry is always text, as login writes it. A store holding an id
  list under `user_email` is read as having no e-mail (name "guest"), where the
  browser would use that entry's JSON text as the name; no operation of the
  view writes that key.
- Task ids are integers compared by value. Other id representations with
  strict-equality comparison behave the same way here.
- Storage.LoadCompleted: its own contract covers only the missing entry. What
  it reads back after a save is stated by `Storage.SaveThenLoad`.
