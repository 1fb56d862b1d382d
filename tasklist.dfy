/**
  The `TaskList` component's state and its event handlers. Every handler runs
  as one sequential step; the outcome of each remote call is a parameter, and
  the calls issued are recorded in `requests`. The overlay-save effect runs
  after every change of `completed`, so the persisted overlay always equals
  the in-memory list (`Synced`).
 */
module TaskListView {
  import opened Tasks
  import opened Storage

  datatype Option<T> = None | Some(value: T)

  /** The outcome of a create, update or delete call. */
  datatype Ack = Acked | Rejected

  /** The outcome of `getTasks()`: the fetched list, or a failure. */
  datatype Fetch = Fetched(tasks: seq<Task>) | FetchFailed

  /** A call to the task API. */
  datatype Request = ListTasks | CreateTask(title: string) | UpdateTask(id: Id, title: string) | DeleteTask(id: Id)

  class TaskList {
    var tasks: seq<Task>
    var title: string
    var editingId: Option<Id>
    var editTitle: string
    var completed: seq<Id>
    var storage: Store
    /** Set once the view has navigated to the login route. */
    var atLogin: bool
    /** The task API calls issued so far, oldest first. */
    var requests: seq<Request>

    /** The overlay persisted under the current user's key is `completed`. */
    predicate Synced()
      reads this
    {
      Persisted(storage, completed)
    }

    /**
      Mounting: state initialised, `completed` read from the store, the save
      effect's first run writing it back, and the initial `getTasks()` issued.
     */
    constructor Mount(store: Store)
      ensures tasks == [] && title == "" && editingId == None && editTitle == ""
      ensures completed == LoadCompleted(store)
      ensures storage == SaveCompleted(store, completed)
      ensures requests == [ListTasks] && !atLogin
      ensures Synced()
    {
      var loaded := LoadCompleted(store);
      SaveThenLoad(store, loaded);
      tasks, title, editingId, editTitle := [], "", None, "";
      completed := loaded;
      storage := SaveCompleted(store, loaded);
      requests := [ListTasks];
      atLogin := false;
    }

    /** The overlay-save effect. */
    method SaveOverlay()
      modifies this`storage
      ensures storage == SaveCompleted(old(storage), completed)
      ensures Synced()
    {
      SaveThenLoad(storage, completed);
      storage := SaveCompleted(storage, completed);
    }

    /**
      The settling of the initial `getTasks()`: the fetched list replaces
      `tasks`; a failure removes only the token and navigates to login.
     */
    method Loaded(fetch: Fetch)
      requires Synced()
      modifies this`tasks, this`storage, this`atLogin
      ensures Synced()
      ensures fetch.Fetched? ==> tasks == fetch.tasks && storage == old(storage) && atLogin == old(atLogin)
      ensures fetch.FetchFailed? ==> tasks == old(tasks) && storage == WithoutToken(old(storage)) && atLogin
    {
      if fetch.Fetched? {
        tasks := fetch.tasks;
      } else {
        WithoutTokenKeepsOverlay(storage, completed);
        storage := WithoutToken(storage);
        atLogin := true;
      }
    }

    /** Typing into the create form. */
    method SetTitle(s: string)
      modifies this`title
      ensures title == s
    {
      title := s;
    }

    /** Typing into the edit field. */
    method SetEditTitle(s: string)
      modifies this`editTitle
      ensures editTitle == s
    {
      editTitle := s;
    }

    /** The Edit button: the task enters editing with its current title. */
    method StartEdit(task: Task)
      modifies this`editingId, this`editTitle
      ensures editingId == Some(task.id) && editTitle == task.title
    {
      editingId, editTitle := Some(task.id), task.title;
    }

    /**
      `handleCreate`. A blank title returns at once: no call, no change.
      Otherwise the untrimmed title is sent; on success the title is cleared
      and the refetched list replaces `tasks` (no optimistic insert). `ok` is
      false when a call fails and the handler's promise rejects.
     */
    method Create(created: Ack, refetch: Fetch) returns (ok: bool)
      modifies this`title, this`tasks, this`requests
      ensures IsBlank(old(title)) ==>
                ok && title == old(title) && tasks == old(tasks) && requests == old(requests)
      ensures !IsBlank(old(title)) && created.Rejected? ==>
                !ok && title == old(title) && tasks == old(tasks)
                && requests == old(requests) + [CreateTask(old(title))]
      ensures !IsBlank(old(title)) && created.Acked? ==>
                ok == refetch.Fetched? && title == ""
                && tasks == (if refetch.Fetched? then refetch.tasks else old(tasks))
                && requests == old(requests) + [CreateTask(old(title)), ListTasks]
    {
      if IsBlank(title) {
        return true;
      }
      requests := requests + [CreateTask(title)];
      if created.Rejected? {
        return false;
      }
      title := "";
      requests := requests + [ListTasks];
      if refetch.FetchFailed? {
        return false;
      }
      tasks := refetch.tasks;
      ok := true;
    }

    /**
      `handleDelete`. On success every task with that id and every occurrence
      of the id in `completed` are removed, and the overlay is saved; on
      failure nothing changes.
     */
    method Delete(id: Id, deleted: Ack) returns (ok: bool)
      requires Synced()
      modifies this`tasks, this`completed, this`storage, this`requests
      ensures Synced()
      ensures requests == old(requests) + [DeleteTask(id)]
      ensures ok == deleted.Acked?
      ensures ok ==> tasks == WithoutTask(old(tasks), id) && completed == WithoutId(old(completed), id)
                     && storage == SaveCompleted(old(storage), completed)
      ensures !ok ==> tasks == old(tasks) && completed == old(completed) && storage == old(storage)
      ensures ok ==> id !in completed && forall k :: 0 <= k < |tasks| ==> tasks[k].id != id
    {
      requests := requests + [DeleteTask(id)];
      if deleted.Rejected? {
        return false;
      }
      completed := WithoutId(completed, id);
      tasks := WithoutTask(tasks, id);
      SaveOverlay();
      ok := true;
    }

    /**
      `handleUpdate`. The edit title is sent as it is, without any check; on
      success editing ends and the refetched list replaces `tasks`.
     */
    method Update(id: Id, updated: Ack, refetch: Fetch) returns (ok: bool)
      modifies this`editingId, this`tasks, this`requests
      ensures updated.Rejected? ==>
                !ok && editingId == old(editingId) && tasks == old(tasks)
                && requests == old(requests) + [UpdateTask(id, editTitle)]
      ensures updated.Acked? ==>
                ok == refetch.Fetched? && editingId == None
                && tasks == (if refetch.Fetched? then refetch.tasks else old(tasks))
                && requests == old(requests) + [UpdateTask(id, editTitle), ListTasks]
    {
      requests := requests + [UpdateTask(id, editTitle)];
      if updated.Rejected? {
        return false;
      }
      editingId := None;
      requests := requests + [ListTasks];
      if refetch.FetchFailed? {
        return false;
      }
      tasks := refetch.tasks;
      ok := true;
    }

    /** `toggleComplete`: a purely local change of `completed`, then saved. */
    method ToggleComplete(id: Id)
      requires Synced()
      modifies this`completed, this`storage
      ensures Synced()
      ensures completed == Toggled(old(completed), id)
      ensures id in completed <==> id !in old(completed)
      ensures storage == SaveCompleted(old(storage), completed)
    {
      completed := Toggled(completed, id);
      SaveOverlay();
    }

    /** `handleLogout`: only the token is removed; the overlay stays. */
    method Logout()
      requires Synced()
      modifies this`storage, this`atLogin
      ensures Synced()
      ensures storage == WithoutToken(old(storage)) && atLogin
    {
      WithoutTokenKeepsOverlay(storage, completed);
      storage := WithoutToken(storage);
      atLogin := true;
    }
  }
}
