/**
  The pure derivations of the task view: tasks and ids, the blank-title test
  of the create form, the list updaters passed to the state setters (delete,
  toggle), and the display order `sortedTasks`.
 */
module Tasks {
  import opened Seqs

  /** A task id as the server assigns it (compared with `===`). */
  type Id = int

  /** A task record as returned by the task API. */
  datatype Task = Task(id: Id, title: string)

  // ---------------------------------------------------------------------------
  // Blank titles: `!title.trim()`
  // ---------------------------------------------------------------------------

  /**
    The characters `String.prototype.trim` strips: the ECMAScript WhiteSpace
    (tab, vertical tab, form feed, space, no-break space, byte order mark and
    the other Unicode space separators) and LineTerminator code points.
   */
  predicate IsJsSpace(c: char) {
    var n := c as int;
    n == 0x09 || n == 0x0A || n == 0x0B || n == 0x0C || n == 0x0D || n == 0x20
    || n == 0xA0 || n == 0x1680 || (0x2000 <= n <= 0x200A) || n == 0x2028
    || n == 0x2029 || n == 0x202F || n == 0x205F || n == 0x3000 || n == 0xFEFF
  }

  /** `s` without its leading white space. */
  function TrimStart(s: string): (r: string)
    ensures |r| <= |s| && r == s[|s| - |r|..]
    ensures forall k :: 0 <= k < |s| - |r| ==> IsJsSpace(s[k])
    ensures r != [] ==> !IsJsSpace(r[0])
  {
    if s != [] && IsJsSpace(s[0]) then
      var r := TrimStart(s[1..]);
      assert forall k :: 1 <= k < |s| - |r| ==> s[k] == s[1..][k - 1];
      r
    else s
  }

  /** `s` without its trailing white space. */
  function TrimEnd(s: string): (r: string)
    ensures |r| <= |s| && r == s[..|r|]
    ensures forall k :: |r| <= k < |s| ==> IsJsSpace(s[k])
    ensures r != [] ==> !IsJsSpace(r[|r| - 1])
  {
    if s != [] && IsJsSpace(s[|s| - 1]) then
      var r := TrimEnd(s[..|s| - 1]);
      assert forall k :: |r| <= k < |s| - 1 ==> s[k] == s[..|s| - 1][k];
      r
    else s
  }

  /**
    `s.trim()`: the slice of `s` left after its leading and trailing white
    space; everything cut off on either side is white space and neither end
    of the result is.
   */
  function Trim(s: string): (r: string)
    ensures |s| - |TrimStart(s)| + |r| <= |s|
    ensures r == s[|s| - |TrimStart(s)|..|s| - |TrimStart(s)| + |r|]
    ensures forall k :: 0 <= k < |s| - |TrimStart(s)| ==> IsJsSpace(s[k])
    ensures forall k :: |s| - |TrimStart(s)| + |r| <= k < |s| ==> IsJsSpace(s[k])
    ensures r != [] ==> !IsJsSpace(r[0]) && !IsJsSpace(r[|r| - 1])
  {
    var t := TrimStart(s);
    var r := TrimEnd(t);
    TrimmedSlice(s, t, r);
    r
  }

  /**
    A prefix `r` of a suffix `t` of `s` is a slice of `s`; when everything `t`
    drops from `s` and `r` drops from `t` is white space, everything on either
    side of that slice is.
   */
  lemma TrimmedSlice(s: string, t: string, r: string)
    requires |t| <= |s| && t == s[|s| - |t|..]
    requires |r| <= |t| && r == t[..|r|]
    requires forall k :: |r| <= k < |t| ==> IsJsSpace(t[k])
    ensures |s| - |t| + |r| <= |s| && r == s[|s| - |t|..|s| - |t| + |r|]
    ensures forall k :: |s| - |t| + |r| <= k < |s| ==> IsJsSpace(s[k])
  {
    var a := |s| - |t|;
    forall k | a + |r| <= k < |s| ensures IsJsSpace(s[k]) {
      assert s[k] == t[k - a];
    }
  }

  /** The create form's guard: the trimmed title is the (falsy) empty string. */
  predicate IsBlank(title: string) {
    Trim(title) == ""
  }

  /** A title is blank exactly when every one of its characters is white space. */
  lemma BlankIffAllSpace(title: string)
    ensures IsBlank(title) <==> forall k :: 0 <= k < |title| ==> IsJsSpace(title[k])
  {
  }

  // ---------------------------------------------------------------------------
  // Removing an id: the `filter` updaters of delete and toggle
  // ---------------------------------------------------------------------------

  /** The test `(t) => t !== id`. */
  function OtherThan(id: Id): Id -> bool {
    x => x != id
  }

  /** The test `(t) => t.id !== id`. */
  function NotTask(id: Id): Task -> bool {
    (t: Task) => t.id != id
  }

  /** `ids.filter((t) => t !== id)`: every occurrence of `id` goes, every other id stays. */
  function WithoutId(ids: seq<Id>, id: Id): (r: seq<Id>)
    ensures id !in r
    ensures forall x :: x != id ==> multiset(r)[x] == multiset(ids)[x]
  {
    FilterCounts(ids, OtherThan(id));
    Filter(ids, OtherThan(id))
  }

  /** `tasks.filter((t) => t.id !== id)`: every task with that id goes, every other task stays. */
  function WithoutTask(tasks: seq<Task>, id: Id): (r: seq<Task>)
    ensures forall k :: 0 <= k < |r| ==> r[k].id != id
    ensures forall t: Task :: t.id != id ==> multiset(r)[t] == multiset(tasks)[t]
  {
    FilterCounts(tasks, NotTask(id));
    Filter(tasks, NotTask(id))
  }

  /**
    Removing a task keeps the others in their fetched order: a kept task at
    index `i` lands at index `Kept(i)`, and a later kept task lands later.
   */
  lemma WithoutTaskKeepsOrder(tasks: seq<Task>, id: Id, i: nat, j: nat)
    requires i < j < |tasks| && tasks[i].id != id && tasks[j].id != id
    ensures |WithoutTask(tasks[..i], id)| < |WithoutTask(tasks[..j], id)| < |WithoutTask(tasks, id)|
    ensures WithoutTask(tasks, id)[|WithoutTask(tasks[..i], id)|] == tasks[i]
    ensures WithoutTask(tasks, id)[|WithoutTask(tasks[..j], id)|] == tasks[j]
  {
    FilterAt(tasks, NotTask(id), i);
    FilterAt(tasks, NotTask(id), j);
    FilterPrefixGrows(tasks, NotTask(id), i, j);
  }

  /** The same for the completed ids: the ids other than `id` keep their relative order. */
  lemma WithoutIdKeepsOrder(ids: seq<Id>, id: Id, i: nat, j: nat)
    requires i < j < |ids| && ids[i] != id && ids[j] != id
    ensures |WithoutId(ids[..i], id)| < |WithoutId(ids[..j], id)| < |WithoutId(ids, id)|
    ensures WithoutId(ids, id)[|WithoutId(ids[..i], id)|] == ids[i]
    ensures WithoutId(ids, id)[|WithoutId(ids[..j], id)|] == ids[j]
  {
    FilterAt(ids, OtherThan(id), i);
    FilterAt(ids, OtherThan(id), j);
    FilterPrefixGrows(ids, OtherThan(id), i, j);
  }

  /** Deleting an id that was never marked completed leaves the overlay as it was. */
  lemma WithoutAbsentId(ids: seq<Id>, id: Id)
    requires id !in ids
    ensures WithoutId(ids, id) == ids
  {
    FilterKeepsAll(ids, OtherThan(id));
  }

  // ---------------------------------------------------------------------------
  // Toggling completion
  // ---------------------------------------------------------------------------

  /** No id occurs twice. */
  ghost predicate NoDuplicates(ids: seq<Id>) {
    forall x :: multiset(ids)[x] <= 1
  }

  /**
    The `toggleComplete` updater: a present id is filtered out, an absent one
    is appended at the end. Membership of `id` flips and every other id keeps
    its multiplicity.
   */
  function Toggled(completed: seq<Id>, id: Id): (r: seq<Id>)
    ensures id in r <==> id !in completed
    ensures forall x :: x != id ==> multiset(r)[x] == multiset(completed)[x]
    ensures forall x :: x != id ==> (x in r <==> x in completed)
    ensures id !in completed ==> |r| == |completed| + 1 && r[..|completed|] == completed && r[|completed|] == id
    ensures id in completed ==> r == WithoutId(completed, id)
  {
    if id in completed then WithoutId(completed, id) else completed + [id]
  }

  /** Toggling never introduces a duplicate. */
  lemma ToggledKeepsNoDuplicates(completed: seq<Id>, id: Id)
    requires NoDuplicates(completed)
    ensures NoDuplicates(Toggled(completed, id))
  {
  }

  /** Toggling an absent id twice restores the list exactly. */
  lemma ToggleTwiceRestores(completed: seq<Id>, id: Id)
    requires id !in completed
    ensures Toggled(Toggled(completed, id), id) == completed
  {
    var added := completed + [id];
    assert Toggled(completed, id) == added;
    FilterAppend(completed, [id], OtherThan(id));
    FilterKeepsAll(completed, OtherThan(id));
    assert Filter([id], OtherThan(id)) == [];
  }

  /** A sequence of `toggleComplete` calls, applied first to last. */
  function ToggleAll(completed: seq<Id>, toggles: seq<Id>): seq<Id>
    decreases toggles
  {
    if toggles == [] then completed else ToggleAll(Toggled(completed, toggles[0]), toggles[1..])
  }

  /**
    After any sequence of toggles, an id is completed exactly when it was
    completed before and toggled an even number of times, or was not and
    toggled an odd number of times.
   */
  lemma {:induction false} ToggleParity(completed: seq<Id>, toggles: seq<Id>, x: Id)
    ensures x in ToggleAll(completed, toggles) <==> (x in completed <==> multiset(toggles)[x] % 2 == 0)
    decreases toggles
  {
    if toggles != [] {
      var t, rest := toggles[0], toggles[1..];
      var next := Toggled(completed, t);
      var final := x in ToggleAll(next, rest);
      assert final == (x in ToggleAll(completed, toggles));
      ToggleParity(next, rest, x);
      HeadCount(toggles, x);
      var m := multiset(rest)[x];
      var even := m % 2 == 0;
      assert final <==> ((x in next) <==> even);
      if x == t {
        OddAfterEven(m);
        assert (x in next) == (x !in completed);
        assert multiset(toggles)[x] == m + 1;
        assert (multiset(toggles)[x] % 2 == 0) == !even;
      } else {
        assert (x in next) == (x in completed);
        assert multiset(toggles)[x] == m;
      }
    }
  }

  lemma OddAfterEven(n: nat)
    ensures (n + 1) % 2 == 0 <==> n % 2 != 0
  {
  }

  lemma HeadCount(s: seq<Id>, x: Id)
    requires s != []
    ensures multiset(s)[x] == multiset(s[1..])[x] + (if x == s[0] then 1 else 0)
  {
    assert s == [s[0]] + s[1..];
  }

  // ---------------------------------------------------------------------------
  // Display order: active first, completed last
  // ---------------------------------------------------------------------------

  /** The test `(t) => !completed.includes(t.id)`. */
  function IsActive(completed: seq<Id>): Task -> bool {
    (t: Task) => t.id !in completed
  }

  /** The test `(t) => completed.includes(t.id)`. */
  function IsDone(completed: seq<Id>): Task -> bool {
    (t: Task) => t.id in completed
  }

  function ActiveTasks(tasks: seq<Task>, completed: seq<Id>): seq<Task> {
    Filter(tasks, IsActive(completed))
  }

  function DoneTasks(tasks: seq<Task>, completed: seq<Id>): seq<Task> {
    Filter(tasks, IsDone(completed))
  }

  /**
    `sortedTasks`: a permutation of `tasks` whose first part holds the tasks
    not marked completed and whose rest holds the completed ones.
   */
  function SortedTasks(tasks: seq<Task>, completed: seq<Id>): (r: seq<Task>)
    ensures |r| == |tasks| && multiset(r) == multiset(tasks)
    ensures forall k :: 0 <= k < |ActiveTasks(tasks, completed)| ==> r[k].id !in completed
    ensures forall k :: |ActiveTasks(tasks, completed)| <= k < |r| ==> r[k].id in completed
  {
    FilterSplit(tasks, IsActive(completed), IsDone(completed));
    ActiveTasks(tasks, completed) + DoneTasks(tasks, completed)
  }

  /**
    Where `tasks[i]` is displayed: after the active tasks fetched before it
    if it is active; after all active tasks and the completed tasks fetched
    before it if it is completed.
   */
  function Position(tasks: seq<Task>, completed: seq<Id>, i: nat): nat
    requires i < |tasks|
  {
    if tasks[i].id in completed
    then |ActiveTasks(tasks, completed)| + |DoneTasks(tasks[..i], completed)|
    else |ActiveTasks(tasks[..i], completed)|
  }

  /** Every fetched task is displayed at its `Position`. */
  lemma SortedAt(tasks: seq<Task>, completed: seq<Id>, i: nat)
    requires i < |tasks|
    ensures Position(tasks, completed, i) < |tasks|
    ensures SortedTasks(tasks, completed)[Position(tasks, completed, i)] == tasks[i]
  {
    var sorted := SortedTasks(tasks, completed);
    if tasks[i].id in completed {
      FilterAt(tasks, IsDone(completed), i);
    } else {
      FilterAt(tasks, IsActive(completed), i);
    }
  }

  /**
    Positions are distinct (so the display order is a permutation indexed by
    `Position`), and two tasks of the same kind keep their fetched order: the
    partition is stable.
   */
  lemma PositionsOrdered(tasks: seq<Task>, completed: seq<Id>, i: nat, j: nat)
    requires i < j < |tasks|
    ensures Position(tasks, completed, i) != Position(tasks, completed, j)
    ensures (tasks[i].id in completed <==> tasks[j].id in completed) ==>
              Position(tasks, completed, i) < Position(tasks, completed, j)
  {
    SortedAt(tasks, completed, i);
    SortedAt(tasks, completed, j);
    if tasks[i].id in completed {
      FilterPrefixGrows(tasks, IsDone(completed), i, j);
    } else {
      FilterPrefixGrows(tasks, IsActive(completed), i, j);
    }
  }

  /**
    Two fetched tasks, the first marked completed: the second is displayed
    first.
   */
  lemma SortedExample()
    ensures SortedTasks([Task(1, "Buy milk"), Task(2, "Pay rent")], [1])
         == [Task(2, "Pay rent"), Task(1, "Buy milk")]
  {
  }
}
