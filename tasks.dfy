/**
  The values of the to-do list: a task record, and the pure views the App
  component derives from its list of tasks (the filtered list, the
  completed and pending counts, the list after a delete, a toggle or an
  add). Everything here is a function of a `seq<Task>`.
 */
module Tasks {
  import opened JsTrim

  datatype Priority = Low | Medium | High

  /** One entry of the list. The creation date is not modelled. */
  datatype Task = Task(id: int, description: string, completed: bool, priority: Priority)

  /** The three filter labels the view offers; `currentFilter` is a plain
      string, and any value other than the last two shows every task. */
  const AllLabel: string := "Todas"
  const ActiveLabel: string := "Ativas"
  const CompletedLabel: string := "Concluídas"
  const FilterLabels: seq<string> := [AllLabel, ActiveLabel, CompletedLabel]

  /** `a` can be obtained from `b` by deleting elements: same order. */
  ghost predicate Subsequence(a: seq<Task>, b: seq<Task>)
    decreases |b|
  {
    if a == [] then true
    else if b == [] then false
    else (a[0] == b[0] && Subsequence(a[1..], b[1..])) || Subsequence(a, b[1..])
  }

  // ---------------------------------------------------------------------
  // Selection by completion: `tasks.filter(task => task.completed == done)`

  /** The tasks whose `completed` flag equals `done`, in list order. */
  function WithStatus(ts: seq<Task>, done: bool): (r: seq<Task>)
    ensures |r| <= |ts|
    ensures forall j :: 0 <= j < |r| ==> r[j].completed == done
  {
    if ts == [] then []
    else (if ts[0].completed == done then [ts[0]] else []) + WithStatus(ts[1..], done)
  }

  /** A task is selected exactly when it is in the list with that status. */
  lemma {:induction false} WithStatusMembers(ts: seq<Task>, done: bool)
    ensures forall t :: t in WithStatus(ts, done) <==> t in ts && t.completed == done
  {
    if ts != [] {
      WithStatusMembers(ts[1..], done);
      WithStatusCons(ts[0], ts[1..], done);
      assert ts == [ts[0]] + ts[1..];
    }
  }

  lemma {:induction false} WithStatusSubsequence(ts: seq<Task>, done: bool)
    ensures Subsequence(WithStatus(ts, done), ts)
  {
    if ts != [] {
      WithStatusSubsequence(ts[1..], done);
      var rest := WithStatus(ts[1..], done);
      if ts[0].completed == done {
        assert WithStatus(ts, done) == [ts[0]] + rest;
        assert ([ts[0]] + rest)[1..] == rest;
      } else {
        assert WithStatus(ts, done) == rest;
      }
    }
  }

  /** The active and the completed selections split the list: together they
      hold every task exactly as often as the list does. */
  lemma {:induction false} Partition(ts: seq<Task>)
    ensures multiset(WithStatus(ts, false)) + multiset(WithStatus(ts, true)) == multiset(ts)
    ensures |WithStatus(ts, false)| + |WithStatus(ts, true)| == |ts|
  {
    if ts != [] {
      Partition(ts[1..]);
      assert ts == [ts[0]] + ts[1..];
    }
  }

  // ---------------------------------------------------------------------
  // The `filteredTasks` getter

  /** The switch over `currentFilter`, with its default branch. */
  function Filtered(ts: seq<Task>, filter: string): seq<Task> {
    if filter == ActiveLabel then WithStatus(ts, false)
    else if filter == CompletedLabel then WithStatus(ts, true)
    else ts
  }

  /** What the view shows: the pending tasks under "Ativas", the completed
      ones under "Concluídas", the whole list for any other filter string;
      in every case a subsequence of the list in its own order. */
  lemma FilteredView(ts: seq<Task>, filter: string)
    ensures Subsequence(Filtered(ts, filter), ts)
    ensures filter == ActiveLabel ==>
      forall t :: t in Filtered(ts, filter) <==> t in ts && !t.completed
    ensures filter == CompletedLabel ==>
      forall t :: t in Filtered(ts, filter) <==> t in ts && t.completed
    ensures filter != ActiveLabel && filter != CompletedLabel ==> Filtered(ts, filter) == ts
  {
    if filter == ActiveLabel {
      WithStatusSubsequence(ts, false);
      WithStatusMembers(ts, false);
    } else if filter == CompletedLabel {
      WithStatusSubsequence(ts, true);
      WithStatusMembers(ts, true);
    } else {
      SubsequenceRefl(ts);
    }
  }

  lemma {:induction false} SubsequenceRefl(ts: seq<Task>)
    ensures Subsequence(ts, ts)
  {
    if ts != [] {
      SubsequenceRefl(ts[1..]);
    }
  }

  /** Position in `ts` of the k-th task that has status `done`: exactly k
      such tasks come before it. */
  function StatusIndex(ts: seq<Task>, done: bool, k: nat): (j: nat)
    requires k < |WithStatus(ts, done)|
    ensures j < |ts| && ts[j] == WithStatus(ts, done)[k]
    decreases |ts|
  {
    WithStatusHead(ts, done, k);
    if ts[0].completed == done && k == 0 then 0
    else 1 + StatusIndex(ts[1..], done, if ts[0].completed == done then k - 1 else k)
  }

  /** The k-th selected task is the one with exactly k selected tasks
      before it. */
  lemma {:induction false} StatusIndexPrefix(ts: seq<Task>, done: bool, k: nat)
    requires k < |WithStatus(ts, done)|
    ensures |WithStatus(ts[..StatusIndex(ts, done, k)], done)| == k
    decreases |ts|
  {
    WithStatusHead(ts, done, k);
    if ts[0].completed == done && k == 0 {
      assert StatusIndex(ts, done, k) == 0;
    } else {
      var k' := if ts[0].completed == done then k - 1 else k;
      var j' := StatusIndex(ts[1..], done, k');
      assert StatusIndex(ts, done, k) == 1 + j';
      assert |WithStatus(ts[1..][..j'], done)| == k' by {
        StatusIndexPrefix(ts[1..], done, k');
      }
      StatusIndexStep(ts, done, 1 + j');
    }
  }

  /** Where the k-th selected task comes from: the head, or the tail's
      (k-1)-th or k-th selected task. */
  lemma WithStatusHead(ts: seq<Task>, done: bool, k: nat)
    requires k < |WithStatus(ts, done)|
    ensures ts != []
    ensures ts[0].completed == done && k == 0 ==> WithStatus(ts, done)[0] == ts[0] && ts[..0] == []
    ensures ts[0].completed == done && k > 0 ==>
      k - 1 < |WithStatus(ts[1..], done)| && WithStatus(ts, done)[k] == WithStatus(ts[1..], done)[k - 1]
    ensures ts[0].completed != done ==>
      k < |WithStatus(ts[1..], done)| && WithStatus(ts, done)[k] == WithStatus(ts[1..], done)[k]
  {
    assert ts != [];
    var rest := WithStatus(ts[1..], done);
    if ts[0].completed == done {
      assert WithStatus(ts, done) == [ts[0]] + rest;
      if k > 0 {
        assert ([ts[0]] + rest)[k] == rest[k - 1];
      }
    } else {
      assert WithStatus(ts, done) == rest;
    }
  }

  /** Counting the selected tasks before position j: one step of the list. */
  lemma StatusIndexStep(ts: seq<Task>, done: bool, j: nat)
    requires 0 < j <= |ts|
    ensures |WithStatus(ts[..j], done)| ==
      (if ts[0].completed == done then 1 else 0) + |WithStatus(ts[1..][..j - 1], done)|
  {
    assert ts[..j] == [ts[0]] + ts[1..][..j - 1];
    WithStatusCons(ts[0], ts[1..][..j - 1], done);
  }

  lemma WithStatusCons(x: Task, s: seq<Task>, done: bool)
    ensures WithStatus([x] + s, done) == (if x.completed == done then [x] else []) + WithStatus(s, done)
  {
    assert ([x] + s)[1..] == s;
  }

  /** The view hands the k-th displayed task object to `toggleTask`; that
      object is the one stored at this index of the list. */
  function ShownIndex(ts: seq<Task>, filter: string, k: nat): (j: nat)
    requires k < |Filtered(ts, filter)|
    ensures j < |ts| && ts[j] == Filtered(ts, filter)[k]
    ensures filter == ActiveLabel ==> |WithStatus(ts[..j], false)| == k
    ensures filter == CompletedLabel ==> |WithStatus(ts[..j], true)| == k
    ensures filter != ActiveLabel && filter != CompletedLabel ==> j == k
  {
    if filter == ActiveLabel then
      StatusIndexPrefix(ts, false, k);
      StatusIndex(ts, false, k)
    else if filter == CompletedLabel then
      StatusIndexPrefix(ts, true, k);
      StatusIndex(ts, true, k)
    else k
  }

  // ---------------------------------------------------------------------
  // The `completedTasks` getter and the counts of the view

  /** `tasks.filter(task => task.completed).length`; what is not completed
      is exactly what the "Ativas" view lists. */
  function CompletedCount(ts: seq<Task>): (n: nat)
    ensures n <= |ts|
    ensures |ts| - n == |WithStatus(ts, false)|
  {
    Partition(ts);
    |WithStatus(ts, true)|
  }

  /** The "Pendentes" figure `tasks.length - completedTasks`: never negative,
      and pending plus completed is the total. */
  function PendingCount(ts: seq<Task>): (n: nat)
    ensures n + CompletedCount(ts) == |ts|
    ensures n == |Filtered(ts, ActiveLabel)|
  {
    |ts| - CompletedCount(ts)
  }

  // ---------------------------------------------------------------------
  // `deleteTask`: `tasks.filter(t => t.id !== task.id)`

  /** How many tasks carry the id. */
  function Occurrences(ts: seq<Task>, id: int): nat {
    if ts == [] then 0
    else (if ts[0].id == id then 1 else 0) + Occurrences(ts[1..], id)
  }

  /** The tasks whose id differs from `id`, in list order: every task with
      that id is gone, and the list shrinks by the number of them. */
  function WithoutId(ts: seq<Task>, id: int): (r: seq<Task>)
    ensures forall t :: t in r <==> t in ts && t.id != id
    ensures |r| + Occurrences(ts, id) == |ts|
  {
    if ts == [] then []
    else (if ts[0].id != id then [ts[0]] else []) + WithoutId(ts[1..], id)
  }

  lemma {:induction false} WithoutIdSubsequence(ts: seq<Task>, id: int)
    ensures Subsequence(WithoutId(ts, id), ts)
  {
    if ts != [] {
      WithoutIdSubsequence(ts[1..], id);
      var rest := WithoutId(ts[1..], id);
      if ts[0].id != id {
        assert WithoutId(ts, id) == [ts[0]] + rest;
        assert ([ts[0]] + rest)[1..] == rest;
      } else {
        assert WithoutId(ts, id) == rest;
      }
    }
  }

  /** No task carries the id exactly when it occurs zero times. */
  lemma {:induction false} OccurrencesZeroIff(ts: seq<Task>, id: int)
    ensures Occurrences(ts, id) == 0 <==> forall t :: t in ts ==> t.id != id
  {
    if ts != [] {
      OccurrencesZeroIff(ts[1..], id);
      assert ts == [ts[0]] + ts[1..];
    }
  }

  /** Deleting an id that no task carries leaves the list as it was. */
  lemma {:induction false} WithoutAbsentId(ts: seq<Task>, id: int)
    requires forall t :: t in ts ==> t.id != id
    ensures WithoutId(ts, id) == ts
  {
    if ts != [] {
      assert ts[0] in ts;
      WithoutAbsentId(ts[1..], id);
      assert ts == [ts[0]] + ts[1..];
    }
  }

  /** No two tasks share an id. The component does not enforce this: ids are
      clock readings. */
  ghost predicate DistinctIds(ts: seq<Task>) {
    forall i, j :: 0 <= i < j < |ts| ==> ts[i].id != ts[j].id
  }

  /** With distinct ids, deleting a task of the list removes that one task. */
  lemma {:induction false} DeleteDistinct(ts: seq<Task>, t: Task)
    requires DistinctIds(ts) && t in ts
    ensures |WithoutId(ts, t.id)| == |ts| - 1
  {
    OccursOnce(ts, t);
  }

  lemma {:induction false} OccursOnce(ts: seq<Task>, t: Task)
    requires DistinctIds(ts) && t in ts
    ensures Occurrences(ts, t.id) == 1
  {
    if ts[0] == t {
      assert forall u :: u in ts[1..] ==> u.id != t.id by {
        forall u | u in ts[1..] ensures u.id != t.id {
          var j :| 0 <= j < |ts[1..]| && ts[1..][j] == u;
          assert ts[j + 1] == u;
        }
      }
      OccurrencesZeroIff(ts[1..], t.id);
    } else {
      var k :| 0 <= k < |ts| && ts[k] == t;
      assert t in ts[1..] by { assert ts[1..][k - 1] == t; }
      assert ts[0].id != t.id;
      OccursOnce(ts[1..], t);
    }
  }

  // ---------------------------------------------------------------------
  // `toggleTask`

  /** The list after flipping `completed` of the task at index i; an index
      past the end stands for a task object that is no longer in the list,
      whose flip leaves the list alone. */
  function ToggleAt(ts: seq<Task>, i: nat): (r: seq<Task>)
    ensures |r| == |ts|
    ensures forall j :: 0 <= j < |ts| && j != i ==> r[j] == ts[j]
    ensures i < |ts| ==>
      r[i].completed == !ts[i].completed && r[i].id == ts[i].id &&
      r[i].description == ts[i].description && r[i].priority == ts[i].priority
  {
    if i < |ts| then ts[i := ts[i].(completed := !ts[i].completed)] else ts
  }

  /** Toggling the same task twice restores the list. */
  lemma ToggleTwice(ts: seq<Task>, i: nat)
    ensures ToggleAt(ToggleAt(ts, i), i) == ts
  {
  }

  /** A toggle moves one task between the completed and the pending count. */
  lemma {:induction false} ToggleCount(ts: seq<Task>, i: nat)
    requires i < |ts|
    ensures CompletedCount(ToggleAt(ts, i)) ==
      if ts[i].completed then CompletedCount(ts) - 1 else CompletedCount(ts) + 1
  {
    var r := ToggleAt(ts, i);
    if i == 0 {
      assert r[1..] == ts[1..];
    } else {
      assert r[1..] == ToggleAt(ts[1..], i - 1);
      ToggleCount(ts[1..], i - 1);
    }
  }

  // ---------------------------------------------------------------------
  // `addTask`

  /** The list after `addTask` with compose text `text`, the selected
      priority and the clock reading `now` as the new id. */
  function AfterAdd(ts: seq<Task>, text: string, p: Priority, now: int): seq<Task> {
    if Trim(text) == [] then ts else ts + [Task(now, Trim(text), false, p)]
  }

  /** A text that is empty or only whitespace adds nothing; any other text
      appends exactly one pending task holding the trimmed text, and leaves
      the tasks already there in place. */
  lemma AddSpec(ts: seq<Task>, text: string, p: Priority, now: int)
    ensures AllWhitespace(text) ==> AfterAdd(ts, text, p, now) == ts
    ensures !AllWhitespace(text) ==>
      var r := AfterAdd(ts, text, p, now);
      |r| == |ts| + 1 && r[..|ts|] == ts &&
      r[|ts|] == Task(now, Trim(text), false, p) && r[|ts|].description != []
  {
    TrimEmptyIff(text);
    var r := AfterAdd(ts, text, p, now);
    if Trim(text) != [] {
      assert r[..|ts|] == ts;
    }
  }

  // ---------------------------------------------------------------------
  // The stored-description invariant

  /** A description as `addTask` stores it: non-empty and without
      whitespace at either end. */
  predicate WellFormed(t: Task) {
    t.description != [] && IsTrimmed(t.description)
  }

  ghost predicate AllWellFormed(ts: seq<Task>) {
    forall t :: t in ts ==> WellFormed(t)
  }

  /** A well-formed description is its own trim, so trimming it again on
      the way in would store the same text. */
  lemma WellFormedIsOwnTrim(t: Task)
    requires WellFormed(t)
    ensures t.description != [] && Trim(t.description) == t.description
  {
    TrimmedIff(t.description);
  }

  lemma AddKeepsWellFormed(ts: seq<Task>, text: string, p: Priority, now: int)
    requires AllWellFormed(ts)
    ensures AllWellFormed(AfterAdd(ts, text, p, now))
  {
    var d := Trim(text);
    if d != [] {
      var added := Task(now, d, false, p);
      assert WellFormed(added);
      forall t | t in ts + [added] ensures WellFormed(t) {
        if t != added {
          assert t in ts;
        }
      }
    }
  }

  lemma ToggleKeepsWellFormed(ts: seq<Task>, i: nat)
    requires AllWellFormed(ts)
    ensures AllWellFormed(ToggleAt(ts, i))
  {
    var r := ToggleAt(ts, i);
    forall t | t in r ensures WellFormed(t) {
      var j :| 0 <= j < |r| && r[j] == t;
      assert ts[j] in ts;
    }
  }

  lemma DeleteKeepsWellFormed(ts: seq<Task>, id: int)
    requires AllWellFormed(ts)
    ensures AllWellFormed(WithoutId(ts, id))
  {
  }

  // ---------------------------------------------------------------------
  // Distinct ids, when the caller's clock never repeats a value

  /** An add keeps the ids distinct when the clock reading is not already an id. */
  lemma AddKeepsDistinct(ts: seq<Task>, text: string, p: Priority, now: int)
    requires DistinctIds(ts)
    requires forall t :: t in ts ==> t.id != now
    ensures DistinctIds(AfterAdd(ts, text, p, now))
  {
    var r := AfterAdd(ts, text, p, now);
    if Trim(text) != [] {
      forall i, j | 0 <= i < j < |r| ensures r[i].id != r[j].id {
        if j == |ts| {
          assert r[i] == ts[i] && ts[i] in ts;
        } else {
          assert r[i] == ts[i] && r[j] == ts[j];
        }
      }
    }
  }

  lemma ToggleKeepsDistinct(ts: seq<Task>, i: nat)
    requires DistinctIds(ts)
    ensures DistinctIds(ToggleAt(ts, i))
  {
  }

  lemma {:induction false} DeleteKeepsDistinct(ts: seq<Task>, id: int)
    requires DistinctIds(ts)
    ensures DistinctIds(WithoutId(ts, id))
  {
    if ts != [] {
      DistinctTail(ts);
      DeleteKeepsDistinct(ts[1..], id);
      if ts[0].id != id {
        DistinctCons(ts[0], WithoutId(ts[1..], id));
      }
    }
  }

  lemma DistinctTail(ts: seq<Task>)
    requires DistinctIds(ts) && ts != []
    ensures DistinctIds(ts[1..])
    ensures forall t :: t in ts[1..] ==> t.id != ts[0].id
  {
    forall t | t in ts[1..] ensures t.id != ts[0].id {
      var k :| 0 <= k < |ts[1..]| && ts[1..][k] == t;
      assert ts[k + 1] == t;
    }
  }

  lemma DistinctCons(x: Task, rest: seq<Task>)
    requires DistinctIds(rest)
    requires forall t :: t in rest ==> t.id != x.id
    ensures DistinctIds([x] + rest)
  {
    var r := [x] + rest;
    forall i, j | 0 <= i < j < |r| ensures r[i].id != r[j].id {
      assert r[j] == rest[j - 1];
      if i == 0 {
        assert rest[j - 1] in rest;
      } else {
        assert r[i] == rest[i - 1];
      }
    }
  }

  /** Ids are clock readings, so two tasks added within one tick share an id,
      and deleting either of them removes both. */
  lemma SharedClockDeletesBoth(a: Task, b: Task)
    requires a.id == b.id
    ensures WithoutId([a, b], a.id) == []
  {
  }
}
