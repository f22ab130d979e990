/**
  The App component: the list of tasks, the compose buffer, the selected
  priority and the filter label, with the operations the view calls.
  The view may also assign `newTask`, `selectedPriority` and
  `currentFilter` directly, as its two-way bindings do.
 */
module TodoApp {
  import opened JsTrim
  import opened Tasks

  class App {
    var tasks: seq<Task>
    var newTask: string
    var selectedPriority: Priority
    var currentFilter: string

    /** Every stored description is non-empty and already trimmed. */
    ghost predicate Valid()
      reads this`tasks
    {
      AllWellFormed(tasks)
    }

    constructor ()
      ensures Valid()
      ensures tasks == [] && newTask == "" && selectedPriority == Medium
      ensures currentFilter == AllLabel
    {
      tasks := [];
      newTask := "";
      selectedPriority := Medium;
      currentFilter := AllLabel;
    }

    /** The `filteredTasks` getter: the tasks the current filter label shows,
        in list order. */
    function FilteredTasks(): (r: seq<Task>)
      reads this`tasks, this`currentFilter
      ensures |r| <= |tasks|
      ensures forall t :: t in r ==> t in tasks
      ensures currentFilter == ActiveLabel ==> forall t :: t in r ==> !t.completed
      ensures currentFilter == CompletedLabel ==> forall t :: t in r ==> t.completed
    {
      FilteredView(tasks, currentFilter);
      WithStatusMembers(tasks, false);
      WithStatusMembers(tasks, true);
      Filtered(tasks, currentFilter)
    }

    /** The `completedTasks` getter. It reads the list only, so no change of
        the filter label can change it. */
    function CompletedTasks(): (n: nat)
      reads this`tasks
      ensures n <= |tasks|
    {
      CompletedCount(tasks)
    }

    /** `addTask`, with `now` the clock reading that becomes the new id. An
        empty or all-whitespace compose text changes nothing; otherwise the
        trimmed text is appended as a pending task of the selected priority
        and the compose buffer is cleared. */
    method AddTask(now: int)
      requires Valid()
      modifies this`tasks, this`newTask
      ensures Valid()
      ensures tasks == AfterAdd(old(tasks), old(newTask), selectedPriority, now)
      ensures newTask == if Trim(old(newTask)) == [] then old(newTask) else ""
    {
      ghost var after := AfterAdd(tasks, newTask, selectedPriority, now);
      AddKeepsWellFormed(tasks, newTask, selectedPriority, now);
      var text := Trim(newTask);
      if text != [] {
        tasks := tasks + [Task(now, text, false, selectedPriority)];
        newTask := "";
      }
      assert tasks == after;
    }

    /** `toggleTask` on the task object stored at index i; the view's k-th
        displayed task is at `ShownIndex(tasks, currentFilter, k)`. */
    method ToggleTask(i: nat)
      requires Valid()
      modifies this`tasks
      ensures Valid()
      ensures tasks == ToggleAt(old(tasks), i)
    {
      ToggleKeepsWellFormed(tasks, i);
      if i < |tasks| {
        tasks := tasks[i := tasks[i].(completed := !tasks[i].completed)];
      }
    }

    /** `deleteTask`: keep every task whose id differs from that of t. */
    method DeleteTask(t: Task)
      requires Valid()
      modifies this`tasks
      ensures Valid()
      ensures tasks == WithoutId(old(tasks), t.id)
    {
      DeleteKeepsWellFormed(tasks, t.id);
      tasks := WithoutId(tasks, t.id);
    }

    /** The filter buttons' `currentFilter = filter`; labels are not checked. */
    method SetFilter(filter: string)
      modifies this`currentFilter
      ensures currentFilter == filter
      ensures CompletedTasks() == old(CompletedTasks())
    {
      currentFilter := filter;
    }
  }

  /** A session through the view: two adds, a toggle from the list and a
      switch to the completed view. */
  method Session(first: string, second: string, t1: int, t2: int)
    requires first != [] && Trim(first) == first
    requires second != [] && Trim(second) == second
  {
    var app := new App();
    var a := Task(t1, first, false, Low);
    var b := Task(t2, second, false, High);
    app.newTask, app.selectedPriority := first, Low;
    app.AddTask(t1);
    assert app.tasks == [a];
    app.newTask, app.selectedPriority := second, High;
    app.AddTask(t2);
    assert app.tasks == [a, b];
    CompleteFirst(app, a, b);
  }

  /** Tick the first of two pending tasks and look at the completed view. */
  method CompleteFirst(app: App, a: Task, b: Task)
    requires app.Valid() && app.tasks == [a, b] && !a.completed && !b.completed
    modifies app
  {
    app.ToggleTask(0);
    var done := a.(completed := true);
    assert app.tasks == [done, b];
    app.SetFilter(CompletedLabel);
    OneOfTwoCompleted(done, b);
    assert app.FilteredTasks() == [done];
    assert app.CompletedTasks() == 1;
  }

  /** The views of a two-task list whose first task only is completed. */
  lemma OneOfTwoCompleted(a: Task, b: Task)
    requires a.completed && !b.completed
    ensures Filtered([a, b], CompletedLabel) == [a]
    ensures Filtered([a, b], ActiveLabel) == [b]
    ensures CompletedCount([a, b]) == 1 && PendingCount([a, b]) == 1
  {
    assert ActiveLabel != CompletedLabel by { assert ActiveLabel[0] != CompletedLabel[0]; }
    assert [a, b] == [a] + [b];
    WithStatusCons(a, [b], true);
    WithStatusCons(a, [b], false);
    assert [b] == [b] + [];
    WithStatusCons(b, [], true);
    WithStatusCons(b, [], false);
  }

  /** An all-blank compose text is ignored and stays in the buffer. */
  method BlankIgnored()
  {
    var app := new App();
    var blank := "  ";
    assert IsWhitespace(blank[0]) && IsWhitespace(blank[1]);
    TrimEmptyIff(blank);
    app.newTask := blank;
    app.AddTask(7);
    assert app.tasks == [] && app.newTask == blank;
  }

  /** Two adds within one clock tick share an id, and deleting one of them
      removes both. */
  method SameTick(first: string, second: string, now: int)
    requires first != [] && Trim(first) == first
    requires second != [] && Trim(second) == second
  {
    var app := new App();
    app.newTask := first;
    app.AddTask(now);
    app.newTask := second;
    app.AddTask(now);
    var a := Task(now, first, false, Medium);
    var b := Task(now, second, false, Medium);
    assert app.tasks == [a, b];
    SharedClockDeletesBoth(a, b);
    app.DeleteTask(a);
    assert app.tasks == [];
  }
}
