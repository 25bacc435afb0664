/** The end-to-end scenario of the task list: tasks A (High, day 10),
    B (Low, day 5) and C (Medium, day 20) added from the initial state, the
    list viewed under each sort, then B completed. */
module Walkthrough {
  import opened Tasks
  import opened Sorting
  import opened Views
  import opened Component
  import Seqs

  predicate Scenario(a: Task, b: Task, c: Task) {
    a == NewTask("A", High, 10, 1) && b == NewTask("B", Low, 5, 2) && c == NewTask("C", Medium, 20, 3)
  }

  /** The initial order "asd" lists the latest deadline first. */
  lemma InitialOrderIsLatestFirst(a: Task, b: Task, c: Task)
    requires Scenario(a, b, c)
    ensures SortTasks([a, b, c], ByDate, InitialSortOrder) == [c, a, b]
  {
    var st, so := ByDate, InitialSortOrder;
    assert Key(a, st, so) == -10 && Key(b, st, so) == -5 && Key(c, st, so) == -20;
    SortTriple(a, b, c, st, so);
    InsertIntoPair(a, c, b, st, so);
  }

  lemma ByDateAscending(a: Task, b: Task, c: Task)
    requires Scenario(a, b, c)
    ensures SortTasks([a, b, c], ByDate, Asc) == [b, a, c]
  {
    var st, so := ByDate, Asc;
    assert Key(a, st, so) == 10 && Key(b, st, so) == 5 && Key(c, st, so) == 20;
    SortTriple(a, b, c, st, so);
    InsertIntoPair(a, b, c, st, so);
  }

  lemma ByPriorityAscending(a: Task, b: Task, c: Task)
    requires Scenario(a, b, c)
    ensures SortTasks([a, b, c], ByPriority, Asc) == [a, c, b]
  {
    var st, so := ByPriority, Asc;
    assert Key(a, st, so) == 1 && Key(b, st, so) == 3 && Key(c, st, so) == 2;
    SortTriple(a, b, c, st, so);
    InsertIntoPair(a, c, b, st, so);
  }

  lemma ByPriorityAfterCompletion(a: Task, c: Task)
    requires a == NewTask("A", High, 10, 1) && c == NewTask("C", Medium, 20, 3)
    ensures SortTasks([a, c], ByPriority, Asc) == [a, c]
  {
    assert Key(a, ByPriority, Asc) == 1 && Key(c, ByPriority, Asc) == 2;
    SortPair(a, c, ByPriority, Asc);
  }

  /** None of the three tasks starts out completed. */
  lemma AllActive(a: Task, b: Task, c: Task)
    requires Scenario(a, b, c)
    ensures ActiveOf([a, b, c]) == [a, b, c]
  {
    Seqs.FilterCons(c, [], IsActive);
    Seqs.FilterCons(b, [c], IsActive);
    Seqs.FilterCons(a, [b, c], IsActive);
    assert [b] + [c] == [b, c];
    assert [a] + [b, c] == [a, b, c];
  }

  /** Completing id 2 marks B and nothing else. */
  lemma CompletingMarksB(a: Task, b: Task, c: Task)
    requires Scenario(a, b, c)
    ensures MarkComplete([a, b, c], 2) == [a, b.(completed := true), c]
  {
  }

  /** After B is completed, A and C stay active and B alone is completed. */
  lemma CompletedBMoves(a: Task, b': Task, c: Task)
    requires a == NewTask("A", High, 10, 1) && c == NewTask("C", Medium, 20, 3)
    requires b' == NewTask("B", Low, 5, 2).(completed := true)
    ensures ActiveOf([a, b', c]) == [a, c]
    ensures CompletedOf([a, b', c]) == [b']
  {
    Seqs.FilterCons(c, [], IsActive);
    Seqs.FilterCons(b', [c], IsActive);
    Seqs.FilterCons(a, [b', c], IsActive);
    assert [a] + [c] == [a, c];
    Seqs.FilterCons(c, [], IsCompleted);
    Seqs.FilterCons(b', [c], IsCompleted);
    Seqs.FilterCons(a, [b', c], IsCompleted);
    assert [b'] + [] == [b'];
  }

  /** The three tasks added, in order, to a freshly mounted component. */
  method AddThree() returns (app: App)
    ensures fresh(app)
    ensures app.tasks == [NewTask("A", High, 10, 1), NewTask("B", Low, 5, 2), NewTask("C", Medium, 20, 3)]
    ensures app.sortType == ByDate && app.sortOrder == InitialSortOrder
  {
    var a, b, c := NewTask("A", High, 10, 1), NewTask("B", Low, 5, 2), NewTask("C", Medium, 20, 3);
    app := new App();
    app.AddTask("A", High, 10, 1);
    assert app.tasks == [a];
    app.AddTask("B", Low, 5, 2);
    assert app.tasks == [a, b];
    app.AddTask("C", Medium, 20, 3);
  }

  /** Completing B under the priority sort leaves A then C active and B alone completed. */
  method CompleteB(app: App)
    requires app.tasks == [NewTask("A", High, 10, 1), NewTask("B", Low, 5, 2), NewTask("C", Medium, 20, 3)]
    requires app.sortType == ByPriority && app.sortOrder == Asc
    modifies app
    ensures app.ActiveTasks() == [NewTask("A", High, 10, 1), NewTask("C", Medium, 20, 3)]
    ensures app.CompletedTasks() == [NewTask("B", Low, 5, 2).(completed := true)]
  {
    var a, b, c := NewTask("A", High, 10, 1), NewTask("B", Low, 5, 2), NewTask("C", Medium, 20, 3);
    app.MakeComplete(2);
    CompletingMarksB(a, b, c);
    CompletedBMoves(a, b.(completed := true), c);
    ByPriorityAfterCompletion(a, c);
  }

  /** The list as the user sees it through each sort, and after completing B. */
  method Run() {
    var app := AddThree();
    var a, b, c := NewTask("A", High, 10, 1), NewTask("B", Low, 5, 2), NewTask("C", Medium, 20, 3);
    AllActive(a, b, c);
    InitialOrderIsLatestFirst(a, b, c);
    assert app.ActiveTasks() == [c, a, b];
    app.ToggleSortOrder(ByDate);
    assert app.sortType == ByDate && app.sortOrder == Asc;
    ByDateAscending(a, b, c);
    assert app.ActiveTasks() == [b, a, c];
    app.ToggleSortOrder(ByPriority);
    assert app.sortType == ByPriority && app.sortOrder == Asc;
    ByPriorityAscending(a, b, c);
    assert app.ActiveTasks() == [a, c, b];
    CompleteB(app);
  }
}
