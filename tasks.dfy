/** The task record and the three task-store updates of the `App` component:
    append a new task, mark tasks complete by id, delete tasks by id. */
module Tasks {
  import opened Seqs

  datatype Priority = High | Medium | Low

  /** A to-do entry. `deadline` is the calendar day of the form's date input,
      counted as an integer (the source keeps the ISO text in a field spelled
      `deadlne`). */
  datatype Task = Task(id: int, title: string, priority: Priority, deadline: int, completed: bool)

  /** The position of a priority in the `priorityOrder` table: High 1, Medium 2, Low 3. */
  function Rank(p: Priority): (r: int)
    ensures 1 <= r <= 3
  {
    match p
    case High => 1
    case Medium => 2
    case Low => 3
  }

  predicate HasId(s: seq<Task>, id: int) {
    exists i :: 0 <= i < |s| && s[i].id == id
  }

  predicate DistinctIds(s: seq<Task>) {
    forall i, j :: 0 <= i < j < |s| ==> s[i].id != s[j].id
  }

  /** `b` is `a` except perhaps for its completion flag. */
  predicate SameEntry(a: Task, b: Task) {
    a.id == b.id && a.title == b.title && a.priority == b.priority && a.deadline == b.deadline
  }

  /** The task `addTask` appends: the form's fields, not completed, with the given id. */
  function NewTask(title: string, priority: Priority, deadline: int, id: int): (t: Task)
    ensures !t.completed && t.id == id
  {
    Task(id, title, priority, deadline, false)
  }

  /** `makeComplete`: every task with the id is replaced by a completed copy; the rest stay. */
  function MarkComplete(s: seq<Task>, id: int): (r: seq<Task>)
    ensures |r| == |s|
    ensures forall i :: 0 <= i < |s| ==> SameEntry(r[i], s[i])
    ensures forall i :: 0 <= i < |s| ==> r[i].completed == (s[i].completed || s[i].id == id)
  {
    if s == [] then []
    else [if s[0].id == id then s[0].(completed := true) else s[0]] + MarkComplete(s[1..], id)
  }

  /** The test `deleteTask` filters with: the task's id differs from `id`. */
  function OtherId(id: int): Task -> bool {
    (t: Task) => t.id != id
  }

  predicate IsActive(t: Task) { !t.completed }

  predicate IsCompleted(t: Task) { t.completed }

  /** `deleteTask`: the tasks whose id differs, in their original order. */
  function WithoutId(s: seq<Task>, id: int): (r: seq<Task>)
    ensures !HasId(r, id)
    ensures forall t :: t in r <==> t in s && t.id != id
    ensures !HasId(s, id) ==> r == s
  {
    var r := Filter(s, OtherId(id));
    assert forall i :: 0 <= i < |r| ==> r[i] in r;
    r
  }

  /** The tasks not yet completed, in insertion order: the `filter` whose result `activeTasks` sorts. */
  function ActiveOf(s: seq<Task>): seq<Task> {
    Filter(s, IsActive)
  }

  /** `ActiveOf` selects exactly the tasks not completed, and never lengthens the store. */
  lemma ActiveOfSelects(s: seq<Task>)
    ensures |ActiveOf(s)| <= |s|
    ensures forall t :: t in ActiveOf(s) <==> t in s && !t.completed
  {
  }

  /** `completedTasks`: the completed tasks, in insertion order. */
  function CompletedOf(s: seq<Task>): (r: seq<Task>)
    ensures |r| <= |s|
    ensures forall t {:trigger t in r} :: t in r <==> t in s && t.completed
  {
    Filter(s, IsCompleted)
  }

  // ---------------------------------------------------------------------------
  // addTask

  /** Appending keeps every earlier task at its position and adds one not-completed task at the end. */
  lemma AppendKeepsPrefix(s: seq<Task>, title: string, priority: Priority, deadline: int, id: int)
    ensures var r := s + [NewTask(title, priority, deadline, id)];
      |r| == |s| + 1 && r[..|s|] == s && !r[|s|].completed && r[|s|].id == id
      && r[|s|].title == title && r[|s|].priority == priority && r[|s|].deadline == deadline
  {
    var r := s + [NewTask(title, priority, deadline, id)];
    assert r[..|s|] == s;
  }

  /** A fresh id keeps the ids distinct. */
  lemma {:induction false} AppendFreshKeepsIdsDistinct(s: seq<Task>, t: Task)
    requires DistinctIds(s) && !HasId(s, t.id)
    ensures DistinctIds(s + [t])
  {
    var r := s + [t];
    forall i, j | 0 <= i < j < |r| ensures r[i].id != r[j].id {
      if j == |s| {
        assert r[i] == s[i];
      } else {
        assert r[i] == s[i] && r[j] == s[j];
      }
    }
  }

  // ---------------------------------------------------------------------------
  // makeComplete

  /** Completing twice is completing once. */
  lemma MarkCompleteIdempotent(s: seq<Task>, id: int)
    ensures MarkComplete(MarkComplete(s, id), id) == MarkComplete(s, id)
  {
    var once := MarkComplete(s, id);
    var twice := MarkComplete(once, id);
    forall i | 0 <= i < |s| ensures twice[i] == once[i] {
      assert SameEntry(twice[i], once[i]);
    }
  }

  /** Completing an absent id changes nothing. */
  lemma MarkCompleteAbsent(s: seq<Task>, id: int)
    requires !HasId(s, id)
    ensures MarkComplete(s, id) == s
  {
    var r := MarkComplete(s, id);
    forall i | 0 <= i < |s| ensures r[i] == s[i] {
      assert s[i].id != id;
    }
  }

  /** The completed flag only ever goes from false to true, and only for the given id. */
  lemma MarkCompleteMonotone(s: seq<Task>, id: int)
    ensures forall i :: 0 <= i < |s| && s[i].completed ==> MarkComplete(s, id)[i].completed
    ensures forall i :: 0 <= i < |s| && s[i].id != id ==> MarkComplete(s, id)[i] == s[i]
  {
  }

  lemma MarkCompleteKeepsIdsDistinct(s: seq<Task>, id: int)
    requires DistinctIds(s)
    ensures DistinctIds(MarkComplete(s, id))
  {
  }

  // ---------------------------------------------------------------------------
  // deleteTask

  lemma WithoutIdLeavesNone(s: seq<Task>, id: int)
    ensures forall t :: t in WithoutId(s, id) ==> t.id != id
  {
  }

  /** Deleting an id that is present makes the collection strictly shorter. */
  lemma WithoutIdShrinks(s: seq<Task>, id: int)
    ensures HasId(s, id) <==> |WithoutId(s, id)| < |s|
  {
    FilterShrinks(s, OtherId(id));
  }

  /** Deletion removes exactly the occurrences of tasks with the id. */
  lemma WithoutIdMultiset(s: seq<Task>, id: int)
    ensures forall t :: multiset(WithoutId(s, id))[t] == if t.id == id then 0 else multiset(s)[t]
  {
    FilterMultiset(s, OtherId(id));
  }

  lemma DistinctTail(s: seq<Task>)
    requires s != [] && DistinctIds(s)
    ensures DistinctIds(s[1..]) && !HasId(s[1..], s[0].id)
  {
    var tail := s[1..];
    forall i, j | 0 <= i < j < |tail| ensures tail[i].id != tail[j].id {
      assert tail[i] == s[i + 1] && tail[j] == s[j + 1];
    }
    forall t | t in tail ensures t.id != s[0].id {
      var k :| 0 <= k < |tail| && tail[k] == t;
      assert s[k + 1] == t;
    }
  }

  lemma DistinctCons(x: Task, s: seq<Task>)
    requires DistinctIds(s) && !HasId(s, x.id)
    ensures DistinctIds([x] + s)
  {
    var r := [x] + s;
    forall i, j | 0 <= i < j < |r| ensures r[i].id != r[j].id {
      assert r[j] == s[j - 1];
      if i > 0 {
        assert r[i] == s[i - 1];
      } else {
        assert s[j - 1] in s;
      }
    }
  }

  lemma {:induction false} WithoutIdKeepsIdsDistinct(s: seq<Task>, id: int)
    requires DistinctIds(s)
    ensures DistinctIds(WithoutId(s, id))
  {
    if s != [] {
      DistinctTail(s);
      WithoutIdKeepsIdsDistinct(s[1..], id);
      var rest := WithoutId(s[1..], id);
      assert s == [s[0]] + s[1..];
      FilterCons(s[0], s[1..], OtherId(id));
      if s[0].id != id {
        DistinctCons(s[0], rest);
      }
    }
  }
}
