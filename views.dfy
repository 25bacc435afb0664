/** The two lists the `App` component renders, recomputed from the task store
    on every state change: `activeTasks` (the tasks not completed, passed
    through `sortTask`) and `completedTasks` (the completed tasks, in
    insertion order: `CompletedOf`). */
module Views {
  import opened Seqs
  import opened Tasks
  import opened Sorting

  /** `activeTasks`: the not-completed tasks, rearranged into the order of the current sort. */
  function ActiveView(s: seq<Task>, sortType: string, sortOrder: string): (r: seq<Task>)
    ensures multiset(r) == multiset(ActiveOf(s))
    ensures Sorted(r, sortType, sortOrder)
  {
    SortTasks(ActiveOf(s), sortType, sortOrder)
  }

  /** Every task is in exactly one of the two lists, as often as in the store. */
  lemma ViewsPartition(s: seq<Task>, sortType: string, sortOrder: string)
    ensures multiset(ActiveView(s, sortType, sortOrder)) + multiset(CompletedOf(s)) == multiset(s)
    ensures |ActiveView(s, sortType, sortOrder)| + |CompletedOf(s)| == |s|
    ensures forall t :: t in ActiveView(s, sortType, sortOrder) <==> t in s && !t.completed
    ensures forall t :: t in CompletedOf(s) <==> t in s && t.completed
  {
    var a, c := ActiveView(s, sortType, sortOrder), CompletedOf(s);
    FilterMultiset(s, IsActive);
    FilterMultiset(s, IsCompleted);
    assert multiset(a) == multiset(ActiveOf(s));
    assert multiset(a) + multiset(c) == multiset(s);
    assert |multiset(a) + multiset(c)| == |multiset(a)| + |multiset(c)|;
    forall t ensures t in a <==> t in s && !t.completed {
      assert t in a <==> t in multiset(a);
      assert t in ActiveOf(s) <==> t in multiset(ActiveOf(s));
    }
  }

  /** The active list is the sorted form of the not-completed tasks:
      ordered by the comparator, and stable. */
  lemma ActiveViewCharacterization(s: seq<Task>, sortType: string, sortOrder: string, r: seq<Task>)
    ensures r == ActiveView(s, sortType, sortOrder)
        <==> Sorted(r, sortType, sortOrder) && SameKeyClasses(r, ActiveOf(s), sortType, sortOrder)
  {
    SortCharacterization(ActiveOf(s), r, sortType, sortOrder);
  }

  /** A new task shows at the end of the not-completed tasks and leaves the completed list alone. */
  lemma AppendGoesToActive(s: seq<Task>, t: Task)
    requires !t.completed
    ensures ActiveOf(s + [t]) == ActiveOf(s) + [t]
    ensures CompletedOf(s + [t]) == CompletedOf(s)
  {
    FilterConcat(s, [t], IsActive);
    FilterConcat(s, [t], IsCompleted);
    FilterCons(t, [], IsActive);
    FilterCons(t, [], IsCompleted);
    assert [t] + [] == [t];
  }

  /** Completing an id takes its tasks out of the active tasks and leaves the others in order. */
  lemma {:induction false} CompleteLeavesActive(s: seq<Task>, id: int)
    ensures ActiveOf(MarkComplete(s, id)) == WithoutId(ActiveOf(s), id)
  {
    if s != [] {
      var h, tail := s[0], s[1..];
      var h' := if h.id == id then h.(completed := true) else h;
      var m := MarkComplete(tail, id);
      assert MarkComplete(s, id) == [h'] + m;
      CompleteLeavesActive(tail, id);
      FilterCons(h', m, IsActive);
      assert ActiveOf(s) == (if IsActive(h) then [h] else []) + ActiveOf(tail);
      if !IsActive(h) {
        assert ActiveOf(MarkComplete(s, id)) == ActiveOf(m);
        assert ActiveOf(s) == ActiveOf(tail);
      } else if h.id == id {
        assert ActiveOf(MarkComplete(s, id)) == ActiveOf(m);
        FilterCons(h, ActiveOf(tail), OtherId(id));
      } else {
        assert ActiveOf(MarkComplete(s, id)) == [h] + ActiveOf(m);
        FilterCons(h, ActiveOf(tail), OtherId(id));
      }
    }
  }

  /** Completing an id takes its tasks out of `activeTasks` and keeps the rest in their displayed order. */
  lemma CompleteLeavesActiveView(s: seq<Task>, id: int, sortType: string, sortOrder: string)
    ensures ActiveOf(MarkComplete(s, id)) == WithoutId(ActiveOf(s), id)
    ensures ActiveView(MarkComplete(s, id), sortType, sortOrder) == WithoutId(ActiveView(s, sortType, sortOrder), id)
    ensures forall t :: t in ActiveView(MarkComplete(s, id), sortType, sortOrder) ==> t.id != id
  {
    CompleteLeavesActive(s, id);
    SortWithoutId(ActiveOf(s), id, sortType, sortOrder);
    WithoutIdLeavesNone(ActiveView(s, sortType, sortOrder), id);
  }

  /** Completing an id takes its tasks off the active list and puts their completed copies on the completed list. */
  lemma CompleteMovesTask(s: seq<Task>, id: int, sortType: string, sortOrder: string)
    ensures forall t :: t in ActiveView(MarkComplete(s, id), sortType, sortOrder) ==> t.id != id
    ensures forall i :: 0 <= i < |s| && s[i].id == id ==> s[i].(completed := true) in CompletedOf(MarkComplete(s, id))
  {
    var m := MarkComplete(s, id);
    ViewsPartition(m, sortType, sortOrder);
    forall i | 0 <= i < |s| && s[i].id == id ensures s[i].(completed := true) in CompletedOf(m) {
      assert m[i] == s[i].(completed := true);
    }
  }

  /** Deleting an id removes its tasks from whichever list holds them and keeps both lists' order. */
  lemma DeleteLeavesViews(s: seq<Task>, id: int)
    ensures ActiveOf(WithoutId(s, id)) == WithoutId(ActiveOf(s), id)
    ensures CompletedOf(WithoutId(s, id)) == WithoutId(CompletedOf(s), id)
  {
    FilterCommute(s, OtherId(id), IsActive);
    FilterCommute(s, OtherId(id), IsCompleted);
  }

  /** Deleting an id takes its tasks out of `activeTasks` and keeps the rest in their displayed order. */
  lemma DeleteLeavesActiveView(s: seq<Task>, id: int, sortType: string, sortOrder: string)
    ensures ActiveView(WithoutId(s, id), sortType, sortOrder) == WithoutId(ActiveView(s, sortType, sortOrder), id)
  {
    DeleteLeavesViews(s, id);
    SortWithoutId(ActiveOf(s), id, sortType, sortOrder);
  }
}
