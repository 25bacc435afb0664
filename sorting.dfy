/** The sort engine of the `App` component: the comparator `sortTask` hands to
    `Array.prototype.sort`, the stable sort itself (required of that method
    since the 10th edition of ECMA-262, section 22.1.3.27), and the
    `toggleSortOrder` state machine over `sortType` and `sortOrder`. */
module Sorting {
  import opened Seqs
  import opened Tasks

  const ByDate: string := "date"
  const ByPriority: string := "priority"
  const Asc: string := "asc"
  const Desc: string := "desc"
  /** The initial `sortOrder`. It is not "asc", so every test against "asc"
      treats it as descending. */
  const InitialSortOrder: string := "asd"

  /** The number a task is ordered by: its priority rank when sorting by
      priority, its deadline otherwise; negated for any order other than "asc". */
  function Key(t: Task, sortType: string, sortOrder: string): int {
    var k := if sortType == ByPriority then Rank(t.priority) else t.deadline;
    if sortOrder == Asc then k else -k
  }

  /** Which of two tasks has the smaller key: for "priority" the higher
      priority (smaller `priorityOrder` rank) under "asc" and the lower one
      otherwise; for any other type the earlier deadline under "asc" and the
      later one otherwise. */
  lemma KeyOrder(a: Task, b: Task, sortType: string, sortOrder: string)
    ensures sortType == ByPriority ==>
      (Key(a, sortType, sortOrder) < Key(b, sortType, sortOrder)
       <==> if sortOrder == Asc then Rank(a.priority) < Rank(b.priority) else Rank(b.priority) < Rank(a.priority))
    ensures sortType != ByPriority ==>
      (Key(a, sortType, sortOrder) < Key(b, sortType, sortOrder)
       <==> if sortOrder == Asc then a.deadline < b.deadline else b.deadline < a.deadline)
  {
  }

  /** The comparator of `sortTask`: negative when `a` goes first, positive when `b` does. */
  function Compare(a: Task, b: Task, sortType: string, sortOrder: string): (c: int)
    ensures c == Key(a, sortType, sortOrder) - Key(b, sortType, sortOrder)
    ensures c <= 0 <==> Key(a, sortType, sortOrder) <= Key(b, sortType, sortOrder)
  {
    if sortType == ByPriority then
      if sortOrder == Asc then Rank(a.priority) - Rank(b.priority)
      else Rank(b.priority) - Rank(a.priority)
    else
      if sortOrder == Asc then a.deadline - b.deadline
      else b.deadline - a.deadline
  }

  predicate Sorted(s: seq<Task>, sortType: string, sortOrder: string) {
    forall i, j :: 0 <= i < j < |s| ==> Key(s[i], sortType, sortOrder) <= Key(s[j], sortType, sortOrder)
  }

  function HasKey(sortType: string, sortOrder: string, k: int): Task -> bool {
    (t: Task) => Key(t, sortType, sortOrder) == k
  }

  /** The tasks of `s` that compare equal under the comparator and have key `k`, in their order in `s`. */
  function WithKey(s: seq<Task>, sortType: string, sortOrder: string, k: int): seq<Task> {
    Filter(s, HasKey(sortType, sortOrder, k))
  }

  /** Stability: every class of tasks that compare equal appears in `r` in the same order as in `s`. */
  ghost predicate SameKeyClasses(r: seq<Task>, s: seq<Task>, sortType: string, sortOrder: string) {
    forall k :: WithKey(r, sortType, sortOrder, k) == WithKey(s, sortType, sortOrder, k)
  }

  /** Places `x` before the first task that does not compare below it. */
  function Insert(x: Task, s: seq<Task>, sortType: string, sortOrder: string): (r: seq<Task>)
    ensures multiset(r) == multiset(s) + multiset{x}
    ensures |r| == |s| + 1
  {
    if s == [] || Compare(x, s[0], sortType, sortOrder) <= 0 then [x] + s
    else
      assert s == [s[0]] + s[1..];
      [s[0]] + Insert(x, s[1..], sortType, sortOrder)
  }

  /** `sortTask`: the tasks of `s`, stably sorted by the comparator; `s` itself is a value and stays as it was. */
  function SortTasks(s: seq<Task>, sortType: string, sortOrder: string): (r: seq<Task>)
    ensures multiset(r) == multiset(s)
    ensures |r| == |s|
    ensures Sorted(r, sortType, sortOrder)
  {
    if s == [] then []
    else
      assert s == [s[0]] + s[1..];
      var rest := SortTasks(s[1..], sortType, sortOrder);
      InsertKeepsSorted(s[0], rest, sortType, sortOrder);
      Insert(s[0], rest, sortType, sortOrder)
  }

  lemma SortCons(x: Task, s: seq<Task>, sortType: string, sortOrder: string)
    ensures SortTasks([x] + s, sortType, sortOrder) == Insert(x, SortTasks(s, sortType, sortOrder), sortType, sortOrder)
  {
    assert ([x] + s)[1..] == s;
  }

  lemma InsertFront(x: Task, s: seq<Task>, sortType: string, sortOrder: string)
    requires s == [] || Compare(x, s[0], sortType, sortOrder) <= 0
    ensures Insert(x, s, sortType, sortOrder) == [x] + s
  {
  }

  lemma InsertPast(x: Task, s: seq<Task>, sortType: string, sortOrder: string)
    requires s != [] && Compare(x, s[0], sortType, sortOrder) > 0
    ensures Insert(x, s, sortType, sortOrder) == [s[0]] + Insert(x, s[1..], sortType, sortOrder)
  {
  }

  lemma SortPair(x: Task, y: Task, sortType: string, sortOrder: string)
    ensures SortTasks([x, y], sortType, sortOrder)
         == if Compare(x, y, sortType, sortOrder) <= 0 then [x, y] else [y, x]
  {
    SortCons(y, [], sortType, sortOrder);
    InsertFront(y, [], sortType, sortOrder);
    assert [y] + [] == [y];
    assert [x, y] == [x] + [y];
    SortCons(x, [y], sortType, sortOrder);
    if Compare(x, y, sortType, sortOrder) > 0 {
      InsertPast(x, [y], sortType, sortOrder);
      InsertFront(x, [], sortType, sortOrder);
    }
  }

  lemma InsertIntoPair(x: Task, y: Task, z: Task, sortType: string, sortOrder: string)
    ensures Insert(x, [y, z], sortType, sortOrder)
         == if Compare(x, y, sortType, sortOrder) <= 0 then [x, y, z]
            else if Compare(x, z, sortType, sortOrder) <= 0 then [y, x, z]
            else [y, z, x]
  {
    if Compare(x, y, sortType, sortOrder) > 0 {
      InsertPast(x, [y, z], sortType, sortOrder);
      assert [y, z][1..] == [z];
      if Compare(x, z, sortType, sortOrder) > 0 {
        InsertPast(x, [z], sortType, sortOrder);
        InsertFront(x, [], sortType, sortOrder);
      } else {
        InsertFront(x, [z], sortType, sortOrder);
      }
    }
  }

  /** Sorting three tasks: the last two are sorted, then the first is inserted. */
  lemma SortTriple(x: Task, y: Task, z: Task, sortType: string, sortOrder: string)
    ensures SortTasks([x, y, z], sortType, sortOrder)
         == Insert(x, if Compare(y, z, sortType, sortOrder) <= 0 then [y, z] else [z, y], sortType, sortOrder)
  {
    SortPair(y, z, sortType, sortOrder);
    assert [x, y, z] == [x] + [y, z];
    SortCons(x, [y, z], sortType, sortOrder);
  }

  // ---------------------------------------------------------------------------
  // Ordering and stability

  lemma SortedTail(s: seq<Task>, sortType: string, sortOrder: string)
    requires s != [] && Sorted(s, sortType, sortOrder)
    ensures Sorted(s[1..], sortType, sortOrder)
  {
    var tail := s[1..];
    forall i, j | 0 <= i < j < |tail|
      ensures Key(tail[i], sortType, sortOrder) <= Key(tail[j], sortType, sortOrder)
    {
      assert tail[i] == s[i + 1] && tail[j] == s[j + 1];
    }
  }

  /** A task whose key is at most every key of a sorted sequence may be put in front of it. */
  lemma SortedCons(x: Task, s: seq<Task>, sortType: string, sortOrder: string)
    requires Sorted(s, sortType, sortOrder)
    requires forall y :: y in s ==> Key(x, sortType, sortOrder) <= Key(y, sortType, sortOrder)
    ensures Sorted([x] + s, sortType, sortOrder)
  {
    var r := [x] + s;
    forall i, j | 0 <= i < j < |r| ensures Key(r[i], sortType, sortOrder) <= Key(r[j], sortType, sortOrder) {
      assert r[j] == s[j - 1];
      if i > 0 {
        assert r[i] == s[i - 1];
      } else {
        assert s[j - 1] in s;
      }
    }
  }

  lemma InsertMembers(x: Task, s: seq<Task>, sortType: string, sortOrder: string)
    ensures forall y :: y in Insert(x, s, sortType, sortOrder) <==> y == x || y in s
  {
    var r := Insert(x, s, sortType, sortOrder);
    forall y ensures y in r <==> y == x || y in s {
      assert y in r <==> y in multiset(r);
      assert y in s <==> y in multiset(s);
    }
  }

  lemma {:induction false} InsertKeepsSorted(x: Task, s: seq<Task>, sortType: string, sortOrder: string)
    requires Sorted(s, sortType, sortOrder)
    ensures Sorted(Insert(x, s, sortType, sortOrder), sortType, sortOrder)
  {
    if s == [] || Compare(x, s[0], sortType, sortOrder) <= 0 {
      forall y | y in s ensures Key(x, sortType, sortOrder) <= Key(y, sortType, sortOrder) {
        var m :| 0 <= m < |s| && s[m] == y;
        assert m == 0 || Key(s[0], sortType, sortOrder) <= Key(s[m], sortType, sortOrder);
      }
      SortedCons(x, s, sortType, sortOrder);
    } else {
      var tail := s[1..];
      SortedTail(s, sortType, sortOrder);
      InsertKeepsSorted(x, tail, sortType, sortOrder);
      var rest := Insert(x, tail, sortType, sortOrder);
      InsertMembers(x, tail, sortType, sortOrder);
      forall y | y in rest ensures Key(s[0], sortType, sortOrder) <= Key(y, sortType, sortOrder) {
        if y != x {
          var m :| 0 <= m < |tail| && tail[m] == y;
          assert tail[m] == s[m + 1];
        }
      }
      SortedCons(s[0], rest, sortType, sortOrder);
    }
  }

  lemma WithKeyCons(x: Task, s: seq<Task>, sortType: string, sortOrder: string, k: int)
    ensures WithKey([x] + s, sortType, sortOrder, k)
         == (if Key(x, sortType, sortOrder) == k then [x] else []) + WithKey(s, sortType, sortOrder, k)
  {
    FilterCons(x, s, HasKey(sortType, sortOrder, k));
  }

  /** Inserting `x` puts it in front of every task with the same key. */
  lemma {:induction false} InsertStable(x: Task, s: seq<Task>, sortType: string, sortOrder: string, k: int)
    ensures WithKey(Insert(x, s, sortType, sortOrder), sortType, sortOrder, k)
         == (if Key(x, sortType, sortOrder) == k then [x] else []) + WithKey(s, sortType, sortOrder, k)
  {
    if s == [] || Compare(x, s[0], sortType, sortOrder) <= 0 {
      WithKeyCons(x, s, sortType, sortOrder, k);
    } else {
      InsertStable(x, s[1..], sortType, sortOrder, k);
      InsertStablePast(x, s, sortType, sortOrder, k);
    }
  }

  /** The step of `InsertStable` where `x` goes past the first task. */
  lemma InsertStablePast(x: Task, s: seq<Task>, sortType: string, sortOrder: string, k: int)
    requires s != [] && Compare(x, s[0], sortType, sortOrder) > 0
    requires WithKey(Insert(x, s[1..], sortType, sortOrder), sortType, sortOrder, k)
          == (if Key(x, sortType, sortOrder) == k then [x] else []) + WithKey(s[1..], sortType, sortOrder, k)
    ensures WithKey(Insert(x, s, sortType, sortOrder), sortType, sortOrder, k)
         == (if Key(x, sortType, sortOrder) == k then [x] else []) + WithKey(s, sortType, sortOrder, k)
  {
    var y, tail := s[0], s[1..];
    var kx := if Key(x, sortType, sortOrder) == k then [x] else [];
    var ky := if Key(y, sortType, sortOrder) == k then [y] else [];
    var w := WithKey(tail, sortType, sortOrder, k);
    assert s == [y] + tail;
    InsertPast(x, s, sortType, sortOrder);
    WithKeyCons(y, Insert(x, tail, sortType, sortOrder), sortType, sortOrder, k);
    WithKeyCons(y, tail, sortType, sortOrder, k);
    // x goes past y only when its key is larger, so at most one of them has key k
    SwapOneEmpty(ky, kx, w);
  }

  lemma SwapOneEmpty(a: seq<Task>, b: seq<Task>, w: seq<Task>)
    requires a == [] || b == []
    ensures a + (b + w) == b + (a + w)
  {
    if a == [] {
      assert a + (b + w) == b + w == b + (a + w);
    } else {
      assert a + (b + w) == a + w == b + (a + w);
    }
  }

  /** The sort is stable: tasks that compare equal keep their input order. */
  lemma {:induction false} SortStable(s: seq<Task>, sortType: string, sortOrder: string)
    ensures SameKeyClasses(SortTasks(s, sortType, sortOrder), s, sortType, sortOrder)
  {
    if s != [] {
      assert s == [s[0]] + s[1..];
      SortStable(s[1..], sortType, sortOrder);
      var rest := SortTasks(s[1..], sortType, sortOrder);
      forall k ensures WithKey(SortTasks(s, sortType, sortOrder), sortType, sortOrder, k)
                    == WithKey(s, sortType, sortOrder, k)
      {
        InsertStable(s[0], rest, sortType, sortOrder, k);
        WithKeyCons(s[0], s[1..], sortType, sortOrder, k);
      }
    }
  }

  lemma WithKeyHead(s: seq<Task>, sortType: string, sortOrder: string)
    requires s != []
    ensures var c := WithKey(s, sortType, sortOrder, Key(s[0], sortType, sortOrder));
      c != [] && c[0] == s[0]
  {
    assert s == [s[0]] + s[1..];
    WithKeyCons(s[0], s[1..], sortType, sortOrder, Key(s[0], sortType, sortOrder));
  }

  /** The least key of a sorted sequence is that of its first task. */
  lemma SortedHeadLeast(s: seq<Task>, sortType: string, sortOrder: string, k: int)
    requires Sorted(s, sortType, sortOrder) && WithKey(s, sortType, sortOrder, k) != []
    ensures s != [] && Key(s[0], sortType, sortOrder) <= k
  {
    var c := WithKey(s, sortType, sortOrder, k);
    assert c[0] in c;
    var j :| 0 <= j < |s| && s[j] == c[0];
  }

  /** A sorted sequence is determined by its classes of equal keys. */
  lemma {:induction false} SortedUnique(r1: seq<Task>, r2: seq<Task>, sortType: string, sortOrder: string)
    requires Sorted(r1, sortType, sortOrder) && Sorted(r2, sortType, sortOrder)
    requires SameKeyClasses(r1, r2, sortType, sortOrder)
    ensures r1 == r2
  {
    if r1 != [] {
      WithKeyHead(r1, sortType, sortOrder);
      SortedHeadLeast(r2, sortType, sortOrder, Key(r1[0], sortType, sortOrder));
      WithKeyHead(r2, sortType, sortOrder);
      SortedHeadLeast(r1, sortType, sortOrder, Key(r2[0], sortType, sortOrder));
      var m := Key(r1[0], sortType, sortOrder);
      assert r1[0] == r2[0];
      var t1, t2 := r1[1..], r2[1..];
      assert r1 == [r1[0]] + t1 && r2 == [r2[0]] + t2;
      assert Sorted(t1, sortType, sortOrder) by {
        forall i, j | 0 <= i < j < |t1| ensures Key(t1[i], sortType, sortOrder) <= Key(t1[j], sortType, sortOrder) {
          assert t1[i] == r1[i + 1] && t1[j] == r1[j + 1];
        }
      }
      assert Sorted(t2, sortType, sortOrder) by {
        forall i, j | 0 <= i < j < |t2| ensures Key(t2[i], sortType, sortOrder) <= Key(t2[j], sortType, sortOrder) {
          assert t2[i] == r2[i + 1] && t2[j] == r2[j + 1];
        }
      }
      forall k ensures WithKey(t1, sortType, sortOrder, k) == WithKey(t2, sortType, sortOrder, k) {
        WithKeyCons(r1[0], t1, sortType, sortOrder, k);
        WithKeyCons(r2[0], t2, sortType, sortOrder, k);
        var head := if m == k then [r1[0]] else [];
        assert WithKey(r1, sortType, sortOrder, k) == head + WithKey(t1, sortType, sortOrder, k);
        assert WithKey(t1, sortType, sortOrder, k) == WithKey(r1, sortType, sortOrder, k)[|head|..];
        assert WithKey(t2, sortType, sortOrder, k) == WithKey(r2, sortType, sortOrder, k)[|head|..];
      }
      SortedUnique(t1, t2, sortType, sortOrder);
    } else if r2 != [] {
      WithKeyHead(r2, sortType, sortOrder);
      assert false;
    }
  }

  /** `sortTask` is characterised by its two promises: a sequence is the
      sorted form of `s` exactly when it is ordered by the comparator and
      keeps every class of equal keys in its order in `s`. */
  lemma SortCharacterization(s: seq<Task>, r: seq<Task>, sortType: string, sortOrder: string)
    ensures r == SortTasks(s, sortType, sortOrder)
        <==> Sorted(r, sortType, sortOrder) && SameKeyClasses(r, s, sortType, sortOrder)
  {
    SortStable(s, sortType, sortOrder);
    if Sorted(r, sortType, sortOrder) && SameKeyClasses(r, s, sortType, sortOrder) {
      SortedUnique(r, SortTasks(s, sortType, sortOrder), sortType, sortOrder);
    }
  }

  /** Selecting from a sorted sequence keeps it sorted. */
  lemma {:induction false} FilterSorted(s: seq<Task>, q: Task -> bool, sortType: string, sortOrder: string)
    requires Sorted(s, sortType, sortOrder)
    ensures Sorted(Filter(s, q), sortType, sortOrder)
  {
    if s != [] {
      var x, tail := s[0], s[1..];
      assert s == [x] + tail;
      SortedTail(s, sortType, sortOrder);
      FilterSorted(tail, q, sortType, sortOrder);
      FilterCons(x, tail, q);
      if q(x) {
        forall y | y in Filter(tail, q) ensures Key(x, sortType, sortOrder) <= Key(y, sortType, sortOrder) {
          var j :| 0 <= j < |tail| && tail[j] == y;
          assert s[j + 1] == y;
        }
        SortedCons(x, Filter(tail, q), sortType, sortOrder);
      }
    }
  }

  /** The key class `k` of a selection is the selection of the key class `k`. */
  lemma WithKeyOfFilter(s: seq<Task>, q: Task -> bool, sortType: string, sortOrder: string, k: int)
    ensures WithKey(Filter(s, q), sortType, sortOrder, k) == Filter(WithKey(s, sortType, sortOrder, k), q)
  {
    FilterCommute(s, q, HasKey(sortType, sortOrder, k));
  }

  /** Selecting before sorting is selecting after sorting. */
  lemma SortFilterCommute(s: seq<Task>, q: Task -> bool, sortType: string, sortOrder: string)
    ensures SortTasks(Filter(s, q), sortType, sortOrder) == Filter(SortTasks(s, sortType, sortOrder), q)
  {
    var sorted := SortTasks(s, sortType, sortOrder);
    var r := Filter(sorted, q);
    FilterSorted(sorted, q, sortType, sortOrder);
    SortStable(s, sortType, sortOrder);
    forall k ensures WithKey(r, sortType, sortOrder, k) == WithKey(Filter(s, q), sortType, sortOrder, k) {
      WithKeyOfFilter(sorted, q, sortType, sortOrder, k);
      WithKeyOfFilter(s, q, sortType, sortOrder, k);
    }
    SortCharacterization(Filter(s, q), r, sortType, sortOrder);
  }

  /** Deleting an id before sorting is deleting it from the sorted sequence. */
  lemma SortWithoutId(s: seq<Task>, id: int, sortType: string, sortOrder: string)
    ensures SortTasks(WithoutId(s, id), sortType, sortOrder) == WithoutId(SortTasks(s, sortType, sortOrder), id)
  {
    SortFilterCommute(s, OtherId(id), sortType, sortOrder);
  }

  // ---------------------------------------------------------------------------
  // Sorting by priority: the three priority classes, each in input order

  function WithPriority(p: Priority): Task -> bool {
    (t: Task) => t.priority == p
  }

  /** The tasks of `s` with priority `p`, in their order in `s`. */
  function OfPriority(s: seq<Task>, p: Priority): seq<Task> {
    Filter(s, WithPriority(p))
  }

  /** The key every task of priority `p` has under a priority sort. */
  function PriorityKey(p: Priority, sortOrder: string): int {
    if sortOrder == Asc then Rank(p) else -Rank(p)
  }

  lemma SortedConcat(a: seq<Task>, b: seq<Task>, sortType: string, sortOrder: string)
    requires Sorted(a, sortType, sortOrder) && Sorted(b, sortType, sortOrder)
    requires forall x, y :: x in a && y in b ==> Key(x, sortType, sortOrder) <= Key(y, sortType, sortOrder)
    ensures Sorted(a + b, sortType, sortOrder)
  {
    var r := a + b;
    forall i, j | 0 <= i < j < |r| ensures Key(r[i], sortType, sortOrder) <= Key(r[j], sortType, sortOrder) {
      if j < |a| {
        assert r[i] == a[i] && r[j] == a[j];
      } else if i >= |a| {
        assert r[i] == b[i - |a|] && r[j] == b[j - |a|];
      } else {
        assert r[i] == a[i] && r[j] == b[j - |a|];
        assert a[i] in a && b[j - |a|] in b;
      }
    }
  }

  /** One priority class is sorted: all its tasks have the same key. */
  lemma PriorityClassSorted(s: seq<Task>, sortOrder: string, p: Priority)
    ensures forall t :: t in OfPriority(s, p) ==> Key(t, ByPriority, sortOrder) == PriorityKey(p, sortOrder)
    ensures Sorted(OfPriority(s, p), ByPriority, sortOrder)
  {
    var g := OfPriority(s, p);
    assert forall i :: 0 <= i < |g| ==> g[i] in g;
  }

  /** Within one priority class, the key class of `k` is the whole class or nothing. */
  lemma ClassAt(s: seq<Task>, sortOrder: string, p: Priority, k: int)
    ensures WithKey(OfPriority(s, p), ByPriority, sortOrder, k)
         == if k == PriorityKey(p, sortOrder) then OfPriority(s, p) else []
  {
    var g := OfPriority(s, p);
    assert forall i :: 0 <= i < |g| ==> g[i] in g;
    if k != PriorityKey(p, sortOrder) {
      FilterNone(g, HasKey(ByPriority, sortOrder, k));
    }
  }

  /** Under a priority sort, the key class of a priority's key is that priority's class. */
  lemma PriorityClassIsKeyClass(s: seq<Task>, sortOrder: string, p: Priority)
    ensures WithKey(s, ByPriority, sortOrder, PriorityKey(p, sortOrder)) == OfPriority(s, p)
  {
    FilterAgree(s, HasKey(ByPriority, sortOrder, PriorityKey(p, sortOrder)), WithPriority(p));
  }

  lemma NoPriorityKey(s: seq<Task>, sortOrder: string, k: int)
    requires k != PriorityKey(High, sortOrder) && k != PriorityKey(Medium, sortOrder) && k != PriorityKey(Low, sortOrder)
    ensures WithKey(s, ByPriority, sortOrder, k) == []
  {
    FilterNone(s, HasKey(ByPriority, sortOrder, k));
  }

  /** The classes of `p1`, `p2` and `p3` put one after the other have the same classes of equal keys as `s`. */
  lemma ClassesAt(s: seq<Task>, sortOrder: string, p1: Priority, p2: Priority, p3: Priority, k: int)
    requires (p1, p2, p3) == (High, Medium, Low) || (p1, p2, p3) == (Low, Medium, High)
    ensures var g := OfPriority(s, p1) + OfPriority(s, p2) + OfPriority(s, p3);
      WithKey(g, ByPriority, sortOrder, k) == WithKey(s, ByPriority, sortOrder, k)
  {
    var g1, g2, g3 := OfPriority(s, p1), OfPriority(s, p2), OfPriority(s, p3);
    var g := g1 + g2 + g3;
    ClassAt(s, sortOrder, p1, k);
    ClassAt(s, sortOrder, p2, k);
    ClassAt(s, sortOrder, p3, k);
    FilterConcat(g1 + g2, g3, HasKey(ByPriority, sortOrder, k));
    FilterConcat(g1, g2, HasKey(ByPriority, sortOrder, k));
    var w1, w2, w3 := WithKey(g1, ByPriority, sortOrder, k), WithKey(g2, ByPriority, sortOrder, k), WithKey(g3, ByPriority, sortOrder, k);
    assert WithKey(g, ByPriority, sortOrder, k) == w1 + w2 + w3;
    if k == PriorityKey(p1, sortOrder) {
      PriorityClassIsKeyClass(s, sortOrder, p1);
      assert w1 + w2 + w3 == g1 + [] + [];
    } else if k == PriorityKey(p2, sortOrder) {
      PriorityClassIsKeyClass(s, sortOrder, p2);
      assert w1 + w2 + w3 == [] + g2 + [];
    } else if k == PriorityKey(p3, sortOrder) {
      PriorityClassIsKeyClass(s, sortOrder, p3);
      assert w1 + w2 + w3 == [] + [] + g3;
    } else {
      NoPriorityKey(s, sortOrder, k);
      assert w1 + w2 + w3 == [] + [] + [];
    }
  }

  lemma ThreeClasses(s: seq<Task>, sortOrder: string, p1: Priority, p2: Priority, p3: Priority)
    requires (p1, p2, p3) == (High, Medium, Low) || (p1, p2, p3) == (Low, Medium, High)
    requires PriorityKey(p1, sortOrder) < PriorityKey(p2, sortOrder) < PriorityKey(p3, sortOrder)
    ensures SortTasks(s, ByPriority, sortOrder) == OfPriority(s, p1) + OfPriority(s, p2) + OfPriority(s, p3)
  {
    var g1, g2, g3 := OfPriority(s, p1), OfPriority(s, p2), OfPriority(s, p3);
    var g := g1 + g2 + g3;
    PriorityClassSorted(s, sortOrder, p1);
    PriorityClassSorted(s, sortOrder, p2);
    PriorityClassSorted(s, sortOrder, p3);
    SortedConcat(g1, g2, ByPriority, sortOrder);
    SortedConcat(g1 + g2, g3, ByPriority, sortOrder);
    forall k ensures WithKey(g, ByPriority, sortOrder, k) == WithKey(s, ByPriority, sortOrder, k) {
      ClassesAt(s, sortOrder, p1, p2, p3, k);
    }
    SortCharacterization(s, g, ByPriority, sortOrder);
  }

  /** Sorting by priority lists the High, Medium and Low classes in that order
      for "asc" and in the reverse order otherwise; within a class the input
      order is kept. */
  lemma SortByPriorityGroups(s: seq<Task>, sortOrder: string)
    ensures SortTasks(s, ByPriority, sortOrder)
         == if sortOrder == Asc then OfPriority(s, High) + OfPriority(s, Medium) + OfPriority(s, Low)
            else OfPriority(s, Low) + OfPriority(s, Medium) + OfPriority(s, High)
  {
    if sortOrder == Asc {
      ThreeClasses(s, sortOrder, High, Medium, Low);
    } else {
      ThreeClasses(s, sortOrder, Low, Medium, High);
    }
  }

  // ---------------------------------------------------------------------------
  // Reversing the direction

  /** No two tasks of `s` compare equal under the given sort type. */
  ghost predicate NoTies(s: seq<Task>, sortType: string) {
    forall k :: |WithKey(s, sortType, Asc, k)| <= 1
  }

  /** Any order other than "asc" has the keys of "asc" negated. */
  lemma WithKeyFlip(s: seq<Task>, sortType: string, sortOrder: string, k: int)
    requires sortOrder != Asc
    ensures WithKey(s, sortType, sortOrder, k) == WithKey(s, sortType, Asc, -k)
  {
    FilterAgree(s, HasKey(sortType, sortOrder, k), HasKey(sortType, Asc, -k));
  }

  lemma SortedReverse(r: seq<Task>, sortType: string, sortOrder: string)
    requires sortOrder != Asc && Sorted(r, sortType, Asc)
    ensures Sorted(Reverse(r), sortType, sortOrder)
  {
    var g := Reverse(r);
    forall i, j | 0 <= i < j < |g| ensures Key(g[i], sortType, sortOrder) <= Key(g[j], sortType, sortOrder) {
      assert Key(r[|r| - 1 - j], sortType, Asc) <= Key(r[|r| - 1 - i], sortType, Asc);
    }
  }

  /** Without ties, the descending sort is the ascending sort read backwards. */
  lemma DescIsReversedAsc(s: seq<Task>, sortType: string, sortOrder: string)
    requires sortOrder != Asc && NoTies(s, sortType)
    ensures SortTasks(s, sortType, sortOrder) == Reverse(SortTasks(s, sortType, Asc))
  {
    var r := SortTasks(s, sortType, Asc);
    var g := Reverse(r);
    SortedReverse(r, sortType, sortOrder);
    SortStable(s, sortType, Asc);
    forall k ensures WithKey(g, sortType, sortOrder, k) == WithKey(s, sortType, sortOrder, k) {
      WithKeyFlip(g, sortType, sortOrder, k);
      WithKeyFlip(s, sortType, sortOrder, k);
      FilterReverse(r, HasKey(sortType, Asc, -k));
      var c := WithKey(r, sortType, Asc, -k);
      assert |c| <= 1;
      assert Reverse(c) == c;
    }
    SortCharacterization(s, g, sortType, sortOrder);
  }

  /** Sorting the ascending result again in the other direction reverses it exactly when nothing ties. */
  lemma SortAgainReverses(s: seq<Task>, sortType: string, sortOrder: string)
    requires sortOrder != Asc && NoTies(s, sortType)
    ensures SortTasks(SortTasks(s, sortType, Asc), sortType, sortOrder) == Reverse(SortTasks(s, sortType, Asc))
  {
    var r := SortTasks(s, sortType, Asc);
    SortStable(s, sortType, Asc);
    assert NoTies(r, sortType) by {
      forall k ensures |WithKey(r, sortType, Asc, k)| <= 1 {
        assert WithKey(r, sortType, Asc, k) == WithKey(s, sortType, Asc, k);
      }
    }
    DescIsReversedAsc(r, sortType, sortOrder);
    SortCharacterization(r, r, sortType, Asc);
  }

  lemma WithKeyNonAsc(s: seq<Task>, sortType: string, o1: string, o2: string, k: int)
    requires o1 != Asc && o2 != Asc
    ensures WithKey(s, sortType, o1, k) == WithKey(s, sortType, o2, k)
  {
    FilterAgree(s, HasKey(sortType, o1, k), HasKey(sortType, o2, k));
  }

  lemma SortedNonAsc(r: seq<Task>, sortType: string, o1: string, o2: string)
    requires o1 != Asc && o2 != Asc && Sorted(r, sortType, o1)
    ensures Sorted(r, sortType, o2)
  {
  }

  /** Every order other than "asc" sorts the same way. */
  lemma NonAscOrdersAgree(s: seq<Task>, sortType: string, o1: string, o2: string)
    requires o1 != Asc && o2 != Asc
    ensures SortTasks(s, sortType, o1) == SortTasks(s, sortType, o2)
  {
    var r := SortTasks(s, sortType, o1);
    SortStable(s, sortType, o1);
    SortedNonAsc(r, sortType, o1, o2);
    forall k ensures WithKey(r, sortType, o2, k) == WithKey(s, sortType, o2, k) {
      WithKeyNonAsc(r, sortType, o1, o2, k);
      WithKeyNonAsc(s, sortType, o1, o2, k);
    }
    SortCharacterization(s, r, sortType, o2);
  }

  // ---------------------------------------------------------------------------
  // toggleSortOrder

  datatype SortState = SortState(sortType: string, sortOrder: string)

  /** The order a repeated click on the active key switches to. */
  function FlipOrder(sortOrder: string): (r: string)
    ensures r == Asc <==> sortOrder != Asc
    ensures r == Asc || r == Desc
  {
    if sortOrder == Asc then Desc else Asc
  }

  /** `toggleSortOrder(sortType)`: the same key flips the direction, a new key starts ascending. */
  function ToggleSort(st: SortState, sortType: string): (r: SortState)
    ensures r.sortType == sortType
    ensures r.sortOrder == Asc <==> sortType != st.sortType || st.sortOrder != Asc
    ensures r.sortOrder == Asc || r.sortOrder == Desc
  {
    if st.sortType == sortType then SortState(st.sortType, FlipOrder(st.sortOrder))
    else SortState(sortType, Asc)
  }

  /** Two clicks on the same key restore a state whose order is "asc" or "desc";
      from any other state they end descending on that key. */
  lemma ToggleTwice(st: SortState, sortType: string)
    ensures ToggleSort(ToggleSort(st, sortType), sortType)
         == if sortType == st.sortType && (st.sortOrder == Asc || st.sortOrder == Desc) then st
            else SortState(sortType, Desc)
  {
  }

  /** The initial order "asd" behaves as "desc" everywhere: it sorts the same
      and the toggle leaves it the same way. */
  lemma InitialOrderActsAsDesc(s: seq<Task>, sortType: string, newType: string)
    ensures SortTasks(s, sortType, InitialSortOrder) == SortTasks(s, sortType, Desc)
    ensures ToggleSort(SortState(sortType, InitialSortOrder), newType) == ToggleSort(SortState(sortType, Desc), newType)
  {
    NonAscOrdersAgree(s, sortType, InitialSortOrder, Desc);
  }

  /** From the initial state, clicking "By Date" switches to ascending dates,
      then "By Priority" to ascending priorities. */
  lemma ToggleFromInitial()
    ensures ToggleSort(SortState(ByDate, InitialSortOrder), ByDate) == SortState(ByDate, Asc)
    ensures ToggleSort(SortState(ByDate, Asc), ByDate) == SortState(ByDate, Desc)
    ensures ToggleSort(SortState(ByDate, Desc), ByPriority) == SortState(ByPriority, Asc)
  {
  }
}
