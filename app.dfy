/** The state of the `App` component and its handlers. Each handler replaces
    one or two state fields in a single step; the two rendered lists are
    functions of the state. */
module Component {
  import opened Tasks
  import opened Sorting
  import opened Views
  import opened Sections
  import opened Form

  class App {
    var tasks: seq<Task>
    var sortType: string
    var sortOrder: string
    var openSection: map<string, bool>

    constructor ()
      ensures tasks == [] && sortType == ByDate && sortOrder == InitialSortOrder
      ensures openSection == InitialSections
      ensures SectionsPresent()
    {
      tasks := [];
      sortType := ByDate;
      sortOrder := InitialSortOrder;
      openSection := InitialSections;
    }

    /** The three sections of the initial state are keys of `openSection`. */
    predicate SectionsPresent()
      reads this
    {
      InitialSections.Keys <= openSection.Keys
    }

    /** `activeTasks`: the tasks not completed, in the order the current sort gives
        (`ActiveView` states that order). */
    function ActiveTasks(): (r: seq<Task>)
      reads this
      ensures forall t :: t in r <==> t in tasks && !t.completed
    {
      ViewsPartition(tasks, sortType, sortOrder);
      ActiveView(tasks, sortType, sortOrder)
    }

    /** `completedTasks`: the completed tasks, in insertion order. */
    function CompletedTasks(): (r: seq<Task>)
      reads this
      ensures forall t :: t in r <==> t in tasks && t.completed
    {
      CompletedOf(tasks)
    }

    /** `toggleTaskTable`. */
    method ToggleTaskTable(section: string)
      modifies this
      ensures openSection == ToggleSection(old(openSection), section)
      ensures Visible(openSection, section) == !Visible(old(openSection), section)
      ensures old(SectionsPresent()) ==> SectionsPresent()
      ensures tasks == old(tasks) && sortType == old(sortType) && sortOrder == old(sortOrder)
    {
      if SectionsPresent() {
        ToggleKeepsSections(openSection, section);
      }
      openSection := ToggleSection(openSection, section);
    }

    /** `addTask`, with the id `Date.now()` would give passed in. */
    method AddTask(title: string, priority: Priority, deadline: int, id: int)
      modifies this
      ensures tasks == old(tasks) + [NewTask(title, priority, deadline, id)]
      ensures ActiveOf(tasks) == ActiveOf(old(tasks)) + [NewTask(title, priority, deadline, id)]
      ensures CompletedTasks() == old(CompletedTasks())
      ensures sortType == old(sortType) && sortOrder == old(sortOrder) && openSection == old(openSection)
    {
      AppendGoesToActive(tasks, NewTask(title, priority, deadline, id));
      tasks := tasks + [NewTask(title, priority, deadline, id)];
    }

    /** `makeComplete`. */
    method MakeComplete(id: int)
      modifies this
      ensures tasks == MarkComplete(old(tasks), id)
      ensures ActiveOf(tasks) == WithoutId(ActiveOf(old(tasks)), id)
      ensures ActiveTasks() == WithoutId(old(ActiveTasks()), id)
      ensures forall t :: t in ActiveTasks() ==> t.id != id
      ensures sortType == old(sortType) && sortOrder == old(sortOrder) && openSection == old(openSection)
    {
      CompleteLeavesActiveView(tasks, id, sortType, sortOrder);
      tasks := MarkComplete(tasks, id);
    }

    /** `deleteTask`. */
    method DeleteTask(id: int)
      modifies this
      ensures tasks == WithoutId(old(tasks), id)
      ensures ActiveOf(tasks) == WithoutId(ActiveOf(old(tasks)), id)
      ensures ActiveTasks() == WithoutId(old(ActiveTasks()), id)
      ensures CompletedTasks() == WithoutId(old(CompletedTasks()), id)
      ensures sortType == old(sortType) && sortOrder == old(sortOrder) && openSection == old(openSection)
    {
      DeleteLeavesViews(tasks, id);
      DeleteLeavesActiveView(tasks, id, sortType, sortOrder);
      tasks := WithoutId(tasks, id);
    }

    /** `toggleSortOrder`. */
    method ToggleSortOrder(newType: string)
      modifies this
      ensures SortState(sortType, sortOrder) == ToggleSort(SortState(old(sortType), old(sortOrder)), newType)
      ensures tasks == old(tasks) && openSection == old(openSection)
    {
      if sortType == newType {
        sortOrder := if sortOrder == Asc then Desc else Asc;
      } else {
        sortType := newType;
        sortOrder := Asc;
      }
    }

    /** The task form's submit handler: adds the task only when the title is
        not blank and a deadline is chosen; the title is stored as typed. */
    method HandleSubmit(title: string, priority: Priority, deadline: DateInput, id: int) returns (added: bool)
      modifies this
      ensures added == Submittable(title, deadline)
      ensures tasks == if added then old(tasks) + [NewTask(title, priority, deadline.day, id)] else old(tasks)
      ensures sortType == old(sortType) && sortOrder == old(sortOrder) && openSection == old(openSection)
    {
      added := Submittable(title, deadline);
      if added {
        AddTask(title, priority, deadline.day, id);
      }
    }
  }
}
