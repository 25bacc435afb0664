/** The section-visibility state `openSection` of the `App` component: an
    object from section name to a flag, toggled one key at a time. */
module Sections {

  const TaskListSection: string := "taskList"
  const TasksSection: string := "tasks"
  const CompletedSection: string := "completed"

  /** The form is hidden, both task lists are shown. */
  const InitialSections: map<string, bool> :=
    map[TaskListSection := false, TasksSection := true, CompletedSection := true]

  /** Whether a section is shown. A key the object lacks reads as `undefined`, which is falsy. */
  predicate Visible(m: map<string, bool>, section: string) {
    section in m && m[section]
  }

  /** At first the form is hidden and both lists are shown; a section the
      object lacks is hidden. */
  lemma VisibleInitial(m: map<string, bool>, section: string)
    ensures !Visible(InitialSections, TaskListSection)
    ensures Visible(InitialSections, TasksSection) && Visible(InitialSections, CompletedSection)
    ensures section !in m ==> !Visible(m, section)
  {
  }

  /** `toggleTaskTable(section)`: the object with that one key set to the negation of its old value. */
  function ToggleSection(m: map<string, bool>, section: string): (r: map<string, bool>)
    ensures r.Keys == m.Keys + {section}
    ensures Visible(r, section) == !Visible(m, section)
    ensures forall k :: k != section ==> (k in r <==> k in m) && Visible(r, k) == Visible(m, k)
    ensures forall k :: k in m && k != section ==> r[k] == m[k]
  {
    m[section := !Visible(m, section)]
  }

  /** Toggling a section that the object has twice gives back the object. */
  lemma ToggleSectionTwice(m: map<string, bool>, section: string)
    requires section in m
    ensures ToggleSection(ToggleSection(m, section), section) == m
  {
    var r := ToggleSection(ToggleSection(m, section), section);
    assert r.Keys == m.Keys;
  }

  /** Toggling keeps the three sections of the initial state present. */
  lemma ToggleKeepsSections(m: map<string, bool>, section: string)
    requires m.Keys >= InitialSections.Keys
    ensures ToggleSection(m, section).Keys >= InitialSections.Keys
  {
  }

  /** Toggling different sections can be done in either order. */
  lemma ToggleSectionsCommute(m: map<string, bool>, a: string, b: string)
    requires a != b
    ensures ToggleSection(ToggleSection(m, a), b) == ToggleSection(ToggleSection(m, b), a)
  {
  }
}
