/** The overdue board: unfinished tasks filed before today, in three
    groups, with moves back to today, toggling and deleting. */
module OverdueView {
  import opened Strings
  import opened Seqs
  import opened Types
  import opened Derived
  import Engine
  import DateKeys
  import opened App

  predicate IsOverdue(t: Task, today: string)
    ensures IsOverdue(t, today) ==> !t.completed && t.date != today
  {
    LexLessIrreflexive(today);
    !t.completed && LexLess(t.date, today)
  }

  function OverdueOn(today: string): Task -> bool {
    (t: Task) => IsOverdue(t, today)
  }

  /** `tasks.filter(t => !t.completed && t.date < todayStr)`. */
  function OverdueTasks(ts: seq<Task>, today: string): (r: seq<Task>)
    ensures forall t :: t in r <==> t in ts && !t.completed && LexLess(t.date, today)
  {
    Filter(ts, OverdueOn(today))
  }

  /** For a task filed under a well-formed key, "overdue" means: not done
      and filed on a day strictly before today. */
  lemma OverdueIsChronological(t: Task, filed: DateKeys.LocalDate, today: DateKeys.LocalDate)
    requires DateKeys.InRange(filed) && DateKeys.InRange(today)
    requires t.date == DateKeys.FormatDateToKey(filed)
    ensures IsOverdue(t, DateKeys.FormatDateToKey(today)) <==> !t.completed && DateKeys.Before(filed, today)
  {
    DateKeys.KeyOrder(filed, today);
  }

  /** Neither today's tasks nor later ones are ever overdue. */
  lemma TodayNotOverdue(t: Task, today: string)
    requires t.date == today || LexLess(today, t.date)
    ensures !IsOverdue(t, today)
  {
    LexLessIrreflexive(today);
    LexLessTrichotomy(t.date, today);
  }

  predicate OtherWork(t: Task) {
    t.category != Projects && t.category != Areas
  }

  /** `projectOverdue`, `areaOverdue` and `otherOverdue`. */
  function ProjectOverdue(ov: seq<Task>): (r: seq<Task>)
    ensures forall t :: t in r <==> t in ov && (Present(t.projectId) || t.category == Projects)
  {
    Filter(ov, ProjectRelated)
  }

  function AreaOverdue(ov: seq<Task>): (r: seq<Task>)
    ensures forall t :: t in r <==> t in ov && t.category == Areas && !Present(t.projectId)
  {
    Filter(ov, GeneralArea)
  }

  function OtherOverdue(ov: seq<Task>): (r: seq<Task>)
    ensures forall t :: t in r <==> t in ov && t.category != Projects && t.category != Areas
  {
    Filter(ov, OtherWork)
  }

  /** The project and area groups never share a task; every overdue task is
      in some group; a project-linked Resources or Archives task is shown
      twice, under projects and under others. */
  lemma GroupsPartition(ov: seq<Task>, t: Task)
    requires t in ov
    ensures !(t in ProjectOverdue(ov) && t in AreaOverdue(ov))
    ensures t in ProjectOverdue(ov) || t in AreaOverdue(ov) || t in OtherOverdue(ov)
    ensures Present(t.projectId) && (t.category == Resources || t.category == Archives)
            ==> t in ProjectOverdue(ov) && t in OtherOverdue(ov) && t !in AreaOverdue(ov)
  {
  }

  /** The group sizes: projects and areas together fit in the list. */
  lemma GroupSizes(ov: seq<Task>)
    ensures |ProjectOverdue(ov)| + |AreaOverdue(ov)| <= |ov|
  {
    FilterLength(ov, ProjectRelated);
    FilterLength(ov, GeneralArea);
    CountDisjoint(ov, ProjectRelated, GeneralArea);
  }

  // Move-all: every overdue task, looked up by id, gets today's date.

  function Ids(ts: seq<Task>): (ids: seq<string>)
    ensures |ids| == |ts| && forall i :: 0 <= i < |ts| ==> ids[i] == ts[i].id
  {
    seq(|ts|, i requires 0 <= i < |ts| => ts[i].id)
  }

  /** The list after every task whose id is in `ids` has been moved to `date`. */
  function MovedTo(ts: seq<Task>, ids: seq<string>, date: string): (r: seq<Task>)
    ensures |r| == |ts|
  {
    seq(|ts|, i requires 0 <= i < |ts| => if ts[i].id in ids then ts[i].(date := date) else ts[i])
  }

  /** Moving one more id is one more `updateTaskDate`. */
  lemma MovedToStep(ts: seq<Task>, ids: seq<string>, k: nat, date: string)
    requires k < |ids|
    ensures MovedTo(ts, ids[..k + 1], date) == Engine.UpdateTaskDate(MovedTo(ts, ids[..k], date), ids[k], date)
  {
    assert ids[..k + 1] == ids[..k] + [ids[k]];
  }

  /** After "move all", each task that was overdue is on today's date, and
      each task whose id is not that of an overdue task is untouched. */
  lemma MoveAllEffect(ts: seq<Task>, today: string)
    ensures var r := MovedTo(ts, Ids(OverdueTasks(ts, today)), today);
      (forall i :: 0 <= i < |ts| && IsOverdue(ts[i], today) ==> r[i] == ts[i].(date := today))
      && (forall i :: 0 <= i < |ts| && ts[i].id !in Ids(OverdueTasks(ts, today)) ==> r[i] == ts[i])
  {
    var ov := OverdueTasks(ts, today);
    var ids := Ids(ov);
    forall i | 0 <= i < |ts| && IsOverdue(ts[i], today)
      ensures ts[i].id in ids
    {
      assert ts[i] in ts;
      assert ts[i] in ov;
      var j :| 0 <= j < |ov| && ov[j] == ts[i];
      assert ids[j] == ts[i].id;
    }
  }

  /** `handleMoveToToday`. */
  method HandleMoveToToday(store: Store, taskId: string, today: string)
    modifies store
    ensures store.tasks == Engine.UpdateTaskDate(old(store.tasks), taskId, today)
    ensures store.projects == old(store.projects) && store.nextId == old(store.nextId)
    ensures old(Engine.MirrorsUnique(store.tasks)) ==> Engine.MirrorsUnique(store.tasks)
  {
    store.UpdateTaskDate(taskId, today);
  }

  /** The move-all button: `overdueTasks.forEach(t => handleMoveToToday(t.id))`. */
  method MoveAllToToday(store: Store, today: string)
    modifies store
    ensures store.tasks == MovedTo(old(store.tasks), Ids(OverdueTasks(old(store.tasks), today)), today)
    ensures store.projects == old(store.projects) && store.nextId == old(store.nextId)
    ensures old(Engine.MirrorsUnique(store.tasks)) ==> Engine.MirrorsUnique(store.tasks)
  {
    ghost var ts0 := store.tasks;
    var overdue := OverdueTasks(store.tasks, today);
    ghost var ids := Ids(overdue);
    var i := 0;
    assert MovedTo(ts0, ids[..0], today) == ts0;
    while i < |overdue|
      invariant 0 <= i <= |overdue|
      invariant store.tasks == MovedTo(ts0, ids[..i], today)
      invariant store.projects == old(store.projects) && store.nextId == old(store.nextId)
      invariant old(Engine.MirrorsUnique(store.tasks)) ==> Engine.MirrorsUnique(store.tasks)
    {
      MovedToStep(ts0, ids, i, today);
      store.UpdateTaskDate(overdue[i].id, today);
      i := i + 1;
    }
    assert ids[..|overdue|] == ids;
  }

  /** `toggleTask` here: no exemption for Resources. */
  method ToggleTask(store: Store, id: string)
    modifies store
    ensures store.State() == old(store.State()).(tasks := FlipCompleted(old(store.tasks), id))
    ensures old(Engine.MirrorsUnique(store.tasks)) ==> Engine.MirrorsUnique(store.tasks)
  {
    if Engine.MirrorsUnique(store.tasks) {
      FlipPreservesUnique(store.tasks, id);
    }
    store.SetTasks(FlipCompleted(store.tasks, id));
  }

  method DeleteTask(store: Store, id: string)
    modifies store
    ensures store.State() == old(store.State()).(tasks := RemoveTask(old(store.tasks), id))
    ensures old(Engine.MirrorsUnique(store.tasks)) ==> Engine.MirrorsUnique(store.tasks)
  {
    if Engine.MirrorsUnique(store.tasks) {
      RemovePreservesUnique(store.tasks, id);
    }
    store.SetTasks(RemoveTask(store.tasks, id));
  }
}
