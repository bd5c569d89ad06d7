/** The application root as an object: the two collections it holds in React
    state, and the fresh-id counter. Each handler replaces the collections
    the way the `setTasks`/`setProjects` updaters do, in the order they are
    issued, and is proved to compute the transition of module Engine. */
module App {
  import opened Seqs
  import opened Types
  import opened Engine

  class Store {
    var tasks: seq<Task>
    var projects: seq<Project>
    var nextId: nat

    function State(): AppState
      reads this
    {
      AppState(tasks, projects, nextId)
    }

    /** Start from the collections loaded at start-up. */
    constructor(tasks0: seq<Task>, projects0: seq<Project>)
      ensures State() == AppState(tasks0, projects0, 0)
    {
      tasks := tasks0;
      projects := projects0;
      nextId := 0;
    }

    /** `crypto.randomUUID()`. */
    method FreshId() returns (id: string)
      modifies this
      ensures id == MintId(old(nextId)) && nextId == old(nextId) + 1
      ensures tasks == old(tasks) && projects == old(projects)
    {
      id := MintId(nextId);
      nextId := nextId + 1;
    }

    /** `setTasks(next)` with a value computed by a view. */
    method SetTasks(next: seq<Task>)
      modifies this
      ensures State() == old(State()).(tasks := next)
    {
      tasks := next;
    }

    /** `setProjects(next)` with a value computed by a view. */
    method SetProjects(next: seq<Project>)
      modifies this
      ensures State() == old(State()).(projects := next)
    {
      projects := next;
    }

    method UpdateTaskDate(taskId: string, newDate: string)
      modifies this
      ensures tasks == Engine.UpdateTaskDate(old(tasks), taskId, newDate)
      ensures projects == old(projects) && nextId == old(nextId)
      ensures old(MirrorsUnique(tasks)) ==> MirrorsUnique(tasks)
    {
      if MirrorsUnique(tasks) {
        UpdateTaskDatePreservesUnique(tasks, taskId, newDate);
      }
      tasks := Engine.UpdateTaskDate(tasks, taskId, newDate);
    }

    method CheckAndArchiveProject(p: Project, today: string) returns (archived: bool)
      modifies this
      ensures (State(), archived) == CheckAndArchive(old(State()), p, today)
      ensures old(MirrorsUnique(tasks)) ==> MirrorsUnique(tasks)
    {
      if MirrorsUnique(tasks) {
        ArchivePreservesUnique(State(), p, today);
      }
      var total := |p.items|;
      if total == 0 {
        return false;
      }
      var completed := Count(p.items, ItemDone);
      if total > 0 && total == completed {
        var id := FreshId();
        tasks := [ArchiveTask(p, id, today)] + tasks;
        projects := RemoveProject(projects, p.id);
        return true;
      }
      return false;
    }

    method SyncProjectItemToDaily(projectId: string, projectTitle: string, item: ProjectItem)
      modifies this
      ensures tasks == SyncItem(old(tasks), projectId, projectTitle, item, MintId(old(nextId)))
      ensures projects == old(projects) && nextId == old(nextId) + 1
      ensures old(MirrorsUnique(tasks)) ==> MirrorsUnique(tasks)
    {
      if MirrorsUnique(tasks) {
        SyncPreservesUnique(tasks, projectId, projectTitle, item, MintId(nextId));
      }
      var id := FreshId();
      tasks := SyncItem(tasks, projectId, projectTitle, item, id);
    }

    method HandleUpdateProject(updated: Project, today: string)
      modifies this
      ensures State() == UpdateProject(old(State()), updated, today)
      ensures old(MirrorsUnique(tasks)) ==> MirrorsUnique(tasks)
    {
      ghost var s0 := State();
      if MirrorsUnique(tasks) {
        UpdateProjectPreservesUnique(s0, updated, today);
      }
      var archived := CheckAndArchiveProject(updated, today);
      if !archived {
        projects := ReplaceProject(projects, updated);
        SyncEvery(updated.id, updated.title, updated.items);
      }
    }

    /** The `items.forEach` of `onUpdateProject`: each item is mirrored in
        turn, one id drawn per item. */
    method SyncEvery(projectId: string, projectTitle: string, items: seq<ProjectItem>)
      modifies this
      ensures tasks == SyncAll(old(tasks), projectId, projectTitle, items, old(nextId))
      ensures nextId == old(nextId) + |items|
      ensures projects == old(projects)
    {
      ghost var ts0, n0 := tasks, nextId;
      var i := 0;
      while i < |items|
        invariant 0 <= i <= |items|
        invariant tasks == SyncAll(ts0, projectId, projectTitle, items[..i], n0)
        invariant projects == old(projects)
        invariant nextId == n0 + i
      {
        assert items[..i + 1][..i] == items[..i];
        SyncProjectItemToDaily(projectId, projectTitle, items[i]);
        i := i + 1;
      }
      assert items[..|items|] == items;
    }

    method HandleUpdateProjectItem(projectId: string, item: ProjectItem, today: string)
      modifies this
      ensures State() == UpdateProjectItem(old(State()), projectId, item, today)
      ensures old(MirrorsUnique(tasks)) ==> MirrorsUnique(tasks)
    {
      if MirrorsUnique(tasks) {
        UpdateItemPreservesUnique(State(), projectId, item, today);
      }
      var found := FindProject(projects, projectId);
      if found.None? {
        return;
      }
      var proj := found.value;
      var updated := proj.(items := ReplaceItem(proj.items, item));
      var total := |updated.items|;
      var completed := Count(updated.items, ItemDone);
      if total > 0 && total == completed {
        projects := RemoveProject(projects, projectId);
        var _ := CheckAndArchiveProject(updated, today);
        return;
      }
      SyncProjectItemToDaily(projectId, proj.title, item);
      projects := ReplaceProject(projects, updated);
    }

    method HandleAddProjectItem(projectId: string, item: ProjectItem)
      modifies this
      ensures State() == AddProjectItem(old(State()), projectId, item)
      ensures old(MirrorsUnique(tasks)) ==> MirrorsUnique(tasks)
    {
      ghost var s0 := State();
      if MirrorsUnique(tasks) {
        AddItemPreservesUnique(s0, projectId, item);
      }
      SyncMatching(projects, projectId, item);
      projects := AppendItem(projects, projectId, item);
    }

    /** The `projects.forEach` of `onAddProjectItem`: every project of the
        id mirrors the item into the daily list. */
    method SyncMatching(ps: seq<Project>, projectId: string, item: ProjectItem)
      modifies this
      ensures tasks == SyncMatches(old(tasks), ps, projectId, item, old(nextId))
      ensures nextId == old(nextId) + Count(ps, IdIs(projectId))
      ensures projects == old(projects)
    {
      ghost var ts0, n0 := tasks, nextId;
      var i := 0;
      while i < |ps|
        invariant 0 <= i <= |ps|
        invariant tasks == SyncMatches(ts0, ps[..i], projectId, item, n0)
        invariant nextId == n0 + Count(ps[..i], IdIs(projectId))
        invariant projects == old(projects)
      {
        SyncMatchesStep(ts0, ps, projectId, item, n0, i);
        if ps[i].id == projectId {
          SyncProjectItemToDaily(projectId, ps[i].title, item);
        }
        i := i + 1;
      }
      assert ps[..|ps|] == ps;
    }

    method HandleRemoveProjectItem(projectId: string, itemId: string)
      modifies this
      ensures State() == RemoveProjectItem(old(State()), projectId, itemId)
      ensures old(MirrorsUnique(tasks)) ==> MirrorsUnique(tasks)
    {
      ghost var s0 := State();
      var ps := projects;
      var ts := tasks;
      var seen := false;
      var i := 0;
      while i < |ps|
        invariant 0 <= i <= |ps|
        invariant seen == FindProject(ps[..i], projectId).Some?
        invariant ts == if seen then Filter(s0.tasks, NotMirrorOf(itemId)) else s0.tasks
        invariant State() == s0
      {
        FindProjectStep(ps, projectId, i);
        if ps[i].id == projectId {
          FilterIdempotent(s0.tasks, NotMirrorOf(itemId));
          ts := Filter(ts, NotMirrorOf(itemId));
          seen := true;
        }
        i := i + 1;
      }
      assert ps[..|ps|] == ps;
      tasks := ts;
      projects := DropItem(ps, projectId, itemId);
      assert State() == RemoveProjectItem(s0, projectId, itemId);
      if MirrorsUnique(s0.tasks) {
        RemoveItemPreservesUnique(s0, projectId, itemId);
      }
    }

    method HandleDeleteProject(projectId: string)
      modifies this
      ensures State() == DeleteProject(old(State()), projectId)
      ensures old(MirrorsUnique(tasks)) ==> MirrorsUnique(tasks)
    {
      if MirrorsUnique(tasks) {
        DeleteProjectPreservesUnique(State(), projectId);
      }
      tasks := Filter(tasks, NotInProject(projectId));
      projects := RemoveProject(projects, projectId);
    }

    method AddNewTask(title: string, category: ParaCategory, date: string, metadata: Option<LinkMetadata>)
      modifies this
      ensures State() == Engine.AddNewTask(old(State()), title, category, date, metadata)
      ensures old(MirrorsUnique(tasks)) ==> MirrorsUnique(tasks)
    {
      if MirrorsUnique(tasks) {
        AddNewTaskPreservesUnique(State(), title, category, date, metadata);
      }
      var id := FreshId();
      var t := Task(id, title, false, category, date, None, None, None, None, None, metadata);
      tasks := [t] + tasks;
      if category == Projects && !TitleTaken(projects, title) {
        var pid := FreshId();
        projects := [ShellProject(pid, title, metadata)] + projects;
      }
    }

    /** The calendar import: the imported tasks go in front. */
    method ImportTasks(imported: seq<Task>)
      modifies this
      ensures tasks == imported + old(tasks)
      ensures projects == old(projects) && nextId == old(nextId)
      ensures old(MirrorsUnique(tasks)) && (forall i :: 0 <= i < |imported| ==> imported[i].projectItemId.None?)
              ==> MirrorsUnique(tasks)
    {
      if MirrorsUnique(tasks) && forall i :: 0 <= i < |imported| ==> imported[i].projectItemId.None? {
        ImportPreservesUnique(tasks, imported);
      }
      tasks := imported + tasks;
    }
  }
}
