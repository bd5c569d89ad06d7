/** The task/project store of the application root: every handler computes a
    new pair of collections from the previous one. Fresh ids come from a
    counter that the state carries, in place of `crypto.randomUUID()`. */
module Engine {
  import opened Strings
  import opened Seqs
  import opened Types

  datatype AppState = AppState(tasks: seq<Task>, projects: seq<Project>, nextId: nat)

  /** The n-th fresh id. */
  function MintId(n: nat): (id: string)
    ensures |id| > 3 && id[..3] == "id-"
  {
    "id-" + NatToString(n)
  }

  /** Distinct counter values give distinct ids. */
  lemma MintIdInjective(m: nat, n: nat)
    requires m != n
    ensures MintId(m) != MintId(n)
  {
    NatToStringInjective(m, n);
    assert MintId(m)[3..] == NatToString(m) && MintId(n)[3..] == NatToString(n);
  }

  // ---------------------------------------------------------------------
  // Mirroring a project item as a daily task

  /** The note every mirrored task carries ("linked"). */
  const LinkedNote: string := "\U{C5F0}\U{B3D9}\U{B428}"

  /** A task mirrors an item when its `projectItemId` is the item's id. */
  predicate IsMirrorOf(t: Task, itemId: string) {
    t.projectItemId == Some(itemId)
  }

  function MirrorOf(itemId: string): Task -> bool {
    (t: Task) => IsMirrorOf(t, itemId)
  }

  function NotMirrorOf(itemId: string): Task -> bool {
    (t: Task) => !IsMirrorOf(t, itemId)
  }

  function MirrorCount(ts: seq<Task>, itemId: string): nat {
    Count(ts, MirrorOf(itemId))
  }

  /** At most one task per project item. */
  ghost predicate MirrorsUnique(ts: seq<Task>) {
    forall itemId :: MirrorCount(ts, itemId) <= 1
  }

  /** `findIndex(t => t.projectItemId === itemId)`. */
  function FindMirror(ts: seq<Task>, itemId: string): (r: Option<nat>)
    ensures r.Some? ==> r.value < |ts| && IsMirrorOf(ts[r.value], itemId)
    ensures r.Some? ==> forall j :: 0 <= j < r.value ==> !IsMirrorOf(ts[j], itemId)
    ensures r.None? ==> forall j :: 0 <= j < |ts| ==> !IsMirrorOf(ts[j], itemId)
  {
    if ts == [] then None
    else if IsMirrorOf(ts[0], itemId) then Some(0)
    else match FindMirror(ts[1..], itemId)
      case None => None
      case Some(k) => Some(k + 1)
  }

  /** The daily task that shows a dated item of a project. */
  function MirrorTask(projectId: string, projectTitle: string, item: ProjectItem, id: string): (t: Task)
    requires HasDeadline(item)
    ensures IsMirrorOf(t, item.id) && t.id == id
  {
    Task(id, "[" + projectTitle + "] " + item.title, item.completed, Areas,
         item.deadline.value, None, Some(LinkedNote), Some(projectId), Some(item.id), None, None)
  }

  /** `syncProjectItemToDaily`: an undated item loses its mirrors; a dated
      item's first mirror is rewritten where it stands, keeping its id, or a
      new mirror with `freshId` is put in front. */
  function SyncItem(ts: seq<Task>, projectId: string, projectTitle: string, item: ProjectItem,
                    freshId: string): (r: seq<Task>)
    ensures |r| <= |ts| + 1
  {
    var k := FindMirror(ts, item.id);
    if !HasDeadline(item) then
      if k.Some? then Filter(ts, NotMirrorOf(item.id)) else ts
    else if k.Some? then
      ts[k.value := MirrorTask(projectId, projectTitle, item, ts[k.value].id)]
    else
      [MirrorTask(projectId, projectTitle, item, freshId)] + ts
  }

  /** The tasks reflect the item: a dated item's first mirror shows the item's
      current title, state and date; an undated item has no mirror. */
  predicate Synced(ts: seq<Task>, projectId: string, projectTitle: string, item: ProjectItem)
    ensures Synced(ts, projectId, projectTitle, item) && HasDeadline(item) ==>
      exists t :: t in ts && IsMirrorOf(t, item.id) && t.completed == item.completed
        && t.date == item.deadline.value && t.title == "[" + projectTitle + "] " + item.title
    ensures !HasDeadline(item) ==>
      (Synced(ts, projectId, projectTitle, item) <==> forall i :: 0 <= i < |ts| ==> !IsMirrorOf(ts[i], item.id))
  {
    var ms := Filter(ts, MirrorOf(item.id));
    FilterEmpty(ts, MirrorOf(item.id));
    if HasDeadline(item) then ms != [] && ms[0] == MirrorTask(projectId, projectTitle, item, ms[0].id)
    else ms == []
  }

  /** The first mirror found by index is the first mirror in the filtered list. */
  lemma {:induction false} FindMirrorIsFirst(ts: seq<Task>, itemId: string)
    ensures FindMirror(ts, itemId).None? <==> Filter(ts, MirrorOf(itemId)) == []
    ensures FindMirror(ts, itemId).Some? ==>
      Filter(ts, MirrorOf(itemId))[0] == ts[FindMirror(ts, itemId).value]
  {
    if ts != [] && !IsMirrorOf(ts[0], itemId) {
      FindMirrorIsFirst(ts[1..], itemId);
    }
  }

  /** Without mirrors, FindMirror finds nothing, and conversely. */
  lemma NoMirrorCount(ts: seq<Task>, itemId: string)
    ensures MirrorCount(ts, itemId) == 0 <==> FindMirror(ts, itemId).None?
  {
    CountNone(ts, MirrorOf(itemId));
  }

  /** Syncing an item leaves every task that is not among its mirrors where
      it was relative to the others: any filter that rejects the item's
      mirrors sees the same list before and after. */
  lemma SyncKeepsUnrelated(ts: seq<Task>, projectId: string, projectTitle: string,
                           item: ProjectItem, freshId: string, q: Task -> bool)
    requires forall t :: q(t) ==> !IsMirrorOf(t, item.id)
    ensures Filter(SyncItem(ts, projectId, projectTitle, item, freshId), q) == Filter(ts, q)
  {
    var k := FindMirror(ts, item.id);
    if !HasDeadline(item) {
      if k.Some? {
        FilterOfFilter(ts, NotMirrorOf(item.id), q);
      }
    } else if k.Some? {
      FilterUpdateRejected(ts, k.value, MirrorTask(projectId, projectTitle, item, ts[k.value].id), q);
    } else {
      var m := MirrorTask(projectId, projectTitle, item, freshId);
      assert ([m] + ts)[1..] == ts;
    }
  }

  /** Tasks that do not mirror the item are untouched, in order. */
  lemma SyncKeepsOthers(ts: seq<Task>, projectId: string, projectTitle: string,
                        item: ProjectItem, freshId: string)
    ensures Filter(SyncItem(ts, projectId, projectTitle, item, freshId), NotMirrorOf(item.id))
         == Filter(ts, NotMirrorOf(item.id))
  {
    SyncKeepsUnrelated(ts, projectId, projectTitle, item, freshId, NotMirrorOf(item.id));
  }

  /** An undated item: all its mirrors are removed, and with none to remove
      the list is returned as it was. */
  lemma SyncWithoutDeadline(ts: seq<Task>, projectId: string, projectTitle: string,
                            item: ProjectItem, freshId: string)
    requires !HasDeadline(item)
    ensures SyncItem(ts, projectId, projectTitle, item, freshId) == Filter(ts, NotMirrorOf(item.id))
    ensures MirrorCount(SyncItem(ts, projectId, projectTitle, item, freshId), item.id) == 0
    ensures MirrorCount(ts, item.id) == 0 ==> SyncItem(ts, projectId, projectTitle, item, freshId) == ts
  {
    NoMirrorCount(ts, item.id);
    if FindMirror(ts, item.id).None? {
      FilterKeepsAll(ts, NotMirrorOf(item.id));
    }
    CountOfFilterExcluding(ts, NotMirrorOf(item.id), MirrorOf(item.id));
  }

  /** A dated item whose first mirror stands at index j: that task is
      rewritten at j and keeps its id; length and every other position are
      unchanged. */
  lemma SyncUpdatesInPlace(ts: seq<Task>, projectId: string, projectTitle: string,
                           item: ProjectItem, freshId: string, j: nat)
    requires HasDeadline(item)
    requires j < |ts| && IsMirrorOf(ts[j], item.id)
    requires forall i :: 0 <= i < j ==> !IsMirrorOf(ts[i], item.id)
    ensures var r := SyncItem(ts, projectId, projectTitle, item, freshId);
      |r| == |ts| && r[j].id == ts[j].id
      && r[j].title == "[" + projectTitle + "] " + item.title
      && r[j].completed == item.completed && r[j].category == Areas
      && r[j].date == item.deadline.value
      && r[j].projectId == Some(projectId) && r[j].projectItemId == Some(item.id)
      && forall i :: 0 <= i < |ts| && i != j ==> r[i] == ts[i]
  {
    var k := FindMirror(ts, item.id);
    assert k == Some(j);
  }

  /** A dated item without a mirror: exactly one new mirror is put in front. */
  lemma SyncPrepends(ts: seq<Task>, projectId: string, projectTitle: string,
                     item: ProjectItem, freshId: string)
    requires HasDeadline(item) && MirrorCount(ts, item.id) == 0
    ensures SyncItem(ts, projectId, projectTitle, item, freshId)
         == [MirrorTask(projectId, projectTitle, item, freshId)] + ts
  {
    NoMirrorCount(ts, item.id);
  }

  /** After a sync the tasks reflect the item. */
  lemma SyncEstablishes(ts: seq<Task>, projectId: string, projectTitle: string,
                        item: ProjectItem, freshId: string)
    ensures Synced(SyncItem(ts, projectId, projectTitle, item, freshId), projectId, projectTitle, item)
  {
    var r := SyncItem(ts, projectId, projectTitle, item, freshId);
    var k := FindMirror(ts, item.id);
    if !HasDeadline(item) {
      SyncWithoutDeadline(ts, projectId, projectTitle, item, freshId);
      CountNone(r, MirrorOf(item.id));
      FilterDropsAll(r, MirrorOf(item.id));
    } else if k.Some? {
      var j := k.value;
      SyncUpdatesInPlace(ts, projectId, projectTitle, item, freshId, j);
      assert forall i :: 0 <= i < j ==> r[i] == ts[i];
      FindMirrorIsFirst(r, item.id);
      assert FindMirror(r, item.id) == Some(j);
    } else {
      var m := MirrorTask(projectId, projectTitle, item, freshId);
      assert r == [m] + ts;
      assert Filter(r, MirrorOf(item.id)) == [m] + Filter(ts, MirrorOf(item.id)) by {
        assert r[1..] == ts;
      }
    }
  }

  /** Syncing tasks that already reflect the item changes nothing. */
  lemma SyncedIsFixpoint(ts: seq<Task>, projectId: string, projectTitle: string,
                         item: ProjectItem, freshId: string)
    requires Synced(ts, projectId, projectTitle, item)
    ensures SyncItem(ts, projectId, projectTitle, item, freshId) == ts
  {
    FindMirrorIsFirst(ts, item.id);
    var k := FindMirror(ts, item.id);
    if HasDeadline(item) {
      var j := k.value;
      assert ts[j := MirrorTask(projectId, projectTitle, item, ts[j].id)] == ts;
    }
  }

  /** Syncing the same item twice is syncing it once. */
  lemma SyncIdempotent(ts: seq<Task>, projectId: string, projectTitle: string,
                       item: ProjectItem, freshId: string, freshId2: string)
    ensures var once := SyncItem(ts, projectId, projectTitle, item, freshId);
      SyncItem(once, projectId, projectTitle, item, freshId2) == once
  {
    SyncEstablishes(ts, projectId, projectTitle, item, freshId);
    SyncedIsFixpoint(SyncItem(ts, projectId, projectTitle, item, freshId), projectId, projectTitle, item, freshId2);
  }

  /** A sync leaves every other item's mirror count alone. */
  lemma SyncOtherMirrorCount(ts: seq<Task>, projectId: string, projectTitle: string,
                             item: ProjectItem, freshId: string, other: string)
    requires other != item.id
    ensures MirrorCount(SyncItem(ts, projectId, projectTitle, item, freshId), other) == MirrorCount(ts, other)
  {
    SyncKeepsUnrelated(ts, projectId, projectTitle, item, freshId, MirrorOf(other));
    FilterLength(SyncItem(ts, projectId, projectTitle, item, freshId), MirrorOf(other));
    FilterLength(ts, MirrorOf(other));
  }

  /** A sync gives a dated item exactly one mirror when it had at most one,
      and an undated item none. */
  lemma SyncOwnMirrorCount(ts: seq<Task>, projectId: string, projectTitle: string,
                           item: ProjectItem, freshId: string)
    ensures var r := SyncItem(ts, projectId, projectTitle, item, freshId);
      (HasDeadline(item) && MirrorCount(ts, item.id) <= 1 ==> MirrorCount(r, item.id) == 1)
      && (!HasDeadline(item) ==> MirrorCount(r, item.id) == 0)
  {
    var r := SyncItem(ts, projectId, projectTitle, item, freshId);
    var k := FindMirror(ts, item.id);
    NoMirrorCount(ts, item.id);
    if !HasDeadline(item) {
      SyncWithoutDeadline(ts, projectId, projectTitle, item, freshId);
    } else if k.Some? {
      CountUpdate(ts, k.value, MirrorTask(projectId, projectTitle, item, ts[k.value].id), MirrorOf(item.id));
    } else {
      var m := MirrorTask(projectId, projectTitle, item, freshId);
      assert r == [m] + ts && r[1..] == ts;
    }
  }

  /** Syncing keeps "at most one task per project item". */
  lemma SyncPreservesUnique(ts: seq<Task>, projectId: string, projectTitle: string,
                            item: ProjectItem, freshId: string)
    requires MirrorsUnique(ts)
    ensures MirrorsUnique(SyncItem(ts, projectId, projectTitle, item, freshId))
  {
    forall other
      ensures MirrorCount(SyncItem(ts, projectId, projectTitle, item, freshId), other) <= 1
    {
      if other != item.id {
        SyncOtherMirrorCount(ts, projectId, projectTitle, item, freshId, other);
      } else {
        SyncOwnMirrorCount(ts, projectId, projectTitle, item, freshId);
      }
    }
  }

  /** Whether a sync's outcome for an item depends only on that item's mirrors. */
  lemma SyncedDependsOnMirrors(ts: seq<Task>, us: seq<Task>, projectId: string, projectTitle: string,
                               item: ProjectItem)
    requires Filter(ts, MirrorOf(item.id)) == Filter(us, MirrorOf(item.id))
    ensures Synced(ts, projectId, projectTitle, item) == Synced(us, projectId, projectTitle, item)
  {
  }

  // ---------------------------------------------------------------------
  // Syncing every item of a project (the `forEach` of handleUpdateProject)

  /** Syncing `items` in order; the i-th sync may use the fresh id `MintId(n0 + i)`. */
  function SyncAll(ts: seq<Task>, projectId: string, projectTitle: string,
                   items: seq<ProjectItem>, n0: nat): (r: seq<Task>)
    ensures |r| <= |ts| + |items|
    decreases |items|
  {
    if items == [] then ts
    else
      var last := |items| - 1;
      SyncItem(SyncAll(ts, projectId, projectTitle, items[..last], n0),
               projectId, projectTitle, items[last], MintId(n0 + last))
  }

  /** When the items have distinct ids, after syncing them all every item is
      reflected by the tasks. */
  lemma {:induction false} SyncAllEstablishes(ts: seq<Task>, projectId: string, projectTitle: string,
                                              items: seq<ProjectItem>, n0: nat)
    requires forall i, j :: 0 <= i < j < |items| ==> items[i].id != items[j].id
    ensures forall i :: 0 <= i < |items| ==>
      Synced(SyncAll(ts, projectId, projectTitle, items, n0), projectId, projectTitle, items[i])
  {
    if items != [] {
      var last := |items| - 1;
      var prev := SyncAll(ts, projectId, projectTitle, items[..last], n0);
      SyncAllEstablishes(ts, projectId, projectTitle, items[..last], n0);
      SyncEstablishes(prev, projectId, projectTitle, items[last], MintId(n0 + last));
      forall i | 0 <= i < last
        ensures Synced(SyncAll(ts, projectId, projectTitle, items, n0), projectId, projectTitle, items[i])
      {
        assert items[..last][i] == items[i];
        SyncKeepsUnrelated(prev, projectId, projectTitle, items[last], MintId(n0 + last), MirrorOf(items[i].id));
        SyncedDependsOnMirrors(prev, SyncAll(ts, projectId, projectTitle, items, n0),
                               projectId, projectTitle, items[i]);
      }
    }
  }

  lemma {:induction false} SyncAllPreservesUnique(ts: seq<Task>, projectId: string, projectTitle: string,
                                                  items: seq<ProjectItem>, n0: nat)
    requires MirrorsUnique(ts)
    ensures MirrorsUnique(SyncAll(ts, projectId, projectTitle, items, n0))
  {
    if items != [] {
      var last := |items| - 1;
      SyncAllPreservesUnique(ts, projectId, projectTitle, items[..last], n0);
      SyncPreservesUnique(SyncAll(ts, projectId, projectTitle, items[..last], n0),
                          projectId, projectTitle, items[last], MintId(n0 + last));
    }
  }

  /** Tasks that mirror none of the items are untouched, in order. */
  lemma {:induction false} SyncAllKeepsUnrelated(ts: seq<Task>, projectId: string, projectTitle: string,
                                                 items: seq<ProjectItem>, n0: nat, q: Task -> bool)
    requires forall t, i :: 0 <= i < |items| && q(t) ==> !IsMirrorOf(t, items[i].id)
    ensures Filter(SyncAll(ts, projectId, projectTitle, items, n0), q) == Filter(ts, q)
  {
    if items != [] {
      var last := |items| - 1;
      SyncAllKeepsUnrelated(ts, projectId, projectTitle, items[..last], n0, q);
      SyncKeepsUnrelated(SyncAll(ts, projectId, projectTitle, items[..last], n0),
                         projectId, projectTitle, items[last], MintId(n0 + last), q);
    }
  }

  // ---------------------------------------------------------------------
  // Archival of a finished project

  const ArchivePrefix: string := "[Archived Project] "

  function ItemDone(i: ProjectItem): bool {
    i.completed
  }

  /** `total > 0 && total === completed`. */
  predicate IsFinished(items: seq<ProjectItem>) {
    |items| > 0 && Count(items, ItemDone) == |items|
  }

  /** Finished means: at least one item, and every item completed. */
  lemma FinishedIffAllDone(items: seq<ProjectItem>)
    ensures IsFinished(items) <==> |items| > 0 && forall i :: 0 <= i < |items| ==> items[i].completed
  {
    CountAll(items, ItemDone);
  }

  /** The task that records a finished project. */
  function ArchiveTask(p: Project, id: string, today: string): (t: Task)
    ensures t.projectItemId.None?
  {
    Task(id, ArchivePrefix + p.title, true, Archives, today, None,
         Some(p.description), Some(p.id), None, Some(p.items), None)
  }

  function IdIsNot(id: string): Project -> bool {
    (p: Project) => p.id != id
  }

  /** `prev.filter(p => p.id !== id)`. */
  function RemoveProject(ps: seq<Project>, id: string): (r: seq<Project>)
    ensures forall q :: q in r <==> q in ps && q.id != id
  {
    Filter(ps, IdIsNot(id))
  }

  /** `checkAndArchiveProject`: the new state and whether the project was archived. */
  function CheckAndArchive(s: AppState, p: Project, today: string): (r: (AppState, bool))
    ensures r.1 <==> IsFinished(p.items)
    ensures !r.1 ==> r.0 == s
    ensures r.1 ==> |r.0.tasks| == |s.tasks| + 1 && r.0.tasks[1..] == s.tasks && r.0.nextId == s.nextId + 1
  {
    var total := |p.items|;
    if total == 0 then (s, false)
    else
      var completed := Count(p.items, ItemDone);
      if total > 0 && total == completed then
        (AppState([ArchiveTask(p, MintId(s.nextId), today)] + s.tasks,
                  RemoveProject(s.projects, p.id), s.nextId + 1), true)
      else (s, false)
  }

  /** A project is archived exactly when it is finished; otherwise nothing changes. */
  lemma ArchiveIffFinished(s: AppState, p: Project, today: string)
    ensures CheckAndArchive(s, p, today).1 <==>
      |p.items| > 0 && forall i :: 0 <= i < |p.items| ==> p.items[i].completed
    ensures !CheckAndArchive(s, p, today).1 ==> CheckAndArchive(s, p, today).0 == s
  {
    FinishedIffAllDone(p.items);
  }

  /** Archiving puts one archive task in front of the untouched tasks and
      removes exactly the project with that id. */
  lemma ArchiveEffect(s: AppState, p: Project, today: string)
    requires CheckAndArchive(s, p, today).1
    ensures var r := CheckAndArchive(s, p, today).0;
      |r.tasks| == |s.tasks| + 1 && r.tasks[1..] == s.tasks
      && r.tasks[0].title == ArchivePrefix + p.title
      && r.tasks[0].category == Archives && r.tasks[0].completed
      && r.tasks[0].date == today
      && r.tasks[0].notes == Some(p.description)
      && r.tasks[0].archivedItems == Some(p.items)
      && r.tasks[0].projectId == Some(p.id)
      && (forall q :: q in r.projects <==> q in s.projects && q.id != p.id)
  {
  }

  // ---------------------------------------------------------------------
  // Replacing projects and items by id

  /** `prev.map(p => p.id === updated.id ? updated : p)`. */
  function ReplaceProject(ps: seq<Project>, updated: Project): (r: seq<Project>)
    ensures |r| == |ps| && forall i :: 0 <= i < |r| ==> r[i].id == ps[i].id
    ensures forall i :: 0 <= i < |r| && ps[i].id != updated.id ==> r[i] == ps[i]
    ensures forall i :: 0 <= i < |r| && ps[i].id == updated.id ==> r[i] == updated
  {
    seq(|ps|, i requires 0 <= i < |ps| => if ps[i].id == updated.id then updated else ps[i])
  }

  /** `items.map(i => i.id === item.id ? item : i)`. */
  function ReplaceItem(items: seq<ProjectItem>, item: ProjectItem): (r: seq<ProjectItem>)
    ensures |r| == |items| && forall i :: 0 <= i < |r| ==> r[i].id == items[i].id
    ensures forall i :: 0 <= i < |r| && items[i].id != item.id ==> r[i] == items[i]
    ensures forall i :: 0 <= i < |r| && items[i].id == item.id ==> r[i] == item
  {
    seq(|items|, i requires 0 <= i < |items| => if items[i].id == item.id then item else items[i])
  }

  /** `prev.find(p => p.id === id)`: the first project with that id. */
  function FindProject(ps: seq<Project>, id: string): (r: Option<Project>)
    ensures r.Some? ==> r.value in ps && r.value.id == id
    ensures r.Some? ==> exists i :: 0 <= i < |ps| && ps[i] == r.value && forall j :: 0 <= j < i ==> ps[j].id != id
    ensures r.None? <==> forall i :: 0 <= i < |ps| ==> ps[i].id != id
  {
    if ps == [] then None
    else if ps[0].id == id then Some(ps[0])
    else FindProject(ps[1..], id)
  }

  // ---------------------------------------------------------------------
  // handleUpdateProject

  /** Archive a finished project; otherwise store it and sync every item. */
  function UpdateProject(s: AppState, p: Project, today: string): (r: AppState)
    ensures IsFinished(p.items) ==> |r.tasks| == |s.tasks| + 1 && r.tasks[1..] == s.tasks && r.nextId == s.nextId + 1
    ensures !IsFinished(p.items) ==> |r.projects| == |s.projects| && r.nextId == s.nextId + |p.items|
  {
    var (archivedState, archived) := CheckAndArchive(s, p, today);
    if archived then archivedState
    else AppState(SyncAll(s.tasks, p.id, p.title, p.items, s.nextId),
                  ReplaceProject(s.projects, p), s.nextId + |p.items|)
  }

  /** A finished project is archived and removed; nothing is synced. */
  lemma UpdateProjectArchives(s: AppState, p: Project, today: string)
    requires IsFinished(p.items)
    ensures var r := UpdateProject(s, p, today);
      r.tasks[1..] == s.tasks && r.tasks[0].title == ArchivePrefix + p.title
      && r.tasks[0].archivedItems == Some(p.items)
      && (forall q :: q in r.projects <==> q in s.projects && q.id != p.id)
  {
    ArchiveIffFinished(s, p, today);
    ArchiveEffect(s, p, today);
  }

  /** An unfinished project replaces its old version in place and, when its
      items have distinct ids, every item is reflected by the tasks. */
  lemma UpdateProjectSyncs(s: AppState, p: Project, today: string)
    requires !IsFinished(p.items)
    requires forall i, j :: 0 <= i < j < |p.items| ==> p.items[i].id != p.items[j].id
    ensures var r := UpdateProject(s, p, today);
      r.projects == ReplaceProject(s.projects, p)
      && forall i :: 0 <= i < |p.items| ==> Synced(r.tasks, p.id, p.title, p.items[i])
  {
    ArchiveIffFinished(s, p, today);
    SyncAllEstablishes(s.tasks, p.id, p.title, p.items, s.nextId);
  }

  // ---------------------------------------------------------------------
  // handleUpdateProjectItem

  /** Put the edited item into its project. A project that becomes finished is
      removed and archived in the same step (the app defers the archive
      with `setTimeout`); the edited item's mirror is then not synced. */
  function UpdateProjectItem(s: AppState, projectId: string, item: ProjectItem, today: string): (r: AppState)
    ensures FindProject(s.projects, projectId).None? ==> r == s
    ensures FindProject(s.projects, projectId).Some? ==> r.nextId == s.nextId + 1
  {
    match FindProject(s.projects, projectId)
    case None => s
    case Some(proj) =>
      var updated := proj.(items := ReplaceItem(proj.items, item));
      var total := |updated.items|;
      var completed := Count(updated.items, ItemDone);
      if total > 0 && total == completed then
        CheckAndArchive(s.(projects := RemoveProject(s.projects, projectId)), updated, today).0
      else
        AppState(SyncItem(s.tasks, projectId, proj.title, item, MintId(s.nextId)),
                 ReplaceProject(s.projects, updated), s.nextId + 1)
  }

  /** An unknown project id changes nothing. */
  lemma UpdateItemUnknownProject(s: AppState, projectId: string, item: ProjectItem, today: string)
    requires forall i :: 0 <= i < |s.projects| ==> s.projects[i].id != projectId
    ensures UpdateProjectItem(s, projectId, item, today) == s
  {
  }

  /** The edit that finishes a project removes it and puts one archive task,
      holding the updated items, in front of the tasks, which are otherwise
      untouched: in particular the item's mirror is not re-synced. */
  lemma UpdateItemArchives(s: AppState, projectId: string, item: ProjectItem, today: string, proj: Project)
    requires FindProject(s.projects, projectId) == Some(proj)
    requires IsFinished(ReplaceItem(proj.items, item))
    ensures var r := UpdateProjectItem(s, projectId, item, today);
      r.tasks == [ArchiveTask(proj.(items := ReplaceItem(proj.items, item)), MintId(s.nextId), today)] + s.tasks
      && (forall q :: q in r.projects <==> q in s.projects && q.id != projectId)
      && Filter(r.tasks, MirrorOf(item.id)) == Filter(s.tasks, MirrorOf(item.id))
  {
    var updated := proj.(items := ReplaceItem(proj.items, item));
    var a := ArchiveTask(updated, MintId(s.nextId), today);
    var r := UpdateProjectItem(s, projectId, item, today);
    assert r.tasks == [a] + s.tasks;
    assert r.tasks[1..] == s.tasks;
  }

  /** Any other edit replaces the project in place with the item swapped in,
      and the item's mirror reflects it. */
  lemma UpdateItemSyncs(s: AppState, projectId: string, item: ProjectItem, today: string, proj: Project)
    requires FindProject(s.projects, projectId) == Some(proj)
    requires !IsFinished(ReplaceItem(proj.items, item))
    ensures var r := UpdateProjectItem(s, projectId, item, today);
      r.projects == ReplaceProject(s.projects, proj.(items := ReplaceItem(proj.items, item)))
      && Synced(r.tasks, projectId, proj.title, item)
  {
    SyncEstablishes(s.tasks, projectId, proj.title, item, MintId(s.nextId));
  }

  /** The one-item project "Launch" whose dated item "Draft" is ticked off:
      the project is archived and removed, but the mirror of "Draft" keeps
      showing the item as open. */
  lemma FinishingEditLeavesMirrorStale()
    ensures var draft := ProjectItem("d", "Draft", false, Some("2024-06-01"));
      var launch := Project("p", "Launch", "", InProgress, Mid, "", [draft], None);
      var mirror := MirrorTask("p", "Launch", draft, "m");
      var r := UpdateProjectItem(AppState([mirror], [launch], 0), "p", draft.(completed := true), "2024-05-30");
      r.projects == [] && |r.tasks| == 2 && r.tasks[0].category == Archives
      && r.tasks[1] == mirror && !r.tasks[1].completed
      && !Synced(r.tasks, "p", "Launch", draft.(completed := true))
  {
    var draft := ProjectItem("d", "Draft", false, Some("2024-06-01"));
    var done := draft.(completed := true);
    var launch := Project("p", "Launch", "", InProgress, Mid, "", [draft], None);
    var mirror := MirrorTask("p", "Launch", draft, "m");
    var s := AppState([mirror], [launch], 0);
    assert ReplaceItem(launch.items, done) == [done];
    assert IsFinished([done]);
    UpdateItemArchives(s, "p", done, "2024-05-30", launch);
    var r := UpdateProjectItem(s, "p", done, "2024-05-30");
    assert Filter(s.tasks, MirrorOf("d")) == [mirror];
    assert r.projects == [] by {
      assert Filter([launch], IdIsNot("p")) == [];
    }
  }

  // ---------------------------------------------------------------------
  // handleAddProjectItem

  function IdIs(id: string): Project -> bool {
    (p: Project) => p.id == id
  }

  /** Runs the sync once per project with the id, in list order; the k-th
      such sync may use the fresh id `MintId(n0 + k)`. */
  function SyncMatches(ts: seq<Task>, ps: seq<Project>, projectId: string, item: ProjectItem,
                       n0: nat): (r: seq<Task>)
    ensures |r| <= |ts| + |ps|
    decreases |ps|
  {
    if ps == [] then ts
    else
      var last := |ps| - 1;
      var prev := SyncMatches(ts, ps[..last], projectId, item, n0);
      if ps[last].id == projectId then
        SyncItem(prev, projectId, ps[last].title, item, MintId(n0 + Count(ps[..last], IdIs(projectId))))
      else prev
  }

  /** One more project of the list processed. */
  lemma SyncMatchesStep(ts: seq<Task>, ps: seq<Project>, projectId: string, item: ProjectItem,
                        n0: nat, i: nat)
    requires i < |ps|
    ensures Count(ps[..i + 1], IdIs(projectId)) == Count(ps[..i], IdIs(projectId)) + (if ps[i].id == projectId then 1 else 0)
    ensures SyncMatches(ts, ps[..i + 1], projectId, item, n0)
         == if ps[i].id == projectId
            then SyncItem(SyncMatches(ts, ps[..i], projectId, item, n0), projectId, ps[i].title, item,
                          MintId(n0 + Count(ps[..i], IdIs(projectId))))
            else SyncMatches(ts, ps[..i], projectId, item, n0)
  {
    assert ps[..i + 1][..i] == ps[..i];
    assert ps[..i + 1] == ps[..i] + [ps[i]];
    CountConcat(ps[..i], [ps[i]], IdIs(projectId));
  }

  /** One more project of the list searched. */
  lemma FindProjectStep(ps: seq<Project>, projectId: string, i: nat)
    requires i < |ps|
    ensures FindProject(ps[..i + 1], projectId).Some?
        <==> FindProject(ps[..i], projectId).Some? || ps[i].id == projectId
  {
    assert forall j :: 0 <= j < i ==> ps[..i + 1][j] == ps[..i][j];
    assert ps[..i + 1][i] == ps[i];
  }

  /** Append the item to every project with the id. */
  function AppendItem(ps: seq<Project>, projectId: string, item: ProjectItem): (r: seq<Project>)
    ensures |r| == |ps| && forall i :: 0 <= i < |r| ==> r[i].id == ps[i].id
  {
    seq(|ps|, i requires 0 <= i < |ps| =>
      if ps[i].id == projectId then ps[i].(items := ps[i].items + [item]) else ps[i])
  }

  function AddProjectItem(s: AppState, projectId: string, item: ProjectItem): (r: AppState)
    ensures |r.projects| == |s.projects| && forall i :: 0 <= i < |r.projects| ==> r.projects[i].id == s.projects[i].id
    ensures s.nextId <= r.nextId <= s.nextId + |s.projects|
  {
    AppState(SyncMatches(s.tasks, s.projects, projectId, item, s.nextId),
             AppendItem(s.projects, projectId, item),
             s.nextId + Count(s.projects, IdIs(projectId)))
  }

  /** The item becomes the last item of the matching project; every other
      project and every other item is unchanged. */
  lemma AddItemAppends(s: AppState, projectId: string, item: ProjectItem)
    ensures var r := AddProjectItem(s, projectId, item);
      forall i :: 0 <= i < |s.projects| ==>
        var old_, new_ := s.projects[i], r.projects[i];
        if old_.id == projectId then
          |new_.items| == |old_.items| + 1 && new_.items[|old_.items|] == item
          && new_.items[..|old_.items|] == old_.items && new_.(items := old_.items) == old_
        else new_ == old_
  {
    var r := AddProjectItem(s, projectId, item);
    forall i | 0 <= i < |s.projects| && s.projects[i].id == projectId
      ensures r.projects[i].items[..|s.projects[i].items|] == s.projects[i].items
    {
      var its := s.projects[i].items;
      assert (its + [item])[..|its|] == its;
    }
  }

  /** Syncing per match stops at the last project with the id: that project's
      title is the one its mirror shows. */
  lemma {:induction false} SyncMatchesEstablishes(ts: seq<Task>, ps: seq<Project>, projectId: string,
                                                  item: ProjectItem, n0: nat, j: nat)
    requires j < |ps| && ps[j].id == projectId
    requires forall i :: j < i < |ps| ==> ps[i].id != projectId
    ensures Synced(SyncMatches(ts, ps, projectId, item, n0), projectId, ps[j].title, item)
  {
    var last := |ps| - 1;
    var prev := SyncMatches(ts, ps[..last], projectId, item, n0);
    if j == last {
      SyncEstablishes(prev, projectId, ps[last].title, item,
                      MintId(n0 + Count(ps[..last], IdIs(projectId))));
    } else {
      SyncMatchesEstablishes(ts, ps[..last], projectId, item, n0, j);
    }
  }

  /** With no project of that id nothing syncs. */
  lemma {:induction false} SyncMatchesNone(ts: seq<Task>, ps: seq<Project>, projectId: string,
                                           item: ProjectItem, n0: nat)
    requires forall i :: 0 <= i < |ps| ==> ps[i].id != projectId
    ensures SyncMatches(ts, ps, projectId, item, n0) == ts
  {
    if ps != [] {
      SyncMatchesNone(ts, ps[..|ps| - 1], projectId, item, n0);
    }
  }

  /** Adding to the project with the id mirrors the item under its title. */
  lemma AddItemSyncs(s: AppState, projectId: string, item: ProjectItem, j: nat)
    requires j < |s.projects| && s.projects[j].id == projectId
    requires forall i :: 0 <= i < |s.projects| && i != j ==> s.projects[i].id != projectId
    ensures Synced(AddProjectItem(s, projectId, item).tasks, projectId, s.projects[j].title, item)
  {
    SyncMatchesEstablishes(s.tasks, s.projects, projectId, item, s.nextId, j);
  }

  /** Adding to an unknown project changes nothing. */
  lemma AddItemUnknownProject(s: AppState, projectId: string, item: ProjectItem)
    requires forall i :: 0 <= i < |s.projects| ==> s.projects[i].id != projectId
    ensures AddProjectItem(s, projectId, item) == s
  {
    SyncMatchesNone(s.tasks, s.projects, projectId, item, s.nextId);
    CountNone(s.projects, IdIs(projectId));
    assert AppendItem(s.projects, projectId, item) == s.projects;
  }

  lemma {:induction false} SyncMatchesPreservesUnique(ts: seq<Task>, ps: seq<Project>, projectId: string,
                                                      item: ProjectItem, n0: nat)
    requires MirrorsUnique(ts)
    ensures MirrorsUnique(SyncMatches(ts, ps, projectId, item, n0))
  {
    if ps != [] {
      var last := |ps| - 1;
      SyncMatchesPreservesUnique(ts, ps[..last], projectId, item, n0);
      if ps[last].id == projectId {
        SyncPreservesUnique(SyncMatches(ts, ps[..last], projectId, item, n0), projectId, ps[last].title,
                            item, MintId(n0 + Count(ps[..last], IdIs(projectId))));
      }
    }
  }

  // ---------------------------------------------------------------------
  // handleRemoveProjectItem

  function ItemIdIsNot(itemId: string): ProjectItem -> bool {
    (i: ProjectItem) => i.id != itemId
  }

  /** Drop the item from every project with the id. */
  function DropItem(ps: seq<Project>, projectId: string, itemId: string): (r: seq<Project>)
    ensures |r| == |ps| && forall i :: 0 <= i < |r| ==> r[i].id == ps[i].id
  {
    seq(|ps|, i requires 0 <= i < |ps| =>
      if ps[i].id == projectId then ps[i].(items := Filter(ps[i].items, ItemIdIsNot(itemId))) else ps[i])
  }

  function RemoveProjectItem(s: AppState, projectId: string, itemId: string): (r: AppState)
    ensures r.nextId == s.nextId && |r.projects| == |s.projects| && |r.tasks| <= |s.tasks|
    ensures FindProject(s.projects, projectId).None? ==> r.tasks == s.tasks
    ensures FindProject(s.projects, projectId).Some? ==> forall t :: t in r.tasks ==> !IsMirrorOf(t, itemId)
  {
    var tasks := if FindProject(s.projects, projectId).Some?
                 then Filter(s.tasks, NotMirrorOf(itemId)) else s.tasks;
    AppState(tasks, DropItem(s.projects, projectId, itemId), s.nextId)
  }

  /** Removing an item of a known project drops exactly the item's mirrors and,
      from the project, exactly the items with that id. */
  lemma RemoveItemEffect(s: AppState, projectId: string, itemId: string)
    requires exists i :: 0 <= i < |s.projects| && s.projects[i].id == projectId
    ensures var r := RemoveProjectItem(s, projectId, itemId);
      (forall t :: t in r.tasks <==> t in s.tasks && !IsMirrorOf(t, itemId))
      && MirrorCount(r.tasks, itemId) == 0
      && forall i :: 0 <= i < |s.projects| && s.projects[i].id == projectId ==>
           forall x :: x in r.projects[i].items <==> x in s.projects[i].items && x.id != itemId
  {
    CountOfFilterExcluding(s.tasks, NotMirrorOf(itemId), MirrorOf(itemId));
  }

  /** Removing from an unknown project changes nothing. */
  lemma RemoveItemUnknownProject(s: AppState, projectId: string, itemId: string)
    requires forall i :: 0 <= i < |s.projects| ==> s.projects[i].id != projectId
    ensures RemoveProjectItem(s, projectId, itemId) == s
  {
    assert DropItem(s.projects, projectId, itemId) == s.projects;
  }

  /** Removing the last open item leaves a finished project in the list: no
      archival is attempted on this path. */
  lemma RemoveItemLeavesFinishedProject()
    ensures var done := ProjectItem("a", "A", true, None);
      var open := ProjectItem("b", "B", false, None);
      var p := Project("p", "P", "", InProgress, Mid, "", [done, open], None);
      var r := RemoveProjectItem(AppState([], [p], 0), "p", "b");
      |r.projects| == 1 && r.projects[0].items == [done] && IsFinished(r.projects[0].items)
  {
    var done := ProjectItem("a", "A", true, None);
    var open := ProjectItem("b", "B", false, None);
    assert Filter([done, open], ItemIdIsNot("b")) == [done] by {
      assert [done, open][1..] == [open];
    }
  }

  // ---------------------------------------------------------------------
  // handleDeleteProject

  function NotInProject(projectId: string): Task -> bool {
    (t: Task) => t.projectId != Some(projectId)
  }

  /** Delete the project and, in cascade, every task linked to it. */
  function DeleteProject(s: AppState, projectId: string): (r: AppState)
    ensures forall t :: t in r.tasks <==> t in s.tasks && t.projectId != Some(projectId)
    ensures forall q :: q in r.projects <==> q in s.projects && q.id != projectId
  {
    AppState(Filter(s.tasks, NotInProject(projectId)), RemoveProject(s.projects, projectId), s.nextId)
  }

  /** The remaining tasks keep their order; deleting twice is deleting once. */
  lemma DeleteProjectIdempotent(s: AppState, projectId: string)
    ensures DeleteProject(DeleteProject(s, projectId), projectId) == DeleteProject(s, projectId)
  {
    FilterIdempotent(s.tasks, NotInProject(projectId));
    FilterIdempotent(s.projects, IdIsNot(projectId));
  }

  lemma DeleteProjectPreservesUnique(s: AppState, projectId: string)
    requires MirrorsUnique(s.tasks)
    ensures MirrorsUnique(DeleteProject(s, projectId).tasks)
  {
    forall itemId ensures MirrorCount(DeleteProject(s, projectId).tasks, itemId) <= 1 {
      assert MirrorCount(s.tasks, itemId) <= 1;
      CountOfFilter(s.tasks, NotInProject(projectId), MirrorOf(itemId));
    }
  }

  // ---------------------------------------------------------------------
  // addNewTask

  /** The description of a project created from the daily list
      ("auto-created from Daily Projects."). */
  const AutoDescription: string :=
    "Daily Projects\U{C5D0}\U{C11C} \U{C790}\U{B3D9} \U{C0DD}\U{C131}\U{B428}."

  /** Some project's title matches case-insensitively. */
  predicate TitleTaken(ps: seq<Project>, title: string)
    ensures TitleTaken(ps, title) ==> ps != []
  {
    exists i :: 0 <= i < |ps| && ToLower(ps[i].title) == ToLower(title)
  }

  /** Whether a title is taken does not depend on its case. */
  lemma TitleTakenIgnoresCase(ps: seq<Project>, title: string)
    ensures TitleTaken(ps, title) == TitleTaken(ps, ToLower(title))
  {
    LowerIdempotent(title);
  }

  /** `metadata?.slug || title.toLowerCase().replace(/\s+/g, '-')`. */
  function ShellSlug(title: string, metadata: Option<LinkMetadata>): (slug: string)
    ensures metadata.Some? && Present(metadata.value.slug) ==> slug == metadata.value.slug.value
    ensures !(metadata.Some? && Present(metadata.value.slug)) ==> NoWhitespace(slug) && |slug| <= |title|
  {
    if metadata.Some? && Present(metadata.value.slug) then metadata.value.slug.value
    else HyphenateWhitespace(ToLower(title))
  }

  /** Without a service slug, a two-word title becomes the two lower-cased
      words joined by a single '-', however long the whitespace between them. */
  lemma ShellSlugTwoWords(x: string, w: string, y: string, metadata: Option<LinkMetadata>)
    requires !(metadata.Some? && Present(metadata.value.slug))
    requires NoWhitespace(x) && NoWhitespace(y) && w != [] && IsBlank(w)
    ensures ShellSlug(x + w + y, metadata) == ToLower(x) + "-" + ToLower(y)
  {
    HyphenateTwoWords(x, w, y);
  }

  function ShellProject(id: string, title: string, metadata: Option<LinkMetadata>): (p: Project)
    ensures p.id == id && p.title == title && p.items == [] && !IsFinished(p.items)
    ensures p.status == InProgress && p.slug == Some(ShellSlug(title, metadata))
  {
    Project(id, title, AutoDescription, InProgress, Mid, "", [], Some(ShellSlug(title, metadata)))
  }

  function AddNewTask(s: AppState, title: string, category: ParaCategory, date: string,
                      metadata: Option<LinkMetadata>): (r: AppState)
    ensures |r.tasks| == |s.tasks| + 1 && r.tasks[0].title == title && !r.tasks[0].completed
    ensures |s.projects| <= |r.projects| <= |s.projects| + 1
  {
    var t := Task(MintId(s.nextId), title, false, category, date, None, None, None, None, None, metadata);
    if category == Projects && !TitleTaken(s.projects, title) then
      AppState([t] + s.tasks, [ShellProject(MintId(s.nextId + 1), title, metadata)] + s.projects, s.nextId + 2)
    else
      AppState([t] + s.tasks, s.projects, s.nextId + 1)
  }

  /** One incomplete task is always put in front of the untouched tasks. */
  lemma AddNewTaskPrepends(s: AppState, title: string, category: ParaCategory, date: string,
                           metadata: Option<LinkMetadata>)
    ensures var r := AddNewTask(s, title, category, date, metadata);
      |r.tasks| == |s.tasks| + 1 && r.tasks[1..] == s.tasks
      && r.tasks[0].title == title && !r.tasks[0].completed && r.tasks[0].category == category
      && r.tasks[0].date == date && r.tasks[0].linkMetadata == metadata
      && r.tasks[0].projectId.None? && r.tasks[0].projectItemId.None?
  {
    var r := AddNewTask(s, title, category, date, metadata);
    assert r.tasks[1..] == s.tasks;
  }

  /** A shell project is put in front exactly for a Projects task whose title
      no project has yet, ignoring case; otherwise the projects are unchanged. */
  lemma AddNewTaskShell(s: AppState, title: string, category: ParaCategory, date: string,
                        metadata: Option<LinkMetadata>)
    ensures var r := AddNewTask(s, title, category, date, metadata);
      if category == Projects && !TitleTaken(s.projects, title) then
        |r.projects| == |s.projects| + 1 && r.projects[1..] == s.projects
        && var p := r.projects[0];
        p.title == title && p.status == InProgress && p.term == Mid && p.deadline == ""
        && p.items == [] && p.slug == Some(ShellSlug(title, metadata))
      else r.projects == s.projects
  {
    var r := AddNewTask(s, title, category, date, metadata);
    if category == Projects && !TitleTaken(s.projects, title) {
      assert r.projects[1..] == s.projects;
    }
  }

  /** After adding a Projects task, some project carries its title. */
  lemma AddNewTaskTitleTaken(s: AppState, title: string, date: string, metadata: Option<LinkMetadata>)
    ensures TitleTaken(AddNewTask(s, title, Projects, date, metadata).projects, title)
  {
    var r := AddNewTask(s, title, Projects, date, metadata);
    if !TitleTaken(s.projects, title) {
      assert ToLower(r.projects[0].title) == ToLower(title);
    }
  }

  /** Adding the same Projects title twice creates at most one project. */
  lemma AddNewTaskTwice(s: AppState, title: string, date: string, metadata: Option<LinkMetadata>,
                        date2: string, metadata2: Option<LinkMetadata>)
    ensures var r := AddNewTask(AddNewTask(s, title, Projects, date, metadata), title, Projects, date2, metadata2);
      |r.projects| <= |s.projects| + 1
  {
    AddNewTaskTitleTaken(s, title, date, metadata);
  }

  /** A daily task "Launch" does not create a second project next to "launch". */
  lemma AddNewTaskIgnoresCase(tasks: seq<Task>, existing: Project, nextId: nat, date: string)
    requires existing.title == "launch"
    ensures AddNewTask(AppState(tasks, [existing], nextId), "Launch", Projects, date, None).projects == [existing]
  {
    assert ToLower("Launch") == "launch" && ToLower("launch") == "launch" by {
      assert forall i :: 0 <= i < 6 ==> ToLower("Launch")[i] == "launch"[i];
      assert forall i :: 0 <= i < 6 ==> ToLower("launch")[i] == "launch"[i];
    }
    assert TitleTaken([existing], "Launch") by {
      assert ToLower([existing][0].title) == ToLower("Launch");
    }
  }

  // ---------------------------------------------------------------------
  // updateTaskDate and pinnedLinks

  /** `prev.map(t => t.id === taskId ? { ...t, date: newDate } : t)`. */
  function UpdateTaskDate(ts: seq<Task>, taskId: string, newDate: string): (r: seq<Task>)
    ensures |r| == |ts|
  {
    seq(|ts|, i requires 0 <= i < |ts| => if ts[i].id == taskId then ts[i].(date := newDate) else ts[i])
  }

  /** Only the date of the tasks with that id changes. */
  lemma UpdateTaskDateOnly(ts: seq<Task>, taskId: string, newDate: string)
    ensures var r := UpdateTaskDate(ts, taskId, newDate);
      forall i :: 0 <= i < |ts| ==>
        r[i].(date := ts[i].date) == ts[i] && (ts[i].id == taskId <==> r[i].id == taskId)
        && (ts[i].id == taskId ==> r[i].date == newDate)
        && (ts[i].id != taskId ==> r[i] == ts[i])
  {
  }

  lemma UpdateTaskDatePreservesUnique(ts: seq<Task>, taskId: string, newDate: string)
    requires MirrorsUnique(ts)
    ensures MirrorsUnique(UpdateTaskDate(ts, taskId, newDate))
  {
    forall itemId ensures MirrorCount(UpdateTaskDate(ts, taskId, newDate), itemId) <= 1 {
      assert MirrorCount(ts, itemId) <= 1;
      CountPointwise(UpdateTaskDate(ts, taskId, newDate), ts, MirrorOf(itemId));
    }
  }

  predicate IsPinned(t: Task) {
    t.linkMetadata.Some? && t.linkMetadata.value.isPinned == Some(true)
  }

  /** `tasks.filter(t => t.linkMetadata?.isPinned)`. */
  function PinnedLinks(ts: seq<Task>): (r: seq<Task>)
    ensures forall t :: t in r <==> t in ts && IsPinned(t)
  {
    Filter(ts, IsPinned)
  }

  // ---------------------------------------------------------------------
  // The store invariant across all transitions

  lemma ArchivePreservesUnique(s: AppState, p: Project, today: string)
    requires MirrorsUnique(s.tasks)
    ensures MirrorsUnique(CheckAndArchive(s, p, today).0.tasks)
  {
    var r := CheckAndArchive(s, p, today).0;
    if CheckAndArchive(s, p, today).1 {
      forall itemId ensures MirrorCount(r.tasks, itemId) <= 1 {
        assert MirrorCount(s.tasks, itemId) <= 1;
        assert r.tasks[1..] == s.tasks;
      }
    }
  }

  lemma UpdateProjectPreservesUnique(s: AppState, p: Project, today: string)
    requires MirrorsUnique(s.tasks)
    ensures MirrorsUnique(UpdateProject(s, p, today).tasks)
  {
    ArchivePreservesUnique(s, p, today);
    SyncAllPreservesUnique(s.tasks, p.id, p.title, p.items, s.nextId);
  }

  lemma UpdateItemPreservesUnique(s: AppState, projectId: string, item: ProjectItem, today: string)
    requires MirrorsUnique(s.tasks)
    ensures MirrorsUnique(UpdateProjectItem(s, projectId, item, today).tasks)
  {
    match FindProject(s.projects, projectId)
    case None =>
    case Some(proj) =>
      var updated := proj.(items := ReplaceItem(proj.items, item));
      ArchivePreservesUnique(s.(projects := RemoveProject(s.projects, projectId)), updated, today);
      SyncPreservesUnique(s.tasks, projectId, proj.title, item, MintId(s.nextId));
  }

  lemma AddItemPreservesUnique(s: AppState, projectId: string, item: ProjectItem)
    requires MirrorsUnique(s.tasks)
    ensures MirrorsUnique(AddProjectItem(s, projectId, item).tasks)
  {
    SyncMatchesPreservesUnique(s.tasks, s.projects, projectId, item, s.nextId);
  }

  lemma RemoveItemPreservesUnique(s: AppState, projectId: string, itemId: string)
    requires MirrorsUnique(s.tasks)
    ensures MirrorsUnique(RemoveProjectItem(s, projectId, itemId).tasks)
  {
    forall other ensures MirrorCount(RemoveProjectItem(s, projectId, itemId).tasks, other) <= 1 {
      assert MirrorCount(s.tasks, other) <= 1;
      CountOfFilter(s.tasks, NotMirrorOf(itemId), MirrorOf(other));
    }
  }

  lemma AddNewTaskPreservesUnique(s: AppState, title: string, category: ParaCategory, date: string,
                                  metadata: Option<LinkMetadata>)
    requires MirrorsUnique(s.tasks)
    ensures MirrorsUnique(AddNewTask(s, title, category, date, metadata).tasks)
  {
    var r := AddNewTask(s, title, category, date, metadata);
    forall itemId ensures MirrorCount(r.tasks, itemId) <= 1 {
      assert MirrorCount(s.tasks, itemId) <= 1;
      assert r.tasks[1..] == s.tasks;
    }
  }

  /** Imported calendar tasks link to no item, so putting them in front keeps
      the invariant. */
  lemma ImportPreservesUnique(ts: seq<Task>, imported: seq<Task>)
    requires MirrorsUnique(ts)
    requires forall i :: 0 <= i < |imported| ==> imported[i].projectItemId.None?
    ensures MirrorsUnique(imported + ts)
  {
    forall itemId ensures MirrorCount(imported + ts, itemId) <= 1 {
      assert MirrorCount(ts, itemId) <= 1;
      CountConcat(imported, ts, MirrorOf(itemId));
      CountNone(imported, MirrorOf(itemId));
    }
  }
}
