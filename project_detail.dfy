/** The project detail dialog: the item list in deadline order, the header
    editor, the model-assisted breakdown, the new-item form, and the per-item
    toggle and overdue marker. */
module ProjectDetail {
  import opened Strings
  import opened Seqs
  import opened Types
  import opened Engine
  import DateKeys
  import OverdueView
  import Gemini
  import opened App

  // sortedItems

  /** The comparator returns a negative number: both items have deadlines
      and a's is smaller, or only a has one. */
  predicate ItemBefore(a: ProjectItem, b: ProjectItem)
    ensures ItemBefore(a, b) ==> HasDeadline(a)
  {
    HasDeadline(a) && (!HasDeadline(b) || LexLess(a.deadline.value, b.deadline.value))
  }

  predicate ItemsSorted(s: seq<ProjectItem>) {
    forall i, j :: 0 <= i < j < |s| ==> !ItemBefore(s[j], s[i])
  }

  /** Put x in front of the first element that does not come before it. */
  function Insert(x: ProjectItem, s: seq<ProjectItem>): (r: seq<ProjectItem>)
    ensures multiset(r) == multiset([x]) + multiset(s)
  {
    if s == [] || !ItemBefore(s[0], x) then [x] + s
    else
      assert s == [s[0]] + s[1..];
      [s[0]] + Insert(x, s[1..])
  }

  /** `[...project.items].sort(comparator)`: a stable sort that leaves
      `project.items` itself as it was. */
  function SortedItems(items: seq<ProjectItem>): (r: seq<ProjectItem>)
    ensures multiset(r) == multiset(items)
  {
    if items == [] then []
    else
      assert items == [items[0]] + items[1..];
      Insert(items[0], SortedItems(items[1..]))
  }

  /** Not coming before is transitive: the comparator is a strict weak order. */
  lemma NotBeforeTransitive(a: ProjectItem, b: ProjectItem, c: ProjectItem)
    requires !ItemBefore(a, b) && !ItemBefore(b, c)
    ensures !ItemBefore(a, c)
  {
    if HasDeadline(a) && HasDeadline(b) && HasDeadline(c) {
      LexLessTrichotomy(a.deadline.value, b.deadline.value);
      LexLessTrichotomy(b.deadline.value, c.deadline.value);
      if LexLess(a.deadline.value, c.deadline.value) {
        if LexLess(b.deadline.value, a.deadline.value) {
          LexLessTransitive(b.deadline.value, a.deadline.value, c.deadline.value);
        }
      }
    }
  }

  lemma BeforeAsymmetric(a: ProjectItem, b: ProjectItem)
    ensures !(ItemBefore(a, b) && ItemBefore(b, a))
  {
    if HasDeadline(a) && HasDeadline(b) {
      LexLessTrichotomy(a.deadline.value, b.deadline.value);
    }
  }

  lemma {:induction false} InsertSorted(x: ProjectItem, s: seq<ProjectItem>)
    requires ItemsSorted(s)
    ensures ItemsSorted(Insert(x, s))
  {
    var r := Insert(x, s);
    if s == [] || !ItemBefore(s[0], x) {
      forall j | 1 <= j < |r|
        ensures !ItemBefore(r[j], x)
      {
        assert r[j] == s[j - 1];
        if j > 1 {
          assert !ItemBefore(s[j - 1], s[0]);
          NotBeforeTransitive(s[j - 1], s[0], x);
        }
      }
    } else {
      var rest := Insert(x, s[1..]);
      InsertSorted(x, s[1..]);
      forall j | 0 <= j < |rest|
        ensures !ItemBefore(rest[j], s[0])
      {
        assert rest[j] in multiset(rest);
        if rest[j] == x {
          BeforeAsymmetric(x, s[0]);
        } else {
          assert rest[j] in multiset(s[1..]);
          var k :| 0 <= k < |s[1..]| && s[1..][k] == rest[j];
          assert s[k + 1] == rest[j];
        }
      }
      assert forall j :: 1 <= j < |r| ==> r[j] == rest[j - 1];
    }
  }

  /** Deadlined items come first, in ascending deadline order. */
  lemma {:induction false} SortedItemsSorted(items: seq<ProjectItem>)
    ensures ItemsSorted(SortedItems(items))
  {
    if items != [] {
      SortedItemsSorted(items[1..]);
      InsertSorted(items[0], SortedItems(items[1..]));
    }
  }

  /** What sortedness means for the list on screen: no undated item stands
      before a dated one, and dated items appear by ascending deadline. */
  lemma SortedItemsOrder(items: seq<ProjectItem>)
    ensures var r := SortedItems(items);
      (forall i, j :: 0 <= i < j < |r| && HasDeadline(r[j]) ==> HasDeadline(r[i]))
      && (forall i, j :: 0 <= i < j < |r| && HasDeadline(r[i]) && HasDeadline(r[j])
            ==> !LexLess(r[j].deadline.value, r[i].deadline.value))
  {
    SortedItemsSorted(items);
  }

  function NoDeadline(i: ProjectItem): bool {
    !HasDeadline(i)
  }

  lemma {:induction false} InsertKeepsUndated(x: ProjectItem, s: seq<ProjectItem>)
    ensures Filter(Insert(x, s), NoDeadline) == Filter([x] + s, NoDeadline)
  {
    if !(s == [] || !ItemBefore(s[0], x)) {
      InsertKeepsUndated(x, s[1..]);
      assert ([s[0]] + Insert(x, s[1..]))[1..] == Insert(x, s[1..]);
      assert ([x] + s[1..])[1..] == s[1..];
      assert ([x] + s)[1..] == s;
    }
  }

  /** The sort is stable for the undated items: they keep their order. */
  lemma {:induction false} SortedItemsKeepUndatedOrder(items: seq<ProjectItem>)
    ensures Filter(SortedItems(items), NoDeadline) == Filter(items, NoDeadline)
  {
    if items != [] {
      SortedItemsKeepUndatedOrder(items[1..]);
      InsertKeepsUndated(items[0], SortedItems(items[1..]));
      assert ([items[0]] + SortedItems(items[1..]))[1..] == SortedItems(items[1..]);
      assert items == [items[0]] + items[1..];
    }
  }

  // handleSaveHeader

  datatype HeaderEdit = HeaderEdit(title: string, description: string, deadline: string)

  /** The edit buffer opens on the project's own values. */
  function HeaderOf(p: Project): HeaderEdit {
    HeaderEdit(p.title, p.description, p.deadline)
  }

  /** `{ ...project, ...editData }`. */
  function SaveHeader(p: Project, e: HeaderEdit): (r: Project)
    ensures HeaderOf(r) == e
    ensures r.(title := p.title, description := p.description, deadline := p.deadline) == p
  {
    p.(title := e.title, description := e.description, deadline := e.deadline)
  }

  /** Saving without edits gives the project back; a second save changes nothing. */
  lemma SaveHeaderRoundTrip(p: Project, e: HeaderEdit)
    ensures SaveHeader(p, HeaderOf(p)) == p
    ensures SaveHeader(SaveHeader(p, e), e) == SaveHeader(p, e)
  {
  }

  // handleBreakdown

  /** `project.deadline || todayStr`. */
  function DefaultDeadline(p: Project, today: string): (d: string)
    ensures p.deadline != "" ==> d == p.deadline
    ensures p.deadline == "" ==> d == today
  {
    if p.deadline != "" then p.deadline else today
  }

  /** An open item with the given title and deadline. */
  function StepItem(id: string, step: string, deadline: Option<string>): (item: ProjectItem)
    ensures item.title == step && !item.completed && item.deadline == deadline && item.id == id
  {
    ProjectItem(id, step, false, deadline)
  }

  /** One id drawn from the counter, then `onAddItem` with an open item
      carrying it. */
  function AddStep(prev: AppState, projectId: string, step: string, deadline: Option<string>): AppState {
    AddProjectItem(prev.(nextId := prev.nextId + 1), projectId, StepItem(MintId(prev.nextId), step, deadline))
  }

  /** The state after `onAddItem` has been issued for each step in turn,
      each with an id drawn just before it. */
  function AddSteps(s: AppState, projectId: string, steps: seq<string>, deadline: Option<string>): (r: AppState)
    ensures |r.projects| == |s.projects|
    decreases |steps|
  {
    if steps == [] then s
    else
      AddStep(AddSteps(s, projectId, steps[..|steps| - 1], deadline), projectId, steps[|steps| - 1], deadline)
  }

  /** One more step adds one more item, with the next id of the counter. */
  lemma AddStepsSnoc(s: AppState, projectId: string, steps: seq<string>, i: nat, deadline: Option<string>,
                     prev: AppState)
    requires i < |steps| && prev == AddSteps(s, projectId, steps[..i], deadline)
    ensures AddSteps(s, projectId, steps[..i + 1], deadline) == AddStep(prev, projectId, steps[i], deadline)
  {
    assert steps[..i + 1][..i] == steps[..i];
  }

  lemma {:induction false} AddStepsPreservesUnique(s: AppState, projectId: string, steps: seq<string>, deadline: Option<string>)
    requires MirrorsUnique(s.tasks)
    ensures MirrorsUnique(AddSteps(s, projectId, steps, deadline).tasks)
    decreases |steps|
  {
    if steps != [] {
      var prev := AddSteps(s, projectId, steps[..|steps| - 1], deadline);
      AddStepsPreservesUnique(s, projectId, steps[..|steps| - 1], deadline);
      AddItemPreservesUnique(prev.(nextId := prev.nextId + 1), projectId,
                             StepItem(MintId(prev.nextId), steps[|steps| - 1], deadline));
    }
  }

  /** `after` is `before` with one open item per step appended, in step
      order, all with the given deadline. */
  predicate Appended(before: Project, after: Project, steps: seq<string>, deadline: Option<string>) {
    |after.items| == |before.items| + |steps|
    && after.items[..|before.items|] == before.items
    && after.(items := before.items) == before
    && forall k :: 0 <= k < |steps| ==>
         after.items[|before.items| + k].title == steps[k]
         && !after.items[|before.items| + k].completed
         && after.items[|before.items| + k].deadline == deadline
  }

  lemma AppendedStep(p: Project, q: Project, q2: Project, steps: seq<string>, deadline: Option<string>)
    requires steps != []
    requires Appended(p, q, steps[..|steps| - 1], deadline)
    requires |q2.items| == |q.items| + 1 && q2.items[..|q.items|] == q.items && q2.(items := q.items) == q
    requires q2.items[|q.items|] == StepItem(q2.items[|q.items|].id, steps[|steps| - 1], deadline)
    ensures Appended(p, q2, steps, deadline)
  {
    var m, n := |p.items|, |steps| - 1;
    assert q2.items[..m] == q.items[..m];
    forall k | 0 <= k < |steps|
      ensures q2.items[m + k].title == steps[k] && !q2.items[m + k].completed
              && q2.items[m + k].deadline == deadline
    {
      if k < n {
        assert q2.items[m + k] == q.items[m + k];
        assert steps[..n][k] == steps[k];
      }
    }
  }

  /** Each project with the id ends with one new open item per step, in step
      order, all with the given deadline; every other project is as it was. */
  lemma {:induction false} BreakdownAppends(s: AppState, projectId: string, steps: seq<string>, deadline: Option<string>)
    ensures var r := AddSteps(s, projectId, steps, deadline);
      forall i :: 0 <= i < |s.projects| ==>
        if s.projects[i].id == projectId then Appended(s.projects[i], r.projects[i], steps, deadline)
        else r.projects[i] == s.projects[i]
    decreases |steps|
  {
    if steps == [] {
      forall i | 0 <= i < |s.projects|
        ensures Appended(s.projects[i], s.projects[i], [], deadline)
      {
        assert s.projects[i].items[..|s.projects[i].items|] == s.projects[i].items;
      }
    } else {
      var n := |steps| - 1;
      var prev := AddSteps(s, projectId, steps[..n], deadline);
      BreakdownAppends(s, projectId, steps[..n], deadline);
      var item := StepItem(MintId(prev.nextId), steps[n], deadline);
      AddItemAppends(prev.(nextId := prev.nextId + 1), projectId, item);
      var r := AddSteps(s, projectId, steps, deadline);
      forall i | 0 <= i < |s.projects| && s.projects[i].id == projectId
        ensures Appended(s.projects[i], r.projects[i], steps, deadline)
      {
        assert prev.projects[i].id == projectId;
        AppendedStep(s.projects[i], prev.projects[i], r.projects[i], steps, deadline);
      }
    }
  }

  // The dialog

  /** The dialog's own state: the header edit buffer and the new-item form. */
  class DetailDialog {
    var editData: HeaderEdit
    var isEditingHeader: bool
    var newItemTitle: string
    var newItemDeadline: string

    constructor(p: Project, today: string)
      ensures editData == HeaderOf(p) && !isEditingHeader
      ensures newItemTitle == "" && newItemDeadline == today
    {
      editData := HeaderOf(p);
      isEditingHeader := false;
      newItemTitle := "";
      newItemDeadline := today;
    }

    /** `handleSaveHeader`: the overlaid project goes through
        `handleUpdateProject`, and the editor closes. */
    method HandleSaveHeader(store: Store, project: Project, today: string)
      modifies this, store
      ensures store.State() == UpdateProject(old(store.State()), SaveHeader(project, old(editData)), today)
      ensures !isEditingHeader && editData == old(editData)
      ensures newItemTitle == old(newItemTitle) && newItemDeadline == old(newItemDeadline)
      ensures old(MirrorsUnique(store.tasks)) ==> MirrorsUnique(store.tasks)
    {
      store.HandleUpdateProject(SaveHeader(project, editData), today);
      isEditingHeader := false;
    }

    /** `handleAddNewItem`: a blank title adds nothing; otherwise one open
        item with the trimmed title and the chosen date is added and the
        title field is cleared, the date kept for the next entry. */
    method HandleAddNewItem(store: Store, project: Project)
      modifies this, store
      ensures IsBlank(old(newItemTitle)) ==> store.State() == old(store.State()) && newItemTitle == old(newItemTitle)
      ensures !IsBlank(old(newItemTitle)) ==>
        store.State() == AddStep(old(store.State()), project.id, Trim(old(newItemTitle)), Some(old(newItemDeadline)))
        && newItemTitle == ""
      ensures newItemDeadline == old(newItemDeadline) && editData == old(editData)
      ensures isEditingHeader == old(isEditingHeader)
    {
      if Trim(newItemTitle) == [] {
        return;
      }
      AddItem(store, project.id, Trim(newItemTitle), Some(newItemDeadline));
      newItemTitle := "";
    }
  }

  /** `handleBreakdown`: one `onAddItem` per step, in step order, due on
      the project's deadline or today. A rejected call adds nothing. */
  method HandleBreakdown(store: Store, project: Project, reply: Gemini.Reply<seq<string>>, today: string)
    modifies store
    ensures reply.Rejected? ==> store.State() == old(store.State())
    ensures reply.Answered? ==>
      store.State() == AddSteps(old(store.State()), project.id, Gemini.BreakdownSteps(reply.parsed),
                                Some(DefaultDeadline(project, today)))
    ensures old(MirrorsUnique(store.tasks)) ==> MirrorsUnique(store.tasks)
  {
    if reply.Rejected? {
      return;
    }
    var steps := Gemini.BreakdownSteps(reply.parsed);
    ghost var s0 := store.State();
    AddItems(store, project.id, steps, Some(DefaultDeadline(project, today)));
    if MirrorsUnique(s0.tasks) {
      AddStepsPreservesUnique(s0, project.id, steps, Some(DefaultDeadline(project, today)));
    }
  }

  /** Draws an id and issues `onAddItem` for each title in turn. */
  method AddItems(store: Store, projectId: string, steps: seq<string>, deadline: Option<string>)
    modifies store
    ensures store.State() == AddSteps(old(store.State()), projectId, steps, deadline)
  {
    ghost var s0 := store.State();
    var i := 0;
    while i < |steps|
      invariant 0 <= i <= |steps|
      invariant store.State() == AddSteps(s0, projectId, steps[..i], deadline)
    {
      AddStepsSnoc(s0, projectId, steps, i, deadline, store.State());
      AddItem(store, projectId, steps[i], deadline);
      i := i + 1;
    }
    assert steps[..|steps|] == steps;
  }

  /** One step of `AddItems`: a fresh id, then `onAddItem`. */
  method AddItem(store: Store, projectId: string, step: string, deadline: Option<string>)
    modifies store
    ensures store.State() == AddStep(old(store.State()), projectId, step, deadline)
  {
    var id := store.FreshId();
    store.HandleAddProjectItem(projectId, StepItem(id, step, deadline));
  }

  // The item row

  /** The check button sends the item with only `completed` negated. */
  function ToggledItem(item: ProjectItem): (r: ProjectItem)
    ensures r.completed == !item.completed && r.(completed := item.completed) == item
  {
    item.(completed := !item.completed)
  }

  lemma ToggledItemTwice(item: ProjectItem)
    ensures ToggledItem(ToggledItem(item)) == item
  {
  }

  method ToggleItem(store: Store, project: Project, item: ProjectItem, today: string)
    modifies store
    ensures store.State() == UpdateProjectItem(old(store.State()), project.id, ToggledItem(item), today)
    ensures old(MirrorsUnique(store.tasks)) ==> MirrorsUnique(store.tasks)
  {
    store.HandleUpdateProjectItem(project.id, ToggledItem(item), today);
  }

  /** Editing the title or the date sends the item with that field replaced;
      a cleared date input sends the empty string. */
  method EditItemTitle(store: Store, project: Project, item: ProjectItem, title: string, today: string)
    modifies store
    ensures store.State() == UpdateProjectItem(old(store.State()), project.id, item.(title := title), today)
  {
    store.HandleUpdateProjectItem(project.id, item.(title := title), today);
  }

  method EditItemDeadline(store: Store, project: Project, item: ProjectItem, date: string, today: string)
    modifies store
    ensures store.State() == UpdateProjectItem(old(store.State()), project.id, item.(deadline := Some(date)), today)
  {
    store.HandleUpdateProjectItem(project.id, item.(deadline := Some(date)), today);
  }

  method RemoveItem(store: Store, project: Project, item: ProjectItem)
    modifies store
    ensures store.State() == RemoveProjectItem(old(store.State()), project.id, item.id)
  {
    store.HandleRemoveProjectItem(project.id, item.id);
  }

  /** Clearing the date of an item of an unfinished project takes its mirror
      off the daily board. */
  lemma ClearingDeadlineRemovesMirror(s: AppState, proj: Project, item: ProjectItem, today: string)
    requires FindProject(s.projects, proj.id) == Some(proj)
    requires !IsFinished(ReplaceItem(proj.items, item.(deadline := Some(""))))
    ensures MirrorCount(UpdateProjectItem(s, proj.id, item.(deadline := Some("")), today).tasks, item.id) == 0
  {
    var cleared := item.(deadline := Some(""));
    SyncWithoutDeadline(s.tasks, proj.id, proj.title, cleared, MintId(s.nextId));
  }

  /** `item.deadline && item.deadline < todayStr && !item.completed`. */
  predicate IsOverdueItem(item: ProjectItem, today: string)
    ensures IsOverdueItem(item, today) ==> !item.completed && item.deadline.Some? && item.deadline != Some(today)
  {
    LexLessIrreflexive(today);
    HasDeadline(item) && LexLess(item.deadline.value, today) && !item.completed
  }

  /** On well-formed keys the marker means "due on a past day and still open". */
  lemma OverdueItemChronological(item: ProjectItem, due: DateKeys.LocalDate, today: DateKeys.LocalDate)
    requires DateKeys.InRange(due) && DateKeys.InRange(today)
    requires item.deadline == Some(DateKeys.FormatDateToKey(due))
    ensures IsOverdueItem(item, DateKeys.FormatDateToKey(today)) <==> !item.completed && DateKeys.Before(due, today)
  {
    DateKeys.KeyOrder(due, today);
  }

  /** The dialog and the overdue board agree: an item is marked overdue
      exactly when its mirror task is listed as overdue. */
  lemma OverdueItemMatchesMirror(projectId: string, projectTitle: string, item: ProjectItem, id: string, today: string)
    requires HasDeadline(item)
    ensures IsOverdueItem(item, today) <==> OverdueView.IsOverdue(MirrorTask(projectId, projectTitle, item, id), today)
  {
  }
}
