/** The project board: the new-project form with its comma-separated first
    items, the selection of one project for the detail dialog, and the
    dialog's delete action as this view wires it. */
module ProjectView {
  import opened Strings
  import opened Seqs
  import opened Types
  import opened Engine
  import Gemini
  import ProjectDetail
  import opened App

  // The initial items field

  predicate NotBlank(s: string) {
    !IsBlank(s)
  }

  function TrimAll(pieces: seq<string>): (r: seq<string>)
    ensures |r| == |pieces|
  {
    seq(|pieces|, i requires 0 <= i < |pieces| => Trim(pieces[i]))
  }

  /** `initialItems.split(',').filter(i => i.trim())`, each piece trimmed as
      it becomes an item title. */
  function InitialTitles(text: string): (titles: seq<string>)
    ensures forall i :: 0 <= i < |titles| ==>
      titles[i] != "" && !IsWhitespace(titles[i][0]) && !IsWhitespace(titles[i][|titles[i]| - 1])
      && ',' !in titles[i]
    ensures |titles| <= |Split(text, ',')|
  {
    var pieces := Filter(Split(text, ','), NotBlank);
    SplitPiecesLackSeparator(text, ',');
    forall i | 0 <= i < |pieces|
      ensures Trim(pieces[i]) != "" && ',' !in Trim(pieces[i])
    {
      TrimInside(pieces[i]);
    }
    TrimAll(pieces)
  }

  /** Titles that are already trimmed, non-blank and free of commas survive
      being joined with commas and read back. */
  lemma InitialTitlesOfJoin(titles: seq<string>)
    requires forall i :: 0 <= i < |titles| ==> ',' !in titles[i] && !IsBlank(titles[i]) && Trim(titles[i]) == titles[i]
    ensures InitialTitles(Join(titles, ',')) == titles
  {
    if titles == [] {
      assert Split("", ',') == [""];
      assert IsBlank("");
    } else {
      SplitJoin(titles, ',');
      FilterKeepsAll(titles, NotBlank);
    }
  }

  /** A field without commas gives one item, the trimmed text, unless the
      text is blank. */
  lemma InitialTitlesSingle(text: string)
    requires ',' !in text
    ensures IsBlank(text) ==> InitialTitles(text) == []
    ensures !IsBlank(text) ==> InitialTitles(text) == [Trim(text)]
  {
    SplitNoSeparator(text, ',');
    assert Filter([text], NotBlank) == if NotBlank(text) then [text] else [];
  }

  // The new project

  /** The project `addProject` builds: in progress, no items yet. */
  function NewProject(id: string, title: string, description: string, term: Term, deadline: string,
                      slug: string): (p: Project)
    ensures p.id == id && p.status == InProgress && p.items == [] && p.slug == Some(slug)
    ensures p.title == title && p.description == description && p.term == term && p.deadline == deadline
  {
    Project(id, title, description, InProgress, term, deadline, [], Some(slug))
  }

  /** One id is drawn for the project and the project is put first. */
  function Created(s: AppState, p: Project): AppState {
    s.(projects := [p] + s.projects, nextId := s.nextId + 1)
  }

  /** After the first items have been added, the new project is first, holds
      one open undated item per title in order, and no project of another
      id has changed. */
  lemma NewProjectFirst(s: AppState, p: Project, titles: seq<string>)
    requires p.items == []
    ensures var r := ProjectDetail.AddSteps(Created(s, p), p.id, titles, None);
      |r.projects| == |s.projects| + 1
      && r.projects[0].(items := []) == p
      && |r.projects[0].items| == |titles|
      && (forall k :: 0 <= k < |titles| ==>
            r.projects[0].items[k] == ProjectItem(r.projects[0].items[k].id, titles[k], false, None))
      && (forall i :: 0 <= i < |s.projects| && s.projects[i].id != p.id ==> r.projects[i + 1] == s.projects[i])
  {
    var c := Created(s, p);
    ProjectDetail.BreakdownAppends(c, p.id, titles, None);
    var r := ProjectDetail.AddSteps(c, p.id, titles, None);
    assert c.projects[0] == p;
    assert ProjectDetail.Appended(p, r.projects[0], titles, None);
    forall i | 0 <= i < |s.projects| && s.projects[i].id != p.id
      ensures r.projects[i + 1] == s.projects[i]
    {
      assert c.projects[i + 1] == s.projects[i];
    }
  }

  // The detail dialog's selection and delete

  /** `projects.find(p => p.id === selectedProjectId) || null`. */
  function SelectedProject(ps: seq<Project>, selected: Option<string>): (r: Option<Project>)
    ensures selected.None? ==> r.None?
    ensures r.Some? ==> r.value in ps && Some(r.value.id) == selected
    ensures r.Some? ==> exists i :: 0 <= i < |ps| && ps[i] == r.value && forall j :: 0 <= j < i ==> ps[j].id != r.value.id
    ensures selected.Some? ==> (r.None? <==> forall i :: 0 <= i < |ps| ==> ps[i].id != selected.value)
  {
    match selected
    case None => None
    case Some(id) => FindProject(ps, id)
  }

  /** The dialog shows the latest version of the selected project: after an
      update of that project it shows the update, and after its deletion it
      closes. */
  lemma SelectionFollowsState(ps: seq<Project>, updated: Project)
    requires exists i :: 0 <= i < |ps| && ps[i].id == updated.id
    ensures SelectedProject(ReplaceProject(ps, updated), Some(updated.id)) == Some(updated)
    ensures SelectedProject(RemoveProject(ps, updated.id), Some(updated.id)) == None
  {
    var r := ReplaceProject(ps, updated);
    var q := FindProject(r, updated.id);
    assert q.Some?;
    forall i | 0 <= i < |r| && r[i].id == updated.id
      ensures r[i] == updated
    {
    }
    var gone := RemoveProject(ps, updated.id);
    assert forall i :: 0 <= i < |gone| ==> gone[i] in gone && gone[i].id != updated.id;
  }

  /** The dialog's delete as this view wires it: the project goes, its tasks
      stay. */
  function DeleteFromDetail(s: AppState, projectId: string): (r: AppState)
    ensures forall q :: q in r.projects <==> q in s.projects && q.id != projectId
  {
    s.(projects := RemoveProject(s.projects, projectId))
  }

  /** Unlike the application-level delete, which also drops the project's
      tasks, this delete leaves every task linked to the project in place;
      the project lists agree. */
  lemma DeleteFromDetailKeepsTasks(s: AppState, projectId: string)
    ensures DeleteFromDetail(s, projectId).projects == DeleteProject(s, projectId).projects
    ensures forall t :: t in s.tasks && t.projectId == Some(projectId) ==>
      t in DeleteFromDetail(s, projectId).tasks && t !in DeleteProject(s, projectId).tasks
  {
  }

  /** The `newProj` form state. */
  datatype ProjectForm = ProjectForm(title: string, description: string, term: Term, deadline: string,
                                     initialItems: string)

  const EmptyForm: ProjectForm := ProjectForm("", "", Mid, "", "")

  /** The state `addProject` leaves behind for a non-blank title, given the
      slug service's answer. */
  function AddedProject(s: AppState, form: ProjectForm, slugAnswer: Option<string>): AppState
  {
    var slug := Gemini.GenerateShortSlug(form.title, slugAnswer);
    var p := NewProject(MintId(s.nextId), form.title, form.description, form.term, form.deadline, slug);
    ProjectDetail.AddSteps(Created(s, p), p.id, InitialTitles(form.initialItems), None)
  }

  /** The store side of `addProject`: an id for the project, the project
      put first, then one `onAddProjectItem` per title. */
  method CreateProject(store: Store, form: ProjectForm, slugAnswer: Option<string>)
    modifies store
    ensures store.State() == AddedProject(old(store.State()), form, slugAnswer)
    ensures old(MirrorsUnique(store.tasks)) ==> MirrorsUnique(store.tasks)
  {
    ghost var s0 := store.State();
    var slug := Gemini.GenerateShortSlug(form.title, slugAnswer);
    var projId := store.FreshId();
    var proj := NewProject(projId, form.title, form.description, form.term, form.deadline, slug);
    store.SetProjects([proj] + store.projects);
    assert store.State() == Created(s0, proj);
    var titles := InitialTitles(form.initialItems);
    ProjectDetail.AddItems(store, projId, titles, None);
    if MirrorsUnique(s0.tasks) {
      ProjectDetail.AddStepsPreservesUnique(Created(s0, proj), projId, titles, None);
    }
  }

  // The view

  class Board {
    var newProj: ProjectForm
    var showAddModal: bool
    var selectedProjectId: Option<string>

    constructor()
      ensures newProj == EmptyForm && !showAddModal && selectedProjectId == None
    {
      newProj := EmptyForm;
      showAddModal := false;
      selectedProjectId := None;
    }

    /** Opening a card selects the project by id. */
    method Select(id: string)
      modifies this
      ensures selectedProjectId == Some(id)
      ensures newProj == old(newProj) && showAddModal == old(showAddModal)
    {
      selectedProjectId := Some(id);
    }

    /** `addProject`, with the slug service's answer as a parameter: a blank
        title does nothing; otherwise the project is put first, one item is
        added per non-blank piece of the initial items, and the form is
        reset and closed. */
    method AddProject(store: Store, slugAnswer: Option<string>)
      modifies this, store
      ensures Trim(old(newProj).title) == [] ==>
        store.State() == old(store.State()) && newProj == old(newProj) && showAddModal == old(showAddModal)
      ensures Trim(old(newProj).title) != [] ==>
        store.State() == AddedProject(old(store.State()), old(newProj), slugAnswer)
        && newProj == EmptyForm && !showAddModal
      ensures selectedProjectId == old(selectedProjectId)
      ensures old(MirrorsUnique(store.tasks)) ==> MirrorsUnique(store.tasks)
    {
      if Trim(newProj.title) == [] {
        return;
      }
      var form := newProj;
      CreateProject(store, form, slugAnswer);
      showAddModal := false;
      newProj := EmptyForm;
    }

    /** The dialog's delete button: the selected project leaves the list and
        the dialog closes; tasks are not touched. */
    method DeleteSelected(store: Store)
      modifies this, store
      ensures var sel := SelectedProject(old(store.projects), old(selectedProjectId));
        if sel.None? then store.State() == old(store.State()) && selectedProjectId == old(selectedProjectId)
        else store.State() == DeleteFromDetail(old(store.State()), sel.value.id) && selectedProjectId == None
      ensures newProj == old(newProj) && showAddModal == old(showAddModal)
    {
      var sel := SelectedProject(store.projects, selectedProjectId);
      if sel.Some? {
        store.SetProjects(RemoveProject(store.projects, sel.value.id));
        selectedProjectId := None;
      }
    }
  }
}
