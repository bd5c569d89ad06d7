/** The entities of the organizer: PARA categories, tasks, projects with their
    sub-items, and calendar events. Optional TypeScript fields become `Option`. */
module Types {

  datatype Option<T> = None | Some(value: T)

  /** The four PARA categories. */
  datatype ParaCategory = Projects | Areas | Resources | Archives

  datatype ProjectItem = ProjectItem(
    id: string,
    title: string,
    completed: bool,
    deadline: Option<string>)

  datatype LinkMetadata = LinkMetadata(
    displayTitle: Option<string>,
    domain: Option<string>,
    favicon: Option<string>,
    slug: Option<string>,
    isPinned: Option<bool>)

  datatype Task = Task(
    id: string,
    title: string,
    completed: bool,
    category: ParaCategory,
    date: string,
    dueDate: Option<string>,
    notes: Option<string>,
    projectId: Option<string>,
    projectItemId: Option<string>,
    archivedItems: Option<seq<ProjectItem>>,
    linkMetadata: Option<LinkMetadata>)

  datatype ProjectStatus = InProgress | OnHold | Completed

  datatype Term = Mid | Long

  /** `deadline` is a required string; the empty string means "no deadline". */
  datatype Project = Project(
    id: string,
    title: string,
    description: string,
    status: ProjectStatus,
    term: Term,
    deadline: string,
    items: seq<ProjectItem>,
    slug: Option<string>)

  datatype CalendarEvent = CalendarEvent(
    id: string,
    summary: string,
    start: string,
    end: string,
    location: Option<string>)

  /** JavaScript truthiness of an optional string: present and non-empty. */
  predicate Present(o: Option<string>) {
    o.Some? && o.value != ""
  }

  /** `item.deadline` is truthy: a cleared date input stores "", which counts as none. */
  predicate HasDeadline(item: ProjectItem) {
    Present(item.deadline)
  }

  /** The string literal of each category. */
  function CategoryName(c: ParaCategory): (s: string)
    ensures s != ""
  {
    match c
    case Projects => "Projects"
    case Areas => "Areas"
    case Resources => "Resources"
    case Archives => "Archives"
  }

  /** Reading a category literal back; anything else is not a category. */
  function ParseCategory(s: string): (r: Option<ParaCategory>)
    ensures r.Some? ==> CategoryName(r.value) == s
  {
    if s == "Projects" then Some(Projects)
    else if s == "Areas" then Some(Areas)
    else if s == "Resources" then Some(Resources)
    else if s == "Archives" then Some(Archives)
    else None
  }

  /** Each category has its own literal, and reading it back gives the category. */
  lemma CategoryNameRoundTrip(c: ParaCategory)
    ensures ParseCategory(CategoryName(c)) == Some(c)
  {
  }

  /** Exactly four categories: every string names at most one, and every
      category is one of the four. */
  lemma CategoriesAreFour(c: ParaCategory)
    ensures c == Projects || c == Areas || c == Resources || c == Archives
    ensures |{CategoryName(Projects), CategoryName(Areas), CategoryName(Resources), CategoryName(Archives)}| == 4
  {
    assert CategoryName(Projects)[0] == 'P' && CategoryName(Areas)[1] == 'r';
    assert CategoryName(Resources)[0] == 'R' && CategoryName(Archives)[1] == 'r';
  }

  function StatusName(s: ProjectStatus): (n: string)
    ensures n != ""
  {
    match s
    case InProgress => "In Progress"
    case OnHold => "On Hold"
    case Completed => "Completed"
  }

  function ParseStatus(s: string): (r: Option<ProjectStatus>)
    ensures r.Some? ==> StatusName(r.value) == s
  {
    if s == "In Progress" then Some(InProgress)
    else if s == "On Hold" then Some(OnHold)
    else if s == "Completed" then Some(Completed)
    else None
  }

  lemma StatusNameRoundTrip(s: ProjectStatus)
    ensures ParseStatus(StatusName(s)) == Some(s)
  {
  }

  function TermName(t: Term): (n: string)
    ensures n != ""
  {
    match t
    case Mid => "Mid"
    case Long => "Long"
  }

  function ParseTerm(s: string): (r: Option<Term>)
    ensures r.Some? ==> TermName(r.value) == s
  {
    if s == "Mid" then Some(Mid) else if s == "Long" then Some(Long) else None
  }

  lemma TermNameRoundTrip(t: Term)
    ensures ParseTerm(TermName(t)) == Some(t)
  {
  }
}
