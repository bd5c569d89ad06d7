/** The daily board: the tasks filed under the selected day, the quick-add
    form with its category choice, and the toggle/delete actions on cards. */
module DailyView {
  import opened Strings
  import opened Seqs
  import opened Types
  import opened Derived
  import Engine
  import Gemini
  import DateKeys
  import opened App

  /** `text.startsWith('http')`. */
  predicate IsUrl(text: string)
    ensures IsUrl(text) ==> |text| >= 4
  {
    StartsWith(text, "http")
  }

  // Quick-add

  /** The category buttons: one of the four, or "AI Auto". */
  datatype CategoryChoice = Auto | Manual(category: ParaCategory)

  /** What the outside world answers while a task is added: the host name
      of the title parsed as a URL (`None`: `new URL` threw), the link
      summary and slug answers, and the category answer (`None`: the call
      threw). */
  datatype Answers = Answers(
    hostname: Option<string>,
    summary: Option<string>,
    slug: Option<string>,
    category: Option<string>)

  function Favicon(domain: string): string {
    "https://www.google.com/s2/favicons?domain=" + domain + "&sz=64"
  }

  /** The link card data built for a URL title. */
  function LinkMeta(title: string, host: string, ans: Answers): (m: LinkMetadata)
    ensures m.isPinned == Some(false)
    ensures m.slug.Some? && NoWhitespace(m.slug.value)
    ensures !Contains(host, "www.") ==> m.domain == Some(host)
  {
    var domain := ReplaceFirst(host, "www.", "");
    LinkMetadata(Some(Gemini.SummarizeLink(host, ans.summary)), Some(domain), Some(Favicon(domain)),
                 Some(Gemini.GenerateShortSlug(title, ans.slug)), Some(false))
  }

  /** The category of a non-link task: the manual choice, or the model's
      answer; `None` when the model call threw. */
  function ChooseCategory(choice: CategoryChoice, answer: Option<string>): (c: Option<ParaCategory>)
    ensures choice.Manual? ==> c == Some(choice.category)
    ensures choice.Auto? ==> (c.None? <==> answer.None?)
  {
    match choice
    case Manual(cat) => Some(cat)
    case Auto => if answer.Some? then Some(Gemini.CategoryFromText(answer.value)) else None
  }

  /** What `handleAddTask` hands to `onAddTask`: a category and, for a
      parsed link, its metadata; `None` when nothing is added. */
  function AddTaskPlan(title: string, choice: CategoryChoice, ans: Answers): (r: Option<(ParaCategory, Option<LinkMetadata>)>)
    ensures r.None? <==> (IsBlank(title)
      || (choice.Auto? && !(IsUrl(title) && ans.hostname.Some?) && ans.category.None?))
    ensures r.Some? && choice.Manual? ==> r.value.0 == choice.category
    ensures r.Some? && r.value.1.Some? ==> IsUrl(title) && r.value.1.value.isPinned == Some(false)
  {
    if Trim(title) == [] then None
    else if IsUrl(title) && ans.hostname.Some? then
      Some((if choice.Auto? then Resources else choice.category, Some(LinkMeta(title, ans.hostname.value, ans))))
    else
      match ChooseCategory(choice, ans.category)
      case None => None
      case Some(c) => Some((c, None))
  }

  /** A manual category wins whatever the services answer. */
  lemma ManualCategoryWins(title: string, c: ParaCategory, ans: Answers)
    requires !IsBlank(title)
    ensures AddTaskPlan(title, Manual(c), ans).Some?
    ensures AddTaskPlan(title, Manual(c), ans).value.0 == c
  {
  }

  /** In Auto mode a link that parses is filed under Resources without
      asking the category model; one that does not parse is categorised. */
  lemma AutoLinkIsResource(title: string, ans: Answers)
    requires !IsBlank(title) && IsUrl(title)
    ensures ans.hostname.Some? ==> AddTaskPlan(title, Auto, ans) == Some((Resources, Some(LinkMeta(title, ans.hostname.value, ans))))
    ensures ans.hostname.None? && ans.category.Some?
            ==> AddTaskPlan(title, Auto, ans) == Some((Gemini.CategoryFromText(ans.category.value), None))
  {
  }

  /** A newly added link is not pinned, so the pinned list is unchanged. */
  lemma NewLinkNotPinned(s: Engine.AppState, title: string, choice: CategoryChoice, date: string, ans: Answers)
    requires AddTaskPlan(title, choice, ans).Some?
    ensures var plan := AddTaskPlan(title, choice, ans).value;
      Engine.PinnedLinks(Engine.AddNewTask(s, title, plan.0, date, plan.1).tasks) == Engine.PinnedLinks(s.tasks)
  {
    var plan := AddTaskPlan(title, choice, ans).value;
    var r := Engine.AddNewTask(s, title, plan.0, date, plan.1);
    Engine.AddNewTaskPrepends(s, title, plan.0, date, plan.1);
    assert r.tasks == [r.tasks[0]] + s.tasks;
    assert !Engine.IsPinned(r.tasks[0]);
    FilterConcat([r.tasks[0]], s.tasks, Engine.IsPinned);
  }

  /** The form state of the board. */
  class DailyForm {
    var selectedDate: string
    var newTaskTitle: string
    var manualCategory: CategoryChoice

    constructor(today: string)
      ensures selectedDate == today && newTaskTitle == "" && manualCategory == Auto
    {
      selectedDate := today;
      newTaskTitle := "";
      manualCategory := Auto;
    }

    /** `handleAddTask`: a blank title adds nothing; otherwise the category
        is decided step by step and one task is added, after which the input
        is cleared. When the category call throws, nothing is added and the
        input keeps its text. */
    method HandleAddTask(store: Store, ans: Answers)
      modifies this, store
      ensures var plan := AddTaskPlan(old(newTaskTitle), old(manualCategory), ans);
        if plan.None? then
          store.State() == old(store.State()) && newTaskTitle == old(newTaskTitle)
        else
          store.State() == Engine.AddNewTask(old(store.State()), old(newTaskTitle), plan.value.0, old(selectedDate), plan.value.1)
          && newTaskTitle == ""
      ensures selectedDate == old(selectedDate) && manualCategory == old(manualCategory)
      ensures old(Engine.MirrorsUnique(store.tasks)) ==> Engine.MirrorsUnique(store.tasks)
    {
      if Trim(newTaskTitle) == [] {
        return;
      }
      var finalCategory: ParaCategory;
      var linkMeta: Option<LinkMetadata> := None;
      if IsUrl(newTaskTitle) && ans.hostname.Some? {
        var host := ans.hostname.value;
        linkMeta := Some(LinkMeta(newTaskTitle, host, ans));
        finalCategory := if manualCategory == Auto then Resources else manualCategory.category;
      } else {
        if manualCategory == Auto {
          if ans.category.None? {
            return;
          }
          finalCategory := Gemini.CategoryFromText(ans.category.value);
        } else {
          finalCategory := manualCategory.category;
        }
      }
      store.AddNewTask(newTaskTitle, finalCategory, selectedDate, linkMeta);
      newTaskTitle := "";
    }
  }

  // Toggle and delete

  /** `tasks.find(t => t.id === id)`: the first task with that id. */
  function FindTask(ts: seq<Task>, id: string): (r: Option<Task>)
    ensures r.Some? ==> r.value in ts && r.value.id == id
    ensures r.Some? ==> exists i :: 0 <= i < |ts| && ts[i] == r.value && forall j :: 0 <= j < i ==> ts[j].id != id
    ensures r.None? <==> forall i :: 0 <= i < |ts| ==> ts[i].id != id
  {
    if ts == [] then None
    else if ts[0].id == id then Some(ts[0])
    else FindTask(ts[1..], id)
  }

  /** `toggleTask` of the board: nothing happens when the first task with
      the id is a Resources task; otherwise every task with the id flips. */
  function DailyToggle(ts: seq<Task>, id: string): (r: seq<Task>)
    ensures FindTask(ts, id).Some? && FindTask(ts, id).value.category == Resources ==> r == ts
    ensures |r| == |ts|
  {
    var task := FindTask(ts, id);
    if task.Some? && task.value.category == Resources then ts
    else FlipCompleted(ts, id)
  }

  /** Flipping does not change which task is found first, nor its category. */
  lemma {:induction false} FindAfterFlip(ts: seq<Task>, id: string)
    ensures FindTask(FlipCompleted(ts, id), id).Some? == FindTask(ts, id).Some?
    ensures FindTask(ts, id).Some? ==>
      FindTask(FlipCompleted(ts, id), id).value == FindTask(ts, id).value.(completed := !FindTask(ts, id).value.completed)
  {
    if ts != [] && ts[0].id != id {
      assert FlipCompleted(ts, id)[1..] == FlipCompleted(ts[1..], id);
      FindAfterFlip(ts[1..], id);
    }
  }

  /** A non-Resources task is toggled back by a second click; a Resources
      task never changes. */
  lemma DailyToggleTwice(ts: seq<Task>, id: string)
    ensures DailyToggle(DailyToggle(ts, id), id) == ts
  {
    var task := FindTask(ts, id);
    if !(task.Some? && task.value.category == Resources) {
      FindAfterFlip(ts, id);
      FlipCompletedEffect(ts, id);
    }
  }

  /** Otherwise only `completed` of the tasks with that id changes. */
  lemma DailyToggleEffect(ts: seq<Task>, id: string)
    requires !(FindTask(ts, id).Some? && FindTask(ts, id).value.category == Resources)
    ensures forall i :: 0 <= i < |ts| ==>
      DailyToggle(ts, id)[i] == if ts[i].id == id then ts[i].(completed := !ts[i].completed) else ts[i]
  {
  }

  method ToggleTask(store: Store, id: string)
    modifies store
    ensures store.State() == old(store.State()).(tasks := DailyToggle(old(store.tasks), id))
    ensures old(Engine.MirrorsUnique(store.tasks)) ==> Engine.MirrorsUnique(store.tasks)
  {
    var task := FindTask(store.tasks, id);
    if task.Some? && task.value.category == Resources {
      return;
    }
    if Engine.MirrorsUnique(store.tasks) {
      FlipPreservesUnique(store.tasks, id);
    }
    store.SetTasks(FlipCompleted(store.tasks, id));
  }

  method DeleteTask(store: Store, id: string)
    modifies store
    ensures store.State() == old(store.State()).(tasks := RemoveTask(old(store.tasks), id))
    ensures old(Engine.MirrorsUnique(store.tasks)) ==> Engine.MirrorsUnique(store.tasks)
  {
    if Engine.MirrorsUnique(store.tasks) {
      RemovePreservesUnique(store.tasks, id);
    }
    store.SetTasks(RemoveTask(store.tasks, id));
  }

  /** A card click toggles unless the card is a Resources task or an
      archived project (an Archives task that carries its items). */
  predicate CardToggles(t: Task)
    ensures t.category == Resources ==> !CardToggles(t)
    ensures t.category == Archives && t.archivedItems.Some? ==> !CardToggles(t)
    ensures t.category == Projects || t.category == Areas ==> CardToggles(t)
  {
    t.category != Resources && !(t.category == Archives && t.archivedItems.Some?)
  }

  method ClickCard(store: Store, task: Task)
    modifies store
    ensures !CardToggles(task) ==> store.State() == old(store.State())
    ensures CardToggles(task) ==> store.State() == old(store.State()).(tasks := DailyToggle(old(store.tasks), task.id))
  {
    if CardToggles(task) {
      ToggleTask(store, task.id);
    }
  }

  /** The archive task made for a finished project is never toggled by a
      click on its card. */
  lemma ArchiveCardIsInert(p: Project, id: string, today: string)
    ensures !CardToggles(Engine.ArchiveTask(p, id, today))
  {
  }

  // The date colour on a card

  datatype DateTone = Today | Past | Future

  /** `task.date === todayStr ? ... : task.date < todayStr ? ... : ...`. */
  function DateToneOf(date: string, today: string): (tone: DateTone)
    ensures tone == Past ==> LexLess(date, today)
    ensures tone == Future ==> LexLess(today, date)
  {
    if date == today then Today
    else if LexLess(date, today) then Past
    else
      LexLessTrichotomy(date, today);
      Future
  }

  /** On well-formed keys the colour follows the calendar. */
  lemma DateToneChronological(d: DateKeys.LocalDate, today: DateKeys.LocalDate)
    requires DateKeys.InRange(d) && DateKeys.InRange(today)
    ensures var tone := DateToneOf(DateKeys.FormatDateToKey(d), DateKeys.FormatDateToKey(today));
      (tone == Today <==> d == today)
      && (tone == Past <==> DateKeys.Before(d, today))
      && (tone == Future <==> DateKeys.Before(today, d))
  {
    DateKeys.KeyOrder(d, today);
    DateKeys.KeyOrder(today, d);
    if d != today {
      DateKeys.KeyInjective(d, today);
    }
    LexLessIrreflexive(DateKeys.FormatDateToKey(d));
  }
}
