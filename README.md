# PARA task organizer — a verified model of its core

The application is a single-page PARA organizer (Projects, Areas, Resources,
Archives). Its root component holds two collections: daily **tasks**, filed
under `YYYY-MM-DD` day keys, and **projects**, each with a list of sub-items.
The views work on these collections:

- a daily board with quick add and AI categorisation;
- a project board;
- a project detail dialog;
- an overdue board;
- a seven-day summary strip;
- a calendar import panel.

A master-password gate stands in front of everything.

The heart of the application is the store in the root component:

- Every dated project item is **mirrored** as one daily task, keyed by `projectItemId`.
- A project whose items are all done is **archived**: it becomes one Archives task and leaves the project list.
- Deleting a project **cascades** to its tasks.
- Adding a Projects task creates a **shell project** when no project has that title, compared case-insensitively.

The model is written in Dafny. Its modules follow the program:

| module | models |
|---|---|
| `Types` | the entities, with optional fields as `Option` |
| `Engine` | every store handler as a function over `AppState(tasks, projects, nextId)` |
| `App` | class `Store`, with the handlers as methods proved against `Engine` |
| `DateKeys` | the date service |
| `Derived` | list rules shared by several views |
| `DailyView`, `ProjectView`, `ProjectDetail`, `OverdueView`, `WeeklySummary`, `GoogleSync` | one module per view |
| `Gemini` | what the application does with the language-model service's answers |
| `Login` | the password gate |
| `Seqs`, `Strings` | the JavaScript array and string operations the code relies on |

Fresh ids (`crypto.randomUUID()`) come from a counter in the store. `Store.FreshId` returns `MintId(n)` and advances the counter, and distinct counter values give distinct ids (`Engine.MintIdInjective`).

The invariant that runs through the store is `Engine.MirrorsUnique`: at most
one task per project item. Every handler preserves it.

## Model

| member | source | states |
|---|---|---|
| `Types.CategoryNameRoundTrip` | types.ts:2 | reading a category literal back gives the category |
| `Types.CategoriesAreFour` | types.ts:2 | there are exactly four categories, with four different literals |
| `Types.ParseCategory` | types.ts:2 | a string read as a category is that category's literal |
| `Types.StatusNameRoundTrip` | types.ts:35 | the three project statuses read back from their literals |
| `Types.ParseStatus` | types.ts:35 | a string read as a status is that status's literal |
| `Types.TermNameRoundTrip` | types.ts:36 | the two terms read back from their literals |
| `Types.ParseTerm` | types.ts:36 | a string read as a term is that term's literal |
| `Types.CategoryName` | types.ts:2 | every category literal is non-empty |
| `Engine.MintId` | App.tsx:41 | fresh ids have the form `id-…` |
| `Engine.MintIdInjective` | App.tsx:41 | distinct counter values give distinct ids |
| `Engine.FindMirror` | App.tsx:60 | `findIndex`: the first task mirroring the item, or none when no task does |
| `Engine.FindMirrorIsFirst` | App.tsx:60 | the index found is the first mirror in the filtered list; none exactly when that list is empty |
| `Engine.NoMirrorCount` | App.tsx:60 | no mirror is found exactly when the item has no mirror |
| `Engine.MirrorTask` | App.tsx:68-77 | the mirror task of a dated item carries the item's id and the given id |
| `Engine.Synced` | App.tsx:58-87 | a dated item is reflected by a mirror with its completion, its deadline as date and the title `[project] item`; an undated item is reflected exactly when it has no mirror |
| `Engine.SyncItem` | App.tsx:58-87 | a sync adds at most one task |
| `Engine.SyncWithoutDeadline` | App.tsx:60-66 | an undated item loses all its mirrors; without any mirror the list comes back unchanged |
| `Engine.SyncUpdatesInPlace` | App.tsx:68-82 | an existing first mirror is rewritten at its index with its id kept. It gets the title `[project] item`, the item's completion, Areas, the deadline as date, and both links. The length and every other position are unchanged |
| `Engine.SyncPrepends` | App.tsx:68-85 | a dated item without a mirror gets exactly one new mirror in front |
| `Engine.SyncKeepsUnrelated` | App.tsx:58-87 | tasks that are not mirrors of the item keep their order under any filter that excludes its mirrors |
| `Engine.SyncKeepsOthers` | App.tsx:58-87 | the tasks that do not mirror the item are untouched, in order |
| `Engine.SyncEstablishes` | App.tsx:58-87 | after a sync the tasks reflect the item (`Synced`) |
| `Engine.SyncedIsFixpoint` | App.tsx:58-87 | syncing tasks that already reflect the item changes nothing |
| `Engine.SyncIdempotent` | App.tsx:58-87 | syncing twice equals syncing once |
| `Engine.SyncOtherMirrorCount` | App.tsx:58-87 | the mirror counts of other items are unchanged |
| `Engine.SyncOwnMirrorCount` | App.tsx:58-87 | a dated item ends with exactly one mirror when it had at most one; an undated item ends with none |
| `Engine.SyncPreservesUnique` | App.tsx:58-87 | a sync keeps at most one task per project item |
| `Engine.SyncedDependsOnMirrors` | App.tsx:58-87 | whether the tasks reflect an item depends only on that item's mirrors |
| `Engine.SyncAll` | App.tsx:92-94 | syncing a list of items adds at most one task per item |
| `Engine.SyncAllEstablishes` | App.tsx:92-94 | after the `forEach`, each of several distinct items is reflected |
| `Engine.SyncAllPreservesUnique` | App.tsx:92-94 | the `forEach` keeps at most one mirror per item |
| `Engine.SyncAllKeepsUnrelated` | App.tsx:92-94 | tasks that mirror none of the items are untouched, in order |
| `Engine.FinishedIffAllDone` | App.tsx:34-37 | finished means at least one item and every item completed |
| `Engine.ArchiveTask` | App.tsx:40-49 | the archive task is linked to no item |
| `Engine.RemoveProject` | App.tsx:52 | exactly the projects of other ids remain |
| `Engine.ArchiveIffFinished` | App.tsx:33-56 | `checkAndArchiveProject` reports true exactly when the project is finished; otherwise nothing changes |
| `Engine.CheckAndArchive` | App.tsx:33-56 | the flag is true exactly when the project is finished; then one task goes in front of the untouched tasks and one id is drawn; otherwise nothing changes |
| `Engine.ArchiveEffect` | App.tsx:39-53 | archiving puts one task in front of the untouched tasks. The task is titled `[Archived Project] title`, completed, Archives, dated today, with the description as notes, the items as archived items and the project's id. The project is removed |
| `Engine.ArchivePreservesUnique` | App.tsx:33-56 | archiving keeps at most one mirror per item |
| `Engine.ReplaceProject` | App.tsx:91 | the project with the id is replaced, all others are kept, positions and ids unchanged |
| `Engine.ReplaceItem` | App.tsx:103 | the item with the id is replaced, all others are kept, positions and ids unchanged |
| `Engine.FindProject` | App.tsx:100 | `find`: the first project of the list with that id, or none exactly when no project has it |
| `Engine.UpdateProjectArchives` | App.tsx:89-90 | updating a finished project archives it and syncs nothing |
| `Engine.UpdateProject` | App.tsx:89-96 | a finished project adds one task in front of the untouched tasks; an unfinished one keeps the number of projects and draws one id per item |
| `Engine.UpdateProjectSyncs` | App.tsx:89-96 | updating an unfinished project replaces it in place; when its items have distinct ids, every item is reflected by the tasks |
| `Engine.UpdateProjectPreservesUnique` | App.tsx:89-96 | the update keeps at most one mirror per item |
| `Engine.UpdateItemUnknownProject` | App.tsx:100-101 | an item edit for an unknown project changes nothing |
| `Engine.UpdateProjectItem` | App.tsx:98-117 | an unknown project changes nothing; a known one draws exactly one id |
| `Engine.UpdateItemArchives` | App.tsx:103-112 | an edit that finishes the project removes it and adds its archive task, without re-syncing the mirror |
| `Engine.UpdateItemSyncs` | App.tsx:103-115 | any other edit swaps the item in, replaces the project in place and syncs the item's mirror |
| `Engine.FinishingEditLeavesMirrorStale` | App.tsx:109-114 | a concrete project whose finishing edit leaves the item's mirror task still open |
| `Engine.UpdateItemPreservesUnique` | App.tsx:98-117 | item edits keep at most one mirror per item |
| `Engine.AppendItem` | App.tsx:123 | the projects keep their positions and ids |
| `Engine.AddItemAppends` | App.tsx:119-125 | the item becomes the last item of each matching project; other projects and the earlier items are unchanged |
| `Engine.AddProjectItem` | App.tsx:119-125 | the projects keep their positions and ids; at most one id is drawn per project |
| `Engine.SyncMatches` | App.tsx:120-122 | one sync per matching project adds at most one task per project |
| `Engine.SyncMatchesEstablishes` | App.tsx:120-122 | after the per-match syncs the item is reflected under the last matching project's title |
| `Engine.SyncMatchesNone` | App.tsx:120-122 | with no project of that id nothing is synced |
| `Engine.SyncMatchesPreservesUnique` | App.tsx:120-122 | the per-match syncs keep at most one mirror per item |
| `Engine.AddItemSyncs` | App.tsx:119-125 | adding to the one project with the id mirrors the item under its title |
| `Engine.AddItemUnknownProject` | App.tsx:119-125 | adding to an unknown project changes nothing |
| `Engine.AddItemPreservesUnique` | App.tsx:119-125 | adding an item keeps at most one mirror per item |
| `Engine.DropItem` | App.tsx:131 | the projects keep their positions and ids |
| `Engine.RemoveItemEffect` | App.tsx:127-133 | removing the item of a known project drops exactly its mirrors and the item; the projects keep their order |
| `Engine.RemoveProjectItem` | App.tsx:127-133 | no id is drawn, the projects keep their number, and no task is added. An unknown project keeps the tasks; otherwise no task mirrors the item any more |
| `Engine.RemoveItemUnknownProject` | App.tsx:127-129 | removing from an unknown project changes nothing |
| `Engine.RemoveItemLeavesFinishedProject` | App.tsx:127-133 | removing the last open item leaves a 100%-complete project unarchived |
| `Engine.RemoveItemPreservesUnique` | App.tsx:127-133 | removing an item keeps at most one mirror per item |
| `Engine.DeleteProject` | App.tsx:135-138 | exactly the tasks of other projects and the projects of other ids remain |
| `Engine.DeleteProjectIdempotent` | App.tsx:135-138 | deleting twice equals deleting once |
| `Engine.DeleteProjectPreservesUnique` | App.tsx:135-138 | the cascade keeps at most one mirror per item |
| `Engine.ShellSlug` | App.tsx:161 | a metadata slug is used as it is; without one, the shell slug has no whitespace and is never longer than the title |
| `Engine.ShellSlugTwoWords` | App.tsx:161 | without a metadata slug, a title of two words around a whitespace run gives the lower-case words joined by one '-' |
| `Engine.TitleTaken` | App.tsx:152 | a title can only be taken when there are projects |
| `Engine.TitleTakenIgnoresCase` | App.tsx:152 | a title and its lower-case form are taken alike |
| `Engine.ShellProject` | App.tsx:154-163 | the shell project has the given id and title, no items, is not finished, is In Progress and carries the shell slug |
| `Engine.AddNewTask` | App.tsx:140-166 | exactly one open task with the title is added, and at most one project |
| `Engine.AddNewTaskPrepends` | App.tsx:141-149 | one incomplete task with the title, category, date and metadata is always put in front of the untouched tasks |
| `Engine.AddNewTaskShell` | App.tsx:151-164 | a shell project goes in front exactly for a Projects task whose title no project has, compared case-insensitively. It is In Progress, Mid term, with no deadline and no items, and carries the slug |
| `Engine.AddNewTaskTitleTaken` | App.tsx:151-164 | after a Projects task, some project carries its title |
| `Engine.AddNewTaskTwice` | App.tsx:151-164 | adding the same Projects title twice creates at most one project |
| `Engine.AddNewTaskIgnoresCase` | App.tsx:152 | "Launch" does not create a second project next to "launch" |
| `Engine.AddNewTaskPreservesUnique` | App.tsx:140-166 | adding a task keeps at most one mirror per item |
| `Engine.UpdateTaskDate` | App.tsx:29-31 | the list keeps its length |
| `Engine.UpdateTaskDateOnly` | App.tsx:29-31 | only the date of the tasks with the id changes |
| `Engine.UpdateTaskDatePreservesUnique` | App.tsx:29-31 | moving a task keeps at most one mirror per item |
| `Engine.PinnedLinks` | App.tsx:168 | exactly the tasks whose link metadata is pinned |
| `Engine.ImportPreservesUnique` | App.tsx:203 | putting tasks linked to no item in front keeps at most one mirror per item |
| `App.Store.constructor` | App.tsx:14-22 | the store starts from the loaded collections |
| `App.Store.FreshId` | App.tsx:41 | returns the next id and changes nothing else |
| `App.Store.SetTasks` | App.tsx:30 | replaces the task list only |
| `App.Store.SetProjects` | App.tsx:63 | replaces the project list only |
| `App.Store.UpdateTaskDate` | App.tsx:29-31 | the tasks become `Engine.UpdateTaskDate`; the invariant is kept |
| `App.Store.CheckAndArchiveProject` | App.tsx:33-56 | the new state and the result are `Engine.CheckAndArchive` |
| `App.Store.SyncProjectItemToDaily` | App.tsx:58-87 | the tasks become `Engine.SyncItem` with one fresh id |
| `App.Store.HandleUpdateProject` | App.tsx:89-96 | the new state is `Engine.UpdateProject` |
| `App.Store.SyncEvery` | App.tsx:92-94 | the loop yields `Engine.SyncAll`, one id per item |
| `App.Store.HandleUpdateProjectItem` | App.tsx:98-117 | the new state is `Engine.UpdateProjectItem` |
| `App.Store.HandleAddProjectItem` | App.tsx:119-125 | the new state is `Engine.AddProjectItem` |
| `App.Store.SyncMatching` | App.tsx:120-122 | the loop yields `Engine.SyncMatches`, one id per matching project |
| `App.Store.HandleRemoveProjectItem` | App.tsx:127-133 | the new state is `Engine.RemoveProjectItem` |
| `App.Store.HandleDeleteProject` | App.tsx:135-138 | the new state is `Engine.DeleteProject` |
| `App.Store.AddNewTask` | App.tsx:140-166 | the new state is `Engine.AddNewTask` |
| `App.Store.ImportTasks` | App.tsx:203 | the imported tasks go in front of the old ones |
| `DateKeys.FormatDateToKey` | services/dateService.ts:17-22 | for an in-range date: ten characters, dashes at 4 and 7, digits elsewhere |
| `DateKeys.GetTodayStr` | services/dateService.ts:6-12 | today's key has the same layout |
| `DateKeys.TodayIsFormattedKey` | services/dateService.ts:6-22 | the two formatters agree on every date |
| `DateKeys.PaddedTwoDigits` | services/dateService.ts:19-20 | `String(n).padStart(2,'0')` is the two-digit rendering of n |
| `DateKeys.FourDigitYear` | services/dateService.ts:18 | a four-digit year renders as its four digits |
| `DateKeys.KeyFields` | services/dateService.ts:17-22 | the key is the year, then month index + 1, then the day, as fixed-width digit fields |
| `DateKeys.ParseKey` | services/dateService.ts:17-22 | a key read back yields month and day below 100 |
| `DateKeys.KeyRoundTrip` | services/dateService.ts:17-22 | every in-range date reads back from its key |
| `DateKeys.KeyInjective` | services/dateService.ts:17-22 | distinct dates give distinct keys |
| `DateKeys.KeyOrder` | services/dateService.ts:17-22 | string `<` on keys is chronological order |
| `Derived.ActiveProjects` | components/DailyView.tsx:41-43 | exactly the In Progress projects |
| `Derived.ActiveProjectsIdempotent` | components/ProjectView.tsx:32-34 | filtering twice equals filtering once |
| `Derived.ActiveProjectCount` | components/ProjectView.tsx:32-34 | the list's length is the count of In Progress projects |
| `Derived.TasksOn` | components/DailyView.tsx:37-39 | exactly the tasks filed under the date |
| `Derived.TasksOnDisjoint` | components/DailyView.tsx:37-39 | two different days share no task; together they hold at most all tasks |
| `Derived.Progress` | components/ProjectView.tsx:41-46 | at most 100, and 0 for no items |
| `Derived.RoundedPercent` | components/ProjectDetailModal.tsx:38 | the rounded percentage is at most 100; exactly 100 when all are done, 0 when none is |
| `Derived.ProgressBounds` | components/DailyView.tsx:206-208 | 100 when every item is done, 0 when none is |
| `Derived.ProgressMonotone` | components/ProjectDetailModal.tsx:34-39 | ticking one more item off never lowers the percentage |
| `Derived.FlipCompleted` | components/OverdueView.tsx:29 | the list keeps its length |
| `Derived.FlipCompletedEffect` | components/DailyView.tsx:93 | only `completed` of the tasks with the id is negated |
| `Derived.RemoveTask` | components/DailyView.tsx:96-99 | exactly the tasks of other ids remain |
| `Derived.RemoveTaskOrder` | components/OverdueView.tsx:32-34 | removing is idempotent and order-independent; it drops exactly the tasks with the id |
| `Derived.FlipPreservesUnique` | components/DailyView.tsx:93 | toggling keeps at most one mirror per item |
| `Derived.RemovePreservesUnique` | components/DailyView.tsx:98 | deleting keeps at most one mirror per item |
| `DailyView.LinkMeta` | components/DailyView.tsx:70-76 | the link card is unpinned with a whitespace-free slug; the domain is the host when the host has no `www.` |
| `DailyView.ChooseCategory` | components/DailyView.tsx:82 | a manual category wins; Auto gives a category exactly when the service answers |
| `DailyView.AddTaskPlan` | components/DailyView.tsx:52-85 | nothing is added for a blank title; a manual choice wins; link metadata appears only for URLs and is unpinned |
| `DailyView.ManualCategoryWins` | components/DailyView.tsx:77-82 | with a non-blank title, a manual category is the one filed |
| `DailyView.AutoLinkIsResource` | components/DailyView.tsx:61-80 | in Auto mode a URL whose host parses is filed as Resources with its link card; otherwise the model's category is used |
| `DailyView.NewLinkNotPinned` | components/DailyView.tsx:70-76 | adding a task leaves the pinned list unchanged |
| `DailyView.DailyForm.constructor` | components/DailyView.tsx:26-28 | the form opens on today, with an empty title and Auto |
| `DailyView.IsUrl` | components/DailyView.tsx:50 | a text taken for a URL has at least the four characters of `http` |
| `DailyView.DailyForm.HandleAddTask` | components/DailyView.tsx:52-88 | a blank title adds nothing; otherwise the planned task goes through `addNewTask` and the title is cleared |
| `DailyView.FindTask` | components/DailyView.tsx:91 | `find`: the first task of the list with the id, or none exactly when no task has it |
| `DailyView.DailyToggle` | components/DailyView.tsx:90-94 | a Resources task found first is not toggled |
| `DailyView.FindAfterFlip` | components/DailyView.tsx:91-93 | flipping does not change which task is found first or its category |
| `DailyView.DailyToggleTwice` | components/DailyView.tsx:90-94 | two clicks give the list back |
| `DailyView.DailyToggleEffect` | components/DailyView.tsx:93 | otherwise only `completed` of the tasks with the id changes |
| `DailyView.ToggleTask` | components/DailyView.tsx:90-94 | the tasks become `DailyToggle`; the invariant is kept |
| `DailyView.DeleteTask` | components/DailyView.tsx:96-99 | the tasks become `RemoveTask`; the invariant is kept |
| `DailyView.ClickCard` | components/DailyView.tsx:239-245 | a Resources card or an archive card with items does nothing; any other card toggles |
| `DailyView.CardToggles` | components/DailyView.tsx:239-245 | Resources cards and archive cards with items do not toggle; Projects and Areas cards do |
| `DailyView.ArchiveCardIsInert` | components/DailyView.tsx:240-245 | the archive task of a finished project is never toggled by a click |
| `DailyView.DateToneOf` | components/DailyView.tsx:305 | past and future colours follow string order against today |
| `DailyView.DateToneChronological` | components/DailyView.tsx:305 | on well-formed keys the colour follows the calendar |
| `ProjectView.TrimAll` | components/ProjectView.tsx:66 | one trimmed title per piece |
| `ProjectView.InitialTitles` | components/ProjectView.tsx:65-66 | each title is trimmed, non-empty and comma-free; there are at most as many as pieces |
| `ProjectView.InitialTitlesOfJoin` | components/ProjectView.tsx:65-66 | trimmed, non-blank, comma-free titles joined with commas read back unchanged |
| `ProjectView.InitialTitlesSingle` | components/ProjectView.tsx:65-66 | a field without commas gives the trimmed text, or nothing when blank |
| `ProjectView.NewProject` | components/ProjectView.tsx:52-61 | In Progress, no items, the slug, and the form's title, description, term and deadline |
| `ProjectView.NewProjectFirst` | components/ProjectView.tsx:63-67 | after the first items, the new project is first and holds one open undated item per title, in order. Every other project is unchanged |
| `ProjectView.SelectedProject` | components/ProjectView.tsx:37-39 | nothing when nothing is selected; otherwise the first project of the list with that id, or nothing exactly when no project has it |
| `ProjectView.SelectionFollowsState` | components/ProjectView.tsx:37-39 | the dialog shows the updated project, and closes when it is deleted |
| `ProjectView.DeleteFromDetail` | components/ProjectView.tsx:170-173 | exactly the projects of other ids remain |
| `ProjectView.DeleteFromDetailKeepsTasks` | components/ProjectView.tsx:170-173 | this delete leaves the project's tasks in place, unlike the cascade; the project lists agree |
| `ProjectView.CreateProject` | components/ProjectView.tsx:50-67 | the new state is `AddedProject`; the invariant is kept |
| `ProjectView.Board.constructor` | components/ProjectView.tsx:19-30 | empty form, closed, nothing selected |
| `ProjectView.Board.Select` | components/ProjectView.tsx:95 | opening a card selects its id |
| `ProjectView.Board.AddProject` | components/ProjectView.tsx:48-71 | a blank title does nothing; otherwise the project is created as `AddedProject` and the form is reset and closed |
| `ProjectView.Board.DeleteSelected` | components/ProjectView.tsx:170-173 | the selected project leaves the list, tasks untouched, and the dialog closes |
| `ProjectDetail.Insert` | components/ProjectDetailModal.tsx:42-47 | insertion keeps the multiset |
| `ProjectDetail.SortedItems` | components/ProjectDetailModal.tsx:41-48 | the sorted list is a permutation of the items |
| `ProjectDetail.NotBeforeTransitive` | components/ProjectDetailModal.tsx:42-47 | the comparator is a strict weak order |
| `ProjectDetail.BeforeAsymmetric` | components/ProjectDetailModal.tsx:42-47 | no two items each come before the other |
| `ProjectDetail.ItemBefore` | components/ProjectDetailModal.tsx:42-47 | only a dated item comes before another |
| `ProjectDetail.InsertSorted` | components/ProjectDetailModal.tsx:42-47 | inserting into a sorted list keeps it sorted |
| `ProjectDetail.SortedItemsSorted` | components/ProjectDetailModal.tsx:41-48 | dated items come first, in ascending deadline order |
| `ProjectDetail.SortedItemsOrder` | components/ProjectDetailModal.tsx:41-48 | no undated item stands before a dated one, and dated deadlines do not decrease |
| `ProjectDetail.InsertKeepsUndated` | components/ProjectDetailModal.tsx:42-47 | insertion keeps the undated items in order |
| `ProjectDetail.SortedItemsKeepUndatedOrder` | components/ProjectDetailModal.tsx:41-48 | the sort is stable for the undated items |
| `ProjectDetail.SaveHeader` | components/ProjectDetailModal.tsx:50-51 | the edited title, description and deadline are overlaid; every other field is kept |
| `ProjectDetail.SaveHeaderRoundTrip` | components/ProjectDetailModal.tsx:50-51 | saving without edits gives the project back; saving twice equals saving once |
| `ProjectDetail.DefaultDeadline` | components/ProjectDetailModal.tsx:63 | the project's deadline, or today when it is empty |
| `ProjectDetail.StepItem` | components/ProjectDetailModal.tsx:59-64 | an open item with the step as title and the given deadline |
| `ProjectDetail.AddSteps` | components/ProjectDetailModal.tsx:58-65 | the projects keep their number |
| `ProjectDetail.AddStepsPreservesUnique` | components/ProjectDetailModal.tsx:58-65 | the additions keep at most one mirror per item |
| `ProjectDetail.BreakdownAppends` | components/ProjectDetailModal.tsx:55-66 | each project with the id ends with one new open item per step, in step order |
| `ProjectDetail.DetailDialog.constructor` | components/ProjectDetailModal.tsx:20-29 | the edit buffer holds the project's values; the new item is due today |
| `ProjectDetail.DetailDialog.HandleSaveHeader` | components/ProjectDetailModal.tsx:50-53 | the overlaid project goes through the update handler and editing ends |
| `ProjectDetail.DetailDialog.HandleAddNewItem` | components/ProjectDetailModal.tsx:69-83 | a blank title adds nothing; otherwise one open item with the trimmed title and the chosen date is added and the title cleared |
| `ProjectDetail.HandleBreakdown` | components/ProjectDetailModal.tsx:55-66 | an answered call adds one item per step, due on the project deadline or today; a rejected call changes nothing in the store |
| `ProjectDetail.AddItems` | components/ProjectDetailModal.tsx:58-65 | the loop yields `AddSteps` |
| `ProjectDetail.AddItem` | components/ProjectDetailModal.tsx:59-64 | one fresh id, then the item addition |
| `ProjectDetail.ToggledItem` | components/ProjectDetailModal.tsx:183 | only `completed` is negated |
| `ProjectDetail.ToggledItemTwice` | components/ProjectDetailModal.tsx:183 | toggling twice gives the item back |
| `ProjectDetail.ToggleItem` | components/ProjectDetailModal.tsx:183 | the toggled item goes through the item handler |
| `ProjectDetail.EditItemTitle` | components/ProjectDetailModal.tsx:193 | the item with the new title goes through the item handler |
| `ProjectDetail.EditItemDeadline` | components/ProjectDetailModal.tsx:210 | the item with the new date goes through the item handler |
| `ProjectDetail.RemoveItem` | components/ProjectDetailModal.tsx:197 | the item goes through the remove handler |
| `ProjectDetail.ClearingDeadlineRemovesMirror` | components/ProjectDetailModal.tsx:209-210 | clearing an item's date removes its mirror task |
| `ProjectDetail.OverdueItemChronological` | components/ProjectDetailModal.tsx:217 | the marker means "due on a past day and still open" |
| `ProjectDetail.IsOverdueItem` | components/ProjectDetailModal.tsx:217 | a marked item is open and has a deadline other than today |
| `ProjectDetail.OverdueItemMatchesMirror` | components/ProjectDetailModal.tsx:217 | an item is marked overdue exactly when its mirror task is on the overdue board |
| `OverdueView.OverdueTasks` | components/OverdueView.tsx:16-18 | exactly the open tasks dated before today |
| `OverdueView.IsOverdue` | components/OverdueView.tsx:17 | an overdue task is open and not dated today |
| `OverdueView.OverdueIsChronological` | components/OverdueView.tsx:17 | on well-formed keys, overdue means open and filed on a past day |
| `OverdueView.TodayNotOverdue` | components/OverdueView.tsx:17 | today's and later tasks are never overdue |
| `OverdueView.ProjectOverdue` | components/OverdueView.tsx:20 | exactly the tasks that have a project link or are Projects |
| `OverdueView.AreaOverdue` | components/OverdueView.tsx:21 | exactly the Areas tasks without a project link |
| `OverdueView.OtherOverdue` | components/OverdueView.tsx:22 | exactly the tasks that are neither Projects nor Areas |
| `OverdueView.GroupsPartition` | components/OverdueView.tsx:20-22 | the project and area groups are disjoint, and every task lands in some group. A linked Resources or Archives task is in both the project and the other group |
| `OverdueView.GroupSizes` | components/OverdueView.tsx:20-21 | the project and area groups together fit in the list |
| `OverdueView.Ids` | components/OverdueView.tsx:167 | the ids in list order |
| `OverdueView.MovedTo` | components/OverdueView.tsx:167 | the list keeps its length |
| `OverdueView.MoveAllEffect` | components/OverdueView.tsx:167 | after "move all", every task that was overdue is dated today, and every other task is unchanged |
| `OverdueView.HandleMoveToToday` | components/OverdueView.tsx:24-26 | one task is moved to today through the date handler |
| `OverdueView.MoveAllToToday` | components/OverdueView.tsx:167 | the loop yields `MovedTo` over the overdue ids |
| `OverdueView.ToggleTask` | components/OverdueView.tsx:28-30 | a plain flip with no Resources exemption |
| `OverdueView.DeleteTask` | components/OverdueView.tsx:32-34 | only the tasks with the id are removed |
| `WeeklySummary.GetDaySummary` | components/WeeklySummary.tsx:26-40 | the total is the day's task count, and the two counts fit in it |
| `WeeklySummary.DaySummaryCounts` | components/WeeklySummary.tsx:27-38 | each count is the number of the day's tasks in that group |
| `WeeklySummary.LinkedAreaTaskIsProjectWork` | components/WeeklySummary.tsx:30-33 | a linked Areas task counts as project work only |
| `WeeklySummary.ActiveProjectTotal` | components/WeeklySummary.tsx:17 | the number of In Progress projects |
| `WeeklySummary.GetDayNum` | components/WeeklySummary.tsx:48 | a day number exists exactly when the key has at least three dash-separated fields, and it holds no dash |
| `WeeklySummary.DayNumOfKey` | components/WeeklySummary.tsx:48 | on a formatted key, the day number is the two-digit day |
| `GoogleSync.MappingKeys` | components/GoogleSync.tsx:34-37 | the dictionary's keys are exactly the result ids |
| `GoogleSync.MappingLastWins` | components/GoogleSync.tsx:34-37 | an entry holds the last result of its id |
| `GoogleSync.MappingOf` | components/GoogleSync.tsx:34-37 | every result id has an entry |
| `GoogleSync.FallbackMappingAreas` | components/GoogleSync.tsx:34-37 | with the fallback mapping every entry is Areas |
| `GoogleSync.FallbackCoversEvents` | components/GoogleSync.tsx:30-40 | when mapping fails on generated events, every event has an Areas entry |
| `GoogleSync.ImportCategory` | components/GoogleSync.tsx:47 | the mapped category, or Areas without an entry |
| `GoogleSync.ImportedTask` | components/GoogleSync.tsx:43-50 | the new task has the id, the summary as title, is open and dated today; its category is the mapped one, or Areas without an entry; it has no links |
| `GoogleSync.ImportedTasks` | components/GoogleSync.tsx:43-50 | one task per event |
| `GoogleSync.ImportedTasksShape` | components/GoogleSync.tsx:43-50 | in event order: the summary as title, open, dated today, the mapped category or Areas, the time range as notes, no links, distinct ids |
| `GoogleSync.ImportAllAreas` | components/GoogleSync.tsx:47 | when every entry is Areas, every imported task is Areas |
| `GoogleSync.ImportedKeepsTasks` | components/GoogleSync.tsx:51 | the earlier tasks stay behind one new task per event; the projects are unchanged |
| `GoogleSync.MintTasks` | components/GoogleSync.tsx:43-50 | the loop yields `ImportedTasks`, drawing one id per event |
| `GoogleSync.SyncPanel.constructor` | components/GoogleSync.tsx:17-18 | no events and no mapping |
| `GoogleSync.SyncPanel.SyncAccount` | components/GoogleSync.tsx:23-28 | an answered call sets the events to the generated ones and clears `isSyncing`; a rejected call leaves the events unchanged and `isSyncing` set; the mapping is untouched |
| `GoogleSync.SyncPanel.AutoCategorize` | components/GoogleSync.tsx:30-40 | nothing happens without events. An answered call builds the dictionary from the result and clears `isMapping`; a rejected call leaves the dictionary unchanged and `isMapping` set. The events are untouched |
| `GoogleSync.SyncPanel.ImportAll` | components/GoogleSync.tsx:42-55 | the tasks are imported and both fields emptied; the spinner flags are untouched; the invariant is kept |
| `Gemini.CategoryFromText` | services/geminiService.ts:21-25 | first match in the order Projects, Areas, Resources; otherwise Archives |
| `Gemini.CategoryFromLiteral` | services/geminiService.ts:21-25 | an exact literal yields its category |
| `Gemini.ArchivesLacksAreas` | services/geminiService.ts:23 | "Archives" does not contain "Areas" |
| `Gemini.SanitizeSlug` | services/geminiService.ts:62 | only a-z, 0-9 and '-', never longer than the input |
| `Gemini.SanitizeKeepsSlug` | services/geminiService.ts:62 | a slug passes through unchanged |
| `Gemini.SanitizeIdempotent` | services/geminiService.ts:62 | cleaning twice equals cleaning once |
| `Gemini.SanitizeLowersLetters` | services/geminiService.ts:62 | upper-case letters survive as lower-case ones |
| `Gemini.FallbackSlug` | services/geminiService.ts:64 | at most 10 characters, no whitespace, no upper case |
| `Gemini.FallbackSlugTwoWords` | services/geminiService.ts:64 | a short input of two words around a whitespace run becomes the two words in lower case joined by one '-' |
| `Gemini.GenerateShortSlug` | services/geminiService.ts:48-66 | no whitespace; only slug characters from an answer; at most 10 without one |
| `Gemini.SummarizeLink` | services/geminiService.ts:28-43 | the trimmed answer, or the host name |
| `Gemini.SummarizeDropsWww` | services/geminiService.ts:41 | a leading `www.` is dropped |
| `Gemini.BreakdownSteps` | services/geminiService.ts:86-90 | the parsed steps, or five non-blank defaults |
| `Gemini.DefaultStepsDistinct` | services/geminiService.ts:89 | the default steps differ pairwise |
| `Gemini.FallbackMappings` | services/geminiService.ts:122 | one Areas entry per event |
| `Gemini.FallbackMappingIds` | services/geminiService.ts:122 | each id reads back as its position plus one, and the ids are distinct |
| `Gemini.FallbackIdsParse` | services/geminiService.ts:122 | each id reads back as its position plus one |
| `Gemini.FallbackIdsDistinct` | services/geminiService.ts:122 | the ids are pairwise distinct |
| `Gemini.FallbackId` | services/geminiService.ts:122 | the i-th id is `String(i + 1)` |
| `Gemini.MapEvents` | services/geminiService.ts:119-123 | the parsed mapping, or the fallback |
| `Gemini.GeneratedEvents` | services/geminiService.ts:150-155 | no events on failure; otherwise one per draft, in order, with the draft's fields and id `String(i + 1)` |
| `Gemini.FallbackMatchesEvents` | services/geminiService.ts:152 | the generated events and the fallback entries share ids by position |
| `Login.Decide` | components/Login.tsx:21-44 | registering needs a confirmed password of at least 4 UTF-16 code units; accepting needs the saved one; a refusal carries one of the three messages |
| `Login.LengthInCodeUnits` | components/Login.tsx:26-35 | "a😀b" has length 4 in code units and is long enough to register |
| `Login.LoginIff` | components/Login.tsx:25-43 | a submit lets the user in exactly when it registers or repeats the saved password |
| `Login.LengthCheckedFirst` | components/Login.tsx:26-29 | a short password is refused as too short before the match check |
| `Login.FirstTimeIgnoresStorage` | components/Login.tsx:25-35 | first-time mode never reads the saved password |
| `Login.ReturningWithoutSaved` | components/Login.tsx:37-42 | a returning user without a saved password cannot log in |
| `Login.LoginGate.constructor` | components/Login.tsx:14-19 | first-time mode exactly when nothing (or the empty string) is saved |
| `Login.LoginGate.SetPassword` | components/Login.tsx:71 | the field takes the text and the error clears |
| `Login.LoginGate.SetConfirmPassword` | components/Login.tsx:84 | the field takes the text and the error clears |
| `Login.LoginGate.HandleSubmit` | components/Login.tsx:21-44 | a refusal sets the message and stores nothing, clearing the field for a wrong password. A registration stores the password before logging in. An accepted password logs in |
| `Strings.Trim` | components/DailyView.tsx:54 | no whitespace at either end; empty exactly for a blank string |
| `Strings.TrimNoWhitespace` | components/ProjectView.tsx:66 | trimming a string without whitespace changes nothing |
| `Strings.ToLower` | App.tsx:152 | same length, per-character lower case |
| `Strings.ReplaceFirst` | services/geminiService.ts:41 | `replace` with a string pattern changes only the first occurrence |
| `Strings.FirstIndex` | services/geminiService.ts:41 | the pattern occurs at the index found and at no earlier index |
| `Strings.ReplaceFirstAt` | services/geminiService.ts:41 | the result is the text before the first occurrence, the replacement, then the text after that occurrence |
| `Strings.ReplaceLeading` | services/geminiService.ts:41 | a leading occurrence is the one replaced |
| `Strings.HyphenateWhitespace` | App.tsx:161 | the result has no whitespace and is never longer |
| `Strings.HyphenateBlank` | App.tsx:161 | a whole whitespace run becomes one '-' |
| `Strings.HyphenateConcat` | App.tsx:161 | texts joined outside a whitespace run hyphenate piece by piece |
| `Strings.HyphenateRun` | App.tsx:161 | a whitespace run between two non-whitespace neighbours becomes exactly one '-' |
| `Strings.HyphenateTwoWords` | App.tsx:161 | two words around a whitespace run, lower-cased, become the lower-case words joined by one '-' |
| `Strings.HyphenateChars` | App.tsx:161 | only '-' and input characters appear |
| `Strings.HyphenateNoWhitespace` | App.tsx:161 | text without whitespace is unchanged |
| `Strings.Split` | components/ProjectView.tsx:65 | always at least one piece |
| `Strings.SplitPiecesLackSeparator` | components/ProjectView.tsx:65 | no piece holds the separator |
| `Strings.SplitJoin` | components/ProjectView.tsx:65 | splitting undoes joining |
| `Strings.PadStart2` | services/dateService.ts:19-20 | at least two characters, the input at the end |
| `Strings.NatToStringRoundTrip` | services/geminiService.ts:152 | `String(n)` reads back as n |
| `Strings.NatToStringInjective` | services/geminiService.ts:152 | different numbers render differently |
| `Strings.NatToString` | services/dateService.ts:19-20 | `String(n)` is at least one character, all digits |
| `Strings.Utf16Length` | components/Login.tsx:26 | the UTF-16 length lies between the number of scalar values and twice it, and equals it inside the Basic Multilingual Plane |
| `Strings.LexLessTrichotomy` | components/OverdueView.tsx:17 | string `<` is a strict total order |
| `Strings.LexLessTransitive` | components/OverdueView.tsx:17 | string `<` is transitive |
| `Strings.LexLess` | components/OverdueView.tsx:17 | nothing is below the empty string |
| `Strings.DigitsLexLess` | services/dateService.ts:19-20 | on digit strings of one width, `<` is numeric order |

## Left out

- Rendering, class names, modals and `Layout.tsx`: presentation only.
- Loading and saving through `localStorage` and `JSON` (App.tsx:14-27): the store's constructor takes the loaded collections, and malformed stored JSON is not modelled.
- The language-model, network and `URL` calls, and `Promise.all`: their results are parameters. `summarizeLink` and `generateShortSlug` call the service inside their `try`, so their answer is `Some(text)`, or `None` when the call or the parse throws. `breakdownProject`, `smartMapEventsToPara` and `generateSmartMockEvents` call it before their `try`, so their reply is `Rejected` when the call's promise rejects, or `Answered(parsed)` with `parsed` `None` when the parse throws. The parsed host name stands for `new URL(...)`.
- The prompt texts of the service calls are not modelled.
- The clock: `today` and the local date are parameters. `next7Days` date arithmetic and the `Intl`/`toLocaleDateString` day names are not modelled.
- `crypto.randomUUID`: ids come from a counter, where the n-th id is `MintId(n)`. Every matching project in `handleAddProjectItem` draws one id, although only the first sync can use it.
- The `setTimeout` deferral of archival (App.tsx:110): archival happens in the same step. The window in which the project is gone but its archive task is not yet there is not modelled.
- Setter calls nested inside React updaters (App.tsx:114, 122, 130) run as consecutive updates, in the order the updater meets them. React strict-mode double invocation is not modelled.
- Progress percentages: `Math.round((c/t)*100)` is modelled as integer round-half-up, `(200c + t) / (2t)`, not in floating point.
- `localeCompare` in the item sort is modelled as the order of `Strings.LexLess`, like string `<`. Locale collation is not modelled; on the `YYYY-MM-DD` deadlines the item sort compares, both orders agree.
- Strings are sequences of Unicode scalar values, while JavaScript strings are sequences of UTF-16 code units. Where a rule depends on `length`, the model counts code units with `Strings.Utf16Length` (the password rule of `Login.Decide`). Other lengths and slices count scalar values, which agrees with JavaScript on text inside the Basic Multilingual Plane.
- `Gemini.FallbackSlug`: keeps the first 10 characters, whereas `substring(0, 10)` keeps the first 10 UTF-16 code units. The two agree on text inside the Basic Multilingual Plane; a cut through a surrogate pair leaves half a pair, which has no `char` to stand for it.
- `Strings.LexLess`: compares Unicode scalar values, whereas JavaScript's `<` compares UTF-16 code units. The two orders differ only when a character above U+FFFF meets one in U+E000..U+FFFF.
- Case folding, `trim` and `\s` cover ASCII only.
- `alert` and `confirm`: both are left out, and the delete confirmation is taken as accepted.
- The `isAiLoading` flag of the project dialog, modal visibility toggles other than `showAddModal`, and the expanded-archive toggle: view state with no effect on the data. After a rejected breakdown call `isAiLoading` stays set; `ProjectDetail.HandleBreakdown` states only that the store is unchanged. The calendar panel's `isSyncing` and `isMapping` are modelled as fields of `GoogleSync.SyncPanel`.
- A category answer outside the four literals is not modelled. The mapping service's categories are assumed to be one of the four.
- `Derived.Progress`: states only the bounds and the empty case; the exact value is stated about the rounding formula by `Derived.RoundedPercent`.
- `DailyView.LinkMeta`: states the domain only for host names without `www.`; for the others `Gemini.SummarizeDropsWww` covers the leading case.
- `Gemini.SummarizeLink`: states the host-name fallback only for host names without `www.`, for the same reason.

## Behaviour kept as the code has it

The model keeps these behaviours as the code has them. Each bullet states the evident intent and the lemma that exhibits the difference.

- The evident intent is that every item edit reaches its mirror task. When an edit finishes its project, the project is archived, but the `return` at App.tsx:111 comes before the sync at App.tsx:114. The mirror task therefore keeps its old state, for example still open. `Engine.FinishingEditLeavesMirrorStale` exhibits this.
- The evident intent is that a project whose items are all done is archived. Removing the last open item (App.tsx:127-133) does not archive the project, even when every remaining item is done. `Engine.RemoveItemLeavesFinishedProject` exhibits this.
- The evident intent is that deleting a project removes its tasks, as the root handler's cascade does. Deleting from the project board's dialog (components/ProjectView.tsx:170-173) removes only the project and keeps its tasks, as `ProjectView.DeleteFromDetailKeepsTasks` states.
