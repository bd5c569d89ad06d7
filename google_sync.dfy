/** The calendar import panel: fetch the day's events, let the mapping
    service assign each a PARA category, and turn every event into a task for
    today. The two service calls arrive as their parsed answers. */
module GoogleSync {
  import opened Types
  import opened Engine
  import Gemini
  import opened App

  /** The value stored under an event id: `{ category, reason }`. */
  datatype Assignment = Assignment(category: ParaCategory, reason: string)

  // autoCategorize

  /** `result.forEach(item => { mappingObj[item.id] = ... })`: entries are
      written in order, so a later entry with the same id overwrites an
      earlier one. */
  function MappingOf(result: seq<Gemini.EventMapping>): (m: map<string, Assignment>)
    ensures forall i :: 0 <= i < |result| ==> result[i].id in m
  {
    if result == [] then map[]
    else
      var last := result[|result| - 1];
      MappingOf(result[..|result| - 1])[last.id := Assignment(last.category, last.reason)]
  }

  /** The keys are exactly the ids of the result. */
  lemma {:induction false} MappingKeys(result: seq<Gemini.EventMapping>)
    ensures forall id :: id in MappingOf(result) <==> exists i :: 0 <= i < |result| && result[i].id == id
  {
    if result != [] {
      var init := result[..|result| - 1];
      var last := result[|result| - 1];
      assert MappingOf(result) == MappingOf(init)[last.id := Assignment(last.category, last.reason)];
      MappingKeys(init);
      forall id | id in MappingOf(result)
        ensures exists i :: 0 <= i < |result| && result[i].id == id
      {
        if id != last.id {
          assert id in MappingOf(init);
          var i :| 0 <= i < |init| && init[i].id == id;
          assert result[i] == init[i];
        }
      }
      forall id | exists i :: 0 <= i < |result| && result[i].id == id
        ensures id in MappingOf(result)
      {
        var i :| 0 <= i < |result| && result[i].id == id;
        if i < |init| {
          assert init[i] == result[i];
        }
      }
    }
  }

  /** An entry holds the last result item of its id. */
  lemma {:induction false} MappingLastWins(result: seq<Gemini.EventMapping>, i: nat)
    requires i < |result|
    requires forall j :: i < j < |result| ==> result[j].id != result[i].id
    ensures result[i].id in MappingOf(result)
    ensures MappingOf(result)[result[i].id] == Assignment(result[i].category, result[i].reason)
  {
    if i < |result| - 1 {
      var init := result[..|result| - 1];
      assert init[i] == result[i];
      MappingLastWins(init, i);
    }
  }

  /** With the fallback mapping every entry is Areas. */
  lemma {:induction false} FallbackMappingAreas(result: seq<Gemini.EventMapping>)
    requires forall i :: 0 <= i < |result| ==> result[i].category == Areas
    ensures forall id :: id in MappingOf(result) ==> MappingOf(result)[id].category == Areas
  {
    if result != [] {
      var init := result[..|result| - 1];
      assert forall i :: 0 <= i < |init| ==> init[i] == result[i];
      FallbackMappingAreas(init);
    }
  }

  /** When the mapping service fails on generated events, every event gets an
      entry, and every entry is Areas. */
  lemma FallbackCoversEvents(drafts: seq<Gemini.EventDraft>)
    ensures var events := Gemini.GeneratedEvents(Some(drafts));
      var m := MappingOf(Gemini.MapEvents(events, None));
      (forall i :: 0 <= i < |events| ==> events[i].id in m && m[events[i].id].category == Areas)
  {
    var events := Gemini.GeneratedEvents(Some(drafts));
    var result := Gemini.FallbackMappings(events);
    Gemini.FallbackMatchesEvents(drafts);
    MappingKeys(result);
    FallbackMappingAreas(result);
    forall i | 0 <= i < |events|
      ensures events[i].id in MappingOf(result)
    {
      assert result[i].id == events[i].id;
    }
  }

  // importAll

  /** The category an event is imported under: its mapping entry's, or Areas. */
  function ImportCategory(e: CalendarEvent, mappings: map<string, Assignment>): (c: ParaCategory)
    ensures e.id !in mappings ==> c == Areas
    ensures e.id in mappings ==> c == mappings[e.id].category
  {
    if e.id in mappings then mappings[e.id].category else Areas
  }

  function ImportNote(e: CalendarEvent): string {
    "Imported from Google Calendar (" + e.start + " - " + e.end + ")"
  }

  /** The task one event becomes. */
  function ImportedTask(e: CalendarEvent, mappings: map<string, Assignment>, today: string, id: string): (t: Task)
    ensures t.id == id && t.title == e.summary && !t.completed && t.date == today
    ensures e.id in mappings ==> t.category == mappings[e.id].category
    ensures e.id !in mappings ==> t.category == Areas
    ensures t.projectId.None? && t.projectItemId.None?
  {
    Task(id, e.summary, false, ImportCategory(e, mappings), today, None, Some(ImportNote(e)), None, None, None, None)
  }

  /** `events.map(...)`, the i-th task taking the fresh id `MintId(n0 + i)`. */
  function ImportedTasks(events: seq<CalendarEvent>, mappings: map<string, Assignment>, today: string,
                         n0: nat): (r: seq<Task>)
    ensures |r| == |events|
  {
    seq(|events|, i requires 0 <= i < |events| => ImportedTask(events[i], mappings, today, MintId(n0 + i)))
  }

  /** One task per event, in event order: the event's summary as title, not
      done, dated today, with the mapped category or Areas, the time range in
      the notes, linked to no project; no two share an id. */
  lemma ImportedTasksShape(events: seq<CalendarEvent>, mappings: map<string, Assignment>, today: string, n0: nat)
    ensures var r := ImportedTasks(events, mappings, today, n0);
      |r| == |events|
      && (forall i :: 0 <= i < |r| ==>
            r[i].title == events[i].summary && !r[i].completed && r[i].date == today
            && (events[i].id in mappings ==> r[i].category == mappings[events[i].id].category)
            && (events[i].id !in mappings ==> r[i].category == Areas)
            && r[i].notes == Some("Imported from Google Calendar (" + events[i].start + " - " + events[i].end + ")")
            && r[i].projectId.None? && r[i].projectItemId.None?)
      && (forall i, j :: 0 <= i < j < |r| ==> r[i].id != r[j].id)
  {
    var r := ImportedTasks(events, mappings, today, n0);
    forall i, j | 0 <= i < j < |r|
      ensures r[i].id != r[j].id
    {
      MintIdInjective(n0 + i, n0 + j);
    }
  }

  /** When every entry is Areas, as after the fallback mapping, every
      imported task is Areas. */
  lemma ImportAllAreas(events: seq<CalendarEvent>, mappings: map<string, Assignment>, today: string, n0: nat)
    requires forall id :: id in mappings ==> mappings[id].category == Areas
    ensures forall t :: t in ImportedTasks(events, mappings, today, n0) ==> t.category == Areas
  {
  }

  lemma ImportedTasksSnoc(events: seq<CalendarEvent>, mappings: map<string, Assignment>, today: string,
                          n0: nat, i: nat)
    requires i < |events|
    ensures ImportedTasks(events[..i + 1], mappings, today, n0)
         == ImportedTasks(events[..i], mappings, today, n0) + [ImportedTask(events[i], mappings, today, MintId(n0 + i))]
  {
  }

  /** The store after the import: the new tasks in front, one id drawn per
      event. */
  function Imported(s: AppState, events: seq<CalendarEvent>, mappings: map<string, Assignment>,
                    today: string): AppState
  {
    s.(tasks := ImportedTasks(events, mappings, today, s.nextId) + s.tasks, nextId := s.nextId + |events|)
  }

  /** Importing keeps every earlier task, behind one new task per event, each
      dated today. */
  lemma ImportedKeepsTasks(s: AppState, events: seq<CalendarEvent>, mappings: map<string, Assignment>, today: string)
    ensures var r := Imported(s, events, mappings, today);
      |r.tasks| == |s.tasks| + |events|
      && (forall t :: t in s.tasks ==> t in r.tasks)
      && r.tasks[|events|..] == s.tasks
      && (forall i :: 0 <= i < |events| ==> r.tasks[i].date == today && r.tasks[i].title == events[i].summary)
      && r.projects == s.projects
  {
  }

  /** The `events.map` of `importAll`, drawing one fresh id per event. */
  method MintTasks(store: Store, events: seq<CalendarEvent>, mappings: map<string, Assignment>, today: string)
    returns (newTasks: seq<Task>)
    modifies store
    ensures newTasks == ImportedTasks(events, mappings, today, old(store.nextId))
    ensures store.State() == old(store.State()).(nextId := old(store.nextId) + |events|)
  {
    ghost var s0 := store.State();
    newTasks := [];
    var i := 0;
    while i < |events|
      invariant 0 <= i <= |events|
      invariant newTasks == ImportedTasks(events[..i], mappings, today, s0.nextId)
      invariant store.State() == s0.(nextId := s0.nextId + i)
    {
      ImportedTasksSnoc(events, mappings, today, s0.nextId, i);
      var id := store.FreshId();
      newTasks := newTasks + [ImportedTask(events[i], mappings, today, id)];
      i := i + 1;
    }
    assert events[..i] == events;
  }

  class SyncPanel {
    var events: seq<CalendarEvent>
    var mappings: map<string, Assignment>
    var isSyncing: bool
    var isMapping: bool

    constructor()
      ensures events == [] && mappings == map[]
      ensures !isSyncing && !isMapping
    {
      events := [];
      mappings := map[];
      isSyncing := false;
      isMapping := false;
    }

    /** `syncAccount`, given the event generator's reply. A rejected call
        stops the handler after `setIsSyncing(true)`: the events stay as they
        were and the spinner stays on. */
    method SyncAccount(reply: Gemini.Reply<seq<Gemini.EventDraft>>)
      modifies this
      ensures reply.Rejected? ==> events == old(events) && isSyncing
      ensures reply.Answered? ==> events == Gemini.GeneratedEvents(reply.parsed) && !isSyncing
      ensures mappings == old(mappings) && isMapping == old(isMapping)
    {
      isSyncing := true;
      if reply.Rejected? {
        return;
      }
      events := Gemini.GeneratedEvents(reply.parsed);
      isSyncing := false;
    }

    /** `autoCategorize`, given the mapping service's reply: nothing happens
        without events; a rejected call leaves the entries alone and the
        spinner on; otherwise the entries are rebuilt from the result. */
    method AutoCategorize(reply: Gemini.Reply<seq<Gemini.EventMapping>>)
      modifies this
      ensures old(events) == [] ==> mappings == old(mappings) && isMapping == old(isMapping)
      ensures old(events) != [] && reply.Rejected? ==> mappings == old(mappings) && isMapping
      ensures old(events) != [] && reply.Answered? ==>
        mappings == MappingOf(Gemini.MapEvents(old(events), reply.parsed)) && !isMapping
      ensures events == old(events) && isSyncing == old(isSyncing)
    {
      if |events| == 0 {
        return;
      }
      isMapping := true;
      if reply.Rejected? {
        return;
      }
      var result := Gemini.MapEvents(events, reply.parsed);
      var m := map[];
      var i := 0;
      while i < |result|
        invariant 0 <= i <= |result|
        invariant m == MappingOf(result[..i])
      {
        assert result[..i + 1][..i] == result[..i];
        m := m[result[i].id := Assignment(result[i].category, result[i].reason)];
        i := i + 1;
      }
      assert result[..i] == result;
      mappings := m;
      isMapping := false;
    }

    /** `importAll`: the tasks go to the front of the daily list and the
        panel empties. */
    method ImportAll(store: Store, today: string)
      modifies this, store
      ensures store.State() == Imported(old(store.State()), old(events), old(mappings), today)
      ensures events == [] && mappings == map[]
      ensures isSyncing == old(isSyncing) && isMapping == old(isMapping)
      ensures old(MirrorsUnique(store.tasks)) ==> MirrorsUnique(store.tasks)
    {
      var newTasks := MintTasks(store, events, mappings, today);
      ImportedTasksShape(events, mappings, today, old(store.nextId));
      store.ImportTasks(newTasks);
      events := [];
      mappings := map[];
    }
  }
}
