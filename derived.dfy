/** List rules that several views share: the active-project filter, the
    tasks of one day, the completion percentage, and the toggle and delete
    updaters over the task list. */
module Derived {
  import opened Seqs
  import opened Types
  import Engine

  function IsActive(p: Project): bool {
    p.status == InProgress
  }

  /** `projects.filter(p => p.status === 'In Progress')`. */
  function ActiveProjects(ps: seq<Project>): (r: seq<Project>)
    ensures forall p :: p in r <==> p in ps && p.status == InProgress
  {
    Filter(ps, IsActive)
  }

  /** The active projects keep their relative order, and a second filter
      removes nothing. */
  lemma ActiveProjectsIdempotent(ps: seq<Project>)
    ensures ActiveProjects(ActiveProjects(ps)) == ActiveProjects(ps)
  {
    FilterIdempotent(ps, IsActive);
  }

  /** The header count of active projects is the length of that list. */
  lemma ActiveProjectCount(ps: seq<Project>)
    ensures |ActiveProjects(ps)| == Count(ps, IsActive)
  {
    FilterLength(ps, IsActive);
  }

  function OnDate(date: string): Task -> bool {
    (t: Task) => t.date == date
  }

  /** `tasks.filter(t => t.date === date)`. */
  function TasksOn(ts: seq<Task>, date: string): (r: seq<Task>)
    ensures forall t :: t in r <==> t in ts && t.date == date
  {
    Filter(ts, OnDate(date))
  }

  /** The lists for two different days never share a task, so together they
      hold at most every task. */
  lemma TasksOnDisjoint(ts: seq<Task>, d1: string, d2: string)
    requires d1 != d2
    ensures forall t :: !(t in TasksOn(ts, d1) && t in TasksOn(ts, d2))
    ensures |TasksOn(ts, d1)| + |TasksOn(ts, d2)| <= |ts|
  {
    FilterLength(ts, OnDate(d1));
    FilterLength(ts, OnDate(d2));
    CountDisjoint(ts, OnDate(d1), OnDate(d2));
  }

  /** Project work: `t.projectId || t.category === 'Projects'`. */
  predicate ProjectRelated(t: Task) {
    Present(t.projectId) || t.category == Projects
  }

  /** Plain area work: `t.category === 'Areas' && !t.projectId`. */
  predicate GeneralArea(t: Task) {
    t.category == Areas && !Present(t.projectId)
  }

  // Completion percentage

  /** The completion percentage: 0 for no items, otherwise
      `Math.round(completed / total * 100)` on exact rationals, rounding
      halves up. */
  function Progress(items: seq<ProjectItem>): (pct: nat)
    ensures pct <= 100
    ensures |items| == 0 ==> pct == 0
  {
    var total := |items|;
    if total == 0 then 0
    else
      var completed := Count(items, Engine.ItemDone);
      RoundedPercent(completed, total);
      (200 * completed + total) / (2 * total)
  }

  /** `Math.round(100 * c / t)` as integer arithmetic: at most 100, exactly
      100 when c == t and 0 when c == 0. */
  lemma RoundedPercent(c: nat, t: nat)
    requires 0 < t && c <= t
    ensures (200 * c + t) / (2 * t) <= 100
    ensures c == t ==> (200 * c + t) / (2 * t) == 100
    ensures c == 0 ==> (200 * c + t) / (2 * t) == 0
  {
    var d := 2 * t;
    var n := 200 * c + t;
    var q := n / d;
    assert n == d * q + n % d && 0 <= n % d < d;
    if q > 100 {
      QuotientBound(d, q, 101);
      assert false;
    }
    if c == t {
      assert n == d * 100 + t;
      if q < 100 {
        QuotientBound(d, 99, q);
        assert false;
      }
    }
    if c == 0 {
      assert n == t;
    }
  }

  lemma QuotientBound(d: nat, a: nat, b: nat)
    requires b <= a
    ensures d * b <= d * a
  {
  }

  /** 100 when every item is done, 0 when none is. */
  lemma ProgressBounds(items: seq<ProjectItem>)
    ensures |items| > 0 && (forall i :: 0 <= i < |items| ==> items[i].completed) ==> Progress(items) == 100
    ensures (forall i :: 0 <= i < |items| ==> !items[i].completed) ==> Progress(items) == 0
  {
    CountAll(items, Engine.ItemDone);
    CountNone(items, Engine.ItemDone);
    if |items| > 0 {
      RoundedPercent(Count(items, Engine.ItemDone), |items|);
    }
  }

  /** Ticking one more item off never lowers the percentage. */
  lemma ProgressMonotone(items: seq<ProjectItem>, k: nat)
    requires k < |items| && !items[k].completed
    ensures Progress(items) <= Progress(items[k := items[k].(completed := true)])
  {
    CountAfterTick(items, k);
    var t := |items|;
    var c := Count(items, Engine.ItemDone);
    DivMonotone(200 * c + t, 200 * (c + 1) + t, 2 * t);
  }

  lemma {:induction false} CountAfterTick(items: seq<ProjectItem>, k: nat)
    requires k < |items| && !items[k].completed
    ensures Count(items[k := items[k].(completed := true)], Engine.ItemDone) == Count(items, Engine.ItemDone) + 1
  {
    if k == 0 {
      assert items[k := items[k].(completed := true)][1..] == items[1..];
    } else {
      assert items[k := items[k].(completed := true)][1..] == items[1..][k - 1 := items[k].(completed := true)];
      CountAfterTick(items[1..], k - 1);
    }
  }

  lemma DivMonotone(a: nat, b: nat, d: nat)
    requires a <= b && d > 0
    ensures a / d <= b / d
  {
    assert a == d * (a / d) + a % d && b == d * (b / d) + b % d;
    if a / d > b / d {
      QuotientBound(d, a / d, b / d + 1);
      assert false;
    }
  }

  // Toggle and delete over the task list

  /** `prev.map(t => t.id === id ? { ...t, completed: !t.completed } : t)`. */
  function FlipCompleted(ts: seq<Task>, id: string): (r: seq<Task>)
    ensures |r| == |ts|
  {
    seq(|ts|, i requires 0 <= i < |ts| =>
      if ts[i].id == id then ts[i].(completed := !ts[i].completed) else ts[i])
  }

  /** Every task with the id has `completed` negated and nothing else; every
      other task is unchanged; flipping twice restores the list. */
  lemma FlipCompletedEffect(ts: seq<Task>, id: string)
    ensures var r := FlipCompleted(ts, id);
      (forall i :: 0 <= i < |ts| ==>
         r[i].(completed := ts[i].completed) == ts[i]
         && (ts[i].id == id ==> r[i].completed == !ts[i].completed)
         && (ts[i].id != id ==> r[i] == ts[i]))
      && FlipCompleted(r, id) == ts
  {
    var r := FlipCompleted(ts, id);
    assert forall i :: 0 <= i < |ts| ==> FlipCompleted(r, id)[i] == ts[i];
  }

  function TaskIdIsNot(id: string): Task -> bool {
    (t: Task) => t.id != id
  }

  /** `prev.filter(t => t.id !== id)`. */
  function RemoveTask(ts: seq<Task>, id: string): (r: seq<Task>)
    ensures forall t :: t in r <==> t in ts && t.id != id
  {
    Filter(ts, TaskIdIsNot(id))
  }

  /** The remaining tasks keep their order: removing a task of another id
      commutes with removing this one, and removing twice is removing once. */
  lemma RemoveTaskOrder(ts: seq<Task>, id: string, other: string)
    ensures RemoveTask(RemoveTask(ts, id), id) == RemoveTask(ts, id)
    ensures RemoveTask(RemoveTask(ts, id), other) == RemoveTask(RemoveTask(ts, other), id)
    ensures |RemoveTask(ts, id)| == |ts| - Count(ts, (t: Task) => t.id == id)
  {
    FilterIdempotent(ts, TaskIdIsNot(id));
    RemoveCommutes(ts, id, other);
    FilterLength(ts, TaskIdIsNot(id));
    CountComplement(ts, id);
  }

  lemma {:induction false} RemoveCommutes(ts: seq<Task>, id: string, other: string)
    ensures RemoveTask(RemoveTask(ts, id), other) == RemoveTask(RemoveTask(ts, other), id)
  {
    if ts != [] {
      RemoveCommutes(ts[1..], id, other);
    }
  }

  lemma {:induction false} CountComplement(ts: seq<Task>, id: string)
    ensures Count(ts, TaskIdIsNot(id)) + Count(ts, (t: Task) => t.id == id) == |ts|
  {
    if ts != [] {
      CountComplement(ts[1..], id);
    }
  }

  /** Toggling and deleting keep at most one mirror task per project item. */
  lemma FlipPreservesUnique(ts: seq<Task>, id: string)
    requires Engine.MirrorsUnique(ts)
    ensures Engine.MirrorsUnique(FlipCompleted(ts, id))
  {
    forall itemId ensures Engine.MirrorCount(FlipCompleted(ts, id), itemId) <= 1 {
      assert Engine.MirrorCount(ts, itemId) <= 1;
      CountPointwise(FlipCompleted(ts, id), ts, Engine.MirrorOf(itemId));
    }
  }

  lemma RemovePreservesUnique(ts: seq<Task>, id: string)
    requires Engine.MirrorsUnique(ts)
    ensures Engine.MirrorsUnique(RemoveTask(ts, id))
  {
    forall itemId ensures Engine.MirrorCount(RemoveTask(ts, id), itemId) <= 1 {
      assert Engine.MirrorCount(ts, itemId) <= 1;
      CountOfFilter(ts, TaskIdIsNot(id), Engine.MirrorOf(itemId));
    }
  }
}
