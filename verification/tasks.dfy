/**
 * The dashboard's records (tasks, milestones, allocation entries) and the
 * lookups and priority writes every store operation is built from.
 * A JavaScript `tasks.find(t => t.id === id)` picks the FIRST task carrying
 * the id; writes through it reach that task only.
 */
module Tasks {
  import opened Wrappers

  /** Reserved id of the backlog divider pseudo-task. */
  const BACKLOG_MARKER_ID: int := -1

  /**
   * One entry of `tasks`. A field the JavaScript object lacks (or holds as
   * null) is `None`; `priority` is `None` when it is not a number.
   */
  datatype Task = Task(
    id: int,
    text: string,
    assignedTo: Option<string>,
    due: Option<string>,
    milestoneId: Option<int>,
    category: Option<string>,
    priority: Option<real>,
    completed: bool,
    isBacklogDivider: bool)

  datatype Milestone = Milestone(id: int, name: string, date: Option<string>, tentative: bool)

  /** No task before position `k` carries the id of the task at `k`. */
  ghost predicate IsFirstWithId(tasks: seq<Task>, k: int)
    requires 0 <= k < |tasks|
  {
    forall j :: 0 <= j < k ==> tasks[j].id != tasks[k].id
  }

  /** Position of the first task with id `id` (`tasks.find`). */
  function FindIndex(tasks: seq<Task>, id: int): (r: Option<nat>)
    ensures r.Some? ==> r.value < |tasks| && tasks[r.value].id == id && IsFirstWithId(tasks, r.value)
    ensures r.None? <==> forall k :: 0 <= k < |tasks| ==> tasks[k].id != id
  {
    if tasks == [] then None
    else if tasks[0].id == id then Some(0)
    else match FindIndex(tasks[1..], id)
      case None => None
      case Some(k) => Some(k + 1)
  }

  lemma FindIndexOfFirst(tasks: seq<Task>, k: int)
    requires 0 <= k < |tasks| && IsFirstWithId(tasks, k)
    ensures FindIndex(tasks, tasks[k].id) == Some(k)
  {
  }

  /** Two task lists with the same ids position by position. */
  ghost predicate SameIds(a: seq<Task>, b: seq<Task>) {
    |a| == |b| && forall k :: 0 <= k < |a| ==> a[k].id == b[k].id
  }

  lemma FindIndexSameIds(a: seq<Task>, b: seq<Task>, id: int)
    requires SameIds(a, b)
    ensures FindIndex(a, id) == FindIndex(b, id)
  {
    var ra, rb := FindIndex(a, id), FindIndex(b, id);
    if ra.Some? && rb.Some? {
      assert a[rb.value].id == id;
    }
  }

  /** The numeric priority of the task found by id, if there is one. */
  function PriorityOf(tasks: seq<Task>, id: int): Option<real> {
    match FindIndex(tasks, id)
    case None => None
    case Some(k) => tasks[k].priority
  }

  /** `t.priority = p` on the task `tasks.find` returns; nothing when the id is absent. */
  function SetPriority(tasks: seq<Task>, id: int, p: real): (r: seq<Task>)
    ensures SameIds(tasks, r)
  {
    match FindIndex(tasks, id)
    case None => tasks
    case Some(k) => tasks[k := tasks[k].(priority := Some(p))]
  }

  /**
   * Every id in `m` written through `tasks.find`: the first task with that id
   * gets `m[id]`, ids missing from the store are skipped. Distinct keys reach
   * distinct tasks, so the order of the writes does not matter.
   */
  function Apply(tasks: seq<Task>, m: map<int, real>): (r: seq<Task>)
    ensures SameIds(tasks, r)
  {
    seq(|tasks|, k requires 0 <= k < |tasks| =>
      if tasks[k].id in m && FindIndex(tasks, tasks[k].id) == Some(k)
      then tasks[k].(priority := Some(m[tasks[k].id]))
      else tasks[k])
  }

  /** Writing the keys one at a time builds up `Apply`. */
  lemma ApplyUpdate(tasks: seq<Task>, m: map<int, real>, id: int, p: real)
    ensures Apply(tasks, m[id := p]) == SetPriority(Apply(tasks, m), id, p)
  {
    var a := Apply(tasks, m);
    FindIndexSameIds(tasks, a, id);
    var lhs, rhs := Apply(tasks, m[id := p]), SetPriority(a, id, p);
    assert |lhs| == |rhs|;
    forall k | 0 <= k < |lhs| ensures lhs[k] == rhs[k] {
      FindIndexSameIds(tasks, a, tasks[k].id);
    }
  }

  lemma ApplyEmpty(tasks: seq<Task>)
    ensures Apply(tasks, map[]) == tasks
  {
  }

  /** After `Apply`, a found id in the map holds its new value; every other id keeps its priority. */
  lemma ApplyPriorityOf(tasks: seq<Task>, m: map<int, real>, id: int)
    ensures PriorityOf(Apply(tasks, m), id) ==
            if id in m && FindIndex(tasks, id).Some? then Some(m[id]) else PriorityOf(tasks, id)
  {
    FindIndexSameIds(tasks, Apply(tasks, m), id);
  }

  /** `Apply` changes priorities only: every other field of every task is kept. */
  lemma ApplyOnlyPriorities(tasks: seq<Task>, m: map<int, real>)
    ensures forall k :: 0 <= k < |tasks| ==>
              Apply(tasks, m)[k].(priority := tasks[k].priority) == tasks[k]
  {
  }

  /** A task whose id is not a key is left exactly as it was. */
  lemma ApplyLeavesOthers(tasks: seq<Task>, m: map<int, real>)
    ensures forall k :: 0 <= k < |tasks| && tasks[k].id !in m ==> Apply(tasks, m)[k] == tasks[k]
  {
  }

  /** Two writes whose keys all lie in `keys` change priorities only, and only those of `keys`. */
  lemma ApplyTwice(tasks: seq<Task>, mA: map<int, real>, mB: map<int, real>, keys: seq<int>)
    requires forall id :: id in mA ==> id in keys
    requires forall id :: id in mB ==> id in keys
    ensures var r := Apply(Apply(tasks, mA), mB);
      && SameIds(tasks, r)
      && (forall k :: 0 <= k < |tasks| ==> r[k].(priority := tasks[k].priority) == tasks[k])
      && (forall k :: 0 <= k < |tasks| && tasks[k].id !in keys ==> r[k] == tasks[k])
      && (forall id :: id !in keys ==> FindIndex(r, id) == FindIndex(tasks, id) && PriorityOf(r, id) == PriorityOf(tasks, id))
  {
    var t1 := Apply(tasks, mA);
    var r := Apply(t1, mB);
    ApplyOnlyPriorities(tasks, mA);
    ApplyOnlyPriorities(t1, mB);
    ApplyLeavesOthers(tasks, mA);
    ApplyLeavesOthers(t1, mB);
    forall id | id !in keys
      ensures FindIndex(r, id) == FindIndex(tasks, id) && PriorityOf(r, id) == PriorityOf(tasks, id)
    {
      FindIndexSameIds(tasks, t1, id);
      FindIndexSameIds(t1, r, id);
      ApplyPriorityOf(tasks, mA, id);
      ApplyPriorityOf(t1, mB, id);
    }
  }
}
