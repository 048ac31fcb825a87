/** Whole runs of task creations and removals: when head, tail and next spell the list of the tasks there are. */
module TaskRuns {
  import opened Tasks

  datatype TaskOp = NewOp(task: Task) | RemoveOp(task: Task)

  function IndexOf(s: seq<Task>, t: Task): (i: nat)
    requires t in s
    ensures i < |s| && s[i] == t
  {
    if s[0] == t then 0 else 1 + IndexOf(s[1..], t)
  }

  // ---------------------------------------------------------------- the list as a value

  /** The tasks there are after a creation or removal. */
  function ListStep(s: seq<Task>, op: TaskOp): seq<Task> {
    match op
    case NewOp(t) => s + [t]
    case RemoveOp(t) => if t in s then Without(s, IndexOf(s, t)) else s
  }

  function ListOf(s: seq<Task>, ops: seq<TaskOp>): seq<Task>
    decreases |ops|
  {
    if ops == [] then s else ListOf(ListStep(s, ops[0]), ops[1..])
  }

  /** Only tasks that are not there are created, and only tasks that are there removed. */
  ghost predicate Possible(s: seq<Task>, ops: seq<TaskOp>)
    decreases |ops|
  {
    ops == [] || ((ops[0].NewOp? <==> ops[0].task !in s) && Possible(ListStep(s, ops[0]), ops[1..]))
  }

  /** The prev link of a task is set when it is created, to the last task of then, and never again. */
  function BackStep(s: seq<Task>, pv: map<Task, Task?>, op: TaskOp): map<Task, Task?> {
    match op
    case NewOp(t) => pv[t := if s == [] then null else s[|s| - 1]]
    case RemoveOp(t) => pv
  }

  /** That link still names the task before, or the task is the first of several and the link names none of them. */
  ghost predicate CanRemove(s: seq<Task>, pv: map<Task, Task?>, t: Task) {
    && t in s && t in pv
    && var i := IndexOf(s, t); pv[t] == Before(s, i) || (i == 0 && |s| > 1 && pv[t] !in s)
  }

  /** Every removal of the run is of that kind when its turn comes. */
  ghost predicate Clean(s: seq<Task>, pv: map<Task, Task?>, ops: seq<TaskOp>)
    decreases |ops|
  {
    ops == [] || ((ops[0].NewOp? || CanRemove(s, pv, ops[0].task))
                  && Clean(ListStep(s, ops[0]), BackStep(s, pv, ops[0]), ops[1..]))
  }

  // ---------------------------------------------------------------- the run on the links

  /** The prev links are those recorded. */
  ghost predicate BacksAre(s: seq<Task>, pv: map<Task, Task?>)
    reads s
  {
    forall t | t in s :: t in pv && pv[t] == t.prev
  }

  /** Tasks and links stay within a set of tasks. */
  ghost predicate Within(s: seq<Task>, tasks: set<Task>)
    reads s
  {
    forall t | t in s :: t in tasks && (t.prev == null || t.prev in tasks)
  }

  /** One creation: the task's memory cleared, then linked in. */
  method Create(sched: Scheduler, t: Task, ghost s: seq<Task>, ghost stale: set<Task>, ghost pv: map<Task, Task?>,
                ghost tasks: set<Task>)
    requires sched.Sound(s, stale) && BacksAre(s, pv) && Within(s, tasks) && t !in s && t in tasks
    modifies sched, tasks
    ensures sched.Sound(s + [t], stale - {t})
    ensures BacksAre(s + [t], BackStep(s, pv, NewOp(t))) && Within(s + [t], tasks)
  {
    hide Scheduler.Sound;
    sched.Ends(s, stale);
    t.next, t.prev := null, null;
    sched.Append(t, s, stale);
  }

  /** One removal. */
  method Delete(sched: Scheduler, t: Task, ghost s: seq<Task>, ghost stale: set<Task>, ghost pv: map<Task, Task?>,
                ghost tasks: set<Task>) returns (ghost stale': set<Task>)
    requires sched.Sound(s, stale) && BacksAre(s, pv) && Within(s, tasks) && t in s
    modifies sched, tasks
    ensures sched.Ring(ListStep(s, RemoveOp(t))) <==> CanRemove(s, pv, t)
    ensures CanRemove(s, pv, t) ==> sched.Sound(ListStep(s, RemoveOp(t)), stale')
    ensures BacksAre(ListStep(s, RemoveOp(t)), pv) && Within(ListStep(s, RemoveOp(t)), tasks)
  {
    hide Scheduler.Sound, Scheduler.Ring, Without;
    ghost var i := IndexOf(s, t);
    stale' := (if i + 1 < |s| then {s[i + 1]} else {}) + (stale - {t});
    sched.Remove(t, s, i, stale);
    WithoutInside(s, i);
  }

  lemma WithoutInside(s: seq<Task>, i: nat)
    requires i < |s|
    ensures forall t | t in Without(s, i) :: t in s
  {
  }

  /**
   A whole run, whose removals but for a last one are all clean: the list is spelled afterwards exactly when that one is
   clean too. So over any run the list stays spelled as long as every removal finds its own prev link still right.
   */
  method Run(sched: Scheduler, ops: seq<TaskOp>, ghost s: seq<Task>, ghost stale: set<Task>, ghost pv: map<Task, Task?>,
             ghost tasks: set<Task>)
    requires sched.Sound(s, stale) && BacksAre(s, pv) && Within(s, tasks) && forall op | op in ops :: op.task in tasks
    requires Possible(s, ops) && (ops != [] ==> Clean(s, pv, ops[..|ops| - 1]))
    modifies sched, tasks
    ensures sched.Ring(ListOf(s, ops)) <==> Clean(s, pv, ops)
    decreases |ops|
  {
    hide Scheduler.Sound, Scheduler.Ring, CanRemove, BacksAre, Within, ListStep, BackStep;
    if |ops| == 0 {
      SoundIsRing(sched, s, stale);
      return;
    }
    var rest := ops[1..];
    CleanPrefix(s, pv, ops);
    ghost var next, back, stale' := ListStep(s, ops[0]), BackStep(s, pv, ops[0]), stale;
    match ops[0] {
      case NewOp(t) =>
        AppendIsStep(s, pv, t);
        Create(sched, t, s, stale, pv, tasks);
        stale' := stale - {t};
      case RemoveOp(t) =>
        AppendIsStep(s, pv, t);
        stale' := Delete(sched, t, s, stale, pv, tasks);
    }
    if |ops| > 1 {
      assert forall op | op in rest :: op in ops;
      Run(sched, rest, next, stale', back, tasks);
    } else if ops[0].NewOp? {
      SoundIsRing(sched, next, stale');
    }
  }

  lemma SoundIsRing(sched: Scheduler, s: seq<Task>, stale: set<Task>)
    requires sched.Sound(s, stale)
    ensures sched.Ring(s)
  {
  }

  lemma AppendIsStep(s: seq<Task>, pv: map<Task, Task?>, t: Task)
    ensures ListStep(s, NewOp(t)) == s + [t] && BackStep(s, pv, RemoveOp(t)) == pv
  {
  }

  /** A run that is clean but for its last operation, looked at from its second one on. */
  lemma CleanPrefix(s: seq<Task>, pv: map<Task, Task?>, ops: seq<TaskOp>)
    requires ops != [] && Clean(s, pv, ops[..|ops| - 1])
    ensures |ops| > 1 ==>
              && (ops[0].NewOp? || CanRemove(s, pv, ops[0].task))
              && Clean(ListStep(s, ops[0]), BackStep(s, pv, ops[0]), ops[1..][..|ops[1..]| - 1])
  {
    hide CanRemove, ListStep, BackStep;
    if |ops| > 1 {
      assert ops[..|ops| - 1][1..] == ops[1..][..|ops[1..]| - 1];
    }
  }

  /** From an empty list: whether a run keeps it spelled can be told from the run alone. */
  method RunFromEmpty(ops: seq<TaskOp>, ghost tasks: set<Task>) returns (sched: Scheduler)
    requires forall op | op in ops :: op.task in tasks
    requires Possible([], ops) && (ops != [] ==> Clean([], map[], ops[..|ops| - 1]))
    modifies tasks
    ensures fresh(sched) && (sched.Ring(ListOf([], ops)) <==> Clean([], map[], ops))
  {
    sched := new Scheduler();
    EmptyIsSound(sched);
    Run(sched, ops, [], {}, map[], tasks);
  }
}
