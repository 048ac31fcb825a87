/** task.c: the linked list of tasks and the round robin over it. */
module Tasks {
  import opened Words

  class Task {
    const addr: u32
    var pageDirectory: u32
    var next: Task?
    var prev: Task?

    constructor (addr: u32, pageDirectory: u32)
      ensures this.addr == addr && this.pageDirectory == pageDirectory && next == null && prev == null
    {
      this.addr, this.pageDirectory, next, prev := addr, pageDirectory, null, null;
    }
  }

  ghost predicate AllDifferent(s: seq<Task>) {
    forall i, j :: 0 <= i < j < |s| ==> s[i] != s[j]
  }

  /** The task before position i, null for the first. */
  function Before(s: seq<Task>, i: nat): Task?
    requires i < |s|
  {
    if i == 0 then null else s[i - 1]
  }

  /** The task after position i, null for the last. */
  function After(s: seq<Task>, i: nat): Task?
    requires i < |s|
  {
    if i + 1 < |s| then s[i + 1] else null
  }

  function Without(s: seq<Task>, i: nat): (r: seq<Task>)
    requires i < |s|
    ensures |r| == |s| - 1
  {
    s[..i] + s[i + 1..]
  }

  /** head, tail and next links nx spell s; the current task is one of s, or null when there is none. */
  ghost predicate Spelled(head: Task?, tail: Task?, current: Task?, s: seq<Task>, nx: seq<Task?>) {
    && AllDifferent(s) && |nx| == |s|
    && head == (if s == [] then null else s[0])
    && tail == (if s == [] then null else s[|s| - 1])
    && (forall i: nat :: i < |s| ==> nx[i] == After(s, i))
    && (if s == [] then current == null else current != null && current in s)
  }

  lemma WithoutAt(s: seq<Task>, i: nat, j: nat)
    requires i < |s| && j + 1 < |s|
    ensures Without(s, i)[j] == s[if j < i then j else j + 1]
  {
  }

  lemma WithoutDifferent(s: seq<Task>, i: nat)
    requires i < |s| && AllDifferent(s)
    ensures AllDifferent(Without(s, i)) && s[i] !in Without(s, i)
  {
    var r := Without(s, i);
    forall j, k | 0 <= j < k < |r| ensures r[j] != r[k] {
      WithoutAt(s, i, j);
      WithoutAt(s, i, k);
    }
    forall j | 0 <= j < |r| ensures r[j] != s[i] {
      WithoutAt(s, i, j);
    }
  }

  lemma WithoutNeighbours(s: seq<Task>, i: nat, j: nat)
    requires i < |s| && j + 1 < |s|
    ensures var k := if j < i then j else j + 1;
      && After(Without(s, i), j) == (if k + 1 == i then After(s, i) else After(s, k))
      && Before(Without(s, i), j) == (if k == i + 1 then Before(s, i) else Before(s, k))
  {
    WithoutAt(s, i, j);
    if j + 2 < |s| {
      WithoutAt(s, i, j + 1);
    }
    if j > 0 {
      WithoutAt(s, i, j - 1);
    }
  }

  /**
   The links after removing task i, whose prev link is p, spell the rest exactly when p is the task before it, or task
   i is the first of several and p is none of them.
   */
  lemma RemovedSpells(s: seq<Task>, i: nat, p: Task?, head: Task?, tail: Task?, current: Task?, nx: seq<Task?>)
    requires i < |s| && AllDifferent(s) && |nx| == |s| - 1 && p != s[i]
    requires head == if i == 0 then After(s, 0) else s[0]
    requires tail == if i == |s| - 1 then p else s[|s| - 1]
    requires if |s| == 1 then current == null else current != null && current in Without(s, i)
    requires forall j: nat :: j < |nx| ==>
      nx[j] == (var k := if j < i then j else j + 1; if s[k] == p then After(s, i) else After(s, k))
    ensures Spelled(head, tail, current, Without(s, i), nx) <==> p == Before(s, i) || (i == 0 && |s| > 1 && p !in s)
  {
    var r := Without(s, i);
    WithoutDifferent(s, i);
    LastWithout(s, i);
    if p == Before(s, i) {
      forall j: nat | j < |r| ensures nx[j] == After(r, j) {
        WithoutNeighbours(s, i, j);
      }
    } else {
      NotTheOneBefore(s, i, p, tail, nx);
    }
  }

  lemma LastWithout(s: seq<Task>, i: nat)
    requires i < |s|
    ensures var r := Without(s, i);
      |r| == |s| - 1 && (r != [] ==>
        r[0] == s[if i == 0 then 1 else 0] && r[|r| - 1] == s[if i == |s| - 1 then |s| - 2 else |s| - 1])
  {
  }

  /**
    With a wrong prev link, only the first of several tasks comes out cleanly, and only if the link names none of them.
  */
  lemma NotTheOneBefore(s: seq<Task>, i: nat, p: Task?, tail: Task?, nx: seq<Task?>)
    requires i < |s| && AllDifferent(s) && |nx| == |s| - 1 && p != Before(s, i) && p != s[i]
    requires tail == if i == |s| - 1 then p else s[|s| - 1]
    requires forall j: nat :: j < |nx| ==>
      nx[j] == (var k := if j < i then j else j + 1; if s[k] == p then After(s, i) else After(s, k))
    ensures ((forall j: nat :: j < |nx| ==> nx[j] == After(Without(s, i), j))
             && tail == (if |s| == 1 then null else Without(s, i)[|s| - 2])) <==> (i == 0 && |s| > 1 && p !in s)
  {
    var r := Without(s, i);
    LastWithout(s, i);
    if i > 0 {
      WithoutNeighbours(s, i, i - 1);
      assert nx[i - 1] == After(s, i - 1) == s[i];
      WithoutDifferent(s, i);
    } else if p != null && p in s {
      var m :| 0 <= m < |s| && s[m] == p;
      WithoutNeighbours(s, 0, m - 1);
      assert nx[m - 1] == s[1];
    } else {
      forall j: nat | j < |nx| ensures nx[j] == After(r, j) {
        WithoutNeighbours(s, i, j);
      }
    }
  }

  /**
   No task is its own prev link, and each names the task before, except those of stale tasks, which may name any task:
   a freed one, or one that was made since at the address of a freed one.
   */
  ghost predicate BackLinked(s: seq<Task>, stale: set<Task>, pv: seq<Task?>) {
    && |pv| == |s|
    && forall i: nat :: i < |s| ==> pv[i] != s[i] && (s[i] in stale || pv[i] == Before(s, i))
  }

  lemma AppendedBackLinks(s: seq<Task>, stale: set<Task>, pv: seq<Task?>, task: Task, pr: seq<Task?>)
    requires BackLinked(s, stale, pv) && task !in s && |pr| == |s| + 1
    requires (forall i: nat :: i < |s| ==> pr[i] == pv[i]) && pr[|s|] == Before(s + [task], |s|)
    ensures BackLinked(s + [task], stale - {task}, pr)
  {
    forall i: nat | i < |s| ensures Before(s + [task], i) == Before(s, i) {}
  }

  /** The current task after a removal is one of those left. */
  lemma CurrentLeft(s: seq<Task>, i: nat, was: Task?, now: Task?)
    requires i < |s| && AllDifferent(s) && was != null && was in s
    requires now == if was != s[i] then was else if i + 1 < |s| then s[i + 1] else if i > 0 then s[0] else null
    ensures if |s| == 1 then now == null else now != null && now in Without(s, i)
  {
    if |s| > 1 {
      var j :| 0 <= j < |s| && s[j] == now;
      WithoutAt(s, i, if j < i then j else j - 1);
    }
  }

  /** Removing task i makes its successor stale and changes nothing else about the prev links. */
  lemma RemovedBackLinks(s: seq<Task>, i: nat, stale: set<Task>, pv: seq<Task?>, pr: seq<Task?>)
    requires i < |s| && AllDifferent(s) && BackLinked(s, stale, pv) && |pr| == |s| - 1
    requires forall j: nat :: j < |pr| ==> pr[j] == pv[if j < i then j else j + 1]
    ensures BackLinked(Without(s, i), (if i + 1 < |s| then {s[i + 1]} else {}) + (stale - {s[i]}), pr)
    ensures BackLinked(s, {}, pv) ==> (BackLinked(Without(s, i), {}, pr) <==> i == |s| - 1)
  {
    var r := Without(s, i);
    WithoutDifferent(s, i);
    forall t | t in r ensures t in s {
      var j :| 0 <= j < |r| && r[j] == t;
      WithoutAt(s, i, j);
    }
    RemovedNeighbours(s, i);
    if i + 1 < |s| {
      assert r[i] == s[i + 1];
      if BackLinked(s, {}, pv) {
        assert pr[i] == s[i] && Before(r, i) == Before(s, i);
        assert i > 0 ==> Before(s, i) == s[i - 1];
      }
    }
  }

  lemma RemovedNeighbours(s: seq<Task>, i: nat)
    requires i < |s|
    ensures |Without(s, i)| == |s| - 1
    ensures forall j: nat | j < |s| - 1 ::
      var r, k := Without(s, i), if j < i then j else j + 1;
      && r[j] == s[k] && (k != i + 1 ==> Before(r, j) == Before(s, k)) && (k == i + 1 ==> Before(r, j) == Before(s, i))
  {
    forall j: nat | j < |s| - 1
      ensures var r, k := Without(s, i), if j < i then j else j + 1;
        && r[j] == s[k] && (k != i + 1 ==> Before(r, j) == Before(s, k))
           && (k == i + 1 ==> Before(r, j) == Before(s, i))
    {
      WithoutAt(s, i, j);
      WithoutNeighbours(s, i, j);
    }
  }

  /** `task_head`, `task_tail` and `current_task`. */
  class Scheduler {
    var head: Task?
    var tail: Task?
    var current: Task?

    constructor ()
      ensures head == null && tail == null && current == null
    {
      head, tail, current := null, null, null;
    }

    ghost function Nexts(s: seq<Task>): (nx: seq<Task?>)
      reads s
      ensures |nx| == |s| && forall i: nat :: i < |s| ==> nx[i] == s[i].next
    {
      if s == [] then [] else Nexts(s[..|s| - 1]) + [s[|s| - 1].next]
    }

    /** head, tail and the next links of the tasks spell s. */
    ghost predicate Ring(s: seq<Task>)
      reads this, s
    {
      Spelled(head, tail, current, s, Nexts(s))
    }

    ghost function Prevs(s: seq<Task>): (pv: seq<Task?>)
      reads s
      ensures |pv| == |s| && forall i: nat :: i < |s| ==> pv[i] == s[i].prev
    {
      if s == [] then [] else Prevs(s[..|s| - 1]) + [s[|s| - 1].prev]
    }

    /** The prev links spell s too. */
    ghost predicate DoublyLinked(s: seq<Task>)
      reads this, s
    {
      Ring(s) && BackLinked(s, {}, Prevs(s))
    }

    /** Like DoublyLinked, but the prev links of stale tasks may be anything but their own task. */
    ghost predicate Sound(s: seq<Task>, stale: set<Task>)
      reads this, s
    {
      Ring(s) && BackLinked(s, stale, Prevs(s))
    }

    /** The stores of `task_new` that link a cleared task in at the end. */
    method Link(task: Task, ghost s: seq<Task>)
      requires Ring(s) && task !in s && task.next == null && task.prev == null
      modifies this, tail, task
      ensures head == (s + [task])[0] && tail == task && current == if s == [] then task else old(current)
      ensures forall k: nat :: k <= |s| ==> (s + [task])[k].next == After(s + [task], k)
      ensures task.prev == Before(s + [task], |s|) && task.pageDirectory == old(task.pageDirectory)
      ensures forall t | t in s :: t.prev == old(t.prev) && t.pageDirectory == old(t.pageDirectory)
    {
      assert forall k: nat :: k < |s| ==> s[k].next == Nexts(s)[k];
      if head == null {
        head, tail, current := task, task, task;
        return;
      }
      tail.next := task;
      task.prev := tail;
      tail := task;
    }

    /** Linking a new task appends it to the list, also when it lies where a stale link points. */
    method Append(task: Task, ghost s: seq<Task>, ghost stale: set<Task>)
      requires Sound(s, stale) && task !in s && task.next == null && task.prev == null
      modifies this, tail, task
      ensures Sound(s + [task], stale - {task}) && task.prev == if s == [] then null else s[|s| - 1]
      ensures current == if s == [] then task else old(current)
      ensures task.pageDirectory == old(task.pageDirectory)
      ensures forall t | t in s :: t.pageDirectory == old(t.pageDirectory) && t.prev == old(t.prev)
    {
      hide Before, After, BackLinked, Prevs, Nexts;
      ghost var pv := Prevs(s);
      Link(task, s);
      LastBefore(s, task);
      AppendedBackLinks(s, stale, pv, task, Prevs(s + [task]));
    }

    lemma LastBefore(s: seq<Task>, task: Task)
      ensures Before(s + [task], |s|) == if s == [] then null else s[|s| - 1]
    {
    }

    function NextOf(t: Task): Task?
      reads this, t
    {
      if t.next == null then head else t.next
    }

    /** `task_get_next` gives the task one place on from the current one, the first after the last. */
    method GetNext(ghost s: seq<Task>, ghost i: nat) returns (t: Task?)
      requires Ring(s) && i < |s| && current == s[i]
      ensures t == s[Rest(i + 1, |s|)]
    {
      NextIndex(i, |s|);
      FullTurn(i, |s|);
      NextOfIs(s, i);
      t := Next();
    }

    /** The body of `task_get_next`, on any links. */
    method Next() returns (t: Task?)
      requires current != null
      ensures t == NextOf(current)
    {
      if current.next == null {
        return head;
      }
      return current.next;
    }

    /** Removing task i leaves the next links right: its own prev link has to name the task before it. */
    ghost predicate Removable(s: seq<Task>, i: nat)
      requires i < |s|
      reads s
    {
      s[i].prev == Before(s, i) || (i == 0 && |s| > 1 && s[0].prev !in s)
    }

    /** The stores of `task_list_remove`, as written: the successor's prev link is never updated. */
    method Unlink(task: Task, ghost s: seq<Task>, ghost i: nat)
      requires Ring(s) && i < |s| && s[i] == task && task.prev != task
      modifies this, task.prev
      ensures head == if i == 0 then After(s, 0) else s[0]
      ensures tail == if i == |s| - 1 then old(task.prev) else s[|s| - 1]
      ensures current == if old(current) != task then old(current)
                         else if i + 1 < |s| then s[i + 1] else if i > 0 then s[0] else null
      ensures forall k: nat :: k < |s| ==> s[k].next == if s[k] == old(task.prev) then After(s, i) else After(s, k)
      ensures forall t | t in s :: t.prev == old(t.prev) && t.pageDirectory == old(t.pageDirectory)
    {
      assert forall k: nat :: k < |s| ==> s[k].next == Nexts(s)[k] == After(s, k);
      hide Spelled, Nexts, BackLinked, Without;
      if task.prev != null {
        task.prev.next := task.next;
      }
      if task == head {
        head := task.next;
      }
      if task == tail {
        tail := task.prev;
      }
      if task == current {
        current := Next();
      }
    }

    /**
     `task_list_remove`: the list without the task is spelled by head, tail and next exactly when the task was
     removable, whatever the stale links name; its successor's prev link is stale afterwards. A doubly linked list stays
     one exactly when the task removed is the last.
     */
    method Remove(task: Task, ghost s: seq<Task>, ghost i: nat, ghost stale: set<Task>)
      requires Sound(s, stale) && i < |s| && s[i] == task
      modifies this, task.prev
      ensures Ring(Without(s, i)) <==> old(Removable(s, i))
      ensures forall k: nat :: k < |s| ==> s[k].next == if s[k] == old(task.prev) then After(s, i) else After(s, k)
      ensures current == if old(current) != task then old(current)
                         else if i + 1 < |s| then s[i + 1] else if i > 0 then s[0] else null
      ensures old(Removable(s, i)) ==>
        Sound(Without(s, i), (if i + 1 < |s| then {s[i + 1]} else {}) + (stale - {task}))
      ensures old(DoublyLinked(s)) ==> (DoublyLinked(Without(s, i)) <==> i == |s| - 1)
      ensures forall t | t in s :: t.prev == old(t.prev) && t.pageDirectory == old(t.pageDirectory)
    {
      hide Before, After, AllDifferent, Without, Spelled, BackLinked, Prevs, Nexts;
      ghost var r, pv := Without(s, i), Prevs(s);
      RingFacts(s);
      BackLinkAt(s, stale, i);
      ghost var p := task.prev;
      FirstBefore(s, i);
      Unlink(task, s, i);
      forall j: nat | j < |r| ensures r[j] == s[if j < i then j else j + 1] {
        WithoutAt(s, i, j);
      }
      CurrentLeft(s, i, old(current), current);
      RemovedSpells(s, i, p, head, tail, current, Nexts(r));
      RemovedBackLinks(s, i, stale, pv, Prevs(r));
    }

    /** The ends of the list, and where the current task is. */
    lemma Ends(s: seq<Task>, stale: set<Task>)
      requires Sound(s, stale)
      ensures head == (if s == [] then null else s[0]) && tail == (if s == [] then null else s[|s| - 1])
      ensures s == [] ==> current == null
      ensures current != null ==> current in s
    {
    }

    lemma FirstBefore(s: seq<Task>, i: nat)
      requires i < |s|
      ensures i == 0 ==> Before(s, i) == null
    {
    }

    lemma RingFacts(s: seq<Task>)
      requires Ring(s)
      ensures AllDifferent(s) && (s != [] ==> current != null && current in s)
    {
    }

    lemma BackLinkAt(s: seq<Task>, stale: set<Task>, i: nat)
      requires Sound(s, stale) && i < |s|
      ensures s[i].prev != s[i]
      ensures DoublyLinked(s) ==> s[i].prev == Before(s, i)
    {
      assert Prevs(s)[i] == s[i].prev;
    }

    /** k steps of the scheduler from task t. */
    ghost function Steps(s: seq<Task>, t: Task, k: nat): Task?
      requires Ring(s) && t in s
      reads this, s
      decreases k
    {
      if k == 0 then t else
        var u := Steps(s, t, k - 1);
        if u == null || u !in s then null else NextOf(u)
    }

    lemma {:induction false} StepsAre(s: seq<Task>, i: nat, k: nat)
      requires Ring(s) && i < |s|
      ensures Steps(s, s[i], k) == s[Rest(i + k, |s|)]
      decreases k
    {
      hide Rest, Ring;
      if k == 0 {
        FullTurn(i, |s|);
      } else {
        StepsAre(s, i, k - 1);
        NextIndex(i + k - 1, |s|);
        NextOfIs(s, Rest(i + k - 1, |s|));
      }
    }

    lemma NextOfIs(s: seq<Task>, j: nat)
      requires Ring(s) && j < |s|
      ensures s[j] in s && NextOf(s[j]) == s[if j + 1 == |s| then 0 else j + 1]
    {
    }

    lemma Visited(s: seq<Task>, i: nat, t: Task) returns (k: nat)
      requires Ring(s) && i < |s| && t in s
      ensures k < |s| && Steps(s, s[i], k) == t
    {
      hide Rest, Ring, Steps, NextOf;
      var j :| 0 <= j < |s| && s[j] == t;
      k := if j >= i then j - i else j + |s| - i;
      FullTurn(j, |s|);
      StepsAre(s, i, k);
    }

    /** Fewer than |s| steps lead from task i to t. */
    ghost predicate Reached(s: seq<Task>, i: nat, t: Task)
      requires Ring(s) && i < |s|
      reads this, s
    {
      exists k: nat :: k < |s| && Steps(s, s[i], k) == t
    }

    /** From any task, |s| steps visit every task of the list once and come back. */
    lemma RoundRobin(s: seq<Task>, i: nat)
      requires Ring(s) && i < |s|
      ensures Steps(s, s[i], |s|) == s[i]
      ensures forall t | t in s :: Reached(s, i, t)
      ensures forall k: nat, l: nat :: k < l < |s| ==> Steps(s, s[i], k) != Steps(s, s[i], l)
    {
      hide Ring, Steps, Rest;
      var n := |s|;
      forall k: nat ensures Steps(s, s[i], k) == s[Rest(i + k, n)] {
        StepsAre(s, i, k);
      }
      FullTurn(i, n);
      forall t | t in s ensures Reached(s, i, t) {
        var k := Visited(s, i, t);
      }
      RingDifferent(s);
      forall k: nat, l: nat | k < l < n ensures Steps(s, s[i], k) != Steps(s, s[i], l) {
        DifferentTurns(i, k, l, n);
      }
    }

    lemma RingDifferent(s: seq<Task>)
      requires Ring(s)
      ensures AllDifferent(s)
    {
    }
  }

  /** Three new tasks in a list. */
  method ListOfThree(a: Task, b: Task, c: Task) returns (sched: Scheduler)
    requires a != b && b != c && a != c
    requires a.next == b.next == c.next == null && a.prev == b.prev == c.prev == null
    modifies a, b, c
    ensures fresh(sched) && sched.Sound([a, b, c], {})
  {
    hide Scheduler.Sound;
    sched := new Scheduler();
    EmptyIsSound(sched);
    sched.Append(a, [], {});
    assert [] + [a] == [a] && {} - {a} == {};
    sched.Ends([a], {});
    sched.Append(b, [a], {});
    assert [a] + [b] == [a, b] && {} - {b} == {};
    sched.Ends([a, b], {});
    sched.Append(c, [a, b], {});
    assert [a, b] + [c] == [a, b, c] && {} - {c} == {};
  }

  lemma EmptyIsSound(sched: Scheduler)
    requires sched.head == null && sched.tail == null && sched.current == null
    ensures sched.Sound([], {})
  {
  }

  /** The middle one of three tasks is removed: the third keeps a link to it. */
  method MiddleRemoved(a: Task, b: Task, c: Task) returns (sched: Scheduler)
    requires a != b && b != c && a != c
    requires a.next == b.next == c.next == null && a.prev == b.prev == c.prev == null
    modifies a, b, c
    ensures fresh(sched) && sched.Sound([a, c], {c}) && c.prev == b
  {
    hide Scheduler.Sound;
    sched := ListOfThree(a, b, c);
    ThreeLinks(sched, a, b, c);
    sched.Remove(b, [a, b, c], 1, {});
    assert Without([a, b, c], 1) == [a, c] && {c} + ({} - {b}) == {c};
  }

  lemma ThreeLinks(sched: Scheduler, a: Task, b: Task, c: Task)
    requires sched.Sound([a, b, c], {})
    ensures b.prev == a && c.prev == b && sched.Removable([a, b, c], 1)
  {
    var s := [a, b, c];
    assert sched.Prevs(s)[1] == s[1].prev && sched.Prevs(s)[2] == s[2].prev;
    assert s[1] == b && s[2] == c;
  }

  /**
    The smallest failure: of three tasks the middle one is removed, then the last: the first still leads to the last.
  */
  method TwoRemovalsLoseTheList(a: Task, b: Task, c: Task) returns (sched: Scheduler)
    requires a != b && b != c && a != c
    requires a.next == b.next == c.next == null && a.prev == b.prev == c.prev == null
    modifies a, b, c
    ensures fresh(sched) && !sched.Ring([a]) && a.next == c
  {
    hide Scheduler.Sound, Scheduler.Ring;
    sched := MiddleRemoved(a, b, c);
    assert [a, c][0] == a && [a, c][1] == c;
    assert !sched.Removable([a, c], 1);
    sched.Remove(c, [a, c], 1, {c});
    assert Without([a, c], 1) == [a];
  }

  /**
   With a new task made where the middle one was, the same removal ties that task into a loop: it is its own successor,
   and the scheduler never leaves it again.
   */
  method ReuseMakesALoop(a: Task, b: Task, c: Task) returns (sched: Scheduler)
    requires a != b && b != c && a != c
    requires a.next == b.next == c.next == null && a.prev == b.prev == c.prev == null
    modifies a, b, c
    ensures fresh(sched) && !sched.Ring([a, b]) && b.next == b && sched.NextOf(b) == b
  {
    hide Scheduler.Sound, Scheduler.Ring;
    sched := MiddleRemoved(a, b, c);
    b.next, b.prev := null, null;
    assert b !in [a, c];
    sched.Ends([a, c], {c});
    sched.Append(b, [a, c], {c});
    assert [a, c] + [b] == [a, c, b] && {c} - {b} == {c};
    assert [a, c, b][0] == a && [a, c, b][1] == c && [a, c, b][2] == b;
    assert !sched.Removable([a, c, b], 1);
    sched.Remove(c, [a, c, b], 1, {c});
    assert Without([a, c, b], 1) == [a, b];
  }

  lemma NextIndex(x: nat, n: nat)
    requires n >= 1
    ensures Rest(x + 1, n) == if Rest(x, n) + 1 == n then 0 else Rest(x, n) + 1
  {
    QuotRest(x, n);
    var q, r := Quot(x, n), Rest(x, n);
    if r + 1 == n {
      assert x + 1 == (q + 1) * n + 0;
      QuotUnique(x + 1, n, q + 1, 0);
    } else {
      QuotUnique(x + 1, n, q, r + 1);
    }
  }

  lemma FullTurn(x: nat, n: nat)
    requires x < n
    ensures Rest(x, n) == x && Rest(x + n, n) == x
  {
    QuotUnique(x, n, 0, x);
    QuotUnique(x + n, n, 1, x);
  }

  lemma DifferentTurns(i: nat, k: nat, l: nat, n: nat)
    requires i < n && k < l < n
    ensures Rest(i + k, n) != Rest(i + l, n)
  {
    var a, b := i + k, i + l;
    if a < n { FullTurn(a, n); } else { FullTurn(a - n, n); }
    if b < n { FullTurn(b, n); } else { FullTurn(b - n, n); }
  }
}
