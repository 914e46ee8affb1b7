/** The scheduler (scheduler.cpp): a linked list of tasks, updated in place. */
module Scheduling {
  import opened Types
  import opened SchedModel

  /** The part of a task the scheduler works with; 0 is the null pointer. */
  datatype Task = Task(id: nat, esp: nat, stackBase: nat, userStackBase: nat, sleepTicks: nat,
                       isSleeping: bool, isTerminated: bool, exitCode: int, next: nat)

  type Tasks = map<nat, Task>

  function Last(list: seq<nat>): nat
  {
    if list == [] then 0 else list[|list| - 1]
  }

  ghost predicate LinkedAt(m: Tasks, list: seq<nat>, i: nat)
    requires i < |list|
  {
    list[i] != 0 && list[i] in m && m[list[i]].next == Next(list, i)
  }

  /** The walk from `head` visits exactly the tasks that exist, and ends at `tail`. */
  ghost predicate Chain(m: Tasks, head: nat, tail: nat, list: seq<nat>)
  {
    && head == Next(list, -1) && tail == Last(list)
    && (forall i :: 0 <= i < |list| ==> LinkedAt(m, list, i))
    && (forall i, j :: 0 <= i < j < |list| ==> list[i] != list[j])
    && (forall p :: p in m <==> p in list)
  }

  function EntryOf(m: Tasks, ptr: nat): Entry
  {
    if ptr in m then Entry(ptr, m[ptr].id, m[ptr].isSleeping, m[ptr].sleepTicks, m[ptr].isTerminated)
    else Entry(ptr, 0, false, 0, true)
  }

  ghost function Entries(m: Tasks, list: seq<nat>): (r: seq<Entry>)
    ensures |r| == |list| && forall i :: 0 <= i < |list| ==> r[i] == EntryOf(m, list[i])
  {
    seq(|list|, i requires 0 <= i < |list| => EntryOf(m, list[i]))
  }

  // ----- the heap blocks the tasks hold

  datatype Kind = TheTask | Stack | UserStack

  datatype Use = Use(task: nat, kind: Kind)

  /** The block a task has for a use; 0 when it has none. */
  function BlockFor(m: Tasks, u: Use): nat
    requires u.task in m
  {
    match u.kind
    case TheTask => u.task
    case Stack => m[u.task].stackBase
    case UserStack => m[u.task].userStackBase
  }

  /** The blocks held are those the listed tasks use, and each has one use: none is leaked or shared. */
  ghost predicate Accounted(m: Tasks, held: map<nat, Use>)
  {
    && (forall b :: b in held ==> b != 0 && held[b].task in m && BlockFor(m, held[b]) == b)
    && (forall u: Use :: u.task in m && BlockFor(m, u) != 0 ==> BlockFor(m, u) in held && held[BlockFor(m, u)] == u)
  }

  class Scheduler {
    var tasks: Tasks          // the Task objects, by address
    var head: nat             // task_list_head
    var tail: nat             // task_list_tail
    var current: nat          // current_task
    var idle: nat             // idle_task
    var nextId: nat           // next_task_id
    var active: bool          // scheduler_active
    ghost var list: seq<nat>  // the tasks, in the order of the walk
    ghost var held: map<nat, Use>  // heap blocks obtained from kmalloc and not yet freed, with their use

    ghost predicate Linked()
      reads this
    {
      Chain(tasks, head, tail, list)
    }

    ghost function View(): Sched
      reads this
    {
      Sched(Entries(tasks, list), current, idle, active)
    }

    ghost predicate Valid()
      reads this
    {
      && Linked()
      && Inv(View())
      && Accounted(tasks, held)
      && IdsBelow(tasks, nextId)
    }

    /** scheduler_init: the kernel's own task, with no stack of its own, and the idle task. */
    constructor (main: nat, idleTask: nat, idleStack: nat)
      requires main != 0 && idleTask != 0 && main != idleTask
      requires idleStack != 0 ==> idleStack != main && idleStack != idleTask
      ensures Valid() && !active && current == main && idle == idleTask
      ensures held.Keys == {main, idleTask} + if idleStack != 0 then {idleStack} else {}
    {
      hide Entries, Apply, HeldMore, LinkedAt, Chain, Accounted, Inv, IdsBelow, Listed, Position;
      tasks := map[main := FIRST];
      head, tail, current, list := main, main, main, [main];
      nextId, active := 2, false;
      held := map[main := Use(main, TheTask)];
      new;
      StartIsValid(main);
      idle := main;
      var t := CreateTask(idleTask, idleStack, 0);
      idle := t;
      IdleTakesOver(Sched([Entry(main, 1, false, 0, false)], main, main, false), idleTask);
    }

    /** scheduler_start. */
    method Start()
      requires Valid()
      modifies this`active
      ensures Valid() && View() == old(View()).(active := true)
    {
      active := true;
    }

    /** scheduler_create_task, given what kmalloc returned for the task and its stacks. */
    method CreateTask(ptr: nat, stack: nat, userStack: nat) returns (t: nat)
      requires Valid() && ptr != 0 && ptr !in held
      requires stack != 0 ==> stack !in held && stack != ptr
      requires userStack != 0 ==> userStack !in held && userStack != ptr && userStack != stack
      modifies this`tasks, this`head, this`tail, this`nextId, this`list, this`held
      ensures Valid() && t == ptr && nextId == old(nextId) + 1
      ensures t in tasks && tasks[t].stackBase == stack && tasks[t].userStackBase == userStack
      ensures View() == Apply(old(View()), Create(ptr, old(nextId)))
      ensures held.Keys == old(held).Keys + {ptr} + (if stack != 0 then {stack} else {}) + (if userStack != 0 then {userStack} else {})
    {
      hide Chain, LinkedAt, Accounted, Inv, Entries, HeldMore, Legal, IdsBelow, AppendTask, Next, BlockFor, Apply;
      NewTaskFacts(tasks, head, tail, list, held, View(), ptr, Task(nextId, 0, stack, userStack, 0, false, false, 0, 0));
      var id := nextId;
      nextId := nextId + 1;
      LinkIn(ptr, Task(id, 0, stack, userStack, 0, false, false, 0, 0));
      list := list + [ptr];
      held := HeldMore(held, ptr, stack, userStack);
      return ptr;
    }

    /** The end of scheduler_create_task: the new task goes behind the last. */
    method LinkIn(ptr: nat, task: Task)
      requires tail != 0 ==> tail in tasks
      modifies this`tasks, this`head, this`tail
      ensures tasks == AppendTask(old(tasks), old(tail), ptr, task)
      ensures head == if old(tail) != 0 then old(head) else ptr
      ensures tail == ptr
      ensures ptr in tasks && tasks[ptr].stackBase == task.stackBase && tasks[ptr].userStackBase == task.userStackBase
    {
      tasks := tasks[ptr := task];
      if tail != 0 {
        tasks := tasks[tail := tasks[tail].(next := ptr)];
        tail := ptr;
      } else {
        head := ptr;
        tail := ptr;
      }
    }

    /** A change of one task that keeps its id, link and blocks. */
    method Update(t: nat, task: Task)
      requires Linked() && Accounted(tasks, held) && IdsBelow(tasks, nextId) && t in tasks
      requires task.next == tasks[t].next && task.id == tasks[t].id
      requires task.stackBase == tasks[t].stackBase && task.userStackBase == tasks[t].userStackBase
      modifies this`tasks
      ensures Linked() && Accounted(tasks, held) && IdsBelow(tasks, nextId)
      ensures tasks == old(tasks)[t := task]
      ensures forall i :: 0 <= i < |list| && list[i] == t ==>
                Entries(tasks, list) == old(Entries(tasks, list))[i := EntryOf(tasks, t)]
    {
      ghost var m := tasks;
      tasks := tasks[t := task];
      SameLinks(m, tasks, head, tail, list);
      AccountedSame(m, tasks, held);
    }

    /** scheduler_sleep, up to its yield. */
    method Sleep(ms: nat)
      requires Valid() && current != idle
      modifies this`tasks
      ensures Valid() && View() == Apply(old(View()), SchedModel.Sleep(ms))
    {
      hide Chain, LinkedAt, Accounted;
      CurrentFacts(tasks, head, tail, list, View());
      ApplyKeepsInv(View(), SchedModel.Sleep(ms));
      if current != 0 && active {
        var ticks := ms / 10;
        if ticks == 0 {
          ticks := 1;
        }
        Update(current, tasks[current].(sleepTicks := ticks, isSleeping := true));
      }
    }

    /** scheduler_exit_task, up to its yield. */
    method ExitTask()
      requires Valid() && current != idle
      modifies this`tasks
      ensures Valid() && View() == Apply(old(View()), Exit)
    {
      hide Chain, LinkedAt, Accounted;
      CurrentFacts(tasks, head, tail, list, View());
      ApplyKeepsInv(View(), Exit);
      if current != 0 {
        Update(current, tasks[current].(isTerminated := true));
      }
    }

    /** process_exit, up to its yield: the first process does not exit. */
    method ProcessExit(code: int)
      requires Valid() && current != idle
      modifies this`tasks
      ensures Valid() && current in tasks
      ensures View() == if tasks[current].id == 1 then old(View()) else Apply(old(View()), Exit)
      ensures tasks[current].id != 1 ==> tasks[current].exitCode == code
    {
      hide Chain, LinkedAt, Accounted;
      CurrentFacts(tasks, head, tail, list, View());
      ApplyKeepsInv(View(), Exit);
      if current != 0 && tasks[current].id != 1 {
        Update(current, tasks[current].(exitCode := code, isTerminated := true));
      }
    }

    /** process_kill. The state stays valid exactly when the idle task is not the one killed. */
    method Kill(pid: nat)
      requires Valid()
      modifies this`tasks
      ensures View() == Apply(old(View()), SchedModel.Kill(pid))
      ensures Linked() && Accounted(tasks, held) && IdsBelow(tasks, nextId)
      ensures idle in tasks && (Valid() <==> pid == 1 || old(tasks)[idle].id != pid)
      ensures tasks == old(tasks) || exists t :: Killed(old(tasks), tasks, t, pid)
    {
      hide Chain, LinkedAt, Accounted, Inv, Apply, Listed, Position, IdsBelow, Legal;
      ghost var s := View();
      KillKeepsInvExactly(s, pid);
      IdleIsThere(tasks, head, tail, list, s);
      HeadFacts(tasks, head, tail, list);
      var t := head;
      ghost var i: nat := 0;
      while t != 0
        invariant i <= |list| && t == Next(list, i - 1) && tasks == old(tasks)
        invariant forall k :: 0 <= k < i ==> tasks[list[k]].id != pid || pid == 1
        decreases |list| - i
      {
        LinkFacts(tasks, head, tail, list, i);
        if tasks[t].id == pid && tasks[t].id != 1 {
          KillApplied(s, i, pid);
          Update(t, tasks[t].(isTerminated := true, exitCode := -1));
          assert Killed(old(tasks), tasks, t, pid);
          return;
        }
        t := tasks[t].next;
        i := i + 1;
      }
      if i < |list| {
        LinkFacts(tasks, head, tail, list, i);
      }
      KillMissed(s, pid);
    }

    /** kfree of a block: it must be held, so nothing is freed twice. */
    method Release(block: nat)
      requires block in held
      modifies this`held
      ensures held == old(held) - {block}
    {
      held := held - {block};
    }

    /** The first loop of timer_handler. */
    method TickSleepers()
      requires Linked()
      modifies this`tasks
      ensures Linked() && tasks.Keys == old(tasks).Keys
      ensures forall p :: p in tasks ==> tasks[p] == TickedTask(old(tasks)[p])
    {
      hide Chain, LinkedAt;
      ghost var m := tasks;
      HeadFacts(m, head, tail, list);
      var t := head;
      ghost var i: nat := 0;
      while t != 0
        invariant i <= |list| && t == Next(list, i - 1)
        invariant tasks.Keys == old(tasks).Keys
        invariant forall k :: 0 <= k < i ==> tasks[list[k]] == TickedTask(old(tasks)[list[k]])
        invariant forall k :: i <= k < |list| ==> tasks[list[k]] == old(tasks)[list[k]]
        decreases |list| - i
      {
        LinkFacts(m, head, tail, list, i);
        TickTask(t);
        t := tasks[t].next;
        i := i + 1;
      }
      if i < |list| {
        LinkFacts(m, head, tail, list, i);
      }
      SameLinks(m, tasks, head, tail, list);
    }

    method TickTask(t: nat)
      requires t in tasks
      modifies this`tasks
      ensures tasks == old(tasks)[t := TickedTask(old(tasks)[t])]
    {
      if tasks[t].isSleeping {
        if tasks[t].sleepTicks > 0 {
          tasks := tasks[t := tasks[t].(sleepTicks := tasks[t].sleepTicks - 1)];
        }
        if tasks[t].sleepTicks == 0 {
          tasks := tasks[t := tasks[t].(isSleeping := false)];
        }
      }
    }

    /** The second loop of timer_handler. */
    method Reap()
      requires Linked() && Accounted(tasks, held)
      modifies this`tasks, this`head, this`tail, this`list, this`held
      ensures Linked() && Accounted(tasks, held) && SameButLinks(old(tasks), tasks)
      ensures Entries(tasks, list) == Reaped(old(Entries(tasks, list)), current)
    {
      hide Accounted, Chain, LinkedAt, ReapedSoFar, SameButLinks;
      SameAtFirst(tasks);
      ghost var goal := Reaped(Entries(tasks, list), current);
      ReapStart(tasks, list, current);
      HeadFacts(tasks, head, tail, list);
      var t, prev := head, 0;
      ghost var j: nat := 0;
      while t != 0
        invariant Linked() && Accounted(tasks, held) && SameButLinks(old(tasks), tasks)
        invariant j <= |list| && t == Next(list, j - 1) && prev == if j > 0 then list[j - 1] else 0
        invariant ReapedSoFar(tasks, list, current, j, goal)
        decreases |list| - j
      {
        LinkFacts(tasks, head, tail, list, j);
        var next := tasks[t].next;
        if tasks[t].isTerminated && t != current {
          ghost var m, list0 := tasks, list;
          Unlink(t, prev, j);
          SameButLinksTwice(old(tasks), m, tasks);
          ReapDrop(m, tasks, list0, current, j, goal);
        } else {
          ReapKeep(tasks, list, current, j, goal);
          prev := t;
          j := j + 1;
        }
        t := next;
      }
      if j < |list| {
        LinkFacts(tasks, head, tail, list, j);
      }
      ReapEnd(tasks, list, current, goal);
    }

    /** get_next_task. */
    method GetNextTask() returns (next: nat)
      requires Linked() && current in list
      ensures next == Pick(Entries(tasks, list), current, idle)
    {
      hide Chain, LinkedAt, Search, Pick, Position, Around, Next, Last;
      HeadFacts(tasks, head, tail, list);
      ghost var n, es := |list|, Entries(tasks, list);
      ghost var c: nat :| c < n && list[c] == current;
      CurrentIsAt(tasks, head, tail, list, c);
      ghost var d: nat := 1;
      LinkFacts(tasks, head, tail, list, c);
      OnceAround(list, c);
      NextAround(list, c, 0);
      next := tasks[current].next;
      if next == 0 {
        next := head;
      }
      while next != current
        invariant 1 <= d <= n && next == list[Around(n, c, d)]
        invariant Search(es, c, 1) == Search(es, c, d)
        decreases n - d
      {
        LinkFacts(tasks, head, tail, list, Around(n, c, d));
        assert d != n;
        NextAround(list, c, d);
        SearchStep(es, c, d);
        PickIs(es, c, idle);
        if !tasks[next].isSleeping && !tasks[next].isTerminated {
          return;
        }
        next := tasks[next].next;
        if next == 0 {
          next := head;
        }
        d := d + 1;
      }
      BackAgain(list, c, d);
      SearchStep(es, c, n);
      SearchEnd(es, c);
      PickIs(es, c, idle);
      if !tasks[current].isSleeping && !tasks[current].isTerminated {
        return current;
      }
      return idle;
    }

    /** The two loops of timer_handler. */
    method TickAndReap()
      requires Linked() && Accounted(tasks, held)
      modifies this`tasks, this`head, this`tail, this`list, this`held
      ensures Linked() && Accounted(tasks, held)
      ensures Entries(tasks, list) == Reaped(TickAll(old(Entries(tasks, list))), current)
      ensures Survive(old(tasks), tasks)
    {
      hide Accounted, Chain, LinkedAt;
      ghost var m := tasks;
      HeadFacts(tasks, head, tail, list);
      TickSleepers();
      AccountedSame(m, tasks, held);
      EntriesTicked(m, tasks, list);
      Reap();
    }

    /** The part of timer_handler that switches tasks. */
    method SwitchTask(esp: nat) returns (resume: nat)
      requires Linked() && Accounted(tasks, held) && current in list
      requires Pick(Entries(tasks, list), current, idle) in list
      modifies this`tasks, this`current
      ensures Linked() && Accounted(tasks, held)
      ensures old(current) in old(tasks) && tasks == old(tasks)[old(current) := old(tasks)[old(current)].(esp := esp)]
      ensures Entries(tasks, list) == old(Entries(tasks, list))
      ensures current == Pick(Entries(tasks, list), old(current), idle)
      ensures current in tasks && resume == tasks[current].esp
    {
      hide Accounted, Chain, LinkedAt, Pick;
      HeadFacts(tasks, head, tail, list);
      ghost var m := tasks;
      tasks := tasks[current := tasks[current].(esp := esp)];
      SameLinks(m, tasks, head, tail, list);
      AccountedSame(m, tasks, held);
      EntriesSame(m, tasks, list);
      var next := GetNextTask();
      current := next;
      return tasks[current].esp;
    }

    /** timer_handler: what the interrupt returns is the stack pointer of the task to resume. */
    method TimerHandler(esp: nat) returns (resume: nat)
      requires Valid()
      modifies this`tasks, this`head, this`tail, this`current, this`list, this`held
      ensures Valid() && View() == Timer(old(View()))
      ensures old(current) in old(tasks) && old(current) in tasks
      ensures Survive(SavedStack(old(tasks), old(current), esp, active), tasks)
      ensures if active then current in tasks && resume == tasks[current].esp else resume == esp
    {
      hide Accounted, Chain, LinkedAt, Inv, Search, Survive, Entries, Listed, Pick, Reaped, IdsBelow;
      ghost var s, m := View(), tasks;
      ReapedKeepsInv(s);
      TimerKeepsInv(s);
      InvListed(s);
      InvListed(Timer(s));
      ListedIsIn(tasks, list, current);
      HeadFacts(tasks, head, tail, list);
      TickAndReap();
      ghost var m1 := tasks;
      HeadFacts(tasks, head, tail, list);
      ListedIsIn(tasks, list, current);
      SurvivesSave(m, m1, current, esp);
      IdsStayBelow(m, m1, nextId);
      if !active {
        assert View() == Timer(s);
        return esp;
      }
      ListedIsIn(tasks, list, Timer(s).current);
      resume := SwitchTask(esp);
      assert View() == Timer(s);
    }

    /** Freeing the stacks of a task that is about to go. */
    method FreeStacks(t: nat)
      requires t in tasks && Accounted(tasks, held)
      modifies this`tasks, this`held
      ensures Accounted(tasks, held)
      ensures tasks == old(tasks)[t := old(tasks)[t].(stackBase := 0, userStackBase := 0)]
    {
      hide Accounted;
      if tasks[t].stackBase != 0 {
        FreedStack(tasks, held, t);
        Release(tasks[t].stackBase);
        tasks := tasks[t := tasks[t].(stackBase := 0)];
      }
      if tasks[t].userStackBase != 0 {
        FreedUserStack(tasks, held, t);
        Release(tasks[t].userStackBase);
        tasks := tasks[t := tasks[t].(userStackBase := 0)];
      }
    }

    /** Unlinking task `t` behind `prev` and freeing what it holds: the body of the second loop of timer_handler. */
    method Unlink(t: nat, prev: nat, ghost j: nat)
      requires Linked() && Accounted(tasks, held)
      requires j < |list| && list[j] == t && prev == if j > 0 then list[j - 1] else 0
      modifies this`tasks, this`head, this`tail, this`list, this`held
      ensures Linked() && Accounted(tasks, held)
      ensures list == old(list[..j] + list[j + 1..])
      ensures tasks.Keys == old(tasks).Keys - {t} && SameButLinks(old(tasks), tasks)
    {
      hide Accounted, Chain, LinkedAt;
      ghost var m := tasks;
      LinkFacts(m, head, tail, list, j);
      FreeStacks(t);
      ghost var m1, held1 := tasks, held;
      SameLinks(m, m1, head, tail, list);
      UnlinkedChain(m1, head, tail, list, j);
      AccountedWithout(m1, held1, list, j);
      if prev != 0 {
        tasks := tasks[prev := tasks[prev].(next := tasks[t].next)];
      } else {
        head := tasks[t].next;
      }
      if t == tail {
        tail := prev;
      }
      Release(t);
      tasks := tasks - {t};
      assert tasks == WithoutLink(m1, list, j);
      list := list[..j] + list[j + 1..];
    }
  }

  /** One task, of this id, is terminated and has the exit code -1. */
  ghost predicate Killed(m: Tasks, m': Tasks, t: nat, pid: nat)
  {
    t in m && m[t].id == pid && m' == m[t := m[t].(isTerminated := true, exitCode := -1)]
  }

  /** The tasks that are left have the stacks, stack pointers and ids they had. */
  ghost predicate Survive(m: Tasks, m': Tasks)
  {
    forall p :: p in m' ==>
      && p in m
      && m'[p].stackBase == m[p].stackBase && m'[p].userStackBase == m[p].userStackBase
      && m'[p].esp == m[p].esp && m'[p].id == m[p].id
  }

  ghost function SavedStack(m: Tasks, current: nat, esp: nat, active: bool): Tasks
    requires current in m
  {
    if active then m[current := m[current].(esp := esp)] else m
  }

  ghost predicate IdsBelow(m: Tasks, n: nat)
  {
    forall p :: p in m ==> m[p].id < n
  }

  lemma IdsStayBelow(m: Tasks, m': Tasks, n: nat)
    requires Survive(m, m') && IdsBelow(m, n)
    ensures IdsBelow(m', n)
    ensures forall p, esp :: p in m' ==> IdsBelow(m'[p := m'[p].(esp := esp)], n)
  {
  }

  lemma SurvivesSave(m: Tasks, m': Tasks, current: nat, esp: nat)
    requires Survive(m, m') && current in m'
    ensures current in m && Survive(m[current := m[current].(esp := esp)], m'[current := m'[current].(esp := esp)])
  {
  }

  lemma InvListed(s: Sched)
    requires Inv(s)
    ensures Listed(s.tasks, s.current)
  {
  }

  const FIRST := Task(1, 0, 0, 0, 0, false, false, 0, 0)

  lemma StartIsValid(main: nat)
    requires main != 0
    ensures var m: Tasks := map[main := FIRST];
            && Chain(m, main, main, [main]) && Accounted(m, map[main := Use(main, TheTask)]) && IdsBelow(m, 2)
            && Entries(m, [main]) == [Entry(main, 1, false, 0, false)]
            && Inv(Sched(Entries(m, [main]), main, main, false))
  {
    assert At([Entry(main, 1, false, 0, false)], 0, main);
    assert LinkedAt(map[main := FIRST], [main], 0);
  }

  lemma IdleTakesOver(s: Sched, ptr: nat)
    requires |s.tasks| == 1 && s.tasks[0].ptr == s.current && s.current != ptr && s.tasks[0].id == 1
    ensures Inv(Apply(s, Create(ptr, 2)).(idle := ptr))
  {
    var tasks := s.tasks + [Entry(ptr, 2, false, 0, false)];
    assert At(tasks, 0, s.current) && At(tasks, 1, ptr);
  }

  lemma NewIsNotListed(m: Tasks, list: seq<nat>, held: map<nat, Use>, ptr: nat)
    requires Accounted(m, held) && ptr !in held && ptr != 0
    requires forall p :: p in m <==> p in list
    ensures ptr !in m && ptr !in list
  {
    assert ptr in m ==> BlockFor(m, Use(ptr, TheTask)) == ptr;
  }

  lemma NewIsLegal(m: Tasks, head: nat, tail: nat, list: seq<nat>, s: Sched, ptr: nat, id: nat)
    requires Chain(m, head, tail, list) && IdsBelow(m, id) && ptr !in list && s.tasks == Entries(m, list)
    ensures Legal(s, Create(ptr, id))
  {
    HeadFacts(m, head, tail, list);
  }

  /** What linking in a new task does to the list, the accounts and the view. */
  lemma NewTaskFacts(m: Tasks, head: nat, tail: nat, list: seq<nat>, held: map<nat, Use>, s: Sched, ptr: nat, t: Task)
    requires Chain(m, head, tail, list) && Accounted(m, held) && Inv(s) && s.tasks == Entries(m, list) && IdsBelow(m, t.id)
    requires ptr != 0 && ptr !in held && t == Task(t.id, 0, t.stackBase, t.userStackBase, 0, false, false, 0, 0)
    requires t.stackBase != 0 ==> t.stackBase !in held && t.stackBase != ptr
    requires t.userStackBase != 0 ==> t.userStackBase !in held && t.userStackBase != ptr && t.userStackBase != t.stackBase
    ensures tail != 0 ==> tail in m
    ensures var m', held', s' := AppendTask(m, tail, ptr, t), HeldMore(held, ptr, t.stackBase, t.userStackBase), Apply(s, Create(ptr, t.id));
            && Chain(m', if tail != 0 then head else ptr, ptr, list + [ptr])
            && Accounted(m', held') && IdsBelow(m', t.id + 1)
            && s' == Sched(Entries(m', list + [ptr]), s.current, s.idle, s.active) && Inv(s')
            && held'.Keys == held.Keys + {ptr} + (if t.stackBase != 0 then {t.stackBase} else {}) +
                             (if t.userStackBase != 0 then {t.userStackBase} else {})
  {
    hide Chain, LinkedAt, Accounted, Inv, Entries, HeldMore, Legal, IdsBelow, AppendTask, Next, BlockFor, Apply;
    HeadFacts(m, head, tail, list);
    NewIsNotListed(m, list, held, ptr);
    NewIsLegal(m, head, tail, list, s, ptr, t.id);
    ApplyKeepsInv(s, Create(ptr, t.id));
    HeldKeys(held, ptr, t.stackBase, t.userStackBase);
    AppendChain(m, head, tail, list, ptr, t);
    AppendFacts(m, held, list, tail, ptr, t);
    CreateApplied(s, ptr, t.id);
  }

  lemma CreateApplied(s: Sched, ptr: nat, id: nat)
    ensures Apply(s, Create(ptr, id)) == Sched(s.tasks + [Entry(ptr, id, false, 0, false)], s.current, s.idle, s.active)
  {
  }

  /** The task objects after one more is linked in behind `tail`. */
  function AppendTask(m: Tasks, tail: nat, ptr: nat, t: Task): Tasks
  {
    var m1 := m[ptr := t];
    if tail != 0 && tail in m1 then m1[tail := m1[tail].(next := ptr)] else m1
  }

  lemma AppendChain(m: Tasks, head: nat, tail: nat, list: seq<nat>, ptr: nat, t: Task)
    requires Chain(m, head, tail, list) && ptr !in list && ptr != 0 && t.next == 0
    ensures (tail != 0) == (list != []) && (tail != 0 ==> tail in m && tail != ptr)
    ensures Chain(AppendTask(m, tail, ptr, t), if tail != 0 then head else ptr, ptr, list + [ptr])
  {
    if list != [] {
      LinkFacts(m, head, tail, list, |list| - 1);
    }
    forall i | 0 <= i < |list + [ptr]|
      ensures LinkedAt(AppendTask(m, tail, ptr, t), list + [ptr], i)
    {
      if i < |list| {
        LinkFacts(m, head, tail, list, i);
      }
    }
  }

  lemma AppendFacts(m: Tasks, held: map<nat, Use>, list: seq<nat>, tail: nat, ptr: nat, t: Task)
    requires ptr !in m && ptr !in list && ptr != 0 && (tail != 0 ==> tail in m)
    requires Accounted(m, held) && ptr !in held && IdsBelow(m, t.id)
    requires t.stackBase != 0 ==> t.stackBase !in held && t.stackBase != ptr
    requires t.userStackBase != 0 ==> t.userStackBase !in held && t.userStackBase != ptr && t.userStackBase != t.stackBase
    ensures var m' := AppendTask(m, tail, ptr, t);
            && Accounted(m', HeldMore(held, ptr, t.stackBase, t.userStackBase))
            && IdsBelow(m', t.id + 1)
            && Entries(m', list + [ptr]) == Entries(m, list) + [Entry(ptr, t.id, t.isSleeping, t.sleepTicks, t.isTerminated)]
  {
    var m1, m' := m[ptr := t], AppendTask(m, tail, ptr, t);
    AccountedMore(m, held, ptr, t);
    AccountedSame(m1, m', HeldMore(held, ptr, t.stackBase, t.userStackBase));
    EntriesAppend(m, m', list, ptr);
  }

  ghost function HeldMore(held: map<nat, Use>, ptr: nat, stack: nat, userStack: nat): map<nat, Use>
  {
    var h1 := held[ptr := Use(ptr, TheTask)];
    var h2 := if stack != 0 then h1[stack := Use(ptr, Stack)] else h1;
    if userStack != 0 then h2[userStack := Use(ptr, UserStack)] else h2
  }

  lemma HeldKeys(held: map<nat, Use>, ptr: nat, stack: nat, userStack: nat)
    ensures HeldMore(held, ptr, stack, userStack).Keys ==
            held.Keys + {ptr} + (if stack != 0 then {stack} else {}) + (if userStack != 0 then {userStack} else {})
  {
  }

  lemma AccountedMore(m: Tasks, held: map<nat, Use>, ptr: nat, t: Task)
    requires Accounted(m, held) && ptr !in m && ptr != 0 && ptr !in held
    requires t.stackBase != 0 ==> t.stackBase !in held && t.stackBase != ptr
    requires t.userStackBase != 0 ==> t.userStackBase !in held && t.userStackBase != ptr && t.userStackBase != t.stackBase
    ensures Accounted(m[ptr := t], HeldMore(held, ptr, t.stackBase, t.userStackBase))
  {
    var m', held' := m[ptr := t], HeldMore(held, ptr, t.stackBase, t.userStackBase);
    forall u: Use | u.task in m' && BlockFor(m', u) != 0
      ensures BlockFor(m', u) in held' && held'[BlockFor(m', u)] == u
    {
      if u.task != ptr {
        assert BlockFor(m, u) in held;
      }
    }
  }

  /** The current task is a live object, at its place in the view. */
  lemma CurrentFacts(m: Tasks, head: nat, tail: nat, list: seq<nat>, s: Sched)
    requires Chain(m, head, tail, list) && Inv(s) && s.tasks == Entries(m, list)
    ensures s.current in m && s.current != 0
    ensures list[Position(s.tasks, s.current)] == s.current
  {
    HeadFacts(m, head, tail, list);
  }

  /** So is the idle task, with the id of its entry. */
  lemma IdleIsThere(m: Tasks, head: nat, tail: nat, list: seq<nat>, s: Sched)
    requires Chain(m, head, tail, list) && Inv(s) && s.tasks == Entries(m, list)
    ensures Listed(s.tasks, s.idle) && s.idle in m && m[s.idle].id == s.tasks[Position(s.tasks, s.idle)].id
  {
    ListedIsIn(m, list, s.idle);
  }

  lemma KillApplied(s: Sched, i: nat, id: nat)
    requires Inv(s) && i < |s.tasks| && s.tasks[i].id == id && id != 1
    ensures Apply(s, Kill(id)) == s.(tasks := s.tasks[i := Ended(s.tasks[i])])
  {
    assert Known(s.tasks, id) && Numbered(s.tasks, id) == i;
  }

  lemma KillMissed(s: Sched, id: nat)
    requires id == 1 || forall i :: 0 <= i < |s.tasks| ==> s.tasks[i].id != id
    ensures Apply(s, Kill(id)) == s
  {
  }

  lemma CurrentIsAt(m: Tasks, head: nat, tail: nat, list: seq<nat>, c: nat)
    requires Chain(m, head, tail, list) && c < |list|
    ensures var es := Entries(m, list);
            Listed(es, list[c]) && Position(es, list[c]) == c
  {
    assert At(Entries(m, list), c, list[c]);
  }

  lemma OnceAround(list: seq<nat>, c: nat)
    requires c < |list|
    ensures Around(|list|, c, 0) == c && Around(|list|, c, |list|) == c
    ensures Next(list, -1) == list[0]
  {
  }

  /** The link of the task `d` places on leads to the one behind it, or nowhere at the end of the list. */
  lemma NextAround(list: seq<nat>, c: nat, d: nat)
    requires c < |list| && d < |list| && forall k :: 0 <= k < |list| ==> list[k] != 0
    ensures list[Around(|list|, c, d + 1)] == if Next(list, Around(|list|, c, d)) == 0 then list[0] else Next(list, Around(|list|, c, d))
  {
  }

  lemma BackAgain(list: seq<nat>, c: nat, d: nat)
    requires c < |list| && 1 <= d <= |list| && list[Around(|list|, c, d)] == list[c]
    requires forall k :: 0 <= k < |list| && k != c ==> list[k] != list[c]
    ensures d == |list| && Around(|list|, c, d) == c
  {
  }

  lemma SearchStep(es: seq<Entry>, c: nat, d: nat)
    requires c < |es| && 1 <= d <= |es|
    ensures Search(es, c, d) == if es[Around(|es|, c, d)].Ready() then d else Search(es, c, d + 1)
  {
  }

  lemma SearchEnd(es: seq<Entry>, c: nat)
    requires c < |es|
    ensures Search(es, c, |es| + 1) == 0
  {
  }

  lemma PickIs(es: seq<Entry>, c: nat, idle: nat)
    requires c < |es| && Listed(es, es[c].ptr) && Position(es, es[c].ptr) == c
    ensures var d := Search(es, c, 1);
            Pick(es, es[c].ptr, idle) == if d == 0 then idle else es[Around(|es|, c, d)].ptr
  {
  }

  lemma ListedIsIn(m: Tasks, list: seq<nat>, ptr: nat)
    requires Listed(Entries(m, list), ptr)
    ensures ptr in list
  {
    var i: nat :| At(Entries(m, list), i, ptr);
    assert list[i] == ptr;
  }

  lemma EntriesTicked(m: Tasks, m': Tasks, list: seq<nat>)
    requires m'.Keys == m.Keys && forall p :: p in m ==> m'[p] == TickedTask(m[p])
    requires forall i :: 0 <= i < |list| ==> list[i] in m
    ensures Entries(m', list) == TickAll(Entries(m, list))
  {
  }

  lemma AccountedSame(m: Tasks, m': Tasks, held: map<nat, Use>)
    requires Accounted(m, held) && m'.Keys == m.Keys
    requires forall p :: p in m ==> m'[p].stackBase == m[p].stackBase && m'[p].userStackBase == m[p].userStackBase
    ensures Accounted(m', held)
  {
    assert forall u: Use :: u.task in m ==> BlockFor(m', u) == BlockFor(m, u);
  }

  lemma EntriesSame(m: Tasks, m': Tasks, list: seq<nat>)
    requires forall p :: p in list ==> EntryOf(m, p) == EntryOf(m', p)
    ensures Entries(m, list) == Entries(m', list)
  {
  }

  lemma EntriesOfConcat(m: Tasks, a: seq<nat>, b: seq<nat>)
    ensures Entries(m, a + b) == Entries(m, a) + Entries(m, b)
  {
  }

  lemma EntriesFrom(m: Tasks, list: seq<nat>, j: nat)
    requires j < |list|
    ensures Entries(m, list[j..]) == [EntryOf(m, list[j])] + Entries(m, list[j + 1..])
    ensures Entries(m, list[..j + 1]) == Entries(m, list[..j]) + [EntryOf(m, list[j])]
  {
    assert Entries(m, [list[j]]) == [EntryOf(m, list[j])];
    assert list[j..] == [list[j]] + list[j + 1..];
    EntriesOfConcat(m, [list[j]], list[j + 1..]);
    assert list[..j + 1] == list[..j] + [list[j]];
    EntriesOfConcat(m, list[..j], [list[j]]);
  }

  lemma EntriesAppend(m: Tasks, m': Tasks, list: seq<nat>, ptr: nat)
    requires ptr !in list && forall p :: p in list ==> EntryOf(m', p) == EntryOf(m, p)
    ensures Entries(m', list + [ptr]) == Entries(m, list) + [EntryOf(m', ptr)]
  {
    EntriesOfConcat(m', list, [ptr]);
    assert Entries(m', [ptr]) == [EntryOf(m', ptr)];
    EntriesSame(m, m', list);
  }

  /** The part of a task that only its unlinking changes is its link. */
  ghost predicate SameButLinks(m: Tasks, m': Tasks)
  {
    forall p :: p in m' ==> p in m && m'[p] == m[p].(next := m'[p].next)
  }

  /** The first `j` tasks have been looked at; what is left is to reap the rest. */
  ghost predicate ReapedSoFar(m: Tasks, list: seq<nat>, current: nat, j: nat, goal: seq<Entry>)
    requires j <= |list|
  {
    Entries(m, list[..j]) + Reaped(Entries(m, list[j..]), current) == goal
  }

  lemma ReapStart(m: Tasks, list: seq<nat>, current: nat)
    ensures ReapedSoFar(m, list, current, 0, Reaped(Entries(m, list), current))
  {
    assert list[0..] == list;
    assert Entries(m, list[..0]) == [];
  }

  lemma ReapKeep(m: Tasks, list: seq<nat>, current: nat, j: nat, goal: seq<Entry>)
    requires j < |list| && ReapedSoFar(m, list, current, j, goal) && Kept(EntryOf(m, list[j]), current)
    ensures ReapedSoFar(m, list, current, j + 1, goal)
  {
    EntriesFrom(m, list, j);
    var rest := Entries(m, list[j + 1..]);
    assert ([EntryOf(m, list[j])] + rest)[1..] == rest;
  }

  lemma ReapDrop(m: Tasks, m': Tasks, list: seq<nat>, current: nat, j: nat, goal: seq<Entry>)
    requires j < |list| && ReapedSoFar(m, list, current, j, goal) && !Kept(EntryOf(m, list[j]), current)
    requires SameButLinks(m, m') && m'.Keys == m.Keys - {list[j]}
    requires forall k :: 0 <= k < |list| && k != j ==> list[k] != list[j]
    ensures ReapedSoFar(m', list[..j] + list[j + 1..], current, j, goal)
  {
    var list' := list[..j] + list[j + 1..];
    assert list'[..j] == list[..j] && list'[j..] == list[j + 1..];
    EntriesFrom(m, list, j);
    var rest := Entries(m, list[j + 1..]);
    assert ([EntryOf(m, list[j])] + rest)[1..] == rest;
    EntriesSame(m, m', list[..j]);
    EntriesSame(m, m', list[j + 1..]);
  }

  lemma SameAtFirst(m: Tasks)
    ensures SameButLinks(m, m)
  {
  }

  lemma SameButLinksTwice(m: Tasks, m1: Tasks, m2: Tasks)
    requires SameButLinks(m, m1) && SameButLinks(m1, m2)
    ensures SameButLinks(m, m2)
  {
  }

  lemma ReapEnd(m: Tasks, list: seq<nat>, current: nat, goal: seq<Entry>)
    requires ReapedSoFar(m, list, current, |list|, goal)
    ensures Entries(m, list) == goal
  {
    assert list[..|list|] == list;
    assert Entries(m, list[|list|..]) == [];
  }

  lemma HeadFacts(m: Tasks, head: nat, tail: nat, list: seq<nat>)
    requires Chain(m, head, tail, list)
    ensures head == Next(list, -1) && tail == Last(list)
    ensures forall p :: p in m <==> p in list
    ensures forall k :: 0 <= k < |list| ==> list[k] in m && list[k] != 0
  {
    forall k | 0 <= k < |list|
      ensures list[k] in m && list[k] != 0
    {
      assert LinkedAt(m, list, k);
    }
  }

  lemma LinkFacts(m: Tasks, head: nat, tail: nat, list: seq<nat>, j: nat)
    requires Chain(m, head, tail, list) && j < |list|
    ensures list[j] != 0 && list[j] in m && m[list[j]].next == Next(list, j)
    ensures j > 0 ==> list[j - 1] != 0 && list[j - 1] in m && list[j - 1] != list[j]
    ensures j + 1 < |list| ==> list[j + 1] != 0
    ensures forall k :: 0 <= k < |list| && k != j ==> list[k] != list[j]
  {
    assert LinkedAt(m, list, j);
    assert j > 0 ==> LinkedAt(m, list, j - 1);
    assert j + 1 < |list| ==> LinkedAt(m, list, j + 1);
  }

  lemma FreedStack(m: Tasks, held: map<nat, Use>, t: nat)
    requires Accounted(m, held) && t in m && m[t].stackBase != 0
    ensures m[t].stackBase in held
    ensures Accounted(m[t := m[t].(stackBase := 0)], held - {m[t].stackBase})
  {
    FreedBlock(m, m[t := m[t].(stackBase := 0)], held, Use(t, Stack));
  }

  lemma FreedUserStack(m: Tasks, held: map<nat, Use>, t: nat)
    requires Accounted(m, held) && t in m && m[t].userStackBase != 0
    ensures m[t].userStackBase in held
    ensures Accounted(m[t := m[t].(userStackBase := 0)], held - {m[t].userStackBase})
  {
    FreedBlock(m, m[t := m[t].(userStackBase := 0)], held, Use(t, UserStack));
  }

  /** Freeing a block and forgetting it keeps the account. */
  lemma FreedBlock(m: Tasks, m': Tasks, held: map<nat, Use>, use: Use)
    requires Accounted(m, held) && use.task in m && BlockFor(m, use) != 0
    requires m'.Keys == m.Keys
    requires forall u: Use :: u.task in m' ==> BlockFor(m', u) == if u == use then 0 else BlockFor(m, u)
    ensures BlockFor(m, use) in held
    ensures Accounted(m', held - {BlockFor(m, use)})
  {
    var block := BlockFor(m, use);
    assert held[block] == use;
    forall b | b in held && b != block
      ensures held[b].task in m' && BlockFor(m', held[b]) == b
    {
    }
    forall u: Use | u.task in m' && BlockFor(m', u) != 0
      ensures BlockFor(m', u) in held && BlockFor(m', u) != block && held[BlockFor(m', u)] == u
    {
      assert BlockFor(m, u) in held;
    }
  }

  lemma AccountedWithout(m: Tasks, held: map<nat, Use>, list: seq<nat>, j: nat)
    requires Accounted(m, held) && j < |list| && list[j] in m && list[j] != 0 && (j > 0 ==> list[j - 1] in m)
    requires m[list[j]].stackBase == 0 && m[list[j]].userStackBase == 0
    ensures list[j] in held
    ensures Accounted(WithoutLink(m, list, j), held - {list[j]})
  {
    var t, m' := list[j], WithoutLink(m, list, j);
    assert BlockFor(m, Use(t, TheTask)) == t;
    assert held[t] == Use(t, TheTask);
    forall b | b in held && b != t
      ensures held[b].task in m' && BlockFor(m', held[b]) == b
    {
      assert held[b].kind.TheTask? || held[b].kind.Stack? || held[b].kind.UserStack?;
    }
    forall u: Use | u.task in m' && BlockFor(m', u) != 0
      ensures BlockFor(m', u) in held && BlockFor(m', u) != t && held[BlockFor(m', u)] == u
    {
      assert BlockFor(m', u) == BlockFor(m, u);
    }
  }

  /** Equal links make equal chains. */
  lemma SameLinks(m: Tasks, m': Tasks, head: nat, tail: nat, list: seq<nat>)
    requires Chain(m, head, tail, list)
    requires m'.Keys == m.Keys && forall p :: p in m ==> m'[p].next == m[p].next
    ensures Chain(m', head, tail, list)
  {
    forall k | 0 <= k < |list|
      ensures LinkedAt(m', list, k)
    {
      assert LinkedAt(m, list, k);
    }
  }

  function WithoutLink(m: Tasks, list: seq<nat>, j: nat): Tasks
    requires j < |list| && list[j] in m && (j > 0 ==> list[j - 1] in m)
  {
    (if j > 0 then m[list[j - 1] := m[list[j - 1]].(next := m[list[j]].next)] else m) - {list[j]}
  }

  lemma UnlinkedChain(m: Tasks, head: nat, tail: nat, list: seq<nat>, j: nat)
    requires Chain(m, head, tail, list) && j < |list|
    ensures list[j] in m && (j > 0 ==> list[j - 1] in m)
    ensures Chain(WithoutLink(m, list, j), if j > 0 then head else m[list[j]].next,
                  if list[j] == tail then (if j > 0 then list[j - 1] else 0) else tail, list[..j] + list[j + 1..])
  {
    LinkFacts(m, head, tail, list, j);
    var list' := list[..j] + list[j + 1..];
    forall i | 0 <= i < |list'|
      ensures LinkedAt(WithoutLink(m, list, j), list', i)
    {
      UnlinkedLink(m, head, tail, list, j, i);
    }
    MembersWithout(list, j);
  }

  lemma UnlinkedLink(m: Tasks, head: nat, tail: nat, list: seq<nat>, j: nat, i: nat)
    requires Chain(m, head, tail, list) && j < |list| && i < |list| - 1
    ensures list[j] in m && (j > 0 ==> list[j - 1] in m)
    ensures LinkedAt(WithoutLink(m, list, j), list[..j] + list[j + 1..], i)
  {
    LinkFacts(m, head, tail, list, j);
    LinkFacts(m, head, tail, list, if i < j then i else i + 1);
  }

  lemma MembersWithout(list: seq<nat>, j: nat)
    requires j < |list|
    requires forall a, b :: 0 <= a < b < |list| ==> list[a] != list[b]
    ensures var list' := list[..j] + list[j + 1..];
            && (forall p :: p in list' <==> p in list && p != list[j])
            && (forall a, b :: 0 <= a < b < |list'| ==> list'[a] != list'[b])
  {
    var list' := list[..j] + list[j + 1..];
    forall p | p in list && p != list[j]
      ensures p in list'
    {
      var i :| 0 <= i < |list| && list[i] == p;
      assert list'[if i < j then i else i - 1] == p;
    }
  }

  function TickedTask(t: Task): Task
  {
    if !t.isSleeping then t
    else if t.sleepTicks > 1 then t.(sleepTicks := t.sleepTicks - 1)
    else t.(sleepTicks := 0, isSleeping := false)
  }
}
