/** The scheduler as a list of tasks: one timer interrupt as a step, and how long a sleeper waits. */
module SchedModel {

  /** What the scheduler decides by: one task of the list. */
  datatype Entry = Entry(ptr: nat, id: nat, sleeping: bool, ticks: nat, terminated: bool)
  {
    predicate Ready() { !sleeping && !terminated }
  }

  /** `current` and `idle` are the addresses of two tasks of the list. */
  datatype Sched = Sched(tasks: seq<Entry>, current: nat, idle: nat, active: bool)

  // ----- one timer interrupt

  /** A sleeper is one tick closer to waking. */
  function Ticked(e: Entry): Entry
  {
    if !e.sleeping then e
    else if e.ticks > 1 then e.(ticks := e.ticks - 1)
    else e.(ticks := 0, sleeping := false)
  }

  function TickAll(tasks: seq<Entry>): (r: seq<Entry>)
    ensures |r| == |tasks| && forall i :: 0 <= i < |tasks| ==> r[i] == Ticked(tasks[i])
  {
    seq(|tasks|, i requires 0 <= i < |tasks| => Ticked(tasks[i]))
  }

  predicate Kept(e: Entry, current: nat)
  {
    !e.terminated || e.ptr == current
  }

  /** The tasks that stay, in order. */
  function Reaped(tasks: seq<Entry>, current: nat): (r: seq<Entry>)
  {
    if tasks == [] then []
    else (if Kept(tasks[0], current) then [tasks[0]] else []) + Reaped(tasks[1..], current)
  }

  /** The position `d` places after `c` in a circle of `n`. */
  function Around(n: nat, c: nat, d: nat): (i: nat)
    requires c < n && d <= n
    ensures i < n
  {
    if c + d < n then c + d else c + d - n
  }

  /** The distance from `c` to the first ready task, looking from `d` places on; 0 when there is none. */
  function Search(tasks: seq<Entry>, c: nat, d: nat): (r: nat)
    requires c < |tasks| && 1 <= d <= |tasks| + 1
    ensures r == 0 || d <= r <= |tasks|
    ensures r != 0 ==> tasks[Around(|tasks|, c, r)].Ready()
    ensures forall k :: d <= k <= |tasks| && (r == 0 || k < r) ==> !tasks[Around(|tasks|, c, k)].Ready()
    decreases |tasks| + 1 - d
  {
    if d > |tasks| then 0
    else if tasks[Around(|tasks|, c, d)].Ready() then d
    else Search(tasks, c, d + 1)
  }

  ghost predicate At(tasks: seq<Entry>, i: nat, ptr: nat)
  {
    i < |tasks| && tasks[i].ptr == ptr
  }

  ghost predicate Listed(tasks: seq<Entry>, ptr: nat)
  {
    exists i :: At(tasks, i, ptr)
  }

  ghost function Position(tasks: seq<Entry>, ptr: nat): (i: nat)
    requires Listed(tasks, ptr)
    ensures At(tasks, i, ptr)
  {
    var i :| At(tasks, i, ptr); i
  }

  /** The task get_next_task picks. */
  ghost function Pick(tasks: seq<Entry>, current: nat, idle: nat): nat
  {
    if !Listed(tasks, current) then idle
    else
      var c := Position(tasks, current);
      var d := Search(tasks, c, 1);
      if d == 0 then idle else tasks[Around(|tasks|, c, d)].ptr
  }

  ghost function Timer(s: Sched): Sched
  {
    var tasks := Reaped(TickAll(s.tasks), s.current);
    s.(tasks := tasks, current := if s.active then Pick(tasks, s.current, s.idle) else s.current)
  }

  // ----- the other steps

  datatype Event =
    | Tick                  // the timer interrupt, also raised by scheduler_yield
    | Sleep(ms: nat)        // scheduler_sleep, by the current task
    | Exit                  // scheduler_exit_task or process_exit, by the current task
    | Kill(id: nat)         // process_kill
    | Create(ptr: nat, id: nat)

  function SleepTicks(ms: nat): nat
  {
    if ms / 10 == 0 then 1 else ms / 10
  }

  ghost predicate Known(tasks: seq<Entry>, id: nat)
  {
    exists i: nat :: i < |tasks| && tasks[i].id == id
  }

  ghost function Numbered(tasks: seq<Entry>, id: nat): (i: nat)
    requires Known(tasks, id)
    ensures i < |tasks| && tasks[i].id == id
  {
    var i: nat :| i < |tasks| && tasks[i].id == id; i
  }

  function Asleep(e: Entry, ticks: nat): Entry { e.(ticks := ticks, sleeping := true) }

  function Ended(e: Entry): Entry { e.(terminated := true) }

  ghost function Apply(s: Sched, e: Event): Sched
  {
    match e
    case Tick => Timer(s)
    case Sleep(ms) =>
      if !s.active || !Listed(s.tasks, s.current) then s
      else var c := Position(s.tasks, s.current); s.(tasks := s.tasks[c := Asleep(s.tasks[c], SleepTicks(ms))])
    case Exit =>
      if !Listed(s.tasks, s.current) then s
      else var c := Position(s.tasks, s.current); s.(tasks := s.tasks[c := Ended(s.tasks[c])])
    case Kill(id) =>
      if id == 1 || !Known(s.tasks, id) then s
      else var i := Numbered(s.tasks, id); s.(tasks := s.tasks[i := Ended(s.tasks[i])])
    case Create(ptr, id) => s.(tasks := s.tasks + [Entry(ptr, id, false, 0, false)])
  }

  // ----- the invariant

  ghost predicate Distinct(tasks: seq<Entry>)
  {
    forall i, j :: 0 <= i < j < |tasks| ==> tasks[i].ptr != tasks[j].ptr && tasks[i].id != tasks[j].id
  }

  /** The current task is always in the list, and the idle task always ready. */
  ghost predicate Inv(s: Sched)
  {
    && Distinct(s.tasks)
    && Listed(s.tasks, s.current)
    && Listed(s.tasks, s.idle) && s.tasks[Position(s.tasks, s.idle)].Ready()
  }

  /** The idle task only halts, nobody kills it, and new tasks are new. */
  ghost predicate Legal(s: Sched, e: Event)
  {
    match e
    case Tick => true
    case Sleep(_) => s.current != s.idle
    case Exit => s.current != s.idle
    case Kill(id) => Listed(s.tasks, s.idle) ==> s.tasks[Position(s.tasks, s.idle)].id != id
    case Create(ptr, id) => forall i :: 0 <= i < |s.tasks| ==> s.tasks[i].ptr != ptr && s.tasks[i].id != id
  }

  // ----- reaping is an in-order filter

  lemma {:induction false} ReapedOfConcat(a: seq<Entry>, b: seq<Entry>, current: nat)
    ensures Reaped(a + b, current) == Reaped(a, current) + Reaped(b, current)
  {
    hide Kept;
    if a == [] {
      assert a + b == b;
    } else {
      var first := if Kept(a[0], current) then [a[0]] else [];
      assert Reaped(a + b, current) == first + Reaped(a[1..] + b, current) by {
        assert (a + b)[1..] == a[1..] + b;
      }
      ReapedOfConcat(a[1..], b, current);
      hide Reaped;
      assert first + (Reaped(a[1..], current) + Reaped(b, current)) == (first + Reaped(a[1..], current)) + Reaped(b, current);
    }
  }

  lemma ReapedSplit(tasks: seq<Entry>, current: nat, i: nat)
    requires i < |tasks|
    ensures Reaped(tasks, current) ==
            Reaped(tasks[..i], current) + (if Kept(tasks[i], current) then [tasks[i]] else []) + Reaped(tasks[i + 1..], current)
  {
    assert tasks == tasks[..i] + ([tasks[i]] + tasks[i + 1..]);
    ReapedOfConcat(tasks[..i], [tasks[i]] + tasks[i + 1..], current);
    assert ([tasks[i]] + tasks[i + 1..])[1..] == tasks[i + 1..];
  }

  /** Where each survivor came from: an increasing sequence of positions, exactly those of the tasks to keep. */
  ghost predicate FilterOf(tasks: seq<Entry>, r: seq<Entry>, from: seq<nat>, current: nat)
  {
    && |from| == |r|
    && (forall i :: 0 <= i < |r| ==> from[i] < |tasks| && r[i] == tasks[from[i]])
    && (forall i, j :: 0 <= i < j < |from| ==> from[i] < from[j])
    && (forall k :: 0 <= k < |tasks| ==> (k in from <==> Kept(tasks[k], current)))
  }

  ghost function Survivors(tasks: seq<Entry>, current: nat): seq<nat>
  {
    if tasks == [] then []
    else
      var n := |tasks| - 1;
      Survivors(tasks[..n], current) + if Kept(tasks[n], current) then [n] else []
  }

  /** The list after a timer interrupt holds the tasks that are not terminated or are current, in their order. */
  lemma {:induction false} ReapedIsFilter(tasks: seq<Entry>, current: nat)
    ensures FilterOf(tasks, Reaped(tasks, current), Survivors(tasks, current), current)
  {
    if tasks != [] {
      var n := |tasks| - 1;
      ReapedIsFilter(tasks[..n], current);
      ReapedSplit(tasks, current, n);
      assert tasks[n + 1..] == [];
    }
  }

  lemma ReapedMembers(tasks: seq<Entry>, current: nat)
    ensures forall e :: e in Reaped(tasks, current) <==> e in tasks && Kept(e, current)
  {
    hide Kept;
    ReapedIsFilter(tasks, current);
    var from, r := Survivors(tasks, current), Reaped(tasks, current);
    forall e | e in tasks && Kept(e, current)
      ensures e in r
    {
      var k :| 0 <= k < |tasks| && tasks[k] == e;
      assert k in from;
      var i :| 0 <= i < |from| && from[i] == k;
      assert r[i] == e;
    }
  }

  lemma ReapedKeepsDistinct(tasks: seq<Entry>, current: nat)
    requires Distinct(tasks)
    ensures Distinct(Reaped(tasks, current))
    ensures |Reaped(tasks, current)| <= |tasks|
    ensures forall e :: e in Reaped(tasks, current) <==> e in tasks && Kept(e, current)
  {
    hide Kept, Reaped;
    ReapedIsFilter(tasks, current);
    ReapedMembers(tasks, current);
    ReapedIsNoLonger(tasks, current);
  }

  lemma {:induction false} ReapedIsNoLonger(tasks: seq<Entry>, current: nat)
    ensures |Reaped(tasks, current)| <= |tasks|
  {
    if tasks != [] {
      ReapedIsNoLonger(tasks[1..], current);
    }
  }

  // ----- the ring: the list as get_next_task sees it, the current task last

  function Ring(tasks: seq<Entry>, c: nat): (r: seq<Entry>)
    requires c < |tasks|
    ensures |r| == |tasks|
    ensures forall k: nat :: k < |tasks| ==> r[k] == tasks[Around(|tasks|, c, k + 1)]
  {
    tasks[c + 1..] + tasks[..c + 1]
  }

  /** Reaping the list reaps the ring, when the current task stays. */
  lemma RingOfReaped(tasks: seq<Entry>, current: nat, c: nat)
    requires c < |tasks| && Kept(tasks[c], current)
    ensures var c' := |Reaped(tasks[..c], current)|;
            var r := Reaped(tasks, current);
            && c' < |r| && r[c'] == tasks[c]
            && Ring(r, c') == Reaped(Ring(tasks, c), current)
  {
    var head, tail := tasks[..c], tasks[c + 1..];
    ReapedSplit(tasks, current, c);
    ReapedOfConcat(tail, tasks[..c + 1], current);
    assert tasks[..c + 1] == head + [tasks[c]];
    ReapedOfConcat(head, [tasks[c]], current);
    assert Reaped([tasks[c]], current) == [tasks[c]];
    var r, c' := Reaped(tasks, current), |Reaped(head, current)|;
    assert r == Reaped(head, current) + [tasks[c]] + Reaped(tail, current);
    assert r[..c' + 1] == Reaped(head, current) + [tasks[c]];
    assert r[c' + 1..] == Reaped(tail, current);
  }

  /** Removing tasks brings a survivor no further away. */
  lemma NoFurther(ring: seq<Entry>, current: nat, j: nat) returns (i: nat)
    requires j < |ring| && Kept(ring[j], current)
    ensures i <= j && i < |Reaped(ring, current)| && Reaped(ring, current)[i] == ring[j]
  {
    ReapedSplit(ring, current, j);
    i := |Reaped(ring[..j], current)|;
    ReapedIsNoLonger(ring[..j], current);
  }

  lemma PositionIs(tasks: seq<Entry>, i: nat)
    requires Distinct(tasks) && i < |tasks|
    ensures At(tasks, i, tasks[i].ptr) && Listed(tasks, tasks[i].ptr) && Position(tasks, tasks[i].ptr) == i
  {
    assert At(tasks, i, tasks[i].ptr);
  }

  // ----- distances

  /** How many places after the current task `x` comes, going round; the current task itself comes last. */
  ghost function Dist(tasks: seq<Entry>, current: nat, x: nat): (d: nat)
    requires Listed(tasks, current) && Listed(tasks, x)
    ensures 1 <= d <= |tasks| && Around(|tasks|, Position(tasks, current), d) == Position(tasks, x)
  {
    var c, p := Position(tasks, current), Position(tasks, x);
    if p > c then p - c else p + |tasks| - c
  }

  lemma DistIs(tasks: seq<Entry>, c: nat, d: nat)
    requires Distinct(tasks) && c < |tasks| && 1 <= d <= |tasks|
    ensures var i := Around(|tasks|, c, d);
            Listed(tasks, tasks[c].ptr) && Listed(tasks, tasks[i].ptr) && Dist(tasks, tasks[c].ptr, tasks[i].ptr) == d
  {
    PositionIs(tasks, c);
    PositionIs(tasks, Around(|tasks|, c, d));
  }

  /** A pick is a ready task of the list and passes no ready task: it is `x` or comes nearer to it. */
  lemma PickApproaches(tasks: seq<Entry>, current: nat, idle: nat, x: nat)
    requires Distinct(tasks) && Listed(tasks, current) && Listed(tasks, x)
    requires tasks[Position(tasks, x)].Ready()
    ensures var y := Pick(tasks, current, idle);
            && Listed(tasks, y) && tasks[Position(tasks, y)].Ready()
            && (y == x || Dist(tasks, y, x) < Dist(tasks, current, x))
  {
    var n, c, dx := |tasks|, Position(tasks, current), Dist(tasks, current, x);
    var d := Search(tasks, c, 1);
    assert d != 0 && d <= dx;
    var i := Around(n, c, d);
    PositionIs(tasks, i);
    if tasks[i].ptr != x {
      assert d < dx && Around(n, i, dx - d) == Position(tasks, x);
      DistIs(tasks, i, dx - d);
    }
  }

  lemma TickKeepsPlaces(tasks: seq<Entry>, x: nat)
    requires Distinct(tasks) && Listed(tasks, x)
    ensures Distinct(TickAll(tasks))
    ensures Listed(TickAll(tasks), x) && Position(TickAll(tasks), x) == Position(tasks, x)
  {
    PositionIs(TickAll(tasks), Position(tasks, x));
  }

  /** Reaping takes the survivors no further from the current task. */
  lemma ReapedDist(tasks: seq<Entry>, current: nat, x: nat)
    requires Distinct(tasks) && Listed(tasks, current) && Listed(tasks, x)
    requires Kept(tasks[Position(tasks, x)], current)
    ensures var r := Reaped(tasks, current);
            && Distinct(r) && Listed(r, current) && Listed(r, x)
            && r[Position(r, x)] == tasks[Position(tasks, x)]
            && Dist(r, current, x) <= Dist(tasks, current, x)
  {
    hide Reaped;
    var c, d := Position(tasks, current), Dist(tasks, current, x);
    var r, c' := Reaped(tasks, current), |Reaped(tasks[..c], current)|;
    ReapedKeepsDistinct(tasks, current);
    RingOfReaped(tasks, current, c);
    var ring := Ring(tasks, c);
    assert ring[d - 1] == tasks[Position(tasks, x)];
    var i := NoFurther(ring, current, d - 1);
    assert Ring(r, c')[i] == r[Around(|r|, c', i + 1)];
    DistIs(r, c', i + 1);
    PositionIs(r, Around(|r|, c', i + 1));
  }

  // ----- the invariant over runs

  lemma ReapedKeepsInv(s: Sched)
    requires Inv(s)
    ensures var r := Reaped(TickAll(s.tasks), s.current);
            && Distinct(r) && Listed(r, s.current) && Listed(r, s.idle) && r[Position(r, s.idle)].Ready()
            && |r| <= |s.tasks|
  {
    var t := TickAll(s.tasks);
    TickKeepsPlaces(s.tasks, s.current);
    TickKeepsPlaces(s.tasks, s.idle);
    ReapedKeepsDistinct(t, s.current);
    ReapedDist(t, s.current, s.current);
    ReapedDist(t, s.current, s.idle);
  }

  /** The interrupted task stays in the list, the next one is ready, and idle is never needed as a fallback. */
  lemma TimerKeepsInv(s: Sched)
    requires Inv(s)
    ensures Inv(Timer(s))
    ensures Listed(Timer(s).tasks, s.current) && |Timer(s).tasks| <= |s.tasks|
    ensures s.active ==> Timer(s).tasks[Position(Timer(s).tasks, Timer(s).current)].Ready()
  {
    ReapedKeepsInv(s);
    var r := Reaped(TickAll(s.tasks), s.current);
    PickApproaches(r, s.current, s.idle, s.idle);
  }

  lemma PutKeepsPlaces(tasks: seq<Entry>, i: nat, e: Entry, x: nat)
    requires Distinct(tasks) && Listed(tasks, x) && i < |tasks| && e.ptr == tasks[i].ptr && e.id == tasks[i].id
    ensures var r := tasks[i := e];
            && Distinct(r) && Listed(r, x) && Position(r, x) == Position(tasks, x)
            && (x != e.ptr ==> r[Position(r, x)] == tasks[Position(tasks, x)])
  {
    PositionIs(tasks[i := e], Position(tasks, x));
  }

  lemma AddKeepsPlaces(tasks: seq<Entry>, e: Entry, x: nat)
    requires Distinct(tasks + [e]) && Listed(tasks, x)
    ensures Listed(tasks + [e], x) && Position(tasks + [e], x) == Position(tasks, x)
  {
    PositionIs(tasks + [e], Position(tasks, x));
  }

  lemma ApplyKeepsInv(s: Sched, e: Event)
    requires Inv(s) && Legal(s, e)
    ensures Inv(Apply(s, e))
  {
    match e
    case Tick => TimerKeepsInv(s);
    case Sleep(ms) => PutKeepsInv(s, Position(s.tasks, s.current), Asleep(s.tasks[Position(s.tasks, s.current)], SleepTicks(ms)));
    case Exit => PutKeepsInv(s, Position(s.tasks, s.current), Ended(s.tasks[Position(s.tasks, s.current)]));
    case Kill(id) =>
      if id != 1 && Known(s.tasks, id) {
        PutKeepsInv(s, Numbered(s.tasks, id), Ended(s.tasks[Numbered(s.tasks, id)]));
      }
    case Create(ptr, id) =>
      AddKeepsPlaces(s.tasks, Entry(ptr, id, false, 0, false), s.current);
      AddKeepsPlaces(s.tasks, Entry(ptr, id, false, 0, false), s.idle);
  }

  /** A kill keeps the invariant exactly when it is not aimed at the idle task, or finds the first process there. */
  lemma KillKeepsInvExactly(s: Sched, id: nat)
    requires Inv(s)
    ensures Inv(Apply(s, Kill(id))) <==> id == 1 || s.tasks[Position(s.tasks, s.idle)].id != id
  {
    var i := Position(s.tasks, s.idle);
    if id != 1 && s.tasks[i].id == id {
      assert Known(s.tasks, id) && Numbered(s.tasks, id) == i;
      var s' := Apply(s, Kill(id));
      PutKeepsPlaces(s.tasks, i, Ended(s.tasks[i]), s.idle);
      assert s'.tasks[Position(s'.tasks, s.idle)].terminated;
    } else if id == 1 {
      assert Apply(s, Kill(id)) == s;
    } else {
      ApplyKeepsInv(s, Kill(id));
    }
  }

  /** The state after scheduler_start, its idle task killed, the first process asleep for 100 ms, and one interrupt. */
  ghost function IdleKilled(): Sched
  {
    var s := Sched([Entry(16, 1, false, 0, false), Entry(32, 2, false, 0, false)], 16, 32, true);
    Apply(Apply(Apply(s, Kill(2)), Sleep(100)), Tick)
  }

  /** That interrupt reaps the idle task and then picks it: the current task is one that is no longer in the list. */
  lemma ReapedIdleIsPicked()
    ensures IdleKilled().current == 32 && !Listed(IdleKilled().tasks, 32)
  {
    var a, b := Entry(16, 1, false, 0, false), Entry(32, 2, false, 0, false);
    var s := Sched([a, b], 16, 32, true);
    assert s.tasks[1].id == 2 && Numbered(s.tasks, 2) == 1;
    var s1 := Apply(s, Kill(2));
    assert s1.tasks == [a, Ended(b)];
    assert At(s1.tasks, 0, 16) && Position(s1.tasks, 16) == 0;
    var s2 := Apply(s1, Sleep(100));
    assert s2.tasks == [Asleep(a, 10), Ended(b)];
    var ticked := TickAll(s2.tasks);
    assert ticked == [Asleep(a, 9), Ended(b)];
    assert ticked[1..] == [Ended(b)] && ticked[1..][1..] == [];
    assert Reaped(ticked[1..], 16) == [];
    assert Reaped(ticked, 16) == [Asleep(a, 9)];
    assert At(Reaped(ticked, 16), 0, 16);
  }

  // ----- when the picked task is one of the list

  /** Ready at the next interrupt. */
  predicate Wakes(e: Entry)
  {
    !e.terminated && (!e.sleeping || e.ticks <= 1)
  }

  /** `x` is listed and the next interrupt does not reap it. */
  ghost predicate Stays(s: Sched, x: nat)
  {
    exists i: nat :: At(s.tasks, i, x) && Kept(s.tasks[i], s.current)
  }

  lemma StaysExactly(s: Sched, x: nat)
    ensures Listed(Timer(s).tasks, x) <==> Stays(s, x)
    ensures Listed(Timer(s).tasks, x) <==> exists i: nat :: At(s.tasks, i, x) && (!s.tasks[i].terminated || x == s.current)
  {
    hide Pick, Reaped;
    var t := TickAll(s.tasks);
    ReapedMembers(t, s.current);
    var r := Reaped(t, s.current);
    if Listed(r, x) {
      var e := r[Position(r, x)];
      assert e in r;
      var i :| 0 <= i < |t| && t[i] == e;
      assert At(s.tasks, i, x);
    }
    if i: nat :| At(s.tasks, i, x) && Kept(s.tasks[i], s.current) {
      assert t[i] in r;
      var j :| 0 <= j < |r| && r[j] == t[i];
      assert At(r, j, x);
    }
  }

  lemma WakesExactly(s: Sched)
    ensures (exists i: nat :: i < |Timer(s).tasks| && Timer(s).tasks[i].Ready()) <==>
            exists i: nat :: i < |s.tasks| && Wakes(s.tasks[i])
  {
    hide Pick, Reaped;
    var t := TickAll(s.tasks);
    ReapedMembers(t, s.current);
    var r := Reaped(t, s.current);
    if i: nat :| i < |r| && r[i].Ready() {
      assert Timer(s).tasks[i] in t;
      var j: nat :| j < |t| && t[j] == r[i];
      assert Wakes(s.tasks[j]);
    }
    if i: nat :| i < |s.tasks| && Wakes(s.tasks[i]) {
      assert t[i].Ready() && t[i] in r;
      var j: nat :| j < |r| && r[j] == t[i];
      assert Timer(s).tasks[j].Ready();
    }
  }

  /** A task of the list is picked whenever one is ready; otherwise it is the idle task, listed or not. */
  lemma PickListed(tasks: seq<Entry>, current: nat, idle: nat)
    requires Listed(tasks, current)
    ensures Listed(tasks, Pick(tasks, current, idle)) <==>
            Listed(tasks, idle) || exists i: nat :: i < |tasks| && tasks[i].Ready()
  {
    var c := Position(tasks, current);
    var d := Search(tasks, c, 1);
    if d != 0 {
      assert At(tasks, Around(|tasks|, c, d), tasks[Around(|tasks|, c, d)].ptr);
    } else {
      forall i: nat | i < |tasks|
        ensures !tasks[i].Ready()
      {
        var k := if i > c then i - c else i + |tasks| - c;
        assert Around(|tasks|, c, k) == i;
      }
    }
  }

  /** After an interrupt the current task is one of the list exactly when the scheduler is off, the idle task is listed
      and not reaped by this interrupt, or some task is ready at it. */
  lemma PickIsListedExactly(s: Sched)
    requires Listed(s.tasks, s.current)
    ensures Listed(Timer(s).tasks, Timer(s).current) <==>
            !s.active || Stays(s, s.idle) || exists i: nat :: i < |s.tasks| && Wakes(s.tasks[i])
  {
    hide Pick, Wakes, Kept;
    StaysExactly(s, s.current);
    StaysExactly(s, s.idle);
    WakesExactly(s);
    CurrentStays(s);
    PickListed(Timer(s).tasks, s.current, s.idle);
  }

  lemma CurrentStays(s: Sched)
    requires Listed(s.tasks, s.current)
    ensures Stays(s, s.current)
  {
    assert Kept(s.tasks[Position(s.tasks, s.current)], s.current);
  }

  lemma PutKeepsInv(s: Sched, i: nat, e: Entry)
    requires Inv(s) && i < |s.tasks| && e.ptr == s.tasks[i].ptr && e.id == s.tasks[i].id && e.ptr != s.idle
    ensures Inv(s.(tasks := s.tasks[i := e]))
  {
    PutKeepsPlaces(s.tasks, i, e, s.current);
    PutKeepsPlaces(s.tasks, i, e, s.idle);
  }

  // ----- bounded waiting

  /** `x` is alive and, if asleep, has a tick to go. */
  ghost predicate Waiting(s: Sched, x: nat)
  {
    && Listed(s.tasks, x)
    && var e := s.tasks[Position(s.tasks, x)];
    && !e.terminated && (e.sleeping ==> e.ticks >= 1)
  }

  /** How many more timer interrupts `x` can be made to wait. */
  ghost function Bound(s: Sched, x: nat): nat
    requires Inv(s) && Waiting(s, x)
  {
    var e := s.tasks[Position(s.tasks, x)];
    if e.sleeping then e.ticks + |s.tasks| - 1 else Dist(s.tasks, s.current, x)
  }

  /** Steps by others: `x` itself takes none before it is picked, and nobody kills it. */
  ghost predicate ByOthers(s: Sched, e: Event, x: nat)
  {
    && Legal(s, e)
    && ((e.Sleep? || e.Exit?) ==> s.current != x)
    && (e.Kill? && Listed(s.tasks, x) ==> s.tasks[Position(s.tasks, x)].id != e.id)
  }

  /** A timer interrupt picks `x` or brings it nearer; a sleeper with more than one tick to go is not picked. */
  lemma TimerApproaches(s: Sched, x: nat)
    requires Inv(s) && s.active && Waiting(s, x)
    ensures Inv(Timer(s)) && Waiting(Timer(s), x)
    ensures Timer(s).current == x || Bound(Timer(s), x) < Bound(s, x)
    ensures var e, e' := s.tasks[Position(s.tasks, x)], Timer(s).tasks[Position(Timer(s).tasks, x)];
            && e' == Ticked(e)
            && (e.sleeping && e.ticks > 1 ==> Timer(s).current != x)
  {
    TimerKeepsInv(s);
    ReapedKeepsInv(s);
    var t := TickAll(s.tasks);
    TickKeepsPlaces(s.tasks, s.current);
    TickKeepsPlaces(s.tasks, x);
    ReapedDist(t, s.current, x);
    var r := Reaped(t, s.current);
    if r[Position(r, x)].Ready() {
      PickApproaches(r, s.current, s.idle, x);
    } else {
      PickApproaches(r, s.current, s.idle, s.idle);
    }
  }

  /** Whatever the other tasks do meanwhile brings `x` no further away, except by one place per new task. */
  lemma OthersDoNotDelay(s: Sched, e: Event, x: nat)
    requires Inv(s) && Waiting(s, x) && ByOthers(s, e, x) && !e.Tick?
    ensures Inv(Apply(s, e)) && Waiting(Apply(s, e), x)
    ensures Bound(Apply(s, e), x) <= Bound(s, x) + if e.Create? then 1 else 0
    ensures Apply(s, e).tasks[Position(Apply(s, e).tasks, x)] == s.tasks[Position(s.tasks, x)]
  {
    ApplyKeepsInv(s, e);
    match e
    case Sleep(ms) =>
      var c := Position(s.tasks, s.current);
      PutKeepsPlaces(s.tasks, c, Asleep(s.tasks[c], SleepTicks(ms)), x);
      PutKeepsPlaces(s.tasks, c, Asleep(s.tasks[c], SleepTicks(ms)), s.current);
    case Exit =>
      var c := Position(s.tasks, s.current);
      PutKeepsPlaces(s.tasks, c, Ended(s.tasks[c]), x);
      PutKeepsPlaces(s.tasks, c, Ended(s.tasks[c]), s.current);
    case Kill(id) =>
      if id != 1 && Known(s.tasks, id) {
        var i := Numbered(s.tasks, id);
        PutKeepsPlaces(s.tasks, i, Ended(s.tasks[i]), x);
        PutKeepsPlaces(s.tasks, i, Ended(s.tasks[i]), s.current);
      }
    case Create(ptr, id) =>
      AddKeepsPlaces(s.tasks, Entry(ptr, id, false, 0, false), x);
      AddKeepsPlaces(s.tasks, Entry(ptr, id, false, 0, false), s.current);
  }

  /** A run in which every step is by others and no timer interrupt makes `x` current. */
  ghost predicate PassesOver(s: Sched, run: seq<Event>, x: nat)
    decreases |run|
  {
    run != [] ==>
      && ByOthers(s, run[0], x)
      && (run[0].Tick? ==> Apply(s, run[0]).current != x)
      && PassesOver(Apply(s, run[0]), run[1..], x)
  }

  function Ticks(run: seq<Event>): nat
  {
    if run == [] then 0 else (if run[0].Tick? then 1 else 0) + Ticks(run[1..])
  }

  function Created(run: seq<Event>): nat
  {
    if run == [] then 0 else (if run[0].Create? then 1 else 0) + Created(run[1..])
  }

  /** No run passes over a waiting task for as many timer interrupts as its bound, plus one per task created. */
  lemma {:induction false} BoundedWaiting(s: Sched, run: seq<Event>, x: nat)
    requires Inv(s) && s.active && Waiting(s, x) && PassesOver(s, run, x)
    ensures Ticks(run) < Bound(s, x) + Created(run)
    decreases |run|
  {
    if run != [] {
      if run[0].Tick? {
        TimerApproaches(s, x);
      } else {
        OthersDoNotDelay(s, run[0], x);
      }
      BoundedWaiting(Apply(s, run[0]), run[1..], x);
    }
  }

  /** scheduler_sleep: with k ticks to sleep and n tasks listed, the sleeper is current again after at most
      k + n - 1 timer interrupts (and one more per task created meanwhile). */
  lemma SleeperIsPickedInTime(s: Sched, ms: nat, run: seq<Event>)
    requires Inv(s) && s.active && s.current != s.idle && !s.tasks[Position(s.tasks, s.current)].terminated
    requires PassesOver(Apply(s, Sleep(ms)), run, s.current)
    ensures Ticks(run) < SleepTicks(ms) + |s.tasks| - 1 + Created(run)
  {
    ApplyKeepsInv(s, Sleep(ms));
    var c := Position(s.tasks, s.current);
    PutKeepsPlaces(s.tasks, c, Asleep(s.tasks[c], SleepTicks(ms)), s.current);
    BoundedWaiting(Apply(s, Sleep(ms)), run, s.current);
  }

  ghost function After(s: Sched, run: seq<Event>): Sched
    decreases |run|
  {
    if run == [] then s else After(Apply(s, run[0]), run[1..])
  }

  ghost predicate AllByOthers(s: Sched, run: seq<Event>, x: nat)
    decreases |run|
  {
    run != [] ==> ByOthers(s, run[0], x) && AllByOthers(Apply(s, run[0]), run[1..], x)
  }

  /** A sleeper is not picked early: while fewer interrupts than its ticks have come it sleeps on, each one counted. */
  lemma {:induction false} SleeperIsNotPickedEarly(s: Sched, run: seq<Event>, x: nat)
    requires Inv(s) && s.active && Waiting(s, x) && AllByOthers(s, run, x)
    requires var e := s.tasks[Position(s.tasks, x)]; e.sleeping && Ticks(run) < e.ticks
    ensures var s' := After(s, run);
            && Inv(s') && Waiting(s', x)
            && s'.tasks[Position(s'.tasks, x)] == Asleep(s.tasks[Position(s.tasks, x)], s.tasks[Position(s.tasks, x)].ticks - Ticks(run))
            && (Ticks(run) > 0 || s.current != x ==> s'.current != x)
    decreases |run|
  {
    hide Inv, Pick, Reaped, TickAll, Bound;
    if run != [] {
      if run[0].Tick? {
        TimerApproaches(s, x);
      } else {
        OthersDoNotDelay(s, run[0], x);
      }
      SleeperIsNotPickedEarly(Apply(s, run[0]), run[1..], x);
    }
  }

  // ----- the steps in plain terms

  /** scheduler_sleep in milliseconds, one tick being ten: the sleeper is not current again after any interrupt before the
      last of its ticks, whatever the others do. */
  lemma SleepLastsItsTime(s: Sched, ms: nat, run: seq<Event>)
    requires Inv(s) && s.active && s.current != s.idle && !s.tasks[Position(s.tasks, s.current)].terminated
    requires AllByOthers(Apply(s, Sleep(ms)), run, s.current)
    requires Ticks(run) < if ms < 20 then 1 else ms / 10
    ensures Ticks(run) > 0 ==> After(Apply(s, Sleep(ms)), run).current != s.current
    ensures var s' := After(Apply(s, Sleep(ms)), run);
            && Listed(s'.tasks, s.current) && s'.tasks[Position(s'.tasks, s.current)].sleeping
            && s'.tasks[Position(s'.tasks, s.current)].ticks == (if ms < 20 then 1 else ms / 10) - Ticks(run)
  {
    hide Pick, Reaped, TickAll, Bound;
    SleepPuts(s, ms);
    SleeperIsNotPickedEarly(Apply(s, Sleep(ms)), run, s.current);
  }

  /** And it is picked in time: no run of the others passes over it for as many interrupts as its ticks and the other
      tasks together. */
  lemma SleepEndsInTime(s: Sched, ms: nat, run: seq<Event>)
    requires Inv(s) && s.active && s.current != s.idle && !s.tasks[Position(s.tasks, s.current)].terminated
    requires PassesOver(Apply(s, Sleep(ms)), run, s.current)
    ensures Ticks(run) < (if ms < 20 then 1 else ms / 10) + |s.tasks| - 1 + Created(run)
    ensures ms >= 10 ==> 10 * (Ticks(run) - |s.tasks| + 1 - Created(run)) < ms
  {
    SleeperIsPickedInTime(s, ms, run);
  }

  lemma SleepPuts(s: Sched, ms: nat)
    requires Inv(s) && s.active && s.current != s.idle && !s.tasks[Position(s.tasks, s.current)].terminated
    ensures var s' := Apply(s, Sleep(ms));
            && Inv(s') && s'.active && s'.current == s.current && Waiting(s', s.current)
            && s'.tasks[Position(s'.tasks, s.current)].sleeping
            && s'.tasks[Position(s'.tasks, s.current)].ticks == if ms < 20 then 1 else ms / 10
  {
    ApplyKeepsInv(s, Sleep(ms));
    var c := Position(s.tasks, s.current);
    PutKeepsPlaces(s.tasks, c, Asleep(s.tasks[c], SleepTicks(ms)), s.current);
  }

  /** scheduler_create_task: the new task is the last of the list and ready. */
  lemma CreateAppends(s: Sched, ptr: nat, id: nat)
    ensures var s' := Apply(s, Create(ptr, id));
            && |s'.tasks| == |s.tasks| + 1 && s'.tasks[..|s.tasks|] == s.tasks && s'.current == s.current && s'.idle == s.idle
            && var e := s'.tasks[|s.tasks|];
            e.ptr == ptr && e.id == id && !e.sleeping && !e.terminated
  {
  }

  /** process_kill: the task of this id is terminated, unless it is process 1; nothing else about any task changes. */
  lemma KillTerminates(s: Sched, id: nat)
    requires Distinct(s.tasks)
    ensures var s' := Apply(s, Kill(id));
            && |s'.tasks| == |s.tasks| && s'.current == s.current && s'.idle == s.idle && s'.active == s.active
            && forall i :: 0 <= i < |s.tasks| ==>
                 var e := s.tasks[i];
                 s'.tasks[i] == Entry(e.ptr, e.id, e.sleeping, e.ticks, e.terminated || (e.id == id && id != 1))
  {
    if id != 1 && Known(s.tasks, id) {
      var i := Numbered(s.tasks, id);
      assert forall j: nat :: j < |s.tasks| && j != i ==> s.tasks[j].id != id;
    }
  }

  /** scheduler_exit_task: the current task is terminated. */
  lemma ExitTerminates(s: Sched)
    requires Distinct(s.tasks)
    ensures var s' := Apply(s, Exit);
            && |s'.tasks| == |s.tasks| && s'.current == s.current && s'.idle == s.idle && s'.active == s.active
            && forall i :: 0 <= i < |s.tasks| ==>
                 var e := s.tasks[i];
                 s'.tasks[i] == Entry(e.ptr, e.id, e.sleeping, e.ticks, e.terminated || e.ptr == s.current)
  {
    if Listed(s.tasks, s.current) {
      assert forall j: nat :: j < |s.tasks| && s.tasks[j].ptr == s.current ==> j == Position(s.tasks, s.current);
    } else {
      assert forall j: nat :: j < |s.tasks| && s.tasks[j].ptr == s.current ==> At(s.tasks, j, s.current);
    }
  }
}
