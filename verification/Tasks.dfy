/** The task table as values: every operation on it, what all of them keep, and what any run
    of them guarantees to a waiting or sleeping task. */
module Tasks {
  import opened Bytes

  const MAX_TASKS := 32

  datatype State = UNUSED | RUNNABLE | RUNNING | SLEEPING | ZOMBIE

  /** The memory an address space has claimed. */
  datatype Memory = Memory(brkBase: nat, brkCurrent: nat, mmapBase: nat)

  const FRESH_MEMORY := Memory(0x80_0000, 0x80_0000, 0x2000_0000)

  datatype Task = Task(pid: int, ppid: int, state: State, runtime: nat, wakeup: nat, exitCode: int, mm: Memory)

  const NO_TASK := Task(0, 0, UNUSED, 0, 0, 0, Memory(0, 0, 0))

  /** The table, the running index, the next pid and the uptime in ticks. */
  datatype Table = Table(tasks: seq<Task>, current: nat, nextPid: nat, now: nat)

  // ---------------------------------------------------------------------------------------
  // Operations
  // ---------------------------------------------------------------------------------------

  function FirstUnused(ts: seq<Task>, i: nat): (r: nat)
    requires i <= |ts|
    ensures i <= r <= |ts| && (r < |ts| ==> ts[r].state == UNUSED)
    ensures forall j :: i <= j < r ==> ts[j].state != UNUSED
    decreases |ts| - i
  {
    if i == |ts| || ts[i].state == UNUSED then i else FirstUnused(ts, i + 1)
  }

  /** `task_alloc`, then the parent `task_spawn_user` records. */
  function Alloc(s: Table, ppid: int): Table {
    var i := FirstUnused(s.tasks, 0);
    if i == |s.tasks| then s
    else s.(tasks := s.tasks[i := Task(s.nextPid, ppid, RUNNABLE, 0, 0, 0, FRESH_MEMORY)], nextPid := s.nextPid + 1)
  }

  function IndexOfPid(ts: seq<Task>, pid: int, i: nat): (r: nat)
    requires i <= |ts|
    ensures i <= r <= |ts| && (r < |ts| ==> ts[r].state != UNUSED && ts[r].pid == pid)
    ensures forall j :: i <= j < r ==> !(ts[j].state != UNUSED && ts[j].pid == pid)
    decreases |ts| - i
  {
    if i == |ts| || (ts[i].state != UNUSED && ts[i].pid == pid) then i else IndexOfPid(ts, pid, i + 1)
  }

  predicate Killable(s: Table, pid: int) {
    var i := IndexOfPid(s.tasks, pid, 0);
    i < |s.tasks| && s.tasks[i].state != ZOMBIE
  }

  function Kill(s: Table, pid: int, status: int): Table {
    var i := IndexOfPid(s.tasks, pid, 0);
    if Killable(s, pid) then s.(tasks := s.tasks[i := s.tasks[i].(state := ZOMBIE, exitCode := status)]) else s
  }

  function SetCurrent(s: Table, t: Task): Table
    requires s.current < |s.tasks|
  {
    s.(tasks := s.tasks[s.current := t])
  }

  /** The current task is charged for the tick and goes back in line. */
  function Charged(t: Task): Task {
    if t.state == RUNNING then t.(runtime := t.runtime + 1, state := RUNNABLE) else t
  }

  function Woken(t: Task, now: nat): Task {
    if t.state == SLEEPING && t.wakeup <= now then t.(state := RUNNABLE) else t
  }

  function WakeAll(ts: seq<Task>, now: nat): (r: seq<Task>)
    ensures |r| == |ts| && forall i :: 0 <= i < |ts| ==> r[i] == Woken(ts[i], now)
  {
    seq(|ts|, i requires 0 <= i < |ts| => Woken(ts[i], now))
  }

  /** How many other slots come first when searching from the one after `cur`. */
  function Dist(cur: int, slot: int): (d: nat)
    requires 0 <= cur < MAX_TASKS && 0 <= slot < MAX_TASKS
    ensures d < MAX_TASKS && (cur + 1 + d) % MAX_TASKS == slot
  {
    if slot > cur then slot - cur - 1 else slot + MAX_TASKS - cur - 1
  }

  /** The runnable slot nearest after `cur`, or `cur` itself if nothing is runnable. */
  function Pick(ts: seq<Task>, cur: nat, i: nat): (r: nat)
    requires |ts| == MAX_TASKS && cur < MAX_TASKS && i <= MAX_TASKS
    requires forall j :: 0 <= j < MAX_TASKS && Dist(cur, j) < i ==> ts[j].state != RUNNABLE
    ensures r < MAX_TASKS
    ensures ts[r].state == RUNNABLE || (r == cur && forall j :: 0 <= j < MAX_TASKS ==> ts[j].state != RUNNABLE)
    ensures forall j :: 0 <= j < MAX_TASKS && ts[j].state == RUNNABLE ==> Dist(cur, r) <= Dist(cur, j)
    decreases MAX_TASKS - i
  {
    if i == MAX_TASKS then
      assert forall j :: 0 <= j < MAX_TASKS ==> Dist(cur, j) < i && ts[j].state != RUNNABLE;
      cur
    else if ts[(cur + 1 + i) % MAX_TASKS].state == RUNNABLE then (cur + 1 + i) % MAX_TASKS
    else Pick(ts, cur, i + 1)
  }

  lemma PickStep(ts: seq<Task>, cur: nat, i: nat)
    requires |ts| == MAX_TASKS && cur < MAX_TASKS && i < MAX_TASKS
    requires forall j :: 0 <= j < MAX_TASKS && Dist(cur, j) < i ==> ts[j].state != RUNNABLE
    ensures var c := (cur + 1 + i) % MAX_TASKS;
            && (ts[c].state == RUNNABLE ==> Pick(ts, cur, i) == c)
            && (ts[c].state != RUNNABLE ==>
                  && (forall j :: 0 <= j < MAX_TASKS && Dist(cur, j) < i + 1 ==> ts[j].state != RUNNABLE)
                  && Pick(ts, cur, i) == Pick(ts, cur, i + 1))
  {
  }

  function Tick(s: Table): Table
    requires |s.tasks| == MAX_TASKS && s.current < MAX_TASKS
  {
    var now := s.now + 1;
    var ready := WakeAll(s.tasks[s.current := Charged(s.tasks[s.current])], now);
    var next := Pick(ready, s.current, 0);
    Table(if ready[next].state == RUNNABLE then ready[next := ready[next].(state := RUNNING)] else ready,
          next, s.nextPid, now)
  }

  datatype Event =
    | CreateKernel
    | SpawnUser
    | Exit(status: int)
    | KillPid(pid: int, status: int)
    | SleepUntil(tick: nat)
    | Remap(slot: nat, mm: Memory)
    | TimerTick

  function Step(s: Table, e: Event): Table
    requires |s.tasks| == MAX_TASKS && s.current < MAX_TASKS
  {
    match e
    case CreateKernel => Alloc(s, 0)
    case SpawnUser => Alloc(s, s.tasks[s.current].pid)
    case Exit(status) => SetCurrent(s, s.tasks[s.current].(state := ZOMBIE, exitCode := status))
    case KillPid(pid, status) => Kill(s, pid, status)
    case SleepUntil(tick) => SetCurrent(s, s.tasks[s.current].(state := SLEEPING, wakeup := tick))
    case Remap(slot, mm) => if slot < MAX_TASKS then s.(tasks := s.tasks[slot := s.tasks[slot].(mm := mm)]) else s
    case TimerTick => Tick(s)
  }

  /** After `task_init`: one running bootstrap task with pid 1. */
  function Boot(): Table {
    Table(seq(MAX_TASKS, i => if i == 0 then Task(1, 0, RUNNING, 0, 0, 0, FRESH_MEMORY) else NO_TASK), 0, 2, 0)
  }

  /** At boot one task runs, with pid 1, no parent and nothing used, and no tick has passed. */
  lemma AtBoot()
    ensures var s := Boot();
            && |s.tasks| == 32 && s.current == 0 && s.nextPid == 2 && s.now == 0
            && s.tasks[0] == Task(1, 0, RUNNING, 0, 0, 0, Memory(0x80_0000, 0x80_0000, 0x2000_0000))
            && forall i :: 0 < i < 32 ==> s.tasks[i] == Task(0, 0, UNUSED, 0, 0, 0, Memory(0, 0, 0))
  {
  }

  // ---------------------------------------------------------------------------------------
  // What every step keeps
  // ---------------------------------------------------------------------------------------

  /** Slots are handed out in order and never returned, so slot `i` holds pid `i + 1`; only
      the current task runs; parents are older than their children. */
  ghost predicate Inv(s: Table) {
    && |s.tasks| == MAX_TASKS && 2 <= s.nextPid <= MAX_TASKS + 1 && s.current < s.nextPid - 1
    && (forall i :: 0 <= i < MAX_TASKS ==> TaskOk(s.tasks[i], i, s.nextPid))
    && (forall i :: 0 <= i < MAX_TASKS && s.tasks[i].state == RUNNING ==> i == s.current)
    && s.tasks[s.current].state != RUNNABLE
  }

  predicate TaskOk(t: Task, i: int, nextPid: nat) {
    if i < nextPid - 1 then t.state != UNUSED && t.pid == i + 1 && 0 <= t.ppid < t.pid
    else t.state == UNUSED && t.runtime == 0
  }

  lemma BootInv()
    ensures Inv(Boot())
  {
  }

  lemma PidsUnique(s: Table, i: int, j: int)
    requires Inv(s) && 0 <= i < MAX_TASKS && 0 <= j < MAX_TASKS
    requires s.tasks[i].state != UNUSED && s.tasks[j].state != UNUSED && s.tasks[i].pid == s.tasks[j].pid
    ensures i == j
  {
    assert TaskOk(s.tasks[i], i, s.nextPid) && TaskOk(s.tasks[j], j, s.nextPid);
  }

  lemma AllocKeepsInv(s: Table, ppid: int)
    requires Inv(s) && 0 <= ppid < s.nextPid
    ensures Inv(Alloc(s, ppid))
  {
    hide FirstUnused;
    var i := FirstUnused(s.tasks, 0);
    if i < MAX_TASKS {
      assert TaskOk(s.tasks[i], i, s.nextPid);
      assert TaskOk(s.tasks[s.nextPid - 1], s.nextPid - 1, s.nextPid);
      assert i == s.nextPid - 1;
      forall j | 0 <= j < MAX_TASKS ensures TaskOk(Alloc(s, ppid).tasks[j], j, s.nextPid + 1) {
        assert TaskOk(s.tasks[j], j, s.nextPid);
      }
    }
  }

  lemma TickKeepsInv(s: Table)
    requires Inv(s)
    ensures Inv(Tick(s)) && Tick(s).now == s.now + 1 && Tick(s).nextPid == s.nextPid
  {
    hide Pick, Dist;
    var now := s.now + 1;
    var ready := WakeAll(s.tasks[s.current := Charged(s.tasks[s.current])], now);
    var next := Pick(ready, s.current, 0);
    forall i | 0 <= i < MAX_TASKS ensures TaskOk(ready[i], i, s.nextPid) && ready[i].state != RUNNING {
      assert TaskOk(s.tasks[i], i, s.nextPid);
    }
    assert TaskOk(ready[next], next, s.nextPid);
    forall i | 0 <= i < MAX_TASKS ensures TaskOk(Tick(s).tasks[i], i, s.nextPid) {
    }
  }

  lemma StepKeepsInv(s: Table, e: Event)
    requires Inv(s)
    ensures Inv(Step(s, e))
  {
    hide Tick;
    assert TaskOk(s.tasks[s.current], s.current, s.nextPid);
    match e {
      case CreateKernel => AllocKeepsInv(s, 0);
      case SpawnUser => AllocKeepsInv(s, s.tasks[s.current].pid);
      case Exit(status) =>
      case KillPid(pid, status) => KillKeepsInv(s, pid, status);
      case SleepUntil(tick) =>
      case Remap(slot, mm) =>
      case TimerTick => TickKeepsInv(s);
    }
  }

  lemma KillKeepsInv(s: Table, pid: int, status: int)
    requires Inv(s)
    ensures Inv(Kill(s, pid, status))
  {
    hide IndexOfPid;
    if Killable(s, pid) {
      var k := IndexOfPid(s.tasks, pid, 0);
      forall j | 0 <= j < MAX_TASKS ensures TaskOk(Kill(s, pid, status).tasks[j], j, s.nextPid) {
        assert TaskOk(s.tasks[j], j, s.nextPid);
      }
    }
  }

  /** An operation other than a tick changes at most one task, and how: a spawn fills the first
      unused slot with a runnable task of its own, a kill or an exit leaves its
      status in a zombie, a sleep call leaves its wake tick. */
  lemma OneTaskChanges(s: Table, e: Event)
    requires Inv(s) && e != TimerTick && !e.Remap?
    ensures var n, i := Step(s, e), Target(s, e);
            && |n.tasks| == 32 && n.current == s.current && n.now == s.now
            && (forall j :: 0 <= j < 32 && j != i ==> n.tasks[j] == s.tasks[j])
            && (i < 32 ==>
                  var t := n.tasks[i];
                  match e
                  case CreateKernel =>
                    t == Task(s.nextPid, 0, RUNNABLE, 0, 0, 0, Memory(0x80_0000, 0x80_0000, 0x2000_0000))
                  case SpawnUser =>
                    t == Task(s.nextPid, s.tasks[s.current].pid, RUNNABLE, 0, 0, 0,
                              Memory(0x80_0000, 0x80_0000, 0x2000_0000))
                  case Exit(status) => t == s.tasks[i].(state := ZOMBIE, exitCode := status)
                  case KillPid(pid, status) => t == s.tasks[i].(state := ZOMBIE, exitCode := status)
                  case SleepUntil(tick) => t == s.tasks[i].(state := SLEEPING, wakeup := tick)
                  case _ => true)
  {
    hide TaskOk, Tick, Pick, Dist, FirstUnused, IndexOfPid;
    TargetFound(s, e);
  }

  /** The slot an operation acts on, 32 if there is none. */
  ghost function Target(s: Table, e: Event): nat
    requires |s.tasks| == 32 && s.current < 32
  {
    match e
    case CreateKernel => FirstUnused(s.tasks, 0)
    case SpawnUser => FirstUnused(s.tasks, 0)
    case KillPid(pid, _) => if Killable(s, pid) then IndexOfPid(s.tasks, pid, 0) else 32
    case _ => s.current
  }

  /** ... which is the first unused slot, the live task with the pid, or the current task. */
  lemma TargetFound(s: Table, e: Event)
    requires |s.tasks| == 32 && s.current < 32
    ensures var i := Target(s, e);
            && i <= 32
            && (e.CreateKernel? || e.SpawnUser? ==>
                  && (i < 32 ==> s.tasks[i].state == UNUSED) && forall j :: 0 <= j < i ==> s.tasks[j].state != UNUSED)
            && (e.KillPid? && i < 32 ==> s.tasks[i].pid == e.pid && s.tasks[i].state !in {UNUSED, ZOMBIE})
            && (e.Exit? || e.SleepUntil? ==> i == s.current)
  {
  }

  /** ... and a kill spares no live task with the pid. */
  lemma KillFinds(s: Table, e: Event, j: nat)
    requires Inv(s) && e.KillPid? && j < 32 && s.tasks[j].pid == e.pid && s.tasks[j].state !in {UNUSED, ZOMBIE}
    ensures Target(s, e) == j
  {
    hide IndexOfPid, FirstUnused;
    assert TaskOk(s.tasks[j], j, s.nextPid);
    var i := IndexOfPid(s.tasks, e.pid, 0);
    if i < 32 {
      assert TaskOk(s.tasks[i], i, s.nextPid);
    }
  }

  /** A tick changes nothing about a task but its state and, for the one that was running, one
      more tick of runtime. */
  lemma TickTouches(s: Table, i: nat)
    requires Inv(s) && i < 32
    ensures var n := Tick(s);
            && |n.tasks| == 32 && n.now == s.now + 1 && n.nextPid == s.nextPid
            && n.tasks[i]
               == s.tasks[i].(state := n.tasks[i].state,
                              runtime := s.tasks[i].runtime + (if s.tasks[i].state == RUNNING then 1 else 0))
            && (s.tasks[i].state in {UNUSED, ZOMBIE} ==> n.tasks[i].state == s.tasks[i].state)
            && (s.tasks[i].state == SLEEPING && s.tasks[i].wakeup > s.now + 1 ==> n.tasks[i].state == SLEEPING)
            && (s.tasks[i].state in {RUNNABLE, RUNNING}
                || (s.tasks[i].state == SLEEPING && s.tasks[i].wakeup <= s.now + 1) ==>
                  n.tasks[i].state == if i == n.current then RUNNING else RUNNABLE)
  {
    hide Pick, Dist;
    assert TaskOk(s.tasks[i], i, s.nextPid);
  }

  function Run(s: Table, events: seq<Event>): (r: Table)
    requires Inv(s)
    ensures Inv(r)
    decreases |events|
  {
    if events == [] then s else (StepKeepsInv(s, events[0]); Run(Step(s, events[0]), events[1..]))
  }

  // ---------------------------------------------------------------------------------------
  // Bounded waiting
  // ---------------------------------------------------------------------------------------

  function Ticks(events: seq<Event>): nat {
    if events == [] then 0 else (if events[0] == TimerTick then 1 else 0) + Ticks(events[1..])
  }

  /** This event is a tick that makes the task in `slot` RUNNING. */
  ghost predicate Serves(s: Table, e: Event, slot: nat)
    requires Inv(s) && slot < MAX_TASKS
  {
    StepKeepsInv(s, e);
    e == TimerTick && Step(s, e).current == slot && Step(s, e).tasks[slot].state == RUNNING
  }

  /** At some tick of the run the task in `slot` is made RUNNING. */
  ghost predicate Served(s: Table, events: seq<Event>, slot: nat)
    requires Inv(s) && slot < MAX_TASKS
    decreases |events|
  {
    events != []
    && (Serves(s, events[0], slot) || (StepKeepsInv(s, events[0]); Served(Step(s, events[0]), events[1..], slot)))
  }

  /** Nothing kills the task in `slot` before it is served. */
  ghost predicate Spared(s: Table, events: seq<Event>, slot: nat)
    requires Inv(s) && slot < MAX_TASKS
    decreases |events|
  {
    events == []
    || (&& (events[0].KillPid? ==> events[0].pid != slot + 1)
        && (Serves(s, events[0], slot) || (StepKeepsInv(s, events[0]); Spared(Step(s, events[0]), events[1..], slot))))
  }

  /** The slots picked by the ticks of a run before `slot` is. */
  ghost function PickedBefore(s: Table, events: seq<Event>, slot: nat): seq<nat>
    requires Inv(s) && slot < MAX_TASKS
    decreases |events|
  {
    if events == [] then []
    else
      StepKeepsInv(s, events[0]);
      var n := Step(s, events[0]);
      if events[0] != TimerTick then PickedBefore(n, events[1..], slot)
      else if n.current == slot then []
      else [n.current] + PickedBefore(n, events[1..], slot)
  }

  /** What happens between ticks leaves a waiting task waiting and the search start alone. */
  lemma WaitingUndisturbed(s: Table, e: Event, slot: nat)
    requires Inv(s) && slot < MAX_TASKS && s.tasks[slot].state == RUNNABLE
    requires e != TimerTick && (e.KillPid? ==> e.pid != slot + 1)
    ensures Step(s, e).tasks[slot].state == RUNNABLE && Step(s, e).current == s.current
  {
    hide FirstUnused, IndexOfPid;
    assert TaskOk(s.tasks[slot], slot, s.nextPid);
  }

  /** A tick either serves a waiting task or moves the search start strictly closer to it. */
  lemma TickApproaches(s: Table, slot: nat)
    requires Inv(s) && slot < MAX_TASKS
    requires s.tasks[slot].state == RUNNABLE || (s.tasks[slot].state == SLEEPING && s.tasks[slot].wakeup <= s.now + 1)
    ensures var n := Tick(s);
            n.current < MAX_TASKS &&
            if n.current == slot then n.tasks[slot].state == RUNNING
            else n.tasks[slot].state == RUNNABLE && Dist(n.current, slot) < Dist(s.current, slot)
  {
    hide Pick;
    var ready := WakeAll(s.tasks[s.current := Charged(s.tasks[s.current])], s.now + 1);
    assert ready[slot].state == RUNNABLE;
    var next := Pick(ready, s.current, 0);
    assert Dist(s.current, next) <= Dist(s.current, slot);
    if next != slot {
      Nearer(s.current, next, slot);
    }
  }

  lemma Nearer(cur: nat, next: nat, slot: nat)
    requires cur < MAX_TASKS && next < MAX_TASKS && slot < MAX_TASKS && next != slot
    requires Dist(cur, next) <= Dist(cur, slot)
    ensures Dist(next, slot) < Dist(cur, slot)
  {
  }

  /** Bounded waiting: whatever else happens between ticks, a runnable task that is not killed
      runs within 32 ticks, one more than the number of slots ahead of it. */
  lemma {:induction false} RunnableIsServed(s: Table, events: seq<Event>, slot: nat)
    requires Inv(s) && slot < MAX_TASKS && s.tasks[slot].state == RUNNABLE && Spared(s, events, slot)
    requires Ticks(events) > Dist(s.current, slot)
    ensures Served(s, events, slot)
    decreases |events|
  {
    hide TaskOk, Step, Tick, Dist;
    var e := events[0];
    StepKeepsInv(s, e);
    if e == TimerTick {
      TickStep(s);
      TickApproaches(s, slot);
      if Tick(s).current != slot {
        RunnableIsServed(Tick(s), events[1..], slot);
      }
    } else {
      WaitingUndisturbed(s, e, slot);
      RunnableIsServed(Step(s, e), events[1..], slot);
    }
  }

  lemma TickStep(s: Table)
    requires Inv(s)
    ensures Step(s, TimerTick) == Tick(s)
  {
    hide Tick, Alloc, Kill;
  }

  /** Slots other than `slot`, all distinct, each less than `d` away from it. */
  ghost predicate ClosingIn(p: seq<nat>, slot: nat, d: nat)
    requires slot < MAX_TASKS
  {
    && (forall i :: 0 <= i < |p| ==> p[i] < MAX_TASKS && p[i] != slot && Dist(p[i], slot) < d)
    && (forall i, j :: 0 <= i < j < |p| ==> p[i] != p[j])
  }

  lemma NoneClosing(slot: nat, d: nat)
    requires slot < MAX_TASKS
    ensures ClosingIn([], slot, d)
  {
  }

  lemma CloserFirst(c: nat, rest: seq<nat>, slot: nat, d: nat)
    requires c < MAX_TASKS && slot < MAX_TASKS && c != slot && Dist(c, slot) < d
    requires ClosingIn(rest, slot, Dist(c, slot))
    ensures ClosingIn([c] + rest, slot, d)
  {
    forall i | 0 <= i < |rest| ensures rest[i] != c {
      assert Dist(rest[i], slot) < Dist(c, slot);
    }
  }

  /** While a runnable task waits, the picks come ever closer to it, so no other task is picked
      twice before it. */
  lemma {:induction false} NoOvertaking(s: Table, events: seq<Event>, slot: nat)
    requires Inv(s) && slot < MAX_TASKS && s.tasks[slot].state == RUNNABLE && Spared(s, events, slot)
    ensures ClosingIn(PickedBefore(s, events, slot), slot, Dist(s.current, slot))
    decreases |events|
  {
    hide TaskOk, Step, Tick, Dist, ClosingIn;
    if events == [] {
      NoneClosing(slot, Dist(s.current, slot));
    } else {
      var e := events[0];
      StepKeepsInv(s, e);
      if e == TimerTick {
        TickStep(s);
        TickApproaches(s, slot);
        if Tick(s).current == slot {
          NoneClosing(slot, Dist(s.current, slot));
        } else {
          NoOvertaking(Tick(s), events[1..], slot);
          CloserFirst(Tick(s).current, PickedBefore(Tick(s), events[1..], slot), slot, Dist(s.current, slot));
        }
      } else {
        WaitingUndisturbed(s, e, slot);
        NoOvertaking(Step(s, e), events[1..], slot);
      }
    }
  }

  // ---------------------------------------------------------------------------------------
  // Sleeping
  // ---------------------------------------------------------------------------------------

  /** Before the task in `slot` is served nothing kills it, and while it is still the current one
      it neither exits nor sleeps again. */
  ghost predicate LeftAsleep(s: Table, events: seq<Event>, slot: nat)
    requires Inv(s) && slot < MAX_TASKS
    decreases |events|
  {
    events == []
    || (&& (events[0].KillPid? ==> events[0].pid != slot + 1)
        && (events[0].Exit? || events[0].SleepUntil? ==> s.current != slot)
        && (Serves(s, events[0], slot)
            || (StepKeepsInv(s, events[0]); LeftAsleep(Step(s, events[0]), events[1..], slot))))
  }

  lemma {:induction false} LeftAsleepSpares(s: Table, events: seq<Event>, slot: nat)
    requires Inv(s) && slot < MAX_TASKS && LeftAsleep(s, events, slot)
    ensures Spared(s, events, slot)
    decreases |events|
  {
    hide TaskOk, Step, Serves;
    if events != [] && !Serves(s, events[0], slot) {
      StepKeepsInv(s, events[0]);
      LeftAsleepSpares(Step(s, events[0]), events[1..], slot);
    }
  }

  lemma SleeperUndisturbed(s: Table, e: Event, slot: nat)
    requires Inv(s) && slot < MAX_TASKS && s.tasks[slot].state == SLEEPING
    requires (e.KillPid? ==> e.pid != slot + 1) && (e.Exit? || e.SleepUntil? ==> s.current != slot)
    requires e == TimerTick ==> s.tasks[slot].wakeup > s.now + 1
    ensures var n := Step(s, e);
            n.tasks[slot].state == SLEEPING && n.tasks[slot].wakeup == s.tasks[slot].wakeup
  {
    hide FirstUnused, IndexOfPid, Pick, Dist;
    assert TaskOk(s.tasks[slot], slot, s.nextPid);
  }

  lemma NowCounts(s: Table, e: Event)
    requires Inv(s)
    ensures Step(s, e).now == s.now + if e == TimerTick then 1 else 0
  {
    hide FirstUnused, IndexOfPid, Pick, Dist;
  }

  /** A sleeper is still asleep at every moment before its wake tick. */
  lemma {:induction false} SleepsUntilWakeup(s: Table, events: seq<Event>, slot: nat)
    requires Inv(s) && slot < MAX_TASKS && s.tasks[slot].state == SLEEPING && LeftAsleep(s, events, slot)
    requires s.now + Ticks(events) < s.tasks[slot].wakeup
    ensures Run(s, events).tasks[slot].state == SLEEPING && !Served(s, events, slot)
    decreases |events|
  {
    hide TaskOk, Step, Tick;
    if events != [] {
      var e := events[0];
      StepKeepsInv(s, e);
      NowCounts(s, e);
      SleeperUndisturbed(s, e, slot);
      SleepsUntilWakeup(Step(s, e), events[1..], slot);
    }
  }

  /** ... and runs within 32 ticks from it. */
  lemma {:induction false} SleeperIsServed(s: Table, events: seq<Event>, slot: nat)
    requires Inv(s) && slot < MAX_TASKS && s.tasks[slot].state == SLEEPING && LeftAsleep(s, events, slot)
    requires var wait := if s.tasks[slot].wakeup > s.now + 1 then s.tasks[slot].wakeup - s.now - 1 else 0;
             Ticks(events) >= wait + MAX_TASKS
    ensures Served(s, events, slot)
    decreases |events|
  {
    hide TaskOk, Step, Tick, Dist;
    var e := events[0];
    StepKeepsInv(s, e);
    NowCounts(s, e);
    if e == TimerTick && s.tasks[slot].wakeup <= s.now + 1 {
      TickStep(s);
      TickApproaches(s, slot);
      if Tick(s).current != slot {
        LeftAsleepSpares(Tick(s), events[1..], slot);
        RunnableIsServed(Tick(s), events[1..], slot);
      }
    } else {
      SleeperUndisturbed(s, e, slot);
      SleeperIsServed(Step(s, e), events[1..], slot);
    }
  }

  // ---------------------------------------------------------------------------------------
  // Zombies
  // ---------------------------------------------------------------------------------------

  /** One event leaves a dead task dead unless it is the sleep call of that very task, which the
      kernel accepts as long as the task is still the current one. */
  lemma ZombieStep(s: Table, e: Event, slot: nat)
    requires Inv(s) && slot < MAX_TASKS && s.tasks[slot].state == ZOMBIE
    ensures Step(s, e).tasks[slot].state == ZOMBIE <==> !(e.SleepUntil? && s.current == slot)
  {
    hide FirstUnused, IndexOfPid, Pick, Dist;
  }

  /** The run makes no sleep call while `slot` is current. */
  ghost predicate NeverSleeps(s: Table, events: seq<Event>, slot: nat)
    requires Inv(s)
    decreases |events|
  {
    events == []
    || (&& (events[0].SleepUntil? ==> s.current != slot)
        && (StepKeepsInv(s, events[0]); NeverSleeps(Step(s, events[0]), events[1..], slot)))
  }

  /** A task that exited or was killed never runs again if it makes no sleep call afterwards. */
  lemma {:induction false} ZombieStaysDead(s: Table, events: seq<Event>, slot: nat)
    requires Inv(s) && slot < MAX_TASKS && s.tasks[slot].state == ZOMBIE && NeverSleeps(s, events, slot)
    ensures Run(s, events).tasks[slot].state == ZOMBIE && !Served(s, events, slot)
    decreases |events|
  {
    hide TaskOk, Step, Tick;
    if events != [] {
      StepKeepsInv(s, events[0]);
      ZombieStep(s, events[0], slot);
      ZombieStaysDead(Step(s, events[0]), events[1..], slot);
    }
  }

  /** Without that, death is not final: from boot, a task can exit, sleep, and run again. */
  lemma ZombieRevived()
    ensures var s := Boot();
            && Inv(s) && Step(s, Exit(0)).tasks[0].state == ZOMBIE
            && Run(s, [Exit(0), SleepUntil(1), TimerTick]).tasks[0].state == RUNNING
  {
    BootInv();
    var s0 := Boot();
    StepKeepsInv(s0, Exit(0));
    var s1 := Step(s0, Exit(0));
    StepKeepsInv(s1, SleepUntil(1));
    var s2 := Step(s1, SleepUntil(1));
    StepKeepsInv(s2, TimerTick);
    OnlyTask(s2);
    var es := [Exit(0), SleepUntil(1), TimerTick];
    assert es[1..] == [SleepUntil(1), TimerTick] && es[1..][1..] == [TimerTick] && [TimerTick][1..] == [];
    assert Run(s2, [TimerTick]) == Run(Step(s2, TimerTick), []);
    assert Run(s1, es[1..]) == Run(s2, [TimerTick]);
  }

  lemma OnlyTask(s: Table)
    requires Inv(s) && s.current == 0 && s.now == 0 && s.tasks[0].state == SLEEPING && s.tasks[0].wakeup == 1
    requires forall i :: 0 < i < MAX_TASKS ==> s.tasks[i].state == UNUSED
    ensures Step(s, TimerTick).tasks[0].state == RUNNING
  {
    hide Pick, Dist;
    TickApproaches(s, 0);
    var ready := WakeAll(s.tasks[0 := Charged(s.tasks[0])], 1);
    assert Pick(ready, 0, 0) == 0;
  }

  // ---------------------------------------------------------------------------------------
  // Accounting
  // ---------------------------------------------------------------------------------------

  function TotalRuntime(ts: seq<Task>): nat {
    if ts == [] then 0 else TotalRuntime(DropLast(ts)) + Last(ts).runtime
  }

  /** Ticks of a run that find a task running. */
  ghost function BusyTicks(s: Table, events: seq<Event>): nat
    requires Inv(s)
    decreases |events|
  {
    if events == [] then 0
    else
      StepKeepsInv(s, events[0]);
      (if events[0] == TimerTick && s.tasks[s.current].state == RUNNING then 1 else 0)
      + BusyTicks(Step(s, events[0]), events[1..])
  }

  lemma {:induction false} RuntimeUpdate(ts: seq<Task>, i: nat, t: Task)
    requires i < |ts|
    ensures TotalRuntime(ts[i := t]) == TotalRuntime(ts) - ts[i].runtime + t.runtime
  {
    if i == |ts| - 1 {
      assert DropLast(ts[i := t]) == DropLast(ts);
    } else {
      assert DropLast(ts[i := t]) == DropLast(ts)[i := t];
      RuntimeUpdate(DropLast(ts), i, t);
    }
  }

  lemma {:induction false} RuntimeSame(ts: seq<Task>, us: seq<Task>)
    requires |ts| == |us| && forall i :: 0 <= i < |ts| ==> ts[i].runtime == us[i].runtime
    ensures TotalRuntime(ts) == TotalRuntime(us)
  {
    if ts != [] {
      RuntimeSame(DropLast(ts), DropLast(us));
    }
  }

  lemma StepRuntime(s: Table, e: Event)
    requires Inv(s)
    ensures TotalRuntime(Step(s, e).tasks)
            == TotalRuntime(s.tasks) + if e == TimerTick && s.tasks[s.current].state == RUNNING then 1 else 0
  {
    hide Pick, Dist, TotalRuntime, FirstUnused, IndexOfPid;
    var n := Step(s, e);
    if e == TimerTick {
      var charged := s.tasks[s.current := Charged(s.tasks[s.current])];
      RuntimeUpdate(s.tasks, s.current, Charged(s.tasks[s.current]));
      RuntimeSame(charged, n.tasks);
    } else {
      AllRuntimesKept(s, e);
      RuntimeSame(s.tasks, n.tasks);
    }
  }

  lemma AllRuntimesKept(s: Table, e: Event)
    requires Inv(s) && e != TimerTick
    ensures var n := Step(s, e);
            |n.tasks| == |s.tasks| && forall i :: 0 <= i < |s.tasks| ==> n.tasks[i].runtime == s.tasks[i].runtime
  {
    hide FirstUnused, IndexOfPid, Tick;
    if e.CreateKernel? || e.SpawnUser? {
      var i := FirstUnused(s.tasks, 0);
      if i < MAX_TASKS { assert TaskOk(s.tasks[i], i, s.nextPid); }
    }
  }

  /** Over every run, the runtimes charged add up to the ticks that found a task running. */
  lemma {:induction false} RuntimeConserved(s: Table, events: seq<Event>)
    requires Inv(s)
    ensures TotalRuntime(Run(s, events).tasks) == TotalRuntime(s.tasks) + BusyTicks(s, events)
    decreases |events|
  {
    hide TaskOk, Step, TotalRuntime;
    if events != [] {
      StepKeepsInv(s, events[0]);
      StepRuntime(s, events[0]);
      RuntimeConserved(Step(s, events[0]), events[1..]);
    }
  }

  // ---------------------------------------------------------------------------------------
  // The suspect
  // ---------------------------------------------------------------------------------------

  const MMAP_START := 0x2000_0000

  function Pages(t: Task): nat {
    var brk := if t.mm.brkCurrent > t.mm.brkBase then t.mm.brkCurrent - t.mm.brkBase else 0;
    var mmap := if t.mm.mmapBase > MMAP_START then t.mm.mmapBase - MMAP_START else 0;
    (brk + mmap + 4095) / 4096
  }

  predicate Suspect(t: Task) {
    t.state != UNUSED && t.state != ZOMBIE && t.ppid != 0
  }

  /** `pid` belongs to a suspect claiming as many pages as any, or is 0 when none claims any. */
  ghost predicate IsLeaker(ts: seq<Task>, pid: int) {
    if pid == 0 then forall i :: 0 <= i < |ts| && Suspect(ts[i]) ==> Pages(ts[i]) == 0
    else exists k :: 0 <= k < |ts| && Suspect(ts[k]) && ts[k].pid == pid && Pages(ts[k]) > 0
                     && forall i :: 0 <= i < |ts| && Suspect(ts[i]) ==> Pages(ts[i]) <= Pages(ts[k])
  }

  /** What a task is estimated to use: the pages of 4096 bytes that cover its heap above the start
      of the break and its mappings above 0x20000000. */
  lemma PagesCover(t: Task)
    ensures var heap := if t.mm.brkCurrent > t.mm.brkBase then t.mm.brkCurrent - t.mm.brkBase else 0;
            var mapped := if t.mm.mmapBase > 0x2000_0000 then t.mm.mmapBase - 0x2000_0000 else 0;
            heap + mapped <= 4096 * Pages(t) < heap + mapped + 4096
  {
  }

  /** `pid` belongs to a live task with a parent that uses as many pages as any such task. */
  ghost predicate Worst(ts: seq<Task>, pid: int) {
    exists k :: 0 <= k < |ts| && ts[k].pid == pid && Pages(ts[k]) > 0
                && ts[k].state !in {UNUSED, ZOMBIE} && ts[k].ppid != 0
                && forall i :: 0 <= i < |ts| && ts[i].state !in {UNUSED, ZOMBIE} && ts[i].ppid != 0 ==>
                     Pages(ts[i]) <= Pages(ts[k])
  }

  lemma LeakerIsWorst(ts: seq<Task>, pid: int)
    requires IsLeaker(ts, pid)
    ensures pid != 0 ==> Worst(ts, pid)
    ensures pid == 0 ==>
              forall i :: 0 <= i < |ts| && ts[i].state !in {UNUSED, ZOMBIE} && ts[i].ppid != 0 ==> Pages(ts[i]) == 0
    ensures pid == 0 ==> forall i :: 0 <= i < |ts| && Suspect(ts[i]) ==> Pages(ts[i]) == 0
  {
    hide Pages;
  }

  /** Whoever the search names can be killed, and is never the bootstrap task. */
  lemma LeakerIsKillable(s: Table, pid: int)
    requires Inv(s) && IsLeaker(s.tasks, pid) && pid != 0
    ensures pid > 1 && Killable(s, pid)
  {
    hide IndexOfPid;
    var k :| 0 <= k < |s.tasks| && Suspect(s.tasks[k]) && s.tasks[k].pid == pid && Pages(s.tasks[k]) > 0;
    var i := IndexOfPid(s.tasks, pid, 0);
    assert TaskOk(s.tasks[k], k, s.nextPid);
    if i < MAX_TASKS {
      assert TaskOk(s.tasks[i], i, s.nextPid);
    }
  }
}
