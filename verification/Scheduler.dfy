/** The scheduler as the kernel runs it, changing the task table in place on every call and
    timer tick, with the memory guard on every hundredth tick. */
module SchedulerModule {
  import opened Bytes
  import opened Tasks
  import opened MemGuard

  const HZ := 100

  class Scheduler {
    const tasks: array<Task>
    var current: nat
    var nextPid: nat
    var taskCount: nat
    var uptime: nat
    var guard: Guard
    const totalPages: nat

    /** Free pages at boot and at every memory sample since. */
    ghost const bootPages: nat
    ghost var samples: seq<nat>

    ghost function View(): Table
      reads this, tasks
    {
      Table(tasks[..], current, nextPid, uptime)
    }

    ghost predicate Valid()
      reads this, tasks
    {
      Inv(View()) && taskCount == nextPid - 1 && guard == After(bootPages, totalPages, samples)
    }

    /** `task_init` and `scheduler_init`. */
    constructor (totalPages: nat, freePages: nat)
      ensures Valid() && View() == Tasks.Boot() && guard == Initial(freePages)
      ensures this.totalPages == totalPages && bootPages == freePages && samples == [] && fresh(tasks)
    {
      this.totalPages, bootPages, samples := totalPages, freePages, [];
      tasks := new Task[MAX_TASKS](i => if i == 0 then Task(1, 0, RUNNING, 0, 0, 0, FRESH_MEMORY) else NO_TASK);
      current, nextPid, taskCount, uptime := 0, 2, 1, 0;
      guard := Initial(freePages);
      new;
      BootInv();
      assert tasks[..] == Tasks.Boot().tasks;
    }

    /** Take the first unused slot for a new runnable task. */
    method TaskAlloc(ppid: int) returns (ok: bool)
      requires Valid() && 0 <= ppid < nextPid
      modifies this`nextPid, this`taskCount, tasks
      ensures Valid() && View() == Alloc(old(View()), ppid)
      ensures ok <==> exists i :: 0 <= i < MAX_TASKS && old(tasks[..])[i].state == UNUSED
    {
      hide TaskOk;
      AllocKeepsInv(View(), ppid);
      ghost var ts := tasks[..];
      var i := 0;
      while i < MAX_TASKS
        invariant 0 <= i <= MAX_TASKS && tasks[..] == ts && nextPid == old(nextPid) && taskCount == old(taskCount)
        invariant forall j :: 0 <= j < i ==> ts[j].state != UNUSED
      {
        if tasks[i].state == UNUSED {
          FirstUnusedIs(ts, i);
          tasks[i] := Task(nextPid, ppid, RUNNABLE, 0, 0, 0, FRESH_MEMORY);
          nextPid := nextPid + 1;
          taskCount := taskCount + 1;
          return true;
        }
        i := i + 1;
      }
      FirstUnusedIs(ts, MAX_TASKS);
      return false;
    }

    method CreateKernelTask() returns (ok: bool)
      requires Valid()
      modifies this`nextPid, this`taskCount, tasks
      ensures Valid() && View() == Step(old(View()), CreateKernel)
    {
      hide TaskOk, Tick;
      ok := TaskAlloc(0);
    }

    method SpawnUserTask() returns (ok: bool)
      requires Valid()
      modifies this`nextPid, this`taskCount, tasks
      ensures Valid() && View() == Step(old(View()), SpawnUser)
    {
      hide Tick;
      assert TaskOk(tasks[..][current], current, nextPid);
      ok := TaskAlloc(tasks[current].pid);
    }

    method TaskExit(status: int)
      requires Valid()
      modifies tasks
      ensures Valid() && View() == Step(old(View()), Exit(status))
    {
      hide Tick, TaskOk;
      StepKeepsInv(View(), Exit(status));
      ghost var ts := tasks[..];
      tasks[current] := tasks[current].(state := ZOMBIE, exitCode := status);
      assert tasks[..] == ts[current := tasks[current]];
    }

    method TaskSleepUntil(tick: nat)
      requires Valid()
      modifies tasks
      ensures Valid() && View() == Step(old(View()), SleepUntil(tick))
    {
      hide Tick, TaskOk;
      StepKeepsInv(View(), SleepUntil(tick));
      ghost var ts := tasks[..];
      tasks[current] := tasks[current].(state := SLEEPING, wakeup := tick);
      assert tasks[..] == ts[current := tasks[current]];
    }

    method TaskFind(pid: int) returns (i: int)
      requires tasks.Length == MAX_TASKS
      ensures i == IndexOfPid(tasks[..], pid, 0)
    {
      i := 0;
      while i < MAX_TASKS
        invariant 0 <= i <= MAX_TASKS
        invariant forall j :: 0 <= j < i ==> !(tasks[j].state != UNUSED && tasks[j].pid == pid)
      {
        if tasks[i].state != UNUSED && tasks[i].pid == pid {
          PidIndexIs(tasks[..], pid, i);
          return;
        }
        i := i + 1;
      }
      PidIndexIs(tasks[..], pid, i);
    }

    method TaskKill(pid: int, status: int) returns (ok: bool)
      requires Valid()
      modifies tasks
      ensures Valid() && View() == Step(old(View()), KillPid(pid, status))
      ensures ok == Killable(old(View()), pid)
    {
      hide Tick, TaskOk, IndexOfPid;
      StepKeepsInv(View(), KillPid(pid, status));
      ghost var ts := tasks[..];
      var i := TaskFind(pid);
      if i == MAX_TASKS || tasks[i].state == UNUSED || tasks[i].state == ZOMBIE {
        return false;
      }
      tasks[i] := tasks[i].(state := ZOMBIE, exitCode := status);
      assert tasks[..] == ts[i := tasks[i]];
      return true;
    }

    /** The scan that makes due sleepers runnable. */
    method WakeSleepers(now: nat)
      requires tasks.Length == MAX_TASKS
      modifies tasks
      ensures tasks[..] == WakeAll(old(tasks[..]), now)
    {
      var i := 0;
      while i < MAX_TASKS
        invariant 0 <= i <= MAX_TASKS
        invariant forall j :: 0 <= j < MAX_TASKS ==>
                  tasks[j] == if j < i then Woken(old(tasks[j]), now) else old(tasks[j])
      {
        if tasks[i].state == SLEEPING && tasks[i].wakeup <= now {
          tasks[i] := tasks[i].(state := RUNNABLE);
        }
        i := i + 1;
      }
    }

    /** The search for the next task, starting after the current one. */
    method PickNext() returns (next: nat)
      requires tasks.Length == MAX_TASKS && current < MAX_TASKS
      ensures next == Pick(tasks[..], current, 0)
    {
      hide Pick, Dist;
      next := current;
      ghost var ts := tasks[..];
      var i := 0;
      while i < MAX_TASKS
        invariant 0 <= i <= MAX_TASKS && next == current && ts == tasks[..]
        invariant forall j :: 0 <= j < MAX_TASKS && Dist(current, j) < i ==> ts[j].state != RUNNABLE
        invariant Pick(ts, current, 0) == Pick(ts, current, i)
      {
        PickStep(ts, current, i);
        var candidate := (current + 1 + i) % MAX_TASKS;
        if tasks[candidate].state == RUNNABLE {
          next := candidate;
          return;
        }
        i := i + 1;
      }
      PickNone(ts, current);
    }

    method TaskTick()
      requires Valid()
      modifies this`current, this`uptime, tasks
      ensures Valid() && View() == Step(old(View()), TimerTick) && uptime == old(uptime) + 1
    {
      hide TaskOk, Pick, Dist, WakeAll, Step;
      ghost var s := View();
      TickKeepsInv(s);
      TickStep(s);
      uptime := uptime + 1;
      if tasks[current].state == RUNNING {
        tasks[current] := tasks[current].(runtime := tasks[current].runtime + 1, state := RUNNABLE);
      }
      assert tasks[..] == s.tasks[s.current := Charged(s.tasks[s.current])];
      WakeSleepers(uptime);
      ghost var ready := tasks[..];
      var next := PickNext();
      current := next;
      if tasks[current].state == RUNNABLE {
        tasks[current] := tasks[current].(state := RUNNING);
        assert tasks[..] == ready[next := ready[next].(state := RUNNING)];
      }
      assert View() == Tick(s);
    }

    method FindLeaker() returns (pid: int)
      requires Valid()
      ensures IsLeaker(tasks[..], pid)
    {
      hide Pages;
      var worst := 0;
      pid := 0;
      ghost var at := 0;
      var i := 0;
      while i < MAX_TASKS
        invariant 0 <= i <= MAX_TASKS
        invariant forall j :: 0 <= j < i && Suspect(tasks[j]) ==> Pages(tasks[j]) <= worst
        invariant worst == 0 ==> pid == 0
        invariant worst != 0 ==> pid != 0 && 0 <= at < i && Suspect(tasks[at]) && tasks[at].pid == pid
        invariant worst != 0 ==> Pages(tasks[at]) == worst
      {
        if tasks[i].state != UNUSED && tasks[i].state != ZOMBIE && tasks[i].ppid != 0 {
          assert TaskOk(tasks[..][i], i, nextPid);
          var pages := Pages(tasks[i]);
          if pages > worst {
            worst, pid, at := pages, tasks[i].pid, i;
          }
        }
        i := i + 1;
      }
      if pid != 0 {
        assert tasks[..][at].pid == pid;
      }
    }

    /** One memory sample. A result is the pid safeboot was triggered with, already killed: then
        this sample and the four before it were critical, and the victim is a live task with a
        parent and the most pages. */
    method MemoryGuardTick(free: nat) returns (victim: Option<int>)
      requires Valid()
      modifies this`guard, this`samples, tasks
      ensures Valid() && samples == old(samples) + [free]
      ensures victim.Some? ==>
                && Alarmed(samples) && Sample(old(guard), totalPages, free).1
                && IsLeaker(old(tasks[..]), victim.value) && victim.value > 1 && Killable(old(View()), victim.value)
                && View() == Kill(old(View()), victim.value, 137)
      ensures victim == None ==>
                View() == old(View()) && (!Sample(old(guard), totalPages, free).1 || IsLeaker(tasks[..], 0))
    {
      hide TaskOk, Critical, IsLeaker, IndexOfPid, Tick;
      samples := samples + [free];
      assert DropLast(samples) == old(samples);
      AlarmOnlyThen(old(samples), free);
      if totalPages == 0 {
        return None;
      }
      if !Critical(totalPages, free) {
        guard := guard.(streak := 0, prevFree := free);
        return None;
      }
      var leak := guard.bootFree > free + MIN_DROP || guard.prevFree > free;
      guard := guard.(streak := (guard.streak + 1) % 0x1_0000_0000, prevFree := free);
      if !leak || guard.streak < MIN_STREAK {
        return None;
      }
      var suspect := FindLeaker();
      LeakerSign(View(), suspect);
      if suspect > 0 {
        LeakerIsKillable(View(), suspect);
        var killed := TaskKill(suspect, 137);
        return Some(suspect);
      }
      return None;
    }

    /** The last five samples were all critical. */
    ghost predicate Alarmed(samples: seq<nat>) {
      |samples| >= 5 && forall k :: |samples| - 5 <= k < |samples| ==> Critical(totalPages, samples[k])
    }

    lemma AlarmOnlyThen(before: seq<nat>, free: nat)
      ensures Sample(After(bootPages, totalPages, before), totalPages, free).1 ==> Alarmed(before + [free])
    {
      hide Critical, After;
      if totalPages != 0 {
        ActsAfterFive(bootPages, totalPages, before, free);
      }
    }

    /** One timer interrupt: safeboot can only come at a multiple of 100 ticks, when the last five
        samples were critical, and only for a live task with a parent and the most pages. */
    method SchedulerTick(free: nat) returns (victim: Option<int>)
      requires Valid()
      modifies this`current, this`uptime, this`guard, this`samples, tasks
      ensures Valid() && uptime == old(uptime) + 1
      ensures samples == old(samples) + (if uptime % 100 == 0 then [free] else [])
      ensures victim == None ==> View() == Step(old(View()), TimerTick)
      ensures victim.Some? ==>
                var ticked := Step(old(View()), TimerTick);
                && uptime % 100 == 0 && |samples| >= 5
                && (forall k :: |samples| - 5 <= k < |samples| ==> Critical(totalPages, samples[k]))
                && Worst(ticked.tasks, victim.value) && victim.value > 1 && Killable(ticked, victim.value)
                && View() == Kill(ticked, victim.value, 137)
      ensures uptime % 100 == 0 && Sample(old(guard), totalPages, free).1 ==>
                victim.Some? || forall i :: 0 <= i < 32 && Suspect(Step(old(View()), TimerTick).tasks[i]) ==>
                                  Pages(Step(old(View()), TimerTick).tasks[i]) == 0
    {
      hide TaskOk, Critical, IsLeaker, IndexOfPid, Tick, Sample, After, Worst, Pages, Suspect;
      TaskTick();
      ghost var ts := tasks[..];
      if uptime % HZ == 0 {
        victim := MemoryGuardTick(free);
        if victim.Some? {
          LeakerIsWorst(ts, victim.value);
        } else if IsLeaker(ts, 0) {
          LeakerIsWorst(ts, 0);
        }
      } else {
        return None;
      }
    }
  }

  lemma PickNone(ts: seq<Task>, cur: nat)
    requires |ts| == MAX_TASKS && cur < MAX_TASKS
    requires forall j :: 0 <= j < MAX_TASKS && Dist(cur, j) < MAX_TASKS ==> ts[j].state != RUNNABLE
    ensures Pick(ts, cur, MAX_TASKS) == cur
  {
  }

  lemma FirstUnusedIs(ts: seq<Task>, i: nat)
    requires i <= |ts| && (i < |ts| ==> ts[i].state == UNUSED) && forall j :: 0 <= j < i ==> ts[j].state != UNUSED
    ensures FirstUnused(ts, 0) == i
  {
    hide FirstUnused;
  }

  lemma PidIndexIs(ts: seq<Task>, pid: int, i: nat)
    requires i <= |ts| && (i < |ts| ==> ts[i].state != UNUSED && ts[i].pid == pid)
    requires forall j :: 0 <= j < i ==> !(ts[j].state != UNUSED && ts[j].pid == pid)
    ensures IndexOfPid(ts, pid, 0) == i
  {
    hide IndexOfPid;
  }

  lemma LeakerSign(s: Table, pid: int)
    requires Inv(s) && IsLeaker(s.tasks, pid)
    ensures pid >= 0
  {
    if pid != 0 {
      LeakerIsKillable(s, pid);
    }
  }
}
