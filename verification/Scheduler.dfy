/** The scheduler as the kernel runs it (kernel/src/scheduler/mod.rs): a fixed task array changed in place
    by scanning loops, proved against `Scheduling`. */
module Scheduler {
  import opened Wrappers
  import Ring
  import S = Scheduling

  type Task = S.Task

  class Scheduler {
    const tasks: array<Option<Task>>
    var current: nat
    var ticks: nat

    ghost function View(): (s: S.Sched)
      reads this, tasks
    {
      S.Sched(tasks[..], current, ticks)
    }

    constructor (maxTasks: nat)
      ensures fresh(tasks) && tasks.Length == maxTasks
      ensures View() == S.Sched(seq(maxTasks, i => None), 0, 0)
    {
      tasks := new Option<Task>[maxTasks](i => None);
      current, ticks := 0, 0;
      new;
      assert tasks[..] == seq(maxTasks, i => None);
    }

    /** The next ready task after `after`, going round the table once. */
    method NextReady(after: nat) returns (r: Option<nat>)
      requires after < tasks.Length
      ensures r == S.NextReady(View(), after)
    {
      var i := 1;
      while i <= tasks.Length
        invariant 1 <= i <= tasks.Length + 1
        invariant S.ReadyFrom(View(), after, 1) == S.ReadyFrom(View(), after, i)
      {
        var idx := (after + i) % tasks.Length;
        Ring.WrapIsMod(after + i, tasks.Length);
        if tasks[idx].Some? && tasks[idx].value.state == S.Ready {
          return Some(idx);
        }
        i := i + 1;
      }
      return None;
    }

    /** Park the current task in state `st` and make the next ready one current; false is a panic. */
    method ScheduleNext(st: S.State) returns (ok: bool)
      requires current < tasks.Length
      modifies this`current, tasks
      ensures ok <==> S.ScheduleNext(old(View()), st).Some?
      ensures ok ==> View() == S.ScheduleNext(old(View()), st).value
      ensures current < tasks.Length
    {
      if tasks[current].None? { return false; }
      tasks[current] := Some(tasks[current].value.(state := st));
      assert View() == S.SetState(old(View()), current, st);
      var next := NextReady(current);
      if next.None? { return false; }
      S.ReadyFromReady(View(), current, 1);
      tasks[next.value] := Some(tasks[next.value].value.(state := S.Running));
      current := next.value;
      assert tasks[..] == S.SetState(S.SetState(old(View()), old(current), st), next.value, S.Running).tasks;
      return true;
    }

    /** Make every task whose sleep or timed wait has expired ready. */
    method WakeExpired()
      modifies tasks
      ensures View() == S.WakeExpired(old(View()))
    {
      for i := 0 to tasks.Length
        invariant forall j :: 0 <= j < i ==> tasks[j] == S.WakeExpired(old(View())).tasks[j]
        invariant forall j :: i <= j < tasks.Length ==> tasks[j] == old(tasks[j])
      {
        if tasks[i].Some? {
          var t := tasks[i].value;
          if t.state == S.Sleeping && ticks >= t.sleepUntil {
            tasks[i] := Some(t.(state := S.Ready));
          } else if t.state == S.Blocked && t.wakeDeadline != 0 && ticks >= t.wakeDeadline {
            tasks[i] := Some(t.(state := S.Ready, wakeDeadline := 0));
          }
        }
      }
      assert tasks[..] == S.WakeExpired(old(View())).tasks;
    }

    /** The clock: count, wake, preempt. */
    method Tick() returns (ok: bool)
      requires current < tasks.Length
      modifies this, tasks
      ensures ok <==> S.Tick(old(View())).Some?
      ensures ok ==> View() == S.Tick(old(View())).value
      ensures current < tasks.Length
    {
      ticks := ticks + 1;
      WakeExpired();
      ok := ScheduleNext(S.Ready);
    }

    method MsToTicks(ms: nat) returns (t: nat)
      ensures t == S.MsToTicks(ms)
    {
      var product := ms * 1000;
      if product > S.U64_MAX { product := S.U64_MAX; }
      t := (product + 999) / 1000;
      if t < 1 { t := 1; }
    }

    method Sleep(ms: nat) returns (ok: bool)
      requires current < tasks.Length
      modifies this`current, tasks
      ensures ok <==> S.Sleep(old(View()), ms).Some?
      ensures ok ==> View() == S.Sleep(old(View()), ms).value
      ensures current < tasks.Length
    {
      var n := MsToTicks(ms);
      if tasks[current].None? { return false; }
      tasks[current] := Some(tasks[current].value.(sleepUntil := ticks + n));
      assert View() == S.SetTask(old(View()), current, tasks[current].value);
      ok := ScheduleNext(S.Sleeping);
    }

    /** `block_current` and `block_current_timeout_ms`. */
    method Block(key: nat, ms: Option<nat>, resume: S.Resume) returns (ok: bool)
      requires current < tasks.Length
      modifies this`current, tasks
      ensures ok <==> S.Block(old(View()), key, ms, resume).Some?
      ensures ok ==> View() == S.Block(old(View()), key, ms, resume).value
      ensures current < tasks.Length
    {
      if tasks[current].None? { return false; }
      var deadline := 0;
      if ms.Some? {
        var n := MsToTicks(ms.value);
        deadline := ticks + n;
      }
      tasks[current] := Some(tasks[current].value.(waitOn := key, wakeDeadline := deadline, resume := resume));
      assert View() == S.SetTask(old(View()), current, tasks[current].value);
      ok := ScheduleNext(S.Blocked);
    }

    /** Wake the first task blocked on `key`. */
    method WakeOne(key: nat)
      modifies tasks
      ensures View() == S.WakeOne(old(View()), key)
    {
      for i := 0 to tasks.Length
        invariant tasks[..] == old(tasks[..])
        invariant S.FirstWaiter(tasks[..], key, 0) == S.FirstWaiter(tasks[..], key, i)
      {
        if tasks[i].Some? && tasks[i].value.state == S.Blocked && tasks[i].value.waitOn == key {
          tasks[i] := Some(tasks[i].value.(state := S.Ready, wakeDeadline := 0));
          assert tasks[..] == S.WakeOne(old(View()), key).tasks;
          return;
        }
      }
    }

    /** Drop the domain's tasks, then wake everybody who waits for the domain. */
    method RemoveDomain(d: nat)
      modifies tasks
      ensures View() == S.RemoveDomain(old(View()), d)
    {
      for i := 0 to tasks.Length
        invariant forall j :: 0 <= j < tasks.Length ==>
          tasks[j] == if j < i && old(tasks[j]).Some? && old(tasks[j]).value.domain == d then None else old(tasks[j])
      {
        if tasks[i].Some? && tasks[i].value.domain == d { tasks[i] := None; }
      }
      ghost var removed := tasks[..];
      for i := 0 to tasks.Length
        invariant forall j :: 0 <= j < i ==> tasks[j] == S.RemoveDomain(old(View()), d).tasks[j]
        invariant forall j :: i <= j < tasks.Length ==> tasks[j] == removed[j]
      {
        if tasks[i].Some? && tasks[i].value.state == S.Blocked && tasks[i].value.waitOn == d {
          tasks[i] := Some(tasks[i].value.(state := S.Ready, wakeDeadline := 0));
        }
      }
      assert tasks[..] == S.RemoveDomain(old(View()), d).tasks;
    }

    method LiveTasks(d: nat) returns (n: nat)
      ensures n == S.LiveTasks(tasks[..], d)
    {
      n := 0;
      for i := 0 to tasks.Length
        invariant n + S.LiveTasks(tasks[i..], d) == S.LiveTasks(tasks[..], d)
      {
        assert tasks[i..][1..] == tasks[i + 1..];
        if tasks[i].Some? && tasks[i].value.domain == d && tasks[i].value.state != S.Terminated { n := n + 1; }
      }
    }

    /** Drop the domain's terminated tasks. */
    method ReapTerminated(d: nat)
      modifies tasks
      ensures View() == S.Reap(old(View()), d)
    {
      for i := 0 to tasks.Length
        invariant forall j :: 0 <= j < i ==> tasks[j] == S.Reap(old(View()), d).tasks[j]
        invariant forall j :: i <= j < tasks.Length ==> tasks[j] == old(tasks[j])
      {
        if tasks[i].Some? && tasks[i].value.domain == d && tasks[i].value.state == S.Terminated {
          tasks[i] := None;
        }
      }
      assert tasks[..] == S.Reap(old(View()), d).tasks;
    }

    /** A ready task in the first free slot; None when the table is full. */
    method Spawn(d: nat) returns (slot: Option<nat>)
      modifies tasks
      ensures slot.Some? <==> S.SpawnTask(old(View()), d).Some?
      ensures slot.Some? ==> View() == S.SpawnTask(old(View()), d).value && slot.value == S.FreeSlot(old(View()).tasks)
      ensures slot.None? ==> View() == old(View())
    {
      for i := 0 to tasks.Length
        invariant tasks[..] == old(tasks[..]) && forall j :: 0 <= j < i ==> tasks[j].Some?
      {
        if tasks[i].None? {
          assert S.FreeSlot(tasks[..]) == i;
          tasks[i] := Some(S.FreshTask(d));
          assert tasks[..] == old(tasks[..])[i := Some(S.FreshTask(d))];
          return Some(i);
        }
      }
      return None;
    }
  }
}
