/** What every kernel step keeps: no interrupt and no message is missed by a blocked task. */
module KernelSafety {
  import opened Wrappers
  import opened Scheduling
  import opened Mailboxes
  import opened Interrupts
  import opened KernelSteps
  import R = SchedulerRuns

  /** Domain ids stay below the wait keys of interrupt waiters. */
  const DOMAIN_LIMIT: nat := IRQ_WAIT_MARK - 64

  predicate IsLive(t: Option<Task>) { t.Some? && t.value.state != Terminated }

  /** A blocked task has nothing to wait for already there: in receive its mailbox is empty, in an interrupt
      wait no vector of its mask that it registered is pending. Its wait key is the one the waker uses. */
  ghost predicate TaskOk(boxes: Boxes, q: Irq, t: Task)
    requires Sized(q)
  {
    t.state == Blocked ==>
      match t.resume
      case InUser => false
      case InReceive => t.waitOn == t.domain && t.domain < |boxes| && boxes[t.domain] == []
      case InCall(_) => t.waitOn == t.domain && t.wakeDeadline > 0
      case InFault => t.waitOn == t.domain
      case InIrqWait(mask) =>
        && t.domain < ANY_MAX_DOMAINS && t.waitOn == IrqToken(t.domain) && t.wakeDeadline > 0
        && q.anyMask[t.domain] == mask
        && forall i :: 0 <= i < MSI_VECTOR_COUNT ==> !Hits(q, mask, t.domain, i)
  }

  ghost predicate TasksOk(boxes: Boxes, q: Irq, tasks: seq<Option<Task>>)
    requires Sized(q)
  {
    forall i :: 0 <= i < |tasks| && tasks[i].Some? ==> TaskOk(boxes, q, tasks[i].value)
  }

  /** Apart from the idle task, a domain has at most one live task. */
  ghost predicate OnePerDomain(tasks: seq<Option<Task>>, idle: nat) {
    forall i, j | 0 <= i < |tasks| && 0 <= j < |tasks| && i != idle && j != idle && i != j ::
      IsLive(tasks[i]) && IsLive(tasks[j]) ==> tasks[i].value.domain != tasks[j].value.domain
  }

  /** Live tasks live in live domains. */
  ghost predicate Homes(tasks: seq<Option<Task>>, alive: seq<bool>) {
    forall i :: 0 <= i < |tasks| && tasks[i].Some? ==>
      tasks[i].value.domain < |alive| && (IsLive(tasks[i]) ==> alive[tasks[i].value.domain])
  }

  /** The idle task never waits, and lives in a boot domain. */
  predicate IdleQuiet(s: Sched, idle: nat) {
    (Is(s, idle, Ready) || Is(s, idle, Running)) && s.tasks[idle].value.resume == InUser
      && s.tasks[idle].value.domain < BOOT_DOMAINS
  }

  /** Domains waiting to be reclaimed are runtime domains without live tasks. */
  ghost predicate DyingDead(dying: seq<nat>, tasks: seq<Option<Task>>) {
    forall i :: 0 <= i < |dying| ==> dying[i] >= BOOT_DOMAINS && LiveTasks(tasks, dying[i]) == 0
  }

  /** At most the pager of domain `home` is its own pager. */
  ghost predicate OwnPagers(pagers: seq<Option<nat>>, home: nat) {
    forall d: nat :: d < |pagers| && pagers[d] == Some(d) ==> home < |pagers| && pagers[home] == Some(d)
  }

  ghost predicate KernelOk(k: Kernel, idle: nat) {
    && Sized(k.irq) && |k.boxes| <= DOMAIN_LIMIT && |k.alive| <= DOMAIN_LIMIT
    && TasksOk(k.boxes, k.irq, k.sched.tasks) && OnePerDomain(k.sched.tasks, idle) && Homes(k.sched.tasks, k.alive)
    && IdleQuiet(k.sched, idle) && R.OneRunning(k.sched) && OwnPagers(k.pagers, k.sched.tasks[idle].value.domain)
    && DyingDead(k.dying, k.sched.tasks)
  }

  /** The step puts a live task into a domain that is waiting to be reclaimed. */
  predicate Revives(k: Kernel, ev: Event)
    requires Me(k).Some?
  {
    && Has(k, Me(k).value.domain, Capabilities.Spawn)
    && match ev
       case SysSpawn(loads) => loads && SpawnTask(k.sched, FirstDead(k.alive)).Some? && FirstDead(k.alive) in k.dying
       case SysRestart(d, loads) =>
         loads && Alive(k, d) && LiveTasks(k.sched.tasks, d) == 0 && SpawnTask(Reap(k.sched, d), d).Some?
           && d in k.dying
       case _ => false
  }

  /** The running task's domain is the pager of the idle task's domain. */
  predicate ServesIdle(k: Kernel, idle: nat) {
    && Me(k).Some? && idle < |k.sched.tasks| && k.sched.tasks[idle].Some?
      && k.sched.tasks[idle].value.domain < |k.pagers|
    && k.pagers[k.sched.tasks[idle].value.domain] == Some(Me(k).value.domain)
  }

  /** Destroying d takes the running task or the idle task away. */
  predicate Fatal(k: Kernel, d: nat, idle: nat)
    requires Me(k).Some? && idle < |k.sched.tasks| && k.sched.tasks[idle].Some?
  {
    d == Me(k).value.domain || d == k.sched.tasks[idle].value.domain
  }

  /** What the kernel relies on without checking it: the idle task only idles; the pager of its domain, if it may
      start programs, does not destroy itself or the idle task's domain; ids stay in range. */
  ghost predicate PoliteElse(k: Kernel, ev: Event, idle: nat) {
    && (k.sched.current == idle ==> IsInterrupt(ev) || ev.SysYield?)
    && (ev.SysDestroy? && ServesIdle(k, idle) && Destroys(k, ev.target) ==> !Fatal(k, ev.target, idle))
    && (ev.SysSpawn? ==> FirstDead(k.alive) < DOMAIN_LIMIT)
  }

  /** And a domain waiting to be reclaimed is not used again before the tick. */
  ghost predicate Polite(k: Kernel, ev: Event, idle: nat) {
    PoliteElse(k, ev, idle) && (Me(k).Some? ==> !Revives(k, ev))
  }

  // ---- steps that only relax tasks ----

  /** The task is unchanged, gone, or no longer blocked; it never comes back to life or moves. */
  predicate Relaxed1(a: Option<Task>, b: Option<Task>) {
    b == a || b.None? ||
    (a.Some? && b.value.domain == a.value.domain && b.value.resume == a.value.resume && b.value.state != Blocked
     && (b.value.state != Terminated ==> a.value.state != Terminated))
  }

  ghost predicate Relaxed(a: seq<Option<Task>>, b: seq<Option<Task>>) {
    |b| == |a| && forall i :: 0 <= i < |a| ==> Relaxed1(a[i], b[i])
  }

  lemma RelaxedDying(dying: seq<nat>, a: seq<Option<Task>>, b: seq<Option<Task>>)
    requires DyingDead(dying, a) && Relaxed(a, b)
    ensures DyingDead(dying, b)
  {
    assert forall i :: 0 <= i < |a| ==> Relaxed1(a[i], b[i]);
    forall i | 0 <= i < |dying| ensures LiveTasks(b, dying[i]) == 0 {
      assert forall j :: 0 <= j < |a| ==> !LiveIn(a[j], dying[i]);
    }
  }

  lemma RelaxedOk(boxes: Boxes, q: Irq, a: seq<Option<Task>>, b: seq<Option<Task>>, alive: seq<bool>, idle: nat)
    requires Sized(q) && TasksOk(boxes, q, a) && OnePerDomain(a, idle) && Homes(a, alive) && Relaxed(a, b)
    ensures TasksOk(boxes, q, b) && OnePerDomain(b, idle) && Homes(b, alive)
  {
    assert forall i :: 0 <= i < |a| ==> Relaxed1(a[i], b[i]);
    assert forall i :: 0 <= i < |a| && IsLive(b[i]) ==> IsLive(a[i]) && b[i].value.domain == a[i].value.domain;
  }

  lemma ScheduleRelaxes(s: Sched, st: State)
    requires st != Blocked && st != Running && R.OneRunning(s) && ScheduleNext(s, st).Some?
    ensures var s' := ScheduleNext(s, st).value;
            && Relaxed(s.tasks, s'.tasks) && R.OneRunning(s')
            && (forall i: nat :: i != s.current && i < |s.tasks| && s.tasks[i].Some? ==>
                  s'.tasks[i] == s.tasks[i] || (Is(s, i, Ready) && Is(s', i, Running)))
            && s'.tasks[s.current].Some? && (Is(s', s.current, st) || (st == Ready && Is(s', s.current, Running)))
  {
    ReadyFromReady(SetState(s, s.current, st), s.current, 1);
    var s' := ScheduleNext(s, st).value;
    forall i: nat | i != s'.current ensures !Is(s', i, Running) {
      assert i != s.current ==> !Is(s, i, Running);
    }
  }

  /** Waking touches no running task. */
  lemma WakeRelaxes(s: Sched, key: nat)
    ensures var s' := WakeOne(s, key);
            && Relaxed(s.tasks, s'.tasks) && s'.current == s.current
            && (forall i: nat, st :: st != Blocked && Is(s, i, st) ==> s'.tasks[i] == s.tasks[i])
            && (forall i: nat :: Is(s', i, Running) <==> Is(s, i, Running))
  {
  }

  lemma ExpiredRelaxes(s: Sched)
    ensures var s' := WakeExpired(s);
            && Relaxed(s.tasks, s'.tasks) && s'.current == s.current
            && (forall i: nat, st :: st != Blocked && st != Sleeping && Is(s, i, st) ==> s'.tasks[i] == s.tasks[i])
            && (forall i: nat :: Is(s', i, Running) <==> Is(s, i, Running))
  {
  }

  lemma RemoveRelaxes(s: Sched, d: nat)
    ensures var s' := Scheduling.RemoveDomain(s, d);
            && Relaxed(s.tasks, s'.tasks) && s'.current == s.current
            && (forall i: nat :: i < |s.tasks| && s'.tasks[i].Some? ==> s'.tasks[i].value.domain != d)
            && (forall i: nat, st :: st != Blocked && Is(s, i, st) && s.tasks[i].value.domain != d ==>
              s'.tasks[i] == s.tasks[i])
            && (forall i: nat :: Is(s', i, Running) ==> Is(s, i, Running))
  {
  }

  lemma ReapRelaxes(s: Sched, d: nat)
    ensures var s' := Reap(s, d);
            && Relaxed(s.tasks, s'.tasks) && s'.current == s.current
            && (forall i: nat, st :: st != Terminated && Is(s, i, st) ==> s'.tasks[i] == s.tasks[i])
            && (forall i: nat :: Is(s', i, Running) <==> Is(s, i, Running))
  {
  }

  // ---- the step keeps the invariant: ticks, yields and sleeps ----

  /** A change of the scheduler alone that relaxes tasks and keeps the idle task. */
  lemma SchedOnlyOk(k: Kernel, s: Sched, idle: nat)
    requires KernelOk(k, idle) && Relaxed(k.sched.tasks, s.tasks) && IdleQuiet(s, idle) && R.OneRunning(s)
    ensures KernelOk(k.(sched := s), idle)
  {
    RelaxedOk(k.boxes, k.irq, k.sched.tasks, s.tasks, k.alive, idle);
    RelaxedDying(k.dying, k.sched.tasks, s.tasks);
  }

  lemma ScheduleOk(k: Kernel, st: State, idle: nat)
    requires KernelOk(k, idle) && st != Blocked && st != Running && (k.sched.current == idle ==> st == Ready)
    requires ScheduleNext(k.sched, st).Some?
    ensures KernelOk(k.(sched := ScheduleNext(k.sched, st).value), idle)
  {
    var s, s' := k.sched, ScheduleNext(k.sched, st).value;
    ScheduleRelaxes(s, st);
    assert Relaxed1(s.tasks[idle], s'.tasks[idle]);
    SchedOnlyOk(k, s', idle);
  }

  lemma WakeOk(k: Kernel, key: nat, idle: nat)
    requires KernelOk(k, idle)
    ensures KernelOk(k.(sched := WakeOne(k.sched, key)), idle)
  {
    WakeRelaxes(k.sched, key);
    SchedOnlyOk(k, WakeOne(k.sched, key), idle);
  }

  lemma SleepOk(k: Kernel, ms: nat, idle: nat)
    requires KernelOk(k, idle) && k.sched.current != idle && Sleep(k.sched, ms).Some?
    ensures KernelOk(k.(sched := Sleep(k.sched, ms).value), idle)
  {
    var s := k.sched;
    var s1 := SetTask(s, s.current, Current(s).value.(sleepUntil := s.ticks + MsToTicks(ms)));
    assert forall i: nat :: Is(s1, i, Running) <==> Is(s, i, Running);
    SchedOnlyOk(k, s1, idle);
    ScheduleOk(k.(sched := s1), Sleeping, idle);
  }

  /** A domain is destroyed: its rows go, its tasks go, the others keep their guarantees. */
  lemma DestroyOk(k: Kernel, d: nat, idle: nat)
    requires KernelOk(k, idle) && k.sched.tasks[idle].value.domain != d
    requires k.sched.tasks[k.sched.current].value.domain != d
    ensures KernelOk(Destroy(k, d), idle)
  {
    if Alive(k, d) {
      var k' := Destroy(k, d);
      RemoveRelaxes(k.sched, d);
      RelaxedOk(k.boxes, k.irq, k.sched.tasks, k'.sched.tasks, k.alive, idle);
      RelaxedDying(k.dying, k.sched.tasks, k'.sched.tasks);
      forall i | 0 <= i < |k'.sched.tasks| && k'.sched.tasks[i].Some?
        ensures TaskOk(k'.boxes, k'.irq, k'.sched.tasks[i].value)
      {
        var t := k'.sched.tasks[i].value;
        assert TaskOk(k.boxes, k.irq, t);
        if t.state == Blocked && t.resume.InIrqWait? {
          forall j | 0 <= j < MSI_VECTOR_COUNT ensures !Hits(k'.irq, t.resume.mask, t.domain, j) {
            assert !Hits(k.irq, t.resume.mask, t.domain, j);
          }
        }
      }
    }
  }

  /** Deferred reclaim never removes the running task, the idle task or any live task. */
  lemma {:induction false} ReclaimOk(k: Kernel, idle: nat)
    requires KernelOk(k, idle)
    ensures KernelOk(Reclaim(k), idle)
    ensures var s, s' := k.sched, Reclaim(k).sched;
            && s'.current == s.current && |s'.tasks| == |s.tasks|
            && (forall i :: 0 <= i < |s.tasks| && IsLive(s.tasks[i]) ==>
              IsLive(s'.tasks[i]) && s'.tasks[i].value.domain == s.tasks[i].value.domain)
    decreases |k.dying|
  {
    if k.dying != [] {
      var n := |k.dying| - 1;
      var d := k.dying[n];
      var k1 := k.(dying := k.dying[..n]);
      assert KernelOk(k1, idle);
      DeadElsewhere(k, d);
      DestroyOk(k1, d, idle);
      RemoveRelaxes(k.sched, d);
      ReclaimOk(Destroy(k1, d), idle);
    }
  }

  lemma DeadElsewhere(k: Kernel, d: nat)
    requires LiveTasks(k.sched.tasks, d) == 0
    ensures forall i :: 0 <= i < |k.sched.tasks| && IsLive(k.sched.tasks[i]) ==> k.sched.tasks[i].value.domain != d
  {
    assert forall i :: 0 <= i < |k.sched.tasks| ==> !LiveIn(k.sched.tasks[i], d);
  }

  lemma TickOk(k: Kernel, idle: nat)
    requires KernelOk(k, idle) && ClockTick(k).Some?
    ensures KernelOk(ClockTick(k).value, idle)
  {
    ReclaimOk(k, idle);
    SchedTickOk(Reclaim(k), idle);
  }

  lemma SchedTickOk(k: Kernel, idle: nat)
    requires KernelOk(k, idle) && Tick(k.sched).Some?
    ensures KernelOk(k.(sched := Tick(k.sched).value), idle)
  {
    var k1 := k.(sched := WakeExpired(k.sched.(ticks := k.sched.ticks + 1)));
    assert KernelOk(k1, idle) by { ExpiredOk(k, idle); }
    assert ScheduleNext(k1.sched, Ready) == Tick(k.sched);
    assert KernelOk(k1.(sched := Tick(k.sched).value), idle) by { ScheduleOk(k1, Ready, idle); }
    assert k1.(sched := Tick(k.sched).value) == k.(sched := Tick(k.sched).value);
  }

  lemma ExpiredOk(k: Kernel, idle: nat)
    requires KernelOk(k, idle)
    ensures KernelOk(k.(sched := WakeExpired(k.sched.(ticks := k.sched.ticks + 1))), idle)
  {
    var s1 := k.sched.(ticks := k.sched.ticks + 1);
    ExpiredRelaxes(s1);
    assert Is(s1, idle, Ready) || Is(s1, idle, Running);
    assert forall i: nat :: Is(s1, i, Running) <==> Is(k.sched, i, Running);
    SchedOnlyOk(k, WakeExpired(s1), idle);
  }
}
