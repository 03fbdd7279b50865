/** What single kernel calls give and leave alone: registering for interrupts, returning from a wait, exiting, and
    restarting a domain. */
module KernelEffects {
  import opened Wrappers
  import opened Scheduling
  import opened Mailboxes
  import opened Interrupts
  import opened KernelSteps
  import opened KernelSafety
  import opened KernelInvariant
  import opened KernelRuns

  // ---- interrupts ----

  /** SYS_REGISTER_IRQ with the capability makes the caller's domain the owner of a PIC line below 16 or a vector from
      32 on; without it, and for the exception vectors between, it changes nothing. */
  lemma RegisterExact(k: Kernel, irq: nat)
    requires Sized(k.irq) && Enabled(k, SysRegister(irq))
    ensures Step(k, SysRegister(irq)).Some?
    ensures var k', d := Step(k, SysRegister(irq)).value, Me(k).value.domain;
            var mine := Has(k, d, Capabilities.Irq(irq));
            && k' == k.(irq := k'.irq) && Sized(k'.irq)
            && k'.irq.pending == k.irq.pending && k'.irq.anyMask == k.irq.anyMask
            && (forall i :: 0 <= i < 16 ==>
                  k'.irq.handlers[i] == if mine && i == irq then Some(d) else k.irq.handlers[i])
            && (forall v :: 0 <= v < 256 ==>
                  k'.irq.vectors[v] == if mine && v == irq && v >= 32 then Some(d) else k.irq.vectors[v])
  {
  }

  /** A poll or wait that asks for one vector the caller has no capability for or did not register is refused, and
      changes nothing. */
  lemma MaskRefused(k: Kernel, ev: Event, i: nat)
    requires Sized(k.irq) && Enabled(k, ev) && (ev.SysIrqPoll? || ev.SysIrqWait?) && i < 16 && i in ev.mask
    requires var d := Me(k).value.domain;
             !Has(k, d, Capabilities.Irq(0x50 + i)) || k.irq.vectors[0x50 + i] != Some(d)
    ensures Step(k, ev) == Some(k)
  {
    assert !MaskOk(k, Me(k).value.domain, ev.mask);
  }

  /** A task that comes back from its wait is in user code, or waits again for the same thing. */
  lemma ResumeReturns(k: Kernel, idle: nat)
    requires KernelOk(k, idle) && GoodStep(k, EvResume, idle)
    ensures var t, k', i := Me(k).value, Step(k, EvResume).value, k.sched.current;
            && i < |k'.sched.tasks| && k'.sched.tasks[i].Some?
            && var t' := k'.sched.tasks[i].value;
               (t'.state == Running && t'.resume == InUser)
               || (t'.state == Blocked && t'.resume == t.resume && (t.resume.InReceive? || t.resume.InCall?))
  {
    var t := Me(k).value;
    match t.resume
    case InReceive => if k.boxes[t.domain] == [] { BlockEffect(k.sched, t.domain, None, InReceive); }
    case InCall(to) =>
      if BoxStep(k.boxes, TakeFrom(t.domain, to)).1.None? && LiveTasks(k.sched.tasks, to) != 0 {
        BlockEffect(k.sched, t.domain, Some(CALL_POLL_MS), InCall(to));
      }
    case InIrqWait(_) =>
    case InFault =>
  }

  /** Back from an interrupt wait, a domain waits for nothing any more; the other domains' masks stay. */
  lemma WaitForgotten(k: Kernel, idle: nat)
    requires KernelOk(k, idle) && GoodStep(k, EvResume, idle) && Me(k).value.resume.InIrqWait?
    ensures var k', d := Step(k, EvResume).value, Me(k).value.domain;
            && Sized(k'.irq) && k'.irq.vectors == k.irq.vectors && k'.irq.handlers == k.irq.handlers
            && (forall e :: 0 <= e < 64 ==> k'.irq.anyMask[e] == if e == d then {} else k.irq.anyMask[e])
  {
    DoneForgets(k, Me(k).value, Me(k).value.resume.mask);
  }

  lemma DoneForgets(k: Kernel, t: Task, mask: set<nat>)
    requires Sized(k.irq)
    ensures var q := IrqWaitDone(k, t, mask).irq;
            && Sized(q) && q.vectors == k.irq.vectors && q.handlers == k.irq.handlers
            && (forall e :: 0 <= e < 64 ==> q.anyMask[e] == if e == t.domain then {} else k.irq.anyMask[e])
  {
    var q := if t.domain < ANY_MAX_DOMAINS then k.irq.(anyMask := k.irq.anyMask[t.domain := {}]) else k.irq;
    TakeConsumes(q, mask, t.domain);
  }

  // ---- the end of a task ----

  lemma {:induction false} OneLive(tasks: seq<Option<Task>>, d: nat, i: nat)
    requires i < |tasks| && LiveIn(tasks[i], d) && forall j :: 0 <= j < |tasks| && j != i ==> !LiveIn(tasks[j], d)
    ensures LiveTasks(tasks, d) == 1
    decreases |tasks|
  {
    var rest := tasks[1..];
    if i == 0 {
      assert forall j :: 0 <= j < |rest| ==> rest[j] == tasks[j + 1];
      assert LiveTasks(rest, d) == 0;
    } else {
      OneLive(rest, d, i - 1);
    }
  }

  /** SYS_EXIT ends the caller. Its domain is queued for reclaim exactly when it is a runtime domain and no other task
      of it is alive. */
  lemma ExitExact(k: Kernel)
    requires Sized(k.irq) && Enabled(k, SysExit) && Step(k, SysExit).Some? && Is(k.sched, k.sched.current, Running)
    ensures var k', i, d := Step(k, SysExit).value, k.sched.current, Me(k).value.domain;
            var alone := forall j :: 0 <= j < |k.sched.tasks| && j != i ==> !LiveIn(k.sched.tasks[j], d);
            && k' == k.(dying := k'.dying, sched := k'.sched) && Is(k'.sched, i, Terminated)
            && k'.dying == if alone && d >= BOOT_DOMAINS then k.dying + [d] else k.dying
  {
    var tasks, i, d := k.sched.tasks, k.sched.current, Me(k).value.domain;
    ReadyFromReady(SetState(k.sched, i, Terminated), i, 1);
    if forall j :: 0 <= j < |tasks| && j != i ==> !LiveIn(tasks[j], d) {
      OneLive(tasks, d, i);
    } else {
      var j :| 0 <= j < |tasks| && j != i && LiveIn(tasks[j], d);
      TwoLive(tasks, d, i, j);
    }
  }

  /** The queue only grows until the next tick. */
  lemma QueueKept(k: Kernel, ev: Event)
    requires Sized(k.irq) && Enabled(k, ev) && Step(k, ev).Some? && !ev.EvTick?
    ensures k.dying <= Step(k, ev).value.dying
  {
  }

  /** At that tick every domain in it is gone. */
  lemma ExitedIsReclaimed(k: Kernel, idle: nat, d: nat)
    requires KernelOk(k, idle) && GoodStep(k, EvTick, idle) && d in k.dying && Alive(k, d)
    ensures !Alive(Step(k, EvTick).value, d)
  {
    ReclaimRemoves(k, d);
  }

  // ---- restart ----

  /** There is a slot for the new task: a free one, or one of a task of d, which are all dead. */
  predicate RoomFor(tasks: seq<Option<Task>>, d: nat) {
    exists i :: 0 <= i < |tasks| && (tasks[i].None? || tasks[i].value.domain == d)
  }

  /** A restart by a task that may start programs, of a live domain without live tasks, empties the domain's mailbox and
      drops its dead tasks; if the image loads and a slot is free, one fresh task is there. Nobody else's task or
      mailbox changes, and the domain keeps its capabilities, handles, pager and registrations. In all other cases
      nothing changes. */
  lemma RestartExact(k: Kernel, d: nat, loads: bool)
    requires Sized(k.irq) && Enabled(k, SysRestart(d, loads))
    ensures Step(k, SysRestart(d, loads)).Some?
    ensures var k' := Step(k, SysRestart(d, loads)).value;
            if Has(k, Me(k).value.domain, Capabilities.Spawn) && Alive(k, d)
               && (forall i :: 0 <= i < |k.sched.tasks| ==> !LiveIn(k.sched.tasks[i], d))
            then Restarted(k, k', d, loads && RoomFor(k.sched.tasks, d))
            else k' == k
  {
    if Has(k, Me(k).value.domain, Capabilities.Spawn) {
      if Alive(k, d) && LiveTasks(k.sched.tasks, d) == 0 { RestartEffect(k, d, loads); }
    }
  }

  ghost predicate Restarted(k: Kernel, k': Kernel, d: nat, starts: bool) {
    && k' == k.(boxes := k'.boxes, sched := k'.sched) && k'.sched == k.sched.(tasks := k'.sched.tasks)
    && (forall e :: Queued(k'.boxes, e) == if e == d then [] else Queued(k.boxes, e))
    && OthersSame(k.sched.tasks, k'.sched.tasks, d)
    && (if starts then OneFresh(k.sched.tasks, k'.sched.tasks, d) else NoneOf(k'.sched.tasks, d))
  }

  lemma RestartEffect(k: Kernel, d: nat, loads: bool)
    requires Alive(k, d) && LiveTasks(k.sched.tasks, d) == 0
    ensures Restarted(k, Restart(k, d, loads), d, loads && RoomFor(k.sched.tasks, d))
  {
    assert forall i :: 0 <= i < |k.sched.tasks| ==> !LiveIn(k.sched.tasks[i], d);
    ReapExact(k.sched, d);
    StartExact(k.sched.tasks, Reap(k.sched, d).tasks, d);
    ResetExact(k.boxes, d);
  }

  ghost predicate NoneOf(tasks: seq<Option<Task>>, d: nat) {
    forall i :: 0 <= i < |tasks| && tasks[i].Some? ==> tasks[i].value.domain != d
  }

  /** Nobody but d's tasks changes. */
  ghost predicate OthersSame(a: seq<Option<Task>>, b: seq<Option<Task>>, d: nat) {
    |a| == |b| && forall i :: 0 <= i < |a| && a[i].Some? && a[i].value.domain != d ==> b[i] == a[i]
  }

  lemma ResetExact(boxes: Boxes, d: nat)
    ensures forall e :: Queued(BoxStep(boxes, ResetBox(d)).0, e) == if e == d then [] else Queued(boxes, e)
  {
  }

  /** The one task of d in b is fresh, in a slot that was free or held a task of d. */
  ghost predicate OneFresh(a: seq<Option<Task>>, b: seq<Option<Task>>, d: nat) {
    |a| == |b| && exists n :: 0 <= n < |b| && FreshAt(a, b, d, n)
  }

  ghost predicate FreshAt(a: seq<Option<Task>>, b: seq<Option<Task>>, d: nat, n: nat)
    requires n < |a| == |b|
  {
    && b[n] == Some(FreshTask(d)) && (a[n].None? || a[n].value.domain == d)
    && forall i :: 0 <= i < |b| && i != n && b[i].Some? ==> b[i].value.domain != d
  }

  lemma ReapExact(s: Sched, d: nat)
    requires forall i :: 0 <= i < |s.tasks| ==> !LiveIn(s.tasks[i], d)
    ensures |Reap(s, d).tasks| == |s.tasks|
    ensures forall i :: 0 <= i < |s.tasks| ==>
      Reap(s, d).tasks[i] == if s.tasks[i].Some? && s.tasks[i].value.domain == d then None else s.tasks[i]
  {
    forall i | 0 <= i < |s.tasks|
      ensures Reap(s, d).tasks[i] == if s.tasks[i].Some? && s.tasks[i].value.domain == d then None else s.tasks[i]
    {
      assert !LiveIn(s.tasks[i], d);
    }
  }

  lemma StartExact(a: seq<Option<Task>>, reaped: seq<Option<Task>>, d: nat)
    requires |a| == |reaped|
    requires forall i :: 0 <= i < |a| ==>
      reaped[i] == if a[i].Some? && a[i].value.domain == d then None else a[i]
    ensures FreeSlot(reaped) < |reaped| <==> RoomFor(a, d)
    ensures FreeSlot(reaped) < |reaped| ==> OneFresh(a, reaped[FreeSlot(reaped) := Some(FreshTask(d))], d)
  {
    var n := FreeSlot(reaped);
    if RoomFor(a, d) {
      var i :| 0 <= i < |a| && (a[i].None? || a[i].value.domain == d);
      assert reaped[i].None?;
    }
    if n < |reaped| {
      var b := reaped[n := Some(FreshTask(d))];
      assert FreshAt(a, b, d, n);
    }
  }
}
