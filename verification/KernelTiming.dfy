/** Bounded waiting in the whole kernel: what the other tasks, interrupts and messages do never delays a
    timed task, so a call to a service that stays dead comes back. */
module KernelTiming {
  import opened Wrappers
  import opened Scheduling
  import opened Mailboxes
  import opened Interrupts
  import opened KernelSteps
  import opened KernelSafety
  import opened KernelInvariant

  /** i runs next, or still will and no later than before; its kernel path is as it was. */
  predicate NoLater(s: Sched, s': Sched, i: nat) {
    s'.current == i ||
    (R.Pending(s, i) && R.Pending(s', i) && i != s'.current && s.current < |s.tasks| && s'.current < |s'.tasks|
     && R.Bound(s', i) <= R.Bound(s, i))
  }

  predicate KeepsPath(s: Sched, s': Sched, i: nat) {
    i < |s.tasks| && i < |s'.tasks| && s.tasks[i].Some? && s'.tasks[i].Some?
    && s'.tasks[i].value.resume == s.tasks[i].value.resume && s'.tasks[i].value.domain == s.tasks[i].value.domain
  }

  /** An operation of the scheduler on behalf of others. */
  lemma OpNoLater(s: Sched, op: R.SchedOp, i: nat)
    requires Is(s, s.current, Running) && R.Pending(s, i) && R.Spares(s, op, i) && R.Step(s, op).Some? && i != s.current
    ensures var s' := R.Step(s, op).value;
            NoLater(s, s', i) && KeepsPath(s, s', i)
              && (op.OpTick? && s'.current != i ==> R.Bound(s', i) < R.Bound(s, i))
  {
    R.StepCloser(s, op, i);
    if op.OpTick? { PathAcrossSchedule(WakeExpired(s.(ticks := s.ticks + 1)), Ready, i); }
    else if op.OpYield? { PathAcrossSchedule(s, Ready, i); }
    else if op.OpExit? { PathAcrossSchedule(s, Terminated, i); }
    else if op.OpSleep? {
      PathAcrossSchedule(SetTask(s, s.current, Current(s).value.(sleepUntil := s.ticks + MsToTicks(op.ms))), Sleeping,
        i);
    } else if op.OpBlock? {
      BlockEffect(s, op.key, op.timeout, op.resume);
    }
  }

  lemma PathAcrossSchedule(s: Sched, st: State, i: nat)
    requires i < |s.tasks| && s.tasks[i].Some? && i != s.current && ScheduleNext(s, st).Some?
    ensures KeepsPath(s, ScheduleNext(s, st).value, i)
  {
    ReadyFromReady(SetState(s, s.current, st), s.current, 1);
  }

  /** Two changes in a row, the first of which leaves the current task current. */
  lemma NoLaterTwice(s: Sched, s1: Sched, s2: Sched, i: nat)
    requires s1.current != i && NoLater(s, s1, i) && KeepsPath(s, s1, i) && NoLater(s1, s2, i) && KeepsPath(s1, s2, i)
    ensures NoLater(s, s2, i) && KeepsPath(s, s2, i)
  {
  }

  lemma SameNoLater(s: Sched, i: nat)
    requires s.current < |s.tasks| && R.Pending(s, i) && i != s.current
    ensures NoLater(s, s, i) && KeepsPath(s, s, i)
  {
  }

  lemma WakeNoLater(s: Sched, key: nat, i: nat)
    requires Is(s, s.current, Running) && R.Pending(s, i) && i != s.current
    ensures var s' := WakeOne(s, key);
            NoLater(s, s', i) && KeepsPath(s, s', i) && s'.current == s.current && Is(s', s'.current, Running)
              && R.Pending(s', i)
  {
    OpNoLater(s, R.OpWake(key), i);
    WakeRelaxes(s, key);
  }

  lemma BlockNoLater(s: Sched, key: nat, ms: Option<nat>, resume: Resume, i: nat)
    requires Is(s, s.current, Running) && R.Pending(s, i) && i != s.current && Block(s, key, ms, resume).Some?
    ensures NoLater(s, Block(s, key, ms, resume).value, i) && KeepsPath(s, Block(s, key, ms, resume).value, i)
  {
    OpNoLater(s, R.OpBlock(key, ms, resume), i);
  }

  lemma {:induction false} WakeHitsNoLater(s: Sched, masks: seq<set<nat>>, bit: nat, d: nat, i: nat)
    requires d <= |masks| <= ANY_MAX_DOMAINS && Is(s, s.current, Running) && R.Pending(s, i) && i != s.current
    ensures NoLater(s, WakeHits(s, masks, bit, d), i) && KeepsPath(s, WakeHits(s, masks, bit, d), i)
    decreases |masks| - d
  {
    if d < |masks| {
      var s1 := if bit in masks[d] then WakeOne(s, IrqToken(d)) else s;
      WakeNoLater(s, IrqToken(d), i);
      WakeHitsNoLater(s1, masks, bit, d + 1, i);
      NoLaterTwice(s, s1, WakeHits(s, masks, bit, d), i);
    }
  }

  lemma DestroyDeadNoLater(k: Kernel, d: nat, idle: nat, i: nat)
    requires KernelOk(k, idle) && LiveTasks(k.sched.tasks, d) == 0 && R.Pending(k.sched, i) && i != k.sched.current
    ensures var k' := Destroy(k, d);
            && KernelOk(k', idle) && NoLater(k.sched, k'.sched, i) && KeepsPath(k.sched, k'.sched, i)
            && k'.sched.current == k.sched.current && R.Pending(k'.sched, i)
  {
    DeadElsewhere(k, d);
    assert IsLive(k.sched.tasks[i]);
    DestroyOk(k, d, idle);
    OpNoLater(k.sched, R.OpRemove(d), i);
    SameNoLater(k.sched, i);
  }

  /** Reclaiming domains without live tasks delays nobody. */
  lemma {:induction false} ReclaimNoLater(k: Kernel, idle: nat, i: nat)
    requires KernelOk(k, idle) && R.Pending(k.sched, i) && i != k.sched.current
    ensures var s' := Reclaim(k).sched;
            && NoLater(k.sched, s', i) && KeepsPath(k.sched, s', i) && s'.current == k.sched.current
            && R.Pending(s', i) && Is(s', s'.current, Running)
    decreases |k.dying|
  {
    if k.dying != [] {
      var n := |k.dying| - 1;
      var k1 := k.(dying := k.dying[..n]);
      var k2 := Destroy(k1, k.dying[n]);
      assert KernelOk(k1, idle);
      DestroyDeadNoLater(k1, k.dying[n], idle, i);
      ReclaimNoLater(k2, idle, i);
      NoLaterTwice(k.sched, k2.sched, Reclaim(k).sched, i);
    } else {
      SameNoLater(k.sched, i);
    }
  }

  /** The event does not destroy i's domain. */
  predicate Spares(k: Kernel, ev: Event, i: nat) {
    ev.SysDestroy? && Destroys(k, ev.target) && i < |k.sched.tasks| && k.sched.tasks[i].Some? ==>
      k.sched.tasks[i].value.domain != ev.target
  }

  /** Every kernel step: i runs, or is no later than before, and after a tick strictly sooner. */
  lemma StepNoLater(k: Kernel, ev: Event, idle: nat, i: nat)
    requires KernelOk(k, idle) && Enabled(k, ev) && Step(k, ev).Some? && Spares(k, ev, i)
    requires R.Pending(k.sched, i) && i != k.sched.current
    ensures var s' := Step(k, ev).value.sched;
            && NoLater(k.sched, s', i) && KeepsPath(k.sched, s', i)
            && (ev.EvTick? && s'.current != i ==> R.Bound(s', i) < R.Bound(k.sched, i))
  {
    if ev.EvTick? { TickSooner(k, idle, i); }
    else if ev.SysDestroy? || ev.SysSpawn? || ev.SysRestart? { DomainNoLater(k, ev, idle, i); }
    else { TaskNoLater(k, ev, i); }
  }

  lemma DomainNoLater(k: Kernel, ev: Event, idle: nat, i: nat)
    requires KernelOk(k, idle) && Enabled(k, ev) && Step(k, ev).Some? && Spares(k, ev, i)
    requires ev.SysDestroy? || ev.SysSpawn? || ev.SysRestart?
    requires R.Pending(k.sched, i) && i != k.sched.current
    ensures NoLater(k.sched, Step(k, ev).value.sched, i) && KeepsPath(k.sched, Step(k, ev).value.sched, i)
  {
    SameNoLater(k.sched, i);
    var s' := DomainSched(k, ev);
    assert Step(k, ev).value.sched == s' || Step(k, ev).value.sched == k.sched;
    if ev.SysDestroy? { if Destroys(k, ev.target) { DestroyNoLater(k, ev.target, i); } }
    else if ev.SysSpawn? { SpawnNoLater(k, ev.loads, idle, i); }
    else { RestartNoLater(k, ev.target, ev.loads, i); }
  }

  /** The task table a domain operation leaves when it is permitted. */
  function DomainSched(k: Kernel, ev: Event): (s: Sched)
    requires Sized(k.irq) && Me(k).Some?
  {
    match ev
    case SysDestroy(d) => Destroy(k, d).sched
    case SysSpawn(loads) => SpawnDomain(k, Me(k).value.domain, loads).sched
    case SysRestart(d, loads) => Restart(k, d, loads).sched
    case _ => k.sched
  }

  lemma TaskNoLater(k: Kernel, ev: Event, i: nat)
    requires Sized(k.irq) && Enabled(k, ev) && Step(k, ev).Some? && Is(k.sched, k.sched.current, Running)
    requires !ev.EvTick? && !ev.SysDestroy? && !ev.SysSpawn? && !ev.SysRestart?
    requires R.Pending(k.sched, i) && i != k.sched.current
    ensures NoLater(k.sched, Step(k, ev).value.sched, i) && KeepsPath(k.sched, Step(k, ev).value.sched, i)
  {
    if ev.EvMsi? || ev.EvPic? { DeviceNoLater(k, ev, i); }
    else if ev.EvResume? { ResumeNoLater(k, i); }
    else if ev.SysYield? || ev.SysSleep? || ev.SysExit? { ParkNoLater(k, ev, i); }
    else { WaitingNoLater(k, ev, i); }
  }

  /** Messages, faults and interrupt waits. */
  lemma WaitingNoLater(k: Kernel, ev: Event, i: nat)
    requires Sized(k.irq) && Enabled(k, ev) && Step(k, ev).Some? && Is(k.sched, k.sched.current, Running)
    requires ev.SysSend? || ev.SysReply? || ev.SysFaultReply? || ev.SysReceive? || ev.SysTryReceive? || ev.SysCall?
      || ev.SysFault?
             || ev.SysIrqWait? || ev.SysIrqPoll? || ev.SysRegister? || ev.SysCapSend?
    requires R.Pending(k.sched, i) && i != k.sched.current
    ensures NoLater(k.sched, Step(k, ev).value.sched, i) && KeepsPath(k.sched, Step(k, ev).value.sched, i)
  {
    SameNoLater(k.sched, i);
    if ev.SysSend? || ev.SysReply? || ev.SysFaultReply? { SendNoLater(k, ev, i); }
    else if ev.SysReceive? { ReceiveNoLater(k, i); }
    else if ev.SysTryReceive? { OwnChange(k, i); }
    else if ev.SysCall? { CallNoLater(k, ev.to, ev.tag, ev.payload, i); }
    else if ev.SysFault? { FaultNoLater(k, ev.payload, i); }
    else if ev.SysIrqWait? { IrqWaitNoLater(k, ev.mask, ev.ms, i); }
  }

  lemma DeviceNoLater(k: Kernel, ev: Event, i: nat)
    requires Sized(k.irq) && Enabled(k, ev) && Step(k, ev).Some? && (ev.EvMsi? || ev.EvPic?)
    requires Is(k.sched, k.sched.current, Running)
    requires R.Pending(k.sched, i) && i != k.sched.current
    ensures NoLater(k.sched, Step(k, ev).value.sched, i) && KeepsPath(k.sched, Step(k, ev).value.sched, i)
  {
    SameNoLater(k.sched, i);
    if ev.EvMsi? {
      if InMsiRange(ev.vector) { WakeHitsNoLater(k.sched, k.irq.anyMask, ev.vector - MSI_VECTOR_BASE, 0, i); }
    } else if k.irq.handlers[ev.irq].Some? {
      WakeNoLater(k.sched, k.irq.handlers[ev.irq].value, i);
    }
  }

  lemma ParkNoLater(k: Kernel, ev: Event, i: nat)
    requires Sized(k.irq) && Enabled(k, ev) && Step(k, ev).Some? && Is(k.sched, k.sched.current, Running)
    requires ev.SysYield? || ev.SysSleep? || ev.SysExit?
    requires R.Pending(k.sched, i) && i != k.sched.current
    ensures NoLater(k.sched, Step(k, ev).value.sched, i) && KeepsPath(k.sched, Step(k, ev).value.sched, i)
  {
    OpNoLater(k.sched, if ev.SysYield? then R.OpYield else if ev.SysExit? then R.OpExit else R.OpSleep(ev.ms), i);
  }

  lemma DestroyNoLater(k: Kernel, d: nat, i: nat)
    requires Sized(k.irq) && Is(k.sched, k.sched.current, Running) && R.Pending(k.sched, i) && i != k.sched.current
    requires k.sched.tasks[i].value.domain != d
    ensures NoLater(k.sched, Destroy(k, d).sched, i) && KeepsPath(k.sched, Destroy(k, d).sched, i)
  {
    SameNoLater(k.sched, i);
    OpNoLater(k.sched, R.OpRemove(d), i);
  }

  lemma SendNoLater(k: Kernel, ev: Event, i: nat)
    requires Sized(k.irq) && Enabled(k, ev) && Step(k, ev).Some? && Is(k.sched, k.sched.current, Running)
    requires ev.SysSend? || ev.SysReply? || ev.SysFaultReply?
    requires R.Pending(k.sched, i) && i != k.sched.current
    ensures NoLater(k.sched, Step(k, ev).value.sched, i) && KeepsPath(k.sched, Step(k, ev).value.sched, i)
  {
    SameNoLater(k.sched, i);
    WakeNoLater(k.sched, if ev.SysSend? then ev.to else Me(k).value.replyTarget, i);
  }

  lemma ReceiveNoLater(k: Kernel, i: nat)
    requires Me(k).Some? && ReceiveRound(k, Me(k).value).Some? && Is(k.sched, k.sched.current, Running)
    requires R.Pending(k.sched, i) && i != k.sched.current
    ensures var s' := ReceiveRound(k, Me(k).value).value.sched; NoLater(k.sched, s', i) && KeepsPath(k.sched, s', i)
  {
    var t := Me(k).value;
    if k.boxes[t.domain] == [] { BlockNoLater(k.sched, t.domain, None, InReceive, i); } else { OwnChange(k, i); }
  }

  /** What the running task notes about itself concerns nobody else. */
  lemma OwnChange(k: Kernel, i: nat)
    requires Is(k.sched, k.sched.current, Running) && R.Pending(k.sched, i) && i != k.sched.current
    ensures forall t: Task, boxes, irq ::
      var s' := SetCurrent(k.(boxes := boxes, irq := irq), t).sched;
        NoLater(k.sched, s', i) && KeepsPath(k.sched, s', i)
  {
  }

  lemma TickSooner(k: Kernel, idle: nat, i: nat)
    requires KernelOk(k, idle) && R.Pending(k.sched, i) && i != k.sched.current && ClockTick(k).Some?
    ensures var s' := ClockTick(k).value.sched;
            && NoLater(k.sched, s', i) && KeepsPath(k.sched, s', i)
            && (s'.current != i ==> R.Bound(s', i) < R.Bound(k.sched, i))
  {
    ReclaimNoLater(k, idle, i);
    OpNoLater(Reclaim(k).sched, R.OpTick, i);
    NoLaterTwice(k.sched, Reclaim(k).sched, ClockTick(k).value.sched, i);
  }

  lemma RestartNoLater(k: Kernel, d: nat, loads: bool, i: nat)
    requires Is(k.sched, k.sched.current, Running) && R.Pending(k.sched, i) && i != k.sched.current
    ensures NoLater(k.sched, Restart(k, d, loads).sched, i) && KeepsPath(k.sched, Restart(k, d, loads).sched, i)
  {
    OpNoLater(k.sched, R.OpReap(d), i);
    ReapRelaxes(k.sched, d);
    OpNoLater(Reap(k.sched, d), R.OpSpawn(d), i);
  }

  lemma SpawnNoLater(k: Kernel, loads: bool, idle: nat, i: nat)
    requires KernelOk(k, idle) && R.Pending(k.sched, i) && i != k.sched.current && Me(k).Some?
    ensures var s' := SpawnDomain(k, Me(k).value.domain, loads).sched;
            NoLater(k.sched, s', i) && KeepsPath(k.sched, s', i)
  {
    var id := FirstDead(k.alive);
    OpNoLater(k.sched, R.OpSpawn(id), i);
    assert IsLive(k.sched.tasks[i]);
    OpNoLater(k.sched, R.OpRemove(id), i);
  }

  lemma IrqWaitNoLater(k: Kernel, mask: set<nat>, ms: nat, i: nat)
    requires Sized(k.irq) && Me(k).Some? && IrqWait(k, Me(k).value, mask, ms).Some?
    requires Is(k.sched, k.sched.current, Running)
    requires R.Pending(k.sched, i) && i != k.sched.current
    ensures var s' := IrqWait(k, Me(k).value, mask, ms).value.sched;
            NoLater(k.sched, s', i) && KeepsPath(k.sched, s', i)
  {
    var t := Me(k).value;
    if mask != {} && MaskOk(k, t.domain, mask) && TakePending(k.irq, mask, t.domain).1.None?
      && t.domain < ANY_MAX_DOMAINS
    {
      BlockNoLater(k.sched, IrqToken(t.domain), Some(ms), InIrqWait(mask), i);
    }
  }

  lemma CallNoLater(k: Kernel, to: nat, tag: nat, payload: seq<Byte>, i: nat)
    requires Me(k).Some? && CallStart(k, Me(k).value, to, tag, payload).Some? && Is(k.sched, k.sched.current, Running)
    requires R.Pending(k.sched, i) && i != k.sched.current
    ensures var s' := CallStart(k, Me(k).value, to, tag, payload).value.sched;
            NoLater(k.sched, s', i) && KeepsPath(k.sched, s', i)
  {
    var s, t := k.sched, Me(k).value;
    if Has(k, t.domain, Capabilities.SendTo(to)) && LiveTasks(s.tasks, to) != 0 {
      WakeNoLater(s, to, i);
      BlockNoLater(WakeOne(s, to), t.domain, Some(CALL_POLL_MS), InCall(to), i);
      NoLaterTwice(s, WakeOne(s, to), CallStart(k, t, to, tag, payload).value.sched, i);
    }
  }

  lemma FaultNoLater(k: Kernel, payload: seq<Byte>, i: nat)
    requires Me(k).Some? && Fault(k, Me(k).value, payload).Some? && Is(k.sched, k.sched.current, Running)
    requires R.Pending(k.sched, i) && i != k.sched.current
    ensures var s' := Fault(k, Me(k).value, payload).value.sched; NoLater(k.sched, s', i) && KeepsPath(k.sched, s', i)
  {
    var s, t := k.sched, Me(k).value;
    var msg := Message(t.domain, k.pagers[t.domain].value, FAULT_TAG, Fixed(payload));
    var k1 := DeliverCapped(k, msg).value;
    WakeNoLater(s, msg.to, i);
    BlockNoLater(k1.sched, t.domain, None, InFault, i);
    NoLaterTwice(s, k1.sched, Fault(k, t, payload).value.sched, i);
  }

  lemma ResumeNoLater(k: Kernel, i: nat)
    requires Sized(k.irq) && Me(k).Some? && Resumed(k, Me(k).value).Some? && Is(k.sched, k.sched.current, Running)
    requires R.Pending(k.sched, i) && i != k.sched.current
    ensures var s' := Resumed(k, Me(k).value).value.sched; NoLater(k.sched, s', i) && KeepsPath(k.sched, s', i)
  {
    var t := Me(k).value;
    SameNoLater(k.sched, i);
    if t.resume.InReceive? { ReceiveNoLater(k, i); }
    else if t.resume.InCall? { CallRoundNoLater(k, t.resume.to, i); }
    else { OwnChange(k, i); }
  }

  lemma CallRoundNoLater(k: Kernel, to: nat, i: nat)
    requires Me(k).Some? && CallRound(k, Me(k).value, to).Some? && Is(k.sched, k.sched.current, Running)
    requires R.Pending(k.sched, i) && i != k.sched.current
    ensures var s' := CallRound(k, Me(k).value, to).value.sched; NoLater(k.sched, s', i) && KeepsPath(k.sched, s', i)
  {
    var t := Me(k).value;
    if BoxStep(k.boxes, TakeFrom(t.domain, to)).1.None? && LiveTasks(k.sched.tasks, to) != 0 {
      BlockNoLater(k.sched, t.domain, Some(CALL_POLL_MS), InCall(to), i);
    } else {
      OwnChange(k, i);
    }
  }

  // ---- a call to a dead service returns ----

  function Ticks(evs: seq<Event>): (n: nat) {
    if evs == [] then 0 else (if evs[0].EvTick? then 1 else 0) + Ticks(evs[1..])
  }

  /** Along the run the kernel does not panic, i's domain is not destroyed, and `to` has no live task. */
  ghost predicate StaysDead(k: Kernel, evs: seq<Event>, to: nat, i: nat)
    decreases |evs|
  {
    && LiveTasks(k.sched.tasks, to) == 0
    && (evs != [] ==>
          && Sized(k.irq) && Enabled(k, evs[0]) && Step(k, evs[0]).Some? && Spares(k, evs[0], i)
          && StaysDead(Step(k, evs[0]).value, evs[1..], to, i))
  }

  ghost predicate Returned(k: Kernel, i: nat) {
    i < |k.sched.tasks| && k.sched.tasks[i].Some? && k.sched.tasks[i].value.resume == InUser
  }

  /** A task waiting in a call to a domain that stays without live tasks is back in user code before more than
      `Bound` ticks have passed: by the deadline of its wait plus the number of tasks. */
  lemma {:induction false} CallReturns(k: Kernel, evs: seq<Event>, idle: nat, to: nat, i: nat)
    requires KernelOk(k, idle) && GoodRun(k, evs, idle) && StaysDead(k, evs, to, i)
    requires i < |k.sched.tasks| && k.sched.tasks[i].Some? && k.sched.tasks[i].value.resume == InCall(to)
    requires if k.sched.current == i then evs != [] else R.Pending(k.sched, i) && Ticks(evs) > R.Bound(k.sched, i)
    ensures exists n :: 0 <= n <= |evs| && After(k, evs, n).Some? && Returned(After(k, evs, n).value, i)
    decreases |evs|
  {
    var k' := Step(k, evs[0]).value;
    StepOk(k, evs[0], idle);
    if k.sched.current == i {
      assert Returned(k', i);
      assert After(k', evs[1..], 0) == Some(k');
      assert After(k, evs, 1) == Some(k');
    } else {
      StepNoLater(k, evs[0], idle, i);
      CallReturns(k', evs[1..], idle, to, i);
      var n :| 0 <= n <= |evs[1..]| && After(k', evs[1..], n).Some? && Returned(After(k', evs[1..], n).value, i);
      assert After(k, evs, n + 1) == After(k', evs[1..], n);
    }
  }

  /** A call that has to wait is such a waiting task, and its bound is the poll interval plus the table size. */
  lemma CallWaits(k: Kernel, to: nat, tag: nat, payload: seq<Byte>, idle: nat)
    requires KernelOk(k, idle) && k.sched.current != idle && CallStart(k, Me(k).value, to, tag, payload).Some?
    requires Has(k, Me(k).value.domain, Capabilities.SendTo(to)) && LiveTasks(k.sched.tasks, to) != 0
    ensures var k', i := CallStart(k, Me(k).value, to, tag, payload).value, k.sched.current;
            && KernelOk(k', idle) && k'.sched.current != i && k'.sched.tasks[i].Some?
            && k'.sched.tasks[i].value.resume == InCall(to) && R.Pending(k'.sched, i)
            && R.Bound(k'.sched, i) == CALL_POLL_MS + |k.sched.tasks| - 1
  {
    var t := Me(k).value;
    var msg := Message(t.domain, to, tag, Fixed(payload));
    CallStartOk(k, to, tag, payload, idle);
    DeliverKeepsMe(k, msg);
    BlockEffect(Deliver(k, msg).value.sched, t.domain, Some(CALL_POLL_MS), InCall(to));
  }
}
