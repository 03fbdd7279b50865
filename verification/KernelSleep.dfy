/** Nobody is woken early: in every run of the kernel a sleeping task sleeps until its time has come, and a blocked
    task stays blocked until its deadline, a wake-up of its key, or its end. */
module KernelSleep {
  import opened Wrappers
  import opened Scheduling
  import opened Mailboxes
  import opened Interrupts
  import opened KernelSteps
  import opened KernelSafety
  import opened KernelInvariant
  import opened KernelTiming

  predicate Parked(s: Sched, i: nat) { Is(s, i, Sleeping) || Is(s, i, Blocked) }

  /** The clock has reached what the task waits for. */
  predicate Due(t: Task, now: nat) {
    (t.state == Sleeping && now >= t.sleepUntil) || (t.state == Blocked && t.wakeDeadline != 0 && now >= t.wakeDeadline)
  }

  predicate Room(k: Kernel, d: nat) { d < |k.boxes| && |k.boxes[d]| < MAILBOX_CAP }

  /** The step wakes somebody who waits on the key: it delivers a message or an interrupt there, or removes the
      domain of that number. */
  predicate Wakes(k: Kernel, ev: Event, key: nat)
    requires Sized(k.irq) && Enabled(k, ev)
  {
    var t := Me(k).value;
    match ev
    case EvTick => key in k.dying
    case EvMsi(v) =>
      && k.irq.vectors[v].Some? && InMsiRange(v)
      && exists d :: 0 <= d < ANY_MAX_DOMAINS && v - MSI_VECTOR_BASE in k.irq.anyMask[d] && key == IrqToken(d)
    case EvPic(irq, _) => k.irq.handlers[irq] == Some(key) && Room(k, key)
    case SysSend(to, _, _) => key == to && Has(k, t.domain, Capabilities.SendTo(to)) && Room(k, to)
    case SysCall(to, _, _) => key == to && Has(k, t.domain, Capabilities.SendTo(to)) && LiveTasks(k.sched.tasks, to) > 0
    case SysReply(_, _) => key == t.replyTarget && key != U64_MAX
    case SysFaultReply => key == t.replyTarget && key != U64_MAX
    case SysFault(_) => t.domain < |k.pagers| && k.pagers[t.domain] == Some(key) && Room(k, key)
    case SysDestroy(d) => key == d && Destroys(k, d)
    case SysSpawn(loads) =>
      && key == FirstDead(k.alive) && Has(k, t.domain, Capabilities.Spawn)
      && !(loads && SpawnTask(k.sched, key).Some?)
    case _ => false
  }

  // ---- what the scheduler leaves alone ----

  lemma ScheduleLeaves(s: Sched, st: State, i: nat)
    requires Parked(s, i) && i != s.current && ScheduleNext(s, st).Some?
    ensures |ScheduleNext(s, st).value.tasks| == |s.tasks| && ScheduleNext(s, st).value.tasks[i] == s.tasks[i]
    ensures ScheduleNext(s, st).value.ticks == s.ticks
  {
    ReadyFromReady(SetState(s, s.current, st), s.current, 1);
  }

  lemma BlockLeaves(s: Sched, key: nat, ms: Option<nat>, resume: Resume, i: nat)
    requires Parked(s, i) && i != s.current && Block(s, key, ms, resume).Some?
    ensures |Block(s, key, ms, resume).value.tasks| == |s.tasks|
    ensures Block(s, key, ms, resume).value.tasks[i] == s.tasks[i]
  {
    var t := Current(s).value.(waitOn := key, wakeDeadline := Deadline(s, ms), resume := resume);
    ScheduleLeaves(SetTask(s, s.current, t), Blocked, i);
  }

  /** Waking a key leaves alone whoever does not wait on it. */
  lemma WakeLeaves(s: Sched, key: nat, i: nat)
    requires i < |s.tasks| && !WaitsOn(s.tasks[i], key)
    ensures |WakeOne(s, key).tasks| == |s.tasks| && WakeOne(s, key).tasks[i] == s.tasks[i]
  {
  }

  lemma {:induction false} WakeHitsLeaves(s: Sched, masks: seq<set<nat>>, bit: nat, d: nat, i: nat)
    requires d <= |masks| <= ANY_MAX_DOMAINS && i < |s.tasks|
    requires forall e :: d <= e < |masks| && bit in masks[e] ==> !WaitsOn(s.tasks[i], IrqToken(e))
    ensures WakeHits(s, masks, bit, d).tasks[i] == s.tasks[i]
    decreases |masks| - d
  {
    if d < |masks| {
      if bit in masks[d] { WakeLeaves(s, IrqToken(d), i); }
      WakeHitsLeaves(if bit in masks[d] then WakeOne(s, IrqToken(d)) else s, masks, bit, d + 1, i);
    }
  }

  lemma {:induction false} ReclaimLeaves(k: Kernel, i: nat)
    requires Sized(k.irq) && Parked(k.sched, i) && k.sched.tasks[i].value.domain !in k.dying
    requires forall d :: d in k.dying ==> !WaitsOn(k.sched.tasks[i], d)
    ensures |Reclaim(k).sched.tasks| == |k.sched.tasks| && Reclaim(k).sched.tasks[i] == k.sched.tasks[i]
    ensures Reclaim(k).sched.current == k.sched.current && Reclaim(k).sched.ticks == k.sched.ticks
    decreases |k.dying|
  {
    if k.dying != [] {
      var n := |k.dying| - 1;
      ReclaimLeaves(Destroy(k.(dying := k.dying[..n]), k.dying[n]), i);
    }
  }

  // ---- one step ----

  /** Task i has no part in the step: its domain is not destroyed, its key is not woken and its time has not come. */
  ghost predicate LeftAlone(k: Kernel, ev: Event, i: nat)
    requires Sized(k.irq) && Enabled(k, ev) && i < |k.sched.tasks| && k.sched.tasks[i].Some?
  {
    var t := k.sched.tasks[i].value;
    && Spares(k, ev, i) && (t.state == Blocked ==> !Wakes(k, ev, t.waitOn))
    && (ev.EvTick? ==> !Due(t, k.sched.ticks + 1))
  }

  /** A parked task that has no part in a step is as it was, to the last field. */
  lemma StaysParked(k: Kernel, ev: Event, idle: nat, i: nat)
    requires KernelOk(k, idle) && GoodStep(k, ev, idle) && Parked(k.sched, i) && LeftAlone(k, ev, i)
    ensures var k' := Step(k, ev).value; i < |k'.sched.tasks| && k'.sched.tasks[i] == k.sched.tasks[i]
  {
    assert i != k.sched.current;
    if ev.EvTick? { TickLeaves(k, i); }
    else if ev.EvMsi? || ev.EvPic? { DeviceLeaves(k, ev, i); }
    else if ev.EvResume? { ResumeLeaves(k, i); }
    else if ev.SysYield? || ev.SysSleep? || ev.SysExit? { ParkLeaves(k, ev, i); }
    else if ev.SysDestroy? || ev.SysSpawn? || ev.SysRestart? { DomainLeaves(k, ev, idle, i); }
    else { CallLeaves(k, ev, i); }
  }

  lemma TickLeaves(k: Kernel, i: nat)
    requires Sized(k.irq) && Parked(k.sched, i) && i != k.sched.current && DyingDead(k.dying, k.sched.tasks)
    requires ClockTick(k).Some? && !Due(k.sched.tasks[i].value, k.sched.ticks + 1)
    requires Is(k.sched, i, Blocked) ==> k.sched.tasks[i].value.waitOn !in k.dying
    ensures var s' := ClockTick(k).value.sched; i < |s'.tasks| && s'.tasks[i] == k.sched.tasks[i]
  {
    var d := k.sched.tasks[i].value.domain;
    assert LiveIn(k.sched.tasks[i], d);
    assert d !in k.dying;
    ReclaimLeaves(k, i);
    var s := Reclaim(k).sched;
    ScheduleLeaves(WakeExpired(s.(ticks := s.ticks + 1)), Ready, i);
  }

  lemma DeviceLeaves(k: Kernel, ev: Event, i: nat)
    requires Sized(k.irq) && Enabled(k, ev) && Step(k, ev).Some? && (ev.EvMsi? || ev.EvPic?)
    requires Parked(k.sched, i) && (Is(k.sched, i, Blocked) ==> !Wakes(k, ev, k.sched.tasks[i].value.waitOn))
    ensures var s' := Step(k, ev).value.sched; i < |s'.tasks| && s'.tasks[i] == k.sched.tasks[i]
  {
    if ev.EvMsi? {
      if InMsiRange(ev.vector) && k.irq.vectors[ev.vector].Some? {
        WakeHitsLeaves(k.sched, k.irq.anyMask, ev.vector - MSI_VECTOR_BASE, 0, i);
      }
    } else if k.irq.handlers[ev.irq].Some? && Room(k, k.irq.handlers[ev.irq].value) {
      WakeLeaves(k.sched, k.irq.handlers[ev.irq].value, i);
    }
  }

  lemma ResumeLeaves(k: Kernel, i: nat)
    requires Sized(k.irq) && Me(k).Some? && Resumed(k, Me(k).value).Some? && Parked(k.sched, i) && i != k.sched.current
    ensures var s' := Resumed(k, Me(k).value).value.sched; i < |s'.tasks| && s'.tasks[i] == k.sched.tasks[i]
  {
    var t := Me(k).value;
    match t.resume
    case InUser =>
    case InReceive => ReceiveLeaves(k, i);
    case InCall(to) => CallRoundLeaves(k, to, i);
    case InIrqWait(_) =>
    case InFault =>
  }

  lemma ReceiveLeaves(k: Kernel, i: nat)
    requires Me(k).Some? && ReceiveRound(k, Me(k).value).Some? && Parked(k.sched, i) && i != k.sched.current
    ensures var s' := ReceiveRound(k, Me(k).value).value.sched; i < |s'.tasks| && s'.tasks[i] == k.sched.tasks[i]
  {
    var d := Me(k).value.domain;
    if k.boxes[d] == [] { BlockLeaves(k.sched, d, None, InReceive, i); }
  }

  lemma CallRoundLeaves(k: Kernel, to: nat, i: nat)
    requires Me(k).Some? && CallRound(k, Me(k).value, to).Some? && Parked(k.sched, i) && i != k.sched.current
    ensures var s' := CallRound(k, Me(k).value, to).value.sched; i < |s'.tasks| && s'.tasks[i] == k.sched.tasks[i]
  {
    var d := Me(k).value.domain;
    if BoxStep(k.boxes, TakeFrom(d, to)).1.None? && LiveTasks(k.sched.tasks, to) != 0 {
      BlockLeaves(k.sched, d, Some(CALL_POLL_MS), InCall(to), i);
    }
  }

  lemma ParkLeaves(k: Kernel, ev: Event, i: nat)
    requires Sized(k.irq) && Enabled(k, ev) && Step(k, ev).Some? && (ev.SysYield? || ev.SysSleep? || ev.SysExit?)
    requires Parked(k.sched, i) && i != k.sched.current
    ensures var s' := Step(k, ev).value.sched; i < |s'.tasks| && s'.tasks[i] == k.sched.tasks[i]
  {
    var s := k.sched;
    if ev.SysYield? { ScheduleLeaves(s, Ready, i); }
    else if ev.SysExit? { ScheduleLeaves(s, Terminated, i); }
    else {
      ScheduleLeaves(SetTask(s, s.current, Current(s).value.(sleepUntil := s.ticks + MsToTicks(ev.ms))), Sleeping, i);
    }
  }

  lemma DomainLeaves(k: Kernel, ev: Event, idle: nat, i: nat)
    requires KernelOk(k, idle) && Enabled(k, ev) && Step(k, ev).Some?
    requires ev.SysDestroy? || ev.SysSpawn? || ev.SysRestart?
    requires Parked(k.sched, i) && Spares(k, ev, i)
    requires Is(k.sched, i, Blocked) ==> !Wakes(k, ev, k.sched.tasks[i].value.waitOn)
    ensures var s' := Step(k, ev).value.sched; i < |s'.tasks| && s'.tasks[i] == k.sched.tasks[i]
  {
    assert IsLive(k.sched.tasks[i]);
    assert Step(k, ev).value.sched == DomainSched(k, ev) || Step(k, ev).value.sched == k.sched;
    if ev.SysDestroy? { if Destroys(k, ev.target) { DestroyLeaves(k, ev.target, i); } }
    else if ev.SysSpawn? { SpawnLeaves(k, Me(k).value.domain, ev.loads, i); }
    else { RestartLeaves(k, ev.target, ev.loads, i); }
  }

  lemma DestroyLeaves(k: Kernel, d: nat, i: nat)
    requires Sized(k.irq) && Parked(k.sched, i)
    ensures var s' := Destroy(k, d).sched;
            k.sched.tasks[i].value.domain != d && !WaitsOn(k.sched.tasks[i], d) ==>
              i < |s'.tasks| && s'.tasks[i] == k.sched.tasks[i]
  {
  }

  lemma SpawnLeaves(k: Kernel, loader: nat, loads: bool, i: nat)
    requires Sized(k.irq) && Parked(k.sched, i) && k.sched.tasks[i].value.domain != FirstDead(k.alive)
    ensures var s', id := SpawnDomain(k, loader, loads).sched, FirstDead(k.alive);
            (WaitsOn(k.sched.tasks[i], id) ==> loads && SpawnTask(k.sched, id).Some?) ==>
              i < |s'.tasks| && s'.tasks[i] == k.sched.tasks[i]
  {
  }

  lemma RestartLeaves(k: Kernel, d: nat, loads: bool, i: nat)
    requires Parked(k.sched, i)
    ensures var s' := Restart(k, d, loads).sched; i < |s'.tasks| && s'.tasks[i] == k.sched.tasks[i]
  {
  }

  lemma CallLeaves(k: Kernel, ev: Event, i: nat)
    requires Sized(k.irq) && Enabled(k, ev) && Step(k, ev).Some? && Parked(k.sched, i) && i != k.sched.current
    requires ev.SysSend? || ev.SysReply? || ev.SysFaultReply? || ev.SysReceive? || ev.SysTryReceive? || ev.SysCall?
      || ev.SysFault? || ev.SysIrqWait? || ev.SysIrqPoll? || ev.SysRegister? || ev.SysCapSend?
    requires Is(k.sched, i, Blocked) ==> !Wakes(k, ev, k.sched.tasks[i].value.waitOn)
    ensures var s' := Step(k, ev).value.sched; i < |s'.tasks| && s'.tasks[i] == k.sched.tasks[i]
  {
    if ev.SysSend? || ev.SysReply? || ev.SysFaultReply? { SendLeaves(k, ev, i); }
    else if ev.SysReceive? { ReceiveLeaves(k, i); }
    else if ev.SysCall? { CallStartLeaves(k, ev.to, ev.tag, ev.payload, i); }
    else if ev.SysFault? { FaultLeaves(k, ev.payload, i); }
    else if ev.SysIrqWait? { IrqWaitLeaves(k, ev.mask, ev.ms, i); }
  }

  lemma SendLeaves(k: Kernel, ev: Event, i: nat)
    requires Sized(k.irq) && Enabled(k, ev) && Step(k, ev).Some? && Parked(k.sched, i)
    requires ev.SysSend? || ev.SysReply? || ev.SysFaultReply?
    requires Is(k.sched, i, Blocked) ==> !Wakes(k, ev, k.sched.tasks[i].value.waitOn)
    ensures var s' := Step(k, ev).value.sched; i < |s'.tasks| && s'.tasks[i] == k.sched.tasks[i]
  {
    var key := if ev.SysSend? then ev.to else Me(k).value.replyTarget;
    if !WaitsOn(k.sched.tasks[i], key) { WakeLeaves(k.sched, key, i); }
  }

  lemma CallStartLeaves(k: Kernel, to: nat, tag: nat, payload: seq<Byte>, i: nat)
    requires Me(k).Some? && CallStart(k, Me(k).value, to, tag, payload).Some?
    requires Parked(k.sched, i) && i != k.sched.current
    requires Has(k, Me(k).value.domain, Capabilities.SendTo(to)) && LiveTasks(k.sched.tasks, to) > 0 ==>
      !WaitsOn(k.sched.tasks[i], to)
    ensures var s' := CallStart(k, Me(k).value, to, tag, payload).value.sched;
            i < |s'.tasks| && s'.tasks[i] == k.sched.tasks[i]
  {
    var t := Me(k).value;
    if Has(k, t.domain, Capabilities.SendTo(to)) && LiveTasks(k.sched.tasks, to) != 0 {
      WakeLeaves(k.sched, to, i);
      BlockLeaves(WakeOne(k.sched, to), t.domain, Some(CALL_POLL_MS), InCall(to), i);
    }
  }

  lemma FaultLeaves(k: Kernel, payload: seq<Byte>, i: nat)
    requires Me(k).Some? && Fault(k, Me(k).value, payload).Some? && Parked(k.sched, i) && i != k.sched.current
    requires var p := k.pagers[Me(k).value.domain].value; Room(k, p) ==> !WaitsOn(k.sched.tasks[i], p)
    ensures var s' := Fault(k, Me(k).value, payload).value.sched; i < |s'.tasks| && s'.tasks[i] == k.sched.tasks[i]
  {
    var t := Me(k).value;
    var p := k.pagers[t.domain].value;
    if Room(k, p) { WakeLeaves(k.sched, p, i); }
    BlockLeaves(if Room(k, p) then WakeOne(k.sched, p) else k.sched, t.domain, None, InFault, i);
  }

  lemma IrqWaitLeaves(k: Kernel, mask: set<nat>, ms: nat, i: nat)
    requires Sized(k.irq) && Me(k).Some? && IrqWait(k, Me(k).value, mask, ms).Some?
    requires Parked(k.sched, i) && i != k.sched.current
    ensures var s' := IrqWait(k, Me(k).value, mask, ms).value.sched; i < |s'.tasks| && s'.tasks[i] == k.sched.tasks[i]
  {
    var t := Me(k).value;
    if mask != {} && MaskOk(k, t.domain, mask) && TakePending(k.irq, mask, t.domain).1.None?
      && t.domain < ANY_MAX_DOMAINS
    {
      BlockLeaves(k.sched, IrqToken(t.domain), Some(ms), InIrqWait(mask), i);
    }
  }

  // ---- the clock ----

  lemma {:induction false} ReclaimClock(k: Kernel)
    requires Sized(k.irq)
    ensures Reclaim(k).sched.ticks == k.sched.ticks
    decreases |k.dying|
  {
    if k.dying != [] {
      var n := |k.dying| - 1;
      ReclaimClock(Destroy(k.(dying := k.dying[..n]), k.dying[n]));
    }
  }

  lemma {:induction false} WakeHitsClock(s: Sched, masks: seq<set<nat>>, bit: nat, d: nat)
    requires d <= |masks| <= ANY_MAX_DOMAINS
    ensures WakeHits(s, masks, bit, d).ticks == s.ticks
    decreases |masks| - d
  {
    if d < |masks| { WakeHitsClock(if bit in masks[d] then WakeOne(s, IrqToken(d)) else s, masks, bit, d + 1); }
  }

  /** The clock counts the ticks and nothing else. */
  lemma ClockExact(k: Kernel, ev: Event)
    requires Sized(k.irq) && Enabled(k, ev) && Step(k, ev).Some?
    ensures Step(k, ev).value.sched.ticks == k.sched.ticks + if ev.EvTick? then 1 else 0
  {
    if ev.EvTick? { ReclaimClock(k); }
    else if ev.EvMsi? {
      if InMsiRange(ev.vector) { WakeHitsClock(k.sched, k.irq.anyMask, ev.vector - MSI_VECTOR_BASE, 0); }
    }
    else if ev.SysDestroy? || ev.SysSpawn? || ev.SysRestart? { DomainClock(k, ev); }
    else { TaskClock(k, ev); }
  }

  lemma DomainClock(k: Kernel, ev: Event)
    requires Sized(k.irq) && Enabled(k, ev) && Step(k, ev).Some? && (ev.SysDestroy? || ev.SysSpawn? || ev.SysRestart?)
    ensures Step(k, ev).value.sched.ticks == k.sched.ticks
  {
    assert DomainSched(k, ev).ticks == k.sched.ticks;
    assert Step(k, ev).value.sched == DomainSched(k, ev) || Step(k, ev).value.sched == k.sched;
  }

  lemma TaskClock(k: Kernel, ev: Event)
    requires Sized(k.irq) && Enabled(k, ev) && Step(k, ev).Some?
    requires !ev.EvTick? && !ev.EvMsi? && !ev.SysDestroy? && !ev.SysSpawn? && !ev.SysRestart?
    ensures Step(k, ev).value.sched.ticks == k.sched.ticks
  {
    if ev.EvResume? {
      ResumeClock(k);
    } else if ev.SysCall? {
      assert CallStart(k, Me(k).value, ev.to, ev.tag, ev.payload).value.sched.ticks == k.sched.ticks;
    } else if ev.SysFault? {
      assert Fault(k, Me(k).value, ev.payload).value.sched.ticks == k.sched.ticks;
    }
  }

  lemma ResumeClock(k: Kernel)
    requires Sized(k.irq) && Me(k).Some? && Resumed(k, Me(k).value).Some?
    ensures Resumed(k, Me(k).value).value.sched.ticks == k.sched.ticks
  {
  }

  lemma {:induction false} RunClock(k: Kernel, evs: seq<Event>)
    requires After(k, evs, |evs|).Some?
    ensures After(k, evs, |evs|).value.sched.ticks == k.sched.ticks + Ticks(evs)
    decreases |evs|
  {
    if evs != [] {
      var k1 := FirstStep(k, evs, |evs|);
      ClockExact(k, evs[0]);
      RunClock(k1, evs[1..]);
    }
  }

  // ---- every run ----

  /** Before event j of the run, Q holds of the state and the event. */
  ghost predicate HoldsAt(Q: (Kernel, Event) -> bool, k: Kernel, evs: seq<Event>, j: nat) {
    j < |evs| && After(k, evs, j).Some? && Q(After(k, evs, j).value, evs[j])
  }

  ghost predicate Happens(Q: (Kernel, Event) -> bool, k: Kernel, evs: seq<Event>, n: nat) {
    exists j :: 0 <= j < n && HoldsAt(Q, k, evs, j)
  }

  ghost predicate Never(Q: (Kernel, Event) -> bool, k: Kernel, evs: seq<Event>, n: nat)
    requires n <= |evs| && After(k, evs, n).Some?
    decreases n
  {
    n > 0 ==> !Q(k, evs[0]) && Never(Q, Step(k, evs[0]).value, evs[1..], n - 1)
  }

  lemma {:induction false} NeverOrHappens(Q: (Kernel, Event) -> bool, k: Kernel, evs: seq<Event>, n: nat)
    requires n <= |evs| && After(k, evs, n).Some? && !Happens(Q, k, evs, n)
    ensures Never(Q, k, evs, n)
    decreases n
  {
    if n > 0 {
      var k1 := FirstStep(k, evs, n);
      var rest, m := evs[1..], n - 1;
      HappensFirst(Q, k, evs, n);
      HappensLater(Q, k, k1, evs, n, rest, m);
      NeverOrHappens(Q, k1, rest, m);
    }
  }

  /** What every good step without Q keeps holds after every good run in which Q does not happen. */
  lemma {:induction false} RunKeepsUnless(
    P: Kernel -> bool, Q: (Kernel, Event) -> bool, k: Kernel, evs: seq<Event>, idle: nat, n: nat)
    requires P(k) && GoodRun(k, evs, idle) && n <= |evs| && After(k, evs, n).Some? && Never(Q, k, evs, n)
    requires forall x, ev {:trigger GoodStep(x, ev, idle)} ::
      P(x) && GoodStep(x, ev, idle) && !Q(x, ev) ==> P(Step(x, ev).value)
    ensures P(After(k, evs, n).value)
    decreases n
  {
    if n > 0 {
      var k1 := FirstGood(k, evs, idle, n);
      RunKeepsUnless(P, Q, k1, evs[1..], idle, n - 1);
    }
  }

  lemma FirstGood(k: Kernel, evs: seq<Event>, idle: nat, n: nat) returns (k1: Kernel)
    requires 0 < n <= |evs| && GoodRun(k, evs, idle) && After(k, evs, n).Some?
    ensures GoodStep(k, evs[0], idle) && Step(k, evs[0]) == Some(k1) && GoodRun(k1, evs[1..], idle)
    ensures After(k, evs, n) == After(k1, evs[1..], n - 1)
  {
    k1 := FirstStep(k, evs, n);
  }

  lemma HappensFirst(Q: (Kernel, Event) -> bool, k: Kernel, evs: seq<Event>, n: nat)
    requires 0 < n <= |evs|
    ensures Q(k, evs[0]) ==> Happens(Q, k, evs, n)
  {
    assert After(k, evs, 0) == Some(k);
    assert Q(k, evs[0]) ==> HoldsAt(Q, k, evs, 0);
  }

  lemma HappensLater(
    Q: (Kernel, Event) -> bool, k: Kernel, k1: Kernel, evs: seq<Event>, n: nat, rest: seq<Event>, m: nat)
    requires 0 < n <= |evs| && Sized(k.irq) && Enabled(k, evs[0]) && Step(k, evs[0]) == Some(k1)
    requires rest == evs[1..] && m == n - 1
    ensures Happens(Q, k1, rest, m) ==> Happens(Q, k, evs, n)
  {
    if j :| 0 <= j < m && HoldsAt(Q, k1, rest, j) {
      assert After(k, evs, j + 1) == After(k1, rest, j);
      assert HoldsAt(Q, k, evs, j + 1);
    }
  }

  /** The event destroys i's domain. */
  predicate Destroying(k: Kernel, ev: Event, i: nat) { !Spares(k, ev, i) }

  /** The event finds task i as t, and destroys its domain or wakes the key it is blocked on. */
  ghost predicate Disturbs(k: Kernel, ev: Event, i: nat, t: Task) {
    && Sized(k.irq) && Enabled(k, ev) && i < |k.sched.tasks| && k.sched.tasks[i] == Some(t)
    && (Destroying(k, ev, i) || (t.state == Blocked && Wakes(k, ev, t.waitOn)))
  }

  /** In the first n steps an event destroys i's domain. */
  ghost predicate DestroyedIn(k: Kernel, evs: seq<Event>, n: nat, i: nat) {
    Happens((x, ev) => Destroying(x, ev, i), k, evs, n)
  }

  ghost predicate DisturbedIn(k: Kernel, evs: seq<Event>, n: nat, i: nat, t: Task) {
    Happens((x, ev) => Disturbs(x, ev, i, t), k, evs, n)
  }

  /** Task i is t, or t's time has come. */
  ghost predicate StillOrDue(k: Kernel, i: nat, t: Task, idle: nat) {
    KernelOk(k, idle) && (Due(t, k.sched.ticks) || (i < |k.sched.tasks| && k.sched.tasks[i] == Some(t)))
  }

  lemma StillOrDueStep(k: Kernel, ev: Event, idle: nat, i: nat, t: Task)
    requires StillOrDue(k, i, t, idle) && GoodStep(k, ev, idle) && !Disturbs(k, ev, i, t)
    requires t.state == Sleeping || t.state == Blocked
    ensures StillOrDue(Step(k, ev).value, i, t, idle)
  {
    StepOk(k, ev, idle);
    ClockExact(k, ev);
    if !Due(t, Step(k, ev).value.sched.ticks) { StaysParked(k, ev, idle, i); }
  }

  /** As long as the clock has not reached its time, a sleeping or blocked task is as it was, unless an event woke
      its key or destroyed its domain. A sleeping task has no key: nothing wakes it early. */
  lemma NotEarly(k: Kernel, evs: seq<Event>, idle: nat, n: nat, i: nat)
    requires KernelOk(k, idle) && GoodRun(k, evs, idle) && n <= |evs| && After(k, evs, n).Some? && Parked(k.sched, i)
    requires !Due(k.sched.tasks[i].value, After(k, evs, n).value.sched.ticks)
    ensures var s', t := After(k, evs, n).value.sched, k.sched.tasks[i].value;
            (i < |s'.tasks| && s'.tasks[i] == Some(t)) || DisturbedIn(k, evs, n, i, t)
  {
    var t := k.sched.tasks[i].value;
    var Q := (x, ev) => Disturbs(x, ev, i, t);
    forall x, ev | StillOrDue(x, i, t, idle) && GoodStep(x, ev, idle) && !Q(x, ev)
      ensures StillOrDue(Step(x, ev).value, i, t, idle)
    {
      StillOrDueStep(x, ev, idle, i, t);
    }
    if !DisturbedIn(k, evs, n, i, t) {
      NeverOrHappens(Q, k, evs, n);
      RunKeepsUnless(x => StillOrDue(x, i, t, idle), Q, k, evs, idle, n);
    }
  }

  // ---- a pending task runs in time ----

  /** Task i is on its way and will run by `tick`. */
  ghost predicate OnTime(k: Kernel, i: nat, tick: nat, idle: nat) {
    && KernelOk(k, idle) && R.Pending(k.sched, i) && i != k.sched.current
    && k.sched.ticks + R.Bound(k.sched, i) <= tick
  }

  /** The event makes task i run, and the clock is not past `tick` then. */
  ghost predicate Starts(k: Kernel, ev: Event, i: nat, tick: nat) {
    && Sized(k.irq) && Enabled(k, ev) && Step(k, ev).Some? && k.sched.current != i
    && Step(k, ev).value.sched.current == i && Step(k, ev).value.sched.ticks <= tick
  }

  /** In the run an event makes task i run by `tick`, or its domain is destroyed. */
  ghost predicate StartsOrEnds(k: Kernel, evs: seq<Event>, i: nat, tick: nat) {
    Happens((x, ev) => Destroying(x, ev, i) || Starts(x, ev, i, tick), k, evs, |evs|)
  }

  lemma OnTimeStep(k: Kernel, ev: Event, idle: nat, i: nat, tick: nat)
    requires OnTime(k, i, tick, idle) && GoodStep(k, ev, idle) && !Destroying(k, ev, i) && !Starts(k, ev, i, tick)
    ensures OnTime(Step(k, ev).value, i, tick, idle)
  {
    var k' := Step(k, ev).value;
    StepOk(k, ev, idle);
    assert NoLater(k.sched, k'.sched, i) && (ev.EvTick? && k'.sched.current != i ==>
             R.Bound(k'.sched, i) < R.Bound(k.sched, i)) by { StepNoLater(k, ev, idle, i); }
    ClockExact(k, ev);
    assert R.Bound(k.sched, i) >= 1;
  }

  /** In a run longer than its bound, a pending task starts by then, unless its domain is destroyed. */
  lemma RunsInTime(k: Kernel, evs: seq<Event>, idle: nat, i: nat, tick: nat)
    requires OnTime(k, i, tick, idle) && GoodRun(k, evs, idle) && After(k, evs, |evs|).Some?
    requires k.sched.ticks + Ticks(evs) > tick
    ensures StartsOrEnds(k, evs, i, tick)
  {
    var Q := (x, ev) => Destroying(x, ev, i) || Starts(x, ev, i, tick);
    forall x, ev | OnTime(x, i, tick, idle) && GoodStep(x, ev, idle) && !Q(x, ev)
      ensures OnTime(Step(x, ev).value, i, tick, idle)
    {
      OnTimeStep(x, ev, idle, i, tick);
    }
    if !StartsOrEnds(k, evs, i, tick) {
      NeverOrHappens(Q, k, evs, |evs|);
      RunKeepsUnless(x => OnTime(x, i, tick, idle), Q, k, evs, idle, |evs|);
      RunClock(k, evs);
      assert false;
    }
  }

  // ---- SYS_SLEEP ----

  /** SYS_SLEEP parks the caller until the tick that covers its milliseconds. */
  lemma SleepParks(k: Kernel, ms: nat, idle: nat)
    requires KernelOk(k, idle) && GoodStep(k, SysSleep(ms), idle)
    ensures var i, k', until := k.sched.current, Step(k, SysSleep(ms)).value, k.sched.ticks + MsToTicks(ms);
            && k' == k.(sched := k'.sched) && |k'.sched.tasks| == |k.sched.tasks| && KernelOk(k', idle)
            && k'.sched.tasks[i] == Some(Me(k).value.(state := Sleeping, sleepUntil := until))
            && k'.sched.ticks == k.sched.ticks && OnTime(k', i, until + |k.sched.tasks| - 1, idle)
  {
    var s, k' := k.sched, Step(k, SysSleep(ms)).value;
    var s1 := SetTask(s, s.current, Me(k).value.(sleepUntil := s.ticks + MsToTicks(ms)));
    ReadyFromReady(SetState(s1, s.current, Sleeping), s.current, 1);
    StepOk(k, SysSleep(ms), idle);
  }

  lemma SleeperRests(k: Kernel, evs: seq<Event>, idle: nat, n: nat, i: nat)
    requires KernelOk(k, idle) && GoodRun(k, evs, idle) && n <= |evs| && After(k, evs, n).Some?
    requires Is(k.sched, i, Sleeping) && After(k, evs, n).value.sched.ticks < k.sched.tasks[i].value.sleepUntil
    ensures var s' := After(k, evs, n).value.sched;
            (Is(s', i, Sleeping) && s'.current != i) || DestroyedIn(k, evs, n, i)
  {
    var t := k.sched.tasks[i].value;
    NotEarly(k, evs, idle, n, i);
    RunOk(k, evs, idle, n);
    if DisturbedIn(k, evs, n, i, t) {
      var j :| 0 <= j < n && HoldsAt((x, ev) => Disturbs(x, ev, i, t), k, evs, j);
      assert HoldsAt((x, ev) => Destroying(x, ev, i), k, evs, j);
    }
  }

  /** A sleeper does not run before its milliseconds are over: in every state after SYS_SLEEP in which fewer ticks
      have passed it still sleeps, unless its domain was destroyed. */
  lemma SleepsLongEnough(k: Kernel, ms: nat, k1: Kernel, evs: seq<Event>, idle: nat, n: nat)
    requires KernelOk(k, idle) && GoodStep(k, SysSleep(ms), idle) && Step(k, SysSleep(ms)) == Some(k1)
    requires GoodRun(k1, evs, idle) && n <= |evs| && After(k1, evs, n).Some?
    requires After(k1, evs, n).value.sched.ticks < k.sched.ticks + MsToTicks(ms)
    ensures var s', i := After(k1, evs, n).value.sched, k.sched.current;
            (Is(s', i, Sleeping) && s'.current != i) || DestroyedIn(k1, evs, n, i)
  {
    var i, until := k.sched.current, k.sched.ticks + MsToTicks(ms);
    assert KernelOk(k1, idle) && Is(k1.sched, i, Sleeping) && k1.sched.tasks[i].value.sleepUntil == until by {
      SleepParks(k, ms, idle);
    }
    SleeperRests(k1, evs, idle, n, i);
  }

  /** It starts to run by the tick that its time and one round of the others allow, unless its domain is
      destroyed. */
  lemma SleeperWakes(k: Kernel, ms: nat, k1: Kernel, evs: seq<Event>, idle: nat, i: nat, last: nat)
    requires KernelOk(k, idle) && GoodStep(k, SysSleep(ms), idle) && Step(k, SysSleep(ms)) == Some(k1)
    requires GoodRun(k1, evs, idle) && After(k1, evs, |evs|).Some?
    requires i == k.sched.current && last == k.sched.ticks + MsToTicks(ms) + |k.sched.tasks| - 1
    requires k.sched.ticks + Ticks(evs) > last
    ensures StartsOrEnds(k1, evs, i, last)
  {
    assert OnTime(k1, i, last, idle) && k1.sched.ticks == k.sched.ticks by { SleepParks(k, ms, idle); }
    RunsInTime(k1, evs, idle, i, last);
  }
}
