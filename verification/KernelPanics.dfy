/** No run of the kernel panics: every mailbox, pager and ready task the kernel looks for is there. */
module KernelPanics {
  import opened Wrappers
  import opened Slots
  import opened Scheduling
  import opened Mailboxes
  import opened Interrupts
  import opened KernelSteps
  import opened KernelSafety
  import opened KernelInvariant
  import opened KernelRuns

  /** Whoever is remembered as a reply target has a mailbox. */
  ghost predicate Replies(tasks: seq<Option<Task>>, n: nat) {
    forall i :: 0 <= i < |tasks| && tasks[i].Some? ==>
      tasks[i].value.replyTarget == U64_MAX || tasks[i].value.replyTarget < n
  }

  /** Whoever sent a queued message has a mailbox. */
  ghost predicate Senders(boxes: Boxes, n: nat) {
    forall d, j :: 0 <= d < |boxes| && 0 <= j < |boxes[d]| ==> boxes[d][j].from < n
  }

  /** A live domain has a pager. */
  ghost predicate Paged(alive: seq<bool>, pagers: seq<Option<nat>>) {
    forall d :: 0 <= d < |alive| && alive[d] ==> d < |pagers| && pagers[d].Some?
  }

  /** Every domain named in a row is one of the first n. */
  ghost predicate Named(row: seq<Option<nat>>, n: nat) {
    forall d :: 0 <= d < |row| && row[d].Some? ==> row[d].value < n
  }

  ghost predicate Sends(caps: Table<Capabilities.Capability>, n: nat) {
    forall d: nat, c: nat :: Capabilities.Holds(caps, d, Capabilities.SendTo(c)) ==> c < n
  }

  /** What the per-domain rows name exists, when n mailboxes do. */
  ghost predicate RowsOk(k: Kernel, n: nat)
    requires Sized(k.irq)
  {
    |k.alive| <= n && Paged(k.alive, k.pagers) && Named(k.pagers, n) && Named(k.irq.handlers, n) && Sends(k.caps, n)
  }

  ghost predicate Provided(k: Kernel) {
    && Sized(k.irq) && |k.boxes| >= BOOT_DOMAINS
    && RowsOk(k, |k.boxes|) && Replies(k.sched.tasks, |k.boxes|) && Senders(k.boxes, |k.boxes|)
  }

  // ---- no step panics ----

  lemma OpRuns(k: Kernel, op: R.SchedOp, idle: nat)
    requires KernelOk(k, idle) && R.Allowed(k.sched, op, idle)
    ensures R.Step(k.sched, op).Some?
  {
    R.StepOk(k.sched, op, idle);
  }

  lemma BlockRuns(k: Kernel, key: nat, ms: Option<nat>, resume: Resume, idle: nat)
    requires KernelOk(k, idle) && k.sched.current != idle
    ensures Block(k.sched, key, ms, resume).Some?
  {
    OpRuns(k, R.OpBlock(key, ms, resume), idle);
  }

  /** The lookups a step makes that fail: a mailbox that was never made, or a domain without pager. */
  predicate Panics(k: Kernel, ev: Event)
    requires Sized(k.irq) && Enabled(k, ev)
  {
    var t, n := Me(k).value, |k.boxes|;
    match ev
    case EvPic(irq, _) => k.irq.handlers[irq].Some? && k.irq.handlers[irq].value >= n
    case EvResume => (t.resume.InReceive? || t.resume.InCall?) && t.domain >= n
    case SysSend(to, _, _) => Has(k, t.domain, Capabilities.SendTo(to)) && to >= n
    case SysReceive => t.domain >= n
    case SysTryReceive => t.domain >= n
    case SysCall(to, _, _) => Has(k, t.domain, Capabilities.SendTo(to)) && LiveTasks(k.sched.tasks, to) != 0 && to >= n
    case SysReply(_, _) => t.replyTarget != U64_MAX && t.replyTarget >= n
    case SysFault(_) => t.domain >= |k.pagers| || k.pagers[t.domain].None? || k.pagers[t.domain].value >= n
    case _ => false
  }

  /** A step panics exactly when one of its lookups fails: the search for a task to run never does. */
  lemma PanicExact(k: Kernel, ev: Event, idle: nat)
    requires KernelOk(k, idle) && Enabled(k, ev) && Polite(k, ev, idle)
    ensures Step(k, ev).None? <==> Panics(k, ev)
  {
    if ev.EvTick? || ev.SysYield? || ev.SysSleep? || ev.SysExit? { ParkRuns(k, ev, idle); }
    else if ev.EvResume? || ev.SysReceive? || ev.SysIrqWait? { WaitRuns(k, ev, idle); }
    else if ev.SysCall? { CallRuns(k, ev.to, ev.tag, ev.payload, idle); }
    else if ev.SysFault? { FaultRuns(k, ev.payload, idle); }
  }

  lemma ParkRuns(k: Kernel, ev: Event, idle: nat)
    requires KernelOk(k, idle) && Enabled(k, ev) && Polite(k, ev, idle)
    requires (ev.EvTick? || ev.SysYield? || ev.SysSleep? || ev.SysExit?)
    ensures Step(k, ev).Some?
  {
    if ev.EvTick? {
      ReclaimOk(k, idle);
      OpRuns(Reclaim(k), R.OpTick, idle);
    } else {
      OpRuns(k, if ev.SysYield? then R.OpYield else if ev.SysExit? then R.OpExit else R.OpSleep(ev.ms), idle);
    }
  }

  lemma WaitRuns(k: Kernel, ev: Event, idle: nat)
    requires KernelOk(k, idle) && Enabled(k, ev) && k.sched.current != idle
    requires (ev.EvResume? || ev.SysReceive? || ev.SysIrqWait?)
    ensures Step(k, ev).None? <==> Panics(k, ev)
  {
    var t := Me(k).value;
    if ev.SysIrqWait? {
      if t.domain < ANY_MAX_DOMAINS { BlockRuns(k, IrqToken(t.domain), Some(ev.ms), InIrqWait(ev.mask), idle); }
    } else {
      BlockRuns(k, t.domain, None, InReceive, idle);
      if t.resume.InCall? { BlockRuns(k, t.domain, Some(CALL_POLL_MS), InCall(t.resume.to), idle); }
    }
  }

  lemma DeliveredRuns(k: Kernel, msg: Message, key: nat, ms: Option<nat>, resume: Resume, idle: nat)
    requires KernelOk(k, idle) && k.sched.current != idle && Deliver(k, msg).Some?
    ensures Block(Deliver(k, msg).value.sched, key, ms, resume).Some? && Block(k.sched, key, ms, resume).Some?
  {
    DeliverOk(k, msg, idle);
    DeliverKeepsMe(k, msg);
    BlockRuns(k, key, ms, resume, idle);
    BlockRuns(Deliver(k, msg).value, key, ms, resume, idle);
  }

  lemma CallRuns(k: Kernel, to: nat, tag: nat, payload: seq<Byte>, idle: nat)
    requires KernelOk(k, idle) && Enabled(k, SysCall(to, tag, payload)) && k.sched.current != idle
    ensures Step(k, SysCall(to, tag, payload)).None? <==> Panics(k, SysCall(to, tag, payload))
  {
    var t := Me(k).value;
    var msg := Message(t.domain, to, tag, Fixed(payload));
    if to < |k.boxes| { DeliveredRuns(k, msg, t.domain, Some(CALL_POLL_MS), InCall(to), idle); }
  }

  lemma FaultRuns(k: Kernel, payload: seq<Byte>, idle: nat)
    requires KernelOk(k, idle) && Enabled(k, SysFault(payload)) && k.sched.current != idle
    ensures Step(k, SysFault(payload)).None? <==> Panics(k, SysFault(payload))
  {
    var t := Me(k).value;
    if t.domain < |k.pagers| && k.pagers[t.domain].Some? && k.pagers[t.domain].value < |k.boxes| {
      DeliveredRuns(k, Message(t.domain, k.pagers[t.domain].value, FAULT_TAG, Fixed(payload)), t.domain, None, InFault,
        idle);
    }
  }

  /** The running task's domain has a mailbox and a pager. */
  lemma MyRows(k: Kernel, idle: nat)
    requires KernelOk(k, idle) && Provided(k)
    ensures var d := Me(k).value.domain;
            Me(k).Some? && d < |k.boxes| && d < |k.pagers| && k.pagers[d].Some? && k.pagers[d].value < |k.boxes|
  {
    assert IsLive(k.sched.tasks[k.sched.current]);
  }

  lemma ProvidedRuns(k: Kernel, ev: Event, idle: nat)
    requires KernelOk(k, idle) && Provided(k) && Enabled(k, ev)
    ensures !Panics(k, ev)
  {
    MyRows(k, idle);
  }

  // ---- mailboxes ----

  ghost predicate SentBy(ops: seq<BoxOp>, n: nat) {
    forall i :: 0 <= i < |ops| && ops[i].Push? ==> ops[i].msg.from < n
  }

  lemma BoxStepSenders(boxes: Boxes, op: BoxOp, n: nat)
    requires Senders(boxes, n) && (op.Push? ==> op.msg.from < n)
    ensures var r := BoxStep(boxes, op); Senders(r.0, n) && |r.0| >= |boxes| && (r.1.Some? ==> r.1.value.from < n)
  {
  }

  lemma {:induction false} BoxRunSenders(boxes: Boxes, ops: seq<BoxOp>, n: nat)
    requires Senders(boxes, n) && SentBy(ops, n)
    ensures Senders(BoxRun(boxes, ops), n) && |BoxRun(boxes, ops)| >= |boxes|
    decreases |ops|
  {
    if ops != [] {
      BoxStepSenders(boxes, ops[0], n);
      BoxRunSenders(BoxStep(boxes, ops[0]).0, ops[1..], n);
    }
  }

  lemma {:induction false} ReclaimSent(k: Kernel, n: nat)
    requires Sized(k.irq)
    ensures SentBy(ReclaimOps(k), n)
    decreases |k.dying|
  {
    if k.dying != [] {
      var last := |k.dying| - 1;
      ReclaimSent(Destroy(k.(dying := k.dying[..last]), k.dying[last]), n);
    }
  }

  lemma BoxesKept(k: Kernel, ev: Event, idle: nat)
    requires KernelOk(k, idle) && Provided(k) && Enabled(k, ev) && Step(k, ev).Some?
    ensures var boxes := Step(k, ev).value.boxes; |boxes| >= |k.boxes| && Senders(boxes, |k.boxes|)
  {
    MyRows(k, idle);
    if ev.EvTick? { ReclaimSent(k, |k.boxes|); }
    StepBoxes(k, ev);
    BoxRunSenders(k.boxes, BoxOps(k, ev), |k.boxes|);
  }

  // ---- reply targets ----

  lemma ScheduleReplies(s: Sched, st: State, n: nat)
    requires Replies(s.tasks, n) && ScheduleNext(s, st).Some?
    ensures Replies(ScheduleNext(s, st).value.tasks, n)
  {
  }

  lemma WakeReplies(s: Sched, key: nat, n: nat)
    requires Replies(s.tasks, n)
    ensures Replies(WakeOne(s, key).tasks, n)
  {
  }

  lemma BlockReplies(s: Sched, key: nat, ms: Option<nat>, resume: Resume, n: nat)
    requires Replies(s.tasks, n) && Block(s, key, ms, resume).Some?
    ensures Replies(Block(s, key, ms, resume).value.tasks, n)
  {
    var deadline := match ms case None => 0 case Some(m) => s.ticks + MsToTicks(m);
    ScheduleReplies(SetTask(s, s.current, Current(s).value.(waitOn := key, wakeDeadline := deadline, resume := resume)),
      Blocked, n);
  }

  lemma {:induction false} WakeHitsReplies(s: Sched, masks: seq<set<nat>>, bit: nat, d: nat, n: nat)
    requires d <= |masks| <= ANY_MAX_DOMAINS && Replies(s.tasks, n)
    ensures Replies(WakeHits(s, masks, bit, d).tasks, n)
    decreases |masks| - d
  {
    if d < |masks| {
      WakeReplies(s, IrqToken(d), n);
      WakeHitsReplies(if bit in masks[d] then WakeOne(s, IrqToken(d)) else s, masks, bit, d + 1, n);
    }
  }

  lemma RemoveReplies(s: Sched, d: nat, n: nat)
    requires Replies(s.tasks, n)
    ensures Replies(Scheduling.RemoveDomain(s, d).tasks, n) && Replies(Reap(s, d).tasks, n)
  {
  }

  lemma SpawnReplies(s: Sched, d: nat, n: nat)
    requires Replies(s.tasks, n) && SpawnTask(s, d).Some?
    ensures Replies(SpawnTask(s, d).value.tasks, n)
  {
  }

  lemma {:induction false} ReclaimReplies(k: Kernel, n: nat)
    requires Sized(k.irq) && Replies(k.sched.tasks, n)
    ensures Replies(Reclaim(k).sched.tasks, n)
    decreases |k.dying|
  {
    if k.dying != [] {
      var last := |k.dying| - 1;
      RemoveReplies(k.sched, k.dying[last], n);
      ReclaimReplies(Destroy(k.(dying := k.dying[..last]), k.dying[last]), n);
    }
  }

  lemma TickReplies(s: Sched, n: nat)
    requires Replies(s.tasks, n) && Tick(s).Some?
    ensures Replies(Tick(s).value.tasks, n)
  {
    ScheduleReplies(WakeExpired(s.(ticks := s.ticks + 1)), Ready, n);
  }

  /** The sender of a message that was queued becomes the reply target. */
  lemma ReceiveReplies(k: Kernel, n: nat)
    requires Me(k).Some? && Replies(k.sched.tasks, n) && Senders(k.boxes, n) && ReceiveRound(k, Me(k).value).Some?
    ensures Replies(ReceiveRound(k, Me(k).value).value.sched.tasks, n)
  {
    var t := Me(k).value;
    BoxStepSenders(k.boxes, Pop(t.domain), n);
    if k.boxes[t.domain] == [] { BlockReplies(k.sched, t.domain, None, InReceive, n); }
  }

  lemma CallRoundReplies(k: Kernel, to: nat, n: nat)
    requires Me(k).Some? && Replies(k.sched.tasks, n) && CallRound(k, Me(k).value, to).Some?
    ensures Replies(CallRound(k, Me(k).value, to).value.sched.tasks, n)
  {
    var t := Me(k).value;
    if BoxStep(k.boxes, TakeFrom(t.domain, to)).1.None? && LiveTasks(k.sched.tasks, to) != 0 {
      BlockReplies(k.sched, t.domain, Some(CALL_POLL_MS), InCall(to), n);
    }
  }

  lemma IrqWaitReplies(k: Kernel, mask: set<nat>, ms: nat, n: nat)
    requires Sized(k.irq) && Me(k).Some? && Replies(k.sched.tasks, n) && IrqWait(k, Me(k).value, mask, ms).Some?
    ensures Replies(IrqWait(k, Me(k).value, mask, ms).value.sched.tasks, n)
  {
    var t := Me(k).value;
    if mask != {} && MaskOk(k, t.domain, mask) && TakePending(k.irq, mask, t.domain).1.None?
      && t.domain < ANY_MAX_DOMAINS
    {
      BlockReplies(k.sched, IrqToken(t.domain), Some(ms), InIrqWait(mask), n);
    }
  }

  lemma CallStartReplies(k: Kernel, to: nat, tag: nat, payload: seq<Byte>, n: nat)
    requires Me(k).Some? && Replies(k.sched.tasks, n) && CallStart(k, Me(k).value, to, tag, payload).Some?
    ensures Replies(CallStart(k, Me(k).value, to, tag, payload).value.sched.tasks, n)
  {
    var t := Me(k).value;
    WakeReplies(k.sched, to, n);
    if Has(k, t.domain, Capabilities.SendTo(to)) && LiveTasks(k.sched.tasks, to) != 0 {
      BlockReplies(WakeOne(k.sched, to), t.domain, Some(CALL_POLL_MS), InCall(to), n);
    }
  }

  lemma FaultReplies(k: Kernel, payload: seq<Byte>, n: nat)
    requires Me(k).Some? && Replies(k.sched.tasks, n) && Fault(k, Me(k).value, payload).Some?
    ensures Replies(Fault(k, Me(k).value, payload).value.sched.tasks, n)
  {
    var t := Me(k).value;
    var msg := Message(t.domain, k.pagers[t.domain].value, FAULT_TAG, Fixed(payload));
    WakeReplies(k.sched, msg.to, n);
    BlockReplies(DeliverCapped(k, msg).value.sched, t.domain, None, InFault, n);
  }

  lemma DomainReplies(k: Kernel, ev: Event, n: nat)
    requires Sized(k.irq) && Enabled(k, ev) && Replies(k.sched.tasks, n)
    requires (ev.SysDestroy? || ev.SysSpawn? || ev.SysRestart?)
    ensures Replies(Step(k, ev).value.sched.tasks, n)
  {
    var d := Revived(k, ev);
    RemoveReplies(k.sched, if ev.SysDestroy? then ev.target else d, n);
    if ev.SysSpawn? && SpawnTask(k.sched, d).Some? { SpawnReplies(k.sched, d, n); }
    if ev.SysRestart? && SpawnTask(Reap(k.sched, d), d).Some? { SpawnReplies(Reap(k.sched, d), d, n); }
  }

  lemma IpcReplies(k: Kernel, ev: Event, n: nat)
    requires Sized(k.irq) && Enabled(k, ev) && Step(k, ev).Some? && Replies(k.sched.tasks, n) && Senders(k.boxes, n)
    requires ev.EvResume? || ev.SysReceive? || ev.SysTryReceive? || ev.SysCall? || ev.SysFault? || ev.SysIrqWait?
    ensures Replies(Step(k, ev).value.sched.tasks, n)
  {
    var t := Me(k).value;
    if ev.SysReceive? || (ev.EvResume? && t.resume.InReceive?) { ReceiveReplies(k, n); }
    else if ev.EvResume? && t.resume.InCall? { CallRoundReplies(k, t.resume.to, n); }
    else if ev.SysTryReceive? { BoxStepSenders(k.boxes, Pop(t.domain), n); }
    else if ev.SysCall? { CallStartReplies(k, ev.to, ev.tag, ev.payload, n); }
    else if ev.SysFault? { FaultReplies(k, ev.payload, n); }
    else if ev.SysIrqWait? { IrqWaitReplies(k, ev.mask, ev.ms, n); }
  }

  lemma RepliesKept(k: Kernel, ev: Event, n: nat)
    requires Sized(k.irq) && Enabled(k, ev) && Step(k, ev).Some? && Replies(k.sched.tasks, n) && Senders(k.boxes, n)
    ensures Replies(Step(k, ev).value.sched.tasks, n)
  {
    if ev.EvResume? || ev.SysReceive? || ev.SysTryReceive? || ev.SysCall? || ev.SysFault? || ev.SysIrqWait? {
      IpcReplies(k, ev, n);
    }
    else if ev.SysDestroy? || ev.SysSpawn? || ev.SysRestart? { DomainReplies(k, ev, n); }
    else if ev.EvTick? {
      ReclaimReplies(k, n);
      TickReplies(Reclaim(k).sched, n);
    } else if ev.EvMsi? {
      if InMsiRange(ev.vector) { WakeHitsReplies(k.sched, k.irq.anyMask, ev.vector - MSI_VECTOR_BASE, 0, n); }
    } else { ParkReplies(k, ev, n); }
  }

  /** Messages that do not wait, and tasks that give up the processor. */
  lemma ParkReplies(k: Kernel, ev: Event, n: nat)
    requires Sized(k.irq) && Enabled(k, ev) && Step(k, ev).Some? && Replies(k.sched.tasks, n)
    requires ev.EvPic? || ev.SysSend? || ev.SysReply? || ev.SysFaultReply? || ev.SysYield? || ev.SysSleep?
      || ev.SysExit?
             || ev.SysRegister? || ev.SysIrqPoll? || ev.SysCapSend?
    ensures Replies(Step(k, ev).value.sched.tasks, n)
  {
    var s, t := k.sched, Me(k).value;
    if ev.SysYield? { ScheduleReplies(s, Ready, n); }
    else if ev.SysExit? { ScheduleReplies(s, Terminated, n); }
    else if ev.SysSleep? {
      ScheduleReplies(SetTask(s, s.current, t.(sleepUntil := s.ticks + MsToTicks(ev.ms))), Sleeping, n);
    }
    else if ev.EvPic? { if k.irq.handlers[ev.irq].Some? { WakeReplies(s, k.irq.handlers[ev.irq].value, n); } }
    else { WakeReplies(s, if ev.SysSend? then ev.to else t.replyTarget, n); }
  }

  // ---- rows ----

  lemma RowsMore(k: Kernel, n: nat, m: nat)
    requires Sized(k.irq) && RowsOk(k, n) && n <= m
    ensures RowsOk(k, m)
  {
  }

  lemma ClearedSends(caps: Table<Capabilities.Capability>, d: nat, n: nat)
    requires Sends(caps, n)
    ensures Sends(SetRow(caps, d, EmptyRow(Capabilities.CAP_SLOTS)), n)
  {
    var r := SetRow(caps, d, EmptyRow(Capabilities.CAP_SLOTS));
    forall e: nat, c: nat | Capabilities.Holds(r, e, Capabilities.SendTo(c)) ensures c < n {
      assert Capabilities.Holds(caps, e, Capabilities.SendTo(c));
    }
  }

  lemma DestroyRows(k: Kernel, d: nat, n: nat)
    requires Sized(k.irq) && RowsOk(k, n)
    ensures RowsOk(Destroy(k, d), n)
  {
    ClearedSends(k.caps, d, n);
  }

  lemma {:induction false} ReclaimRows(k: Kernel, n: nat)
    requires Sized(k.irq) && RowsOk(k, n)
    ensures RowsOk(Reclaim(k), n)
    decreases |k.dying|
  {
    if k.dying != [] {
      var last := |k.dying| - 1;
      DestroyRows(k.(dying := k.dying[..last]), k.dying[last], n);
      ReclaimRows(Destroy(k.(dying := k.dying[..last]), k.dying[last]), n);
    }
  }

  lemma StartSends(caps: Table<Capabilities.Capability>, id: nat, n: nat)
    requires Sends(caps, n) && n >= BOOT_DOMAINS
    ensures Sends(Capabilities.Start(caps, id), n)
  {
    forall e: nat, c: nat | Capabilities.Holds(Capabilities.Start(caps, id), e, Capabilities.SendTo(c)) ensures c < n {
      Capabilities.StartHolds(caps, id, e, Capabilities.SendTo(c));
    }
  }

  lemma SpawnRows(k: Kernel, loader: nat, loads: bool, n: nat)
    requires Sized(k.irq) && RowsOk(k, n) && loader < n && n >= BOOT_DOMAINS && FirstDead(k.alive) < n
    ensures RowsOk(SpawnDomain(k, loader, loads), n)
  {
    var id := FirstDead(k.alive);
    var k1 := k.(alive := SetAt(k.alive, id, true, false), caps := Capabilities.Start(k.caps, id),
      pagers := SetAt(k.pagers, id, Some(loader), None));
    StartSends(k.caps, id, n);
    assert RowsOk(k1, n);
    var k2 := k1.(handles := SetRow(k.handles, id, EmptyRow(Handles.HANDLE_SLOTS)),
      boxes := BoxStep(k.boxes, ResetBox(id)).0);
    DestroyRows(k2, id, n);
  }

  lemma DelegatedSends(caps: Table<Capabilities.Capability>, op: Capabilities.CapOp, n: nat)
    requires Sends(caps, n) && !op.CapStart?
    ensures Sends(Capabilities.Step(caps, op), n)
  {
    forall d: nat, c: nat | Capabilities.Holds(Capabilities.Step(caps, op), d, Capabilities.SendTo(c)) ensures c < n {
      Capabilities.StepHolds(caps, op, d, Capabilities.SendTo(c));
    }
  }

  lemma RowsKept(k: Kernel, ev: Event, idle: nat)
    requires KernelOk(k, idle) && Provided(k) && Enabled(k, ev) && Step(k, ev).Some?
    ensures Sized(Step(k, ev).value.irq) && RowsOk(Step(k, ev).value, |Step(k, ev).value.boxes|)
  {
    var k', n := Step(k, ev).value, |k.boxes|;
    BoxesKept(k, ev, idle);
    MyRows(k, idle);
    RowsMore(k, n, |k'.boxes|);
    if ev.SysSpawn? {
      if Has(k, Me(k).value.domain, Capabilities.Spawn) { SpawnRows(k, Me(k).value.domain, ev.loads, |k'.boxes|); }
    } else if ev.EvTick? || ev.SysDestroy? || ev.SysCapSend? || ev.SysRegister? {
      OwnRows(k, ev, |k'.boxes|);
    } else {
      SameRows(k, ev);
    }
  }

  /** The other steps that change rows. */
  lemma OwnRows(k: Kernel, ev: Event, n: nat)
    requires Sized(k.irq) && Enabled(k, ev) && Step(k, ev).Some? && RowsOk(k, n) && Me(k).value.domain < n
    requires ev.EvTick? || ev.SysDestroy? || ev.SysCapSend? || ev.SysRegister?
    ensures Sized(Step(k, ev).value.irq) && RowsOk(Step(k, ev).value, n)
  {
    if ev.EvTick? { ReclaimRows(k, n); }
    else if ev.SysDestroy? { DestroyRows(k, ev.target, n); }
    else if ev.SysCapSend? { DelegatedSends(k.caps, Capabilities.CapSend(Me(k).value.domain, ev.to, ev.cap), n); }
  }

  /** Most steps change no row but mailboxes and interrupt flags. */
  ghost predicate SameTables(k: Kernel, k': Kernel) {
    && k'.alive == k.alive && k'.pagers == k.pagers && k'.caps == k.caps
    && (Sized(k.irq) ==> Sized(k'.irq)) && k'.irq.handlers == k.irq.handlers
  }

  lemma SameRows(k: Kernel, ev: Event)
    requires Sized(k.irq) && Enabled(k, ev) && Step(k, ev).Some?
    requires !ev.EvTick? && !ev.SysDestroy? && !ev.SysSpawn? && !ev.SysCapSend? && !ev.SysRegister?
    ensures SameTables(k, Step(k, ev).value)
  {
    if ev.EvResume? || ev.SysReceive? || ev.SysTryReceive? || ev.SysCall? || ev.SysFault? || ev.SysIrqWait? {
      WaitingSameRows(k, ev);
    }
  }

  lemma WaitingSameRows(k: Kernel, ev: Event)
    requires Sized(k.irq) && Enabled(k, ev) && Step(k, ev).Some?
    requires ev.EvResume? || ev.SysReceive? || ev.SysTryReceive? || ev.SysCall? || ev.SysFault? || ev.SysIrqWait?
    ensures SameTables(k, Step(k, ev).value)
  {
  }

  // ---- every run ----

  lemma ProvidedKept(k: Kernel, ev: Event, idle: nat)
    requires KernelOk(k, idle) && Provided(k) && Enabled(k, ev) && Step(k, ev).Some?
    ensures Provided(Step(k, ev).value)
  {
    BoxesKept(k, ev, idle);
    RowsKept(k, ev, idle);
    RepliesKept(k, ev, |k.boxes|);
  }

  /** From a state in which what the rows name exists, no polite run of the kernel ever panics. */
  lemma {:induction false} NoPanic(k: Kernel, evs: seq<Event>, idle: nat, n: nat)
    requires KernelOk(k, idle) && Provided(k) && GoodRun(k, evs, idle) && n <= |evs|
    ensures After(k, evs, n).Some?
    decreases n
  {
    if n > 0 {
      ProvidedRuns(k, evs[0], idle);
      PanicExact(k, evs[0], idle);
      StepOk(k, evs[0], idle);
      ProvidedKept(k, evs[0], idle);
      NoPanic(Step(k, evs[0]).value, evs[1..], idle, n - 1);
    }
  }
}
