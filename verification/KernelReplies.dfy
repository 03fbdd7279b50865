/** Whom a reply reaches: in every run of the kernel, the sender of the message the task consumed last. */
module KernelReplies {
  import opened Wrappers
  import opened Scheduling
  import opened Mailboxes
  import opened Interrupts
  import opened KernelSteps
  import opened KernelSafety
  import opened KernelInvariant
  import opened KernelTiming
  import opened KernelPanics
  import opened KernelSleep

  /** The message a receive or try_receive of the running task consumes in this step. */
  function Consumed(k: Kernel, ev: Event): (m: Option<Message>) {
    match Me(k)
    case None => None
    case Some(t) =>
      if (ev.SysReceive? || ev.SysTryReceive? || (ev.EvResume? && t.resume.InReceive?))
        && t.domain < |k.boxes| && k.boxes[t.domain] != []
      then Some(k.boxes[t.domain][0]) else None
  }

  /** It leaves the mailbox of the running task, and nothing else of the kernel changes but that task's notes. */
  lemma ConsumedExact(k: Kernel, ev: Event)
    requires Sized(k.irq) && Enabled(k, ev) && Consumed(k, ev).Some?
    ensures Step(k, ev).Some?
    ensures var k', t, m := Step(k, ev).value, Me(k).value, Consumed(k, ev).value;
            && k.boxes[t.domain] == [m] + k'.boxes[t.domain] && |k'.boxes| == |k.boxes|
            && (forall d :: 0 <= d < |k.boxes| && d != t.domain ==> k'.boxes[d] == k.boxes[d])
            && k' == k.(boxes := k'.boxes, sched := k'.sched) && k'.sched == k.sched.(tasks := k'.sched.tasks)
            && |k'.sched.tasks| == |k.sched.tasks|
            && (forall i :: 0 <= i < |k.sched.tasks| && i != k.sched.current ==> k'.sched.tasks[i] == k.sched.tasks[i])
            && Me(k') == Some(t.(replyTarget := m.from, resume := InUser))
  {
  }

  // ---- one step ----

  /** The event ends task i, or is a receive of task i that consumes a message. */
  predicate ReceivesOrEnds(k: Kernel, ev: Event, i: nat) {
    (k.sched.current == i && (Consumed(k, ev).Some? || ev.SysExit?)) || Destroying(k, ev, i)
  }

  /** The task stays alive, in its domain, and remembers the same reply target. */
  predicate Remembers(a: Option<Task>, b: Option<Task>) {
    IsLive(a) ==> IsLive(b) && b.value.domain == a.value.domain && b.value.replyTarget == a.value.replyTarget
  }

  predicate Kept(s: Sched, s': Sched, i: nat) {
    i < |s.tasks| && i < |s'.tasks| && Remembers(s.tasks[i], s'.tasks[i])
  }

  lemma ScheduleKept(s: Sched, st: State, i: nat)
    requires ScheduleNext(s, st).Some? && i < |s.tasks| && (i == s.current ==> st != Terminated)
    ensures Kept(s, ScheduleNext(s, st).value, i)
  {
    ReadyFromReady(SetState(s, s.current, st), s.current, 1);
  }

  lemma BlockKept(s: Sched, key: nat, ms: Option<nat>, resume: Resume, i: nat)
    requires Block(s, key, ms, resume).Some? && i < |s.tasks|
    ensures Kept(s, Block(s, key, ms, resume).value, i)
  {
    var t := Current(s).value.(waitOn := key, wakeDeadline := Deadline(s, ms), resume := resume);
    ScheduleKept(SetTask(s, s.current, t), Blocked, i);
  }

  lemma WakeKept(s: Sched, key: nat, i: nat)
    requires i < |s.tasks|
    ensures Kept(s, WakeOne(s, key), i)
  {
  }

  lemma {:induction false} WakeHitsKept(s: Sched, masks: seq<set<nat>>, bit: nat, d: nat, i: nat)
    requires d <= |masks| <= ANY_MAX_DOMAINS && i < |s.tasks|
    ensures Kept(s, WakeHits(s, masks, bit, d), i)
    decreases |masks| - d
  {
    if d < |masks| {
      WakeKept(s, IrqToken(d), i);
      WakeHitsKept(if bit in masks[d] then WakeOne(s, IrqToken(d)) else s, masks, bit, d + 1, i);
    }
  }

  lemma {:induction false} ReclaimKept(k: Kernel, i: nat)
    requires Sized(k.irq) && i < |k.sched.tasks| && IsLive(k.sched.tasks[i])
    requires k.sched.tasks[i].value.domain !in k.dying
    ensures Kept(k.sched, Reclaim(k).sched, i)
    decreases |k.dying|
  {
    if k.dying != [] {
      var n := |k.dying| - 1;
      ReclaimKept(Destroy(k.(dying := k.dying[..n]), k.dying[n]), i);
    }
  }

  lemma TickKept(k: Kernel, i: nat)
    requires Sized(k.irq) && ClockTick(k).Some? && DyingDead(k.dying, k.sched.tasks)
    requires i < |k.sched.tasks| && IsLive(k.sched.tasks[i])
    ensures Kept(k.sched, ClockTick(k).value.sched, i)
  {
    assert LiveIn(k.sched.tasks[i], k.sched.tasks[i].value.domain);
    ReclaimKept(k, i);
    var s := Reclaim(k).sched;
    ScheduleKept(WakeExpired(s.(ticks := s.ticks + 1)), Ready, i);
  }

  /** Unless it receives or ends, a live task stays alive and remembers its reply target. */
  lemma StepKept(k: Kernel, ev: Event, idle: nat, i: nat)
    requires KernelOk(k, idle) && GoodStep(k, ev, idle) && i < |k.sched.tasks| && IsLive(k.sched.tasks[i])
    requires !ReceivesOrEnds(k, ev, i)
    ensures Kept(k.sched, Step(k, ev).value.sched, i)
  {
    if ev.EvTick? { TickKept(k, i); }
    else if ev.EvMsi? || ev.EvPic? { DeviceKept(k, ev, i); }
    else if ev.EvResume? { ResumeKept(k, i); }
    else if ev.SysYield? || ev.SysSleep? || ev.SysExit? { ParkKept(k, ev, i); }
    else if ev.SysDestroy? || ev.SysSpawn? || ev.SysRestart? { DomainKept(k, ev, idle, i); }
    else { CallKept(k, ev, i); }
  }

  lemma DeviceKept(k: Kernel, ev: Event, i: nat)
    requires Sized(k.irq) && Enabled(k, ev) && Step(k, ev).Some? && (ev.EvMsi? || ev.EvPic?) && i < |k.sched.tasks|
    ensures Kept(k.sched, Step(k, ev).value.sched, i)
  {
    if ev.EvMsi? {
      if InMsiRange(ev.vector) { WakeHitsKept(k.sched, k.irq.anyMask, ev.vector - MSI_VECTOR_BASE, 0, i); }
    } else if k.irq.handlers[ev.irq].Some? {
      WakeKept(k.sched, k.irq.handlers[ev.irq].value, i);
    }
  }

  lemma ReceiveKept(k: Kernel, i: nat)
    requires Me(k).Some? && ReceiveRound(k, Me(k).value).Some? && i < |k.sched.tasks|
    requires i == k.sched.current ==> k.boxes[Me(k).value.domain] == []
    ensures Kept(k.sched, ReceiveRound(k, Me(k).value).value.sched, i)
  {
    var d := Me(k).value.domain;
    if k.boxes[d] == [] { BlockKept(k.sched, d, None, InReceive, i); }
  }

  lemma CallRoundKept(k: Kernel, to: nat, i: nat)
    requires Me(k).Some? && CallRound(k, Me(k).value, to).Some? && i < |k.sched.tasks|
    ensures Kept(k.sched, CallRound(k, Me(k).value, to).value.sched, i)
  {
    var d := Me(k).value.domain;
    if BoxStep(k.boxes, TakeFrom(d, to)).1.None? && LiveTasks(k.sched.tasks, to) != 0 {
      BlockKept(k.sched, d, Some(CALL_POLL_MS), InCall(to), i);
    }
  }

  lemma ResumeKept(k: Kernel, i: nat)
    requires Sized(k.irq) && Me(k).Some? && Resumed(k, Me(k).value).Some? && i < |k.sched.tasks|
    requires i == k.sched.current ==> Consumed(k, EvResume).None?
    ensures Kept(k.sched, Resumed(k, Me(k).value).value.sched, i)
  {
    match Me(k).value.resume
    case InUser =>
    case InReceive => ReceiveKept(k, i);
    case InCall(to) => CallRoundKept(k, to, i);
    case InIrqWait(_) =>
    case InFault =>
  }

  lemma ParkKept(k: Kernel, ev: Event, i: nat)
    requires Sized(k.irq) && Enabled(k, ev) && Step(k, ev).Some? && (ev.SysYield? || ev.SysSleep? || ev.SysExit?)
    requires i < |k.sched.tasks| && (i == k.sched.current ==> !ev.SysExit?)
    ensures Kept(k.sched, Step(k, ev).value.sched, i)
  {
    var s := k.sched;
    if ev.SysYield? { ScheduleKept(s, Ready, i); }
    else if ev.SysExit? { ScheduleKept(s, Terminated, i); }
    else {
      ScheduleKept(SetTask(s, s.current, Current(s).value.(sleepUntil := s.ticks + MsToTicks(ev.ms))), Sleeping, i);
    }
  }

  lemma DomainKept(k: Kernel, ev: Event, idle: nat, i: nat)
    requires KernelOk(k, idle) && Enabled(k, ev) && Step(k, ev).Some?
    requires ev.SysDestroy? || ev.SysSpawn? || ev.SysRestart?
    requires i < |k.sched.tasks| && IsLive(k.sched.tasks[i]) && Spares(k, ev, i)
    ensures Kept(k.sched, Step(k, ev).value.sched, i)
  {
    assert Step(k, ev).value.sched == DomainSched(k, ev) || Step(k, ev).value.sched == k.sched;
    if ev.SysDestroy? { if Destroys(k, ev.target) { DestroyKept(k, ev.target, i); } }
    else if ev.SysSpawn? { SpawnKept(k, Me(k).value.domain, ev.loads, i); }
    else { RestartKept(k, ev.target, ev.loads, i); }
  }

  lemma DestroyKept(k: Kernel, d: nat, i: nat)
    requires Sized(k.irq) && i < |k.sched.tasks| && k.sched.tasks[i].Some? && k.sched.tasks[i].value.domain != d
    ensures Kept(k.sched, Destroy(k, d).sched, i)
  {
  }

  lemma SpawnKept(k: Kernel, loader: nat, loads: bool, i: nat)
    requires Sized(k.irq) && i < |k.sched.tasks| && k.sched.tasks[i].Some?
    requires k.sched.tasks[i].value.domain != FirstDead(k.alive)
    ensures Kept(k.sched, SpawnDomain(k, loader, loads).sched, i)
  {
  }

  lemma RestartKept(k: Kernel, d: nat, loads: bool, i: nat)
    requires i < |k.sched.tasks|
    ensures Kept(k.sched, Restart(k, d, loads).sched, i)
  {
  }

  lemma CallKept(k: Kernel, ev: Event, i: nat)
    requires Sized(k.irq) && Enabled(k, ev) && Step(k, ev).Some? && i < |k.sched.tasks|
    requires ev.SysSend? || ev.SysReply? || ev.SysFaultReply? || ev.SysReceive? || ev.SysTryReceive? || ev.SysCall?
      || ev.SysFault? || ev.SysIrqWait? || ev.SysIrqPoll? || ev.SysRegister? || ev.SysCapSend?
    requires i == k.sched.current ==> Consumed(k, ev).None?
    ensures Kept(k.sched, Step(k, ev).value.sched, i)
  {
    if ev.SysSend? || ev.SysReply? || ev.SysFaultReply? { SendKept(k, ev, i); }
    else if ev.SysReceive? { ReceiveKept(k, i); }
    else if ev.SysCall? { CallStartKept(k, ev.to, ev.tag, ev.payload, i); }
    else if ev.SysFault? { FaultKept(k, ev.payload, i); }
    else if ev.SysIrqWait? { IrqWaitKept(k, ev.mask, ev.ms, i); }
  }

  lemma SendKept(k: Kernel, ev: Event, i: nat)
    requires Sized(k.irq) && Enabled(k, ev) && Step(k, ev).Some? && i < |k.sched.tasks|
    requires ev.SysSend? || ev.SysReply? || ev.SysFaultReply?
    ensures Kept(k.sched, Step(k, ev).value.sched, i)
  {
    WakeKept(k.sched, if ev.SysSend? then ev.to else Me(k).value.replyTarget, i);
  }

  lemma CallStartKept(k: Kernel, to: nat, tag: nat, payload: seq<Byte>, i: nat)
    requires Me(k).Some? && CallStart(k, Me(k).value, to, tag, payload).Some? && i < |k.sched.tasks|
    ensures Kept(k.sched, CallStart(k, Me(k).value, to, tag, payload).value.sched, i)
  {
    var t := Me(k).value;
    if Has(k, t.domain, Capabilities.SendTo(to)) && LiveTasks(k.sched.tasks, to) != 0 {
      WakeKept(k.sched, to, i);
      BlockKept(WakeOne(k.sched, to), t.domain, Some(CALL_POLL_MS), InCall(to), i);
    }
  }

  lemma FaultKept(k: Kernel, payload: seq<Byte>, i: nat)
    requires Me(k).Some? && Fault(k, Me(k).value, payload).Some? && i < |k.sched.tasks|
    ensures Kept(k.sched, Fault(k, Me(k).value, payload).value.sched, i)
  {
    var t := Me(k).value;
    var p := k.pagers[t.domain].value;
    WakeKept(k.sched, p, i);
    BlockKept(if Room(k, p) then WakeOne(k.sched, p) else k.sched, t.domain, None, InFault, i);
  }

  lemma IrqWaitKept(k: Kernel, mask: set<nat>, ms: nat, i: nat)
    requires Sized(k.irq) && Me(k).Some? && IrqWait(k, Me(k).value, mask, ms).Some? && i < |k.sched.tasks|
    ensures Kept(k.sched, IrqWait(k, Me(k).value, mask, ms).value.sched, i)
  {
    var t := Me(k).value;
    if mask != {} && MaskOk(k, t.domain, mask) && TakePending(k.irq, mask, t.domain).1.None?
      && t.domain < ANY_MAX_DOMAINS
    {
      BlockKept(k.sched, IrqToken(t.domain), Some(ms), InIrqWait(mask), i);
    }
  }

  // ---- every run ----

  ghost predicate ReceivesOrEndsIn(k: Kernel, evs: seq<Event>, n: nat, i: nat) {
    Happens((x, ev) => ReceivesOrEnds(x, ev, i), k, evs, n)
  }

  /** Task i is alive, in domain d, with this reply target. */
  ghost predicate Answering(k: Kernel, idle: nat, i: nat, d: nat, target: nat) {
    && KernelOk(k, idle) && i < |k.sched.tasks| && IsLive(k.sched.tasks[i])
    && k.sched.tasks[i].value.domain == d && k.sched.tasks[i].value.replyTarget == target
  }

  lemma AnsweringStep(k: Kernel, ev: Event, idle: nat, i: nat, d: nat, target: nat)
    requires Answering(k, idle, i, d, target) && GoodStep(k, ev, idle) && !ReceivesOrEnds(k, ev, i)
    ensures Answering(Step(k, ev).value, idle, i, d, target)
  {
    StepOk(k, ev, idle);
    StepKept(k, ev, idle, i);
  }

  lemma AnsweringRun(k: Kernel, evs: seq<Event>, n: nat, idle: nat, i: nat, d: nat, target: nat)
    requires Answering(k, idle, i, d, target) && GoodRun(k, evs, idle) && n <= |evs| && After(k, evs, n).Some?
    requires !ReceivesOrEndsIn(k, evs, n, i)
    ensures Answering(After(k, evs, n).value, idle, i, d, target)
  {
    var Q := (x, ev) => ReceivesOrEnds(x, ev, i);
    forall x, ev | Answering(x, idle, i, d, target) && GoodStep(x, ev, idle) && !Q(x, ev)
      ensures Answering(Step(x, ev).value, idle, i, d, target)
    {
      AnsweringStep(x, ev, idle, i, d, target);
    }
    NeverOrHappens(Q, k, evs, n);
    RunKeepsUnless(x => Answering(x, idle, i, d, target), Q, k, evs, idle, n);
  }

  lemma SenderKnown(k: Kernel, idle: nat, ev: Event, m: Message)
    requires KernelOk(k, idle) && Provided(k) && Consumed(k, ev) == Some(m)
    ensures m.from < |k.boxes| <= DOMAIN_LIMIT
  {
    assert k.boxes[Me(k).value.domain][0] == m;
  }

  lemma ProvidedRun(k: Kernel, evs: seq<Event>, n: nat, idle: nat)
    requires KernelOk(k, idle) && Provided(k) && GoodRun(k, evs, idle) && n <= |evs| && After(k, evs, n).Some?
    ensures Provided(After(k, evs, n).value)
  {
    forall x, ev | KernelOk(x, idle) && Provided(x) && GoodStep(x, ev, idle)
      ensures KernelOk(Step(x, ev).value, idle) && Provided(Step(x, ev).value)
    {
      StepOk(x, ev, idle);
      ProvidedKept(x, ev, idle);
    }
    RunKeeps(x => KernelOk(x, idle) && Provided(x), k, evs, idle, n);
  }

  /** The reply is pushed to `to` as a message from `from`. */
  ghost predicate Answers(k: Kernel, tag: nat, payload: seq<Byte>, from: nat, to: nat) {
    && Sized(k.irq) && Enabled(k, SysReply(tag, payload)) && to < |k.boxes|
    && Step(k, SysReply(tag, payload)) ==
         Some(k.(boxes := k.boxes[to := k.boxes[to] + [Message(from, to, tag, Fixed(payload))]],
                 sched := WakeOne(k.sched, to)))
  }

  lemma ReplyStep(k: Kernel, tag: nat, payload: seq<Byte>, idle: nat, d: nat, target: nat)
    requires Answering(k, idle, k.sched.current, d, target) && Provided(k) && target != U64_MAX
    requires Enabled(k, SysReply(tag, payload))
    ensures Answers(k, tag, payload, d, target)
    ensures Enabled(k, SysFaultReply) && Step(k, SysFaultReply) == Some(k.(sched := WakeOne(k.sched, target)))
  {
    assert target < |k.boxes|;
  }

  lemma SilentStep(k: Kernel, tag: nat, payload: seq<Byte>, idle: nat, d: nat)
    requires Answering(k, idle, k.sched.current, d, U64_MAX) && Enabled(k, SysReply(tag, payload))
    ensures Step(k, SysReply(tag, payload)) == Some(k)
    ensures Enabled(k, SysFaultReply) && Step(k, SysFaultReply) == Some(k)
  {
  }

  lemma AnsweringStart(k: Kernel, ev: Event, m: Message, k1: Kernel, idle: nat)
    requires KernelOk(k, idle) && Provided(k) && GoodStep(k, ev, idle) && Step(k, ev) == Some(k1)
    requires Consumed(k, ev) == Some(m)
    ensures Answering(k1, idle, k.sched.current, Me(k).value.domain, m.from) && Provided(k1) && m.from != U64_MAX
  {
    SenderKnown(k, idle, ev, m);
    ConsumedExact(k, ev);
    StepOk(k, ev, idle);
    ProvidedKept(k, ev, idle);
  }

  lemma AnsweringEnd(k: Kernel, evs: seq<Event>, n: nat, idle: nat, i: nat, d: nat, target: nat, x: Kernel)
    requires Answering(k, idle, i, d, target) && Provided(k) && GoodRun(k, evs, idle)
    requires n <= |evs| && After(k, evs, n) == Some(x) && !ReceivesOrEndsIn(k, evs, n, i)
    ensures Answering(x, idle, i, d, target) && Provided(x)
  {
    AnsweringRun(k, evs, n, idle, i, d, target);
    ProvidedRun(k, evs, n, idle);
  }

  /** Task i consumes message m, and does not receive another before it replies: the reply is put at the end of the
      mailbox of m's sender, in the name of the domain d that got m, and nowhere else; and that sender's waiting
      task is woken, by a reply as by a fault reply. */
  lemma RepliesToLast(
    k: Kernel, ev: Event, m: Message, k1: Kernel, evs: seq<Event>, n: nat, idle: nat, x: Kernel, i: nat, d: nat,
    tag: nat, payload: seq<Byte>)
    requires KernelOk(k, idle) && Provided(k) && GoodStep(k, ev, idle) && Step(k, ev) == Some(k1)
    requires k.sched.current == i && Me(k).value.domain == d && Consumed(k, ev) == Some(m)
    requires GoodRun(k1, evs, idle) && n <= |evs| && After(k1, evs, n) == Some(x) && !ReceivesOrEndsIn(k1, evs, n, i)
    requires x.sched.current == i && Enabled(x, SysReply(tag, payload))
    ensures Answers(x, tag, payload, d, m.from)
    ensures Enabled(x, SysFaultReply) && Step(x, SysFaultReply) == Some(x.(sched := WakeOne(x.sched, m.from)))
  {
    assert Answering(x, idle, i, d, m.from) && Provided(x) && m.from != U64_MAX by {
      AnsweringStart(k, ev, m, k1, idle);
      AnsweringEnd(k1, evs, n, idle, i, d, m.from, x);
    }
    ReplyStep(x, tag, payload, idle, d, m.from);
  }

  /** A task that has not received anything since it was started replies to nobody. */
  lemma SilentAtFirst(
    k: Kernel, evs: seq<Event>, n: nat, idle: nat, x: Kernel, i: nat, d: nat, tag: nat, payload: seq<Byte>)
    requires KernelOk(k, idle) && i < |k.sched.tasks| && k.sched.tasks[i] == Some(FreshTask(d))
    requires GoodRun(k, evs, idle) && n <= |evs| && After(k, evs, n) == Some(x) && !ReceivesOrEndsIn(k, evs, n, i)
    requires x.sched.current == i && Enabled(x, SysReply(tag, payload))
    ensures Sized(x.irq) && Step(x, SysReply(tag, payload)) == Some(x)
    ensures Enabled(x, SysFaultReply) && Step(x, SysFaultReply) == Some(x)
  {
    assert Answering(x, idle, i, d, U64_MAX) by { AnsweringRun(k, evs, n, idle, i, d, U64_MAX); }
    SilentStep(x, tag, payload, idle, d);
  }
}
