/** Every kernel step keeps `KernelOk`, and so does every run. */
module KernelInvariant {
  import opened Wrappers
  import opened Slots
  import opened Scheduling
  import opened Mailboxes
  import opened Interrupts
  import opened KernelSteps
  import opened KernelSafety

  // ---- blocking ----

  function BlockedTask(t: Task, key: nat, deadline: nat, resume: Resume): (r: Task) {
    t.(state := Blocked, waitOn := key, wakeDeadline := deadline, resume := resume)
  }

  function Deadline(s: Sched, ms: Option<nat>): (n: nat) {
    match ms case None => 0 case Some(n) => s.ticks + MsToTicks(n)
  }

  lemma BlockEffect(s: Sched, key: nat, ms: Option<nat>, resume: Resume)
    requires Is(s, s.current, Running) && Block(s, key, ms, resume).Some?
    ensures var s' := Block(s, key, ms, resume).value;
            && |s'.tasks| == |s.tasks| && Is(s', s'.current, Running)
            && s'.tasks[s.current] == Some(BlockedTask(s.tasks[s.current].value, key, Deadline(s, ms), resume))
            && (forall i :: 0 <= i < |s.tasks| && i != s.current ==>
                  s'.tasks[i] == s.tasks[i]
                    || (Is(s, i, Ready) && s'.tasks[i] == Some(s.tasks[i].value.(state := Running))))
  {
    var s1 := SetTask(s, s.current,
      s.tasks[s.current].value.(waitOn := key, wakeDeadline := Deadline(s, ms), resume := resume));
    ReadyFromReady(SetState(s1, s.current, Blocked), s.current, 1);
  }

  lemma BlockRunsOne(s: Sched, key: nat, ms: Option<nat>, resume: Resume)
    requires R.OneRunning(s) && Block(s, key, ms, resume).Some?
    ensures R.OneRunning(Block(s, key, ms, resume).value)
  {
    var s' := Block(s, key, ms, resume).value;
    BlockEffect(s, key, ms, resume);
    forall i: nat | i != s'.current ensures !Is(s', i, Running) {
      assert i != s.current ==> !Is(s, i, Running);
    }
  }

  /** Blocking keeps the invariant when there is nothing to wait for yet. */
  lemma BlockOk(k: Kernel, key: nat, ms: Option<nat>, resume: Resume, idle: nat)
    requires KernelOk(k, idle) && k.sched.current != idle && Block(k.sched, key, ms, resume).Some?
    requires TaskOk(k.boxes, k.irq, BlockedTask(Me(k).value, key, Deadline(k.sched, ms), resume))
    ensures KernelOk(k.(sched := Block(k.sched, key, ms, resume).value), idle)
  {
    var s, s' := k.sched, Block(k.sched, key, ms, resume).value;
    BlockEffect(s, key, ms, resume);
    BlockRunsOne(s, key, ms, resume);
    forall i | 0 <= i < |s'.tasks| && s'.tasks[i].Some? ensures TaskOk(k.boxes, k.irq, s'.tasks[i].value) {
      assert i != s.current && s'.tasks[i] == s.tasks[i] ==> TaskOk(k.boxes, k.irq, s.tasks[i].value);
    }
    LiveFewer(k.dying, s.tasks, s'.tasks, k.alive, idle);
  }

  /** Tasks that stay in their domains and do not come to life keep what is said of live tasks. */
  lemma LiveFewer(dying: seq<nat>, a: seq<Option<Task>>, b: seq<Option<Task>>, alive: seq<bool>, idle: nat)
    requires |a| == |b| && OnePerDomain(a, idle) && Homes(a, alive) && DyingDead(dying, a)
    requires forall i :: 0 <= i < |a| && b[i].Some? ==>
      a[i].Some? && b[i].value.domain == a[i].value.domain && (IsLive(b[i]) ==> IsLive(a[i]))
    ensures OnePerDomain(b, idle) && Homes(b, alive) && DyingDead(dying, b)
  {
    forall i | 0 <= i < |dying| ensures LiveTasks(b, dying[i]) == 0 {
      assert forall j :: 0 <= j < |a| ==> !LiveIn(a[j], dying[i]);
    }
  }

  /** The current task changes its own bookkeeping. */
  lemma SetCurrentOk(k: Kernel, t: Task, idle: nat)
    requires KernelOk(k, idle) && k.sched.current != idle && t.state == Running && t.domain == Me(k).value.domain
    ensures KernelOk(SetCurrent(k, t), idle)
  {
    var s, s' := k.sched, SetCurrent(k, t).sched;
    assert forall i: nat :: Is(s', i, Running) <==> Is(s, i, Running);
    forall i | 0 <= i < |s'.tasks| && s'.tasks[i].Some? ensures TaskOk(k.boxes, k.irq, s'.tasks[i].value) {
      assert i != s.current ==> TaskOk(k.boxes, k.irq, s.tasks[i].value);
    }
    LiveFewer(k.dying, s.tasks, s'.tasks, k.alive, idle);
  }

  // ---- messages ----

  /** With one live task per domain, at most one task waits on a domain's key. */
  lemma OneWaiter(k: Kernel, idle: nat, d: nat, i: nat, j: nat)
    requires KernelOk(k, idle) && d < DOMAIN_LIMIT && i < |k.sched.tasks| && j < |k.sched.tasks|
    requires WaitsOn(k.sched.tasks[i], d) && WaitsOn(k.sched.tasks[j], d)
    ensures i == j && k.sched.tasks[i].value.domain == d
  {
    assert TaskOk(k.boxes, k.irq, k.sched.tasks[i].value) && TaskOk(k.boxes, k.irq, k.sched.tasks[j].value);
    assert i != idle && j != idle;
  }

  /** A message reaches whoever waits for it: nobody stays blocked in receive on a filled mailbox. */
  lemma DeliverOk(k: Kernel, msg: Message, idle: nat)
    requires KernelOk(k, idle) && Deliver(k, msg).Some?
    ensures KernelOk(Deliver(k, msg).value, idle)
  {
    var k', to := Deliver(k, msg).value, msg.to;
    WakeOk(k, to, idle);
    WakeRelaxes(k.sched, to);
    forall i | 0 <= i < |k'.sched.tasks| && k'.sched.tasks[i].Some?
      ensures TaskOk(k'.boxes, k'.irq, k'.sched.tasks[i].value)
    {
      var t := k'.sched.tasks[i].value;
      assert TaskOk(k.boxes, k.irq, t);
      if t.state == Blocked && t.resume.InReceive? && t.domain == to {
        StillWaiting(k, idle, to, i);
        assert false;
      }
    }
  }

  /** After `wake_one(d)` nobody waits on d. */
  lemma StillWaiting(k: Kernel, idle: nat, d: nat, i: nat)
    requires KernelOk(k, idle) && d < DOMAIN_LIMIT && i < |k.sched.tasks|
    ensures !WaitsOn(WakeOne(k.sched, d).tasks[i], d)
  {
    var j := FirstWaiter(k.sched.tasks, d, 0);
    if WaitsOn(k.sched.tasks[i], d) && j < |k.sched.tasks| { OneWaiter(k, idle, d, i, j); }
  }

  /** Mailboxes may shrink or be reset. */
  lemma ShrinkOk(k: Kernel, boxes: Boxes, idle: nat)
    requires KernelOk(k, idle) && |k.boxes| <= |boxes| <= DOMAIN_LIMIT
    requires forall d :: 0 <= d < |k.boxes| && k.boxes[d] == [] ==> boxes[d] == []
    ensures KernelOk(k.(boxes := boxes), idle)
  {
    forall i | 0 <= i < |k.sched.tasks| && k.sched.tasks[i].Some? ensures TaskOk(boxes, k.irq, k.sched.tasks[i].value) {
      assert TaskOk(k.boxes, k.irq, k.sched.tasks[i].value);
    }
  }

  lemma ReceiveOk(k: Kernel, idle: nat)
    requires KernelOk(k, idle) && k.sched.current != idle && ReceiveRound(k, Me(k).value).Some?
    ensures KernelOk(ReceiveRound(k, Me(k).value).value, idle)
  {
    var t := Me(k).value;
    if k.boxes[t.domain] == [] {
      BlockOk(k, t.domain, None, InReceive, idle);
    } else {
      var boxes := BoxStep(k.boxes, Pop(t.domain)).0;
      ShrinkOk(k, boxes, idle);
      SetCurrentOk(k.(boxes := boxes), t.(replyTarget := k.boxes[t.domain][0].from, resume := InUser), idle);
    }
  }

  lemma CallRoundOk(k: Kernel, to: nat, idle: nat)
    requires KernelOk(k, idle) && k.sched.current != idle && CallRound(k, Me(k).value, to).Some?
    ensures KernelOk(CallRound(k, Me(k).value, to).value, idle)
  {
    var t := Me(k).value;
    var r := BoxStep(k.boxes, TakeFrom(t.domain, to));
    if r.1.Some? {
      ShrinkOk(k, r.0, idle);
      SetCurrentOk(k.(boxes := r.0), t.(resume := InUser), idle);
    } else if LiveTasks(k.sched.tasks, to) == 0 {
      SetCurrentOk(k, t.(resume := InUser), idle);
    } else {
      BlockOk(k, t.domain, Some(CALL_POLL_MS), InCall(to), idle);
    }
  }

  lemma CallStartOk(k: Kernel, to: nat, tag: nat, payload: seq<Byte>, idle: nat)
    requires KernelOk(k, idle) && k.sched.current != idle && CallStart(k, Me(k).value, to, tag, payload).Some?
    ensures KernelOk(CallStart(k, Me(k).value, to, tag, payload).value, idle)
  {
    var t := Me(k).value;
    if Has(k, t.domain, Capabilities.SendTo(to)) && LiveTasks(k.sched.tasks, to) != 0 {
      var msg := Message(t.domain, to, tag, Fixed(payload));
      DeliverOk(k, msg, idle);
      DeliverKeepsMe(k, msg);
      BlockOk(Deliver(k, msg).value, t.domain, Some(CALL_POLL_MS), InCall(to), idle);
    }
  }

  lemma DeliverKeepsMe(k: Kernel, msg: Message)
    requires Is(k.sched, k.sched.current, Running) && Deliver(k, msg).Some?
    ensures Me(Deliver(k, msg).value) == Me(k) && Deliver(k, msg).value.sched.current == k.sched.current
  {
    WakeRelaxes(k.sched, msg.to);
  }

  lemma FaultOk(k: Kernel, payload: seq<Byte>, idle: nat)
    requires KernelOk(k, idle) && k.sched.current != idle && Fault(k, Me(k).value, payload).Some?
    ensures KernelOk(Fault(k, Me(k).value, payload).value, idle)
  {
    var t := Me(k).value;
    var msg := Message(t.domain, k.pagers[t.domain].value, FAULT_TAG, Fixed(payload));
    var k1 := DeliverCapped(k, msg).value;
    if k1 != k {
      DeliverOk(k, msg, idle);
      DeliverKeepsMe(k, msg);
    }
    BlockOk(k1, t.domain, None, InFault, idle);
  }

  // ---- interrupts ----

  /** Fewer hits and the same masks keep every waiter safe. */
  lemma FewerHitsOk(k: Kernel, q: Irq, idle: nat)
    requires KernelOk(k, idle) && Sized(q) && q.anyMask == k.irq.anyMask
    requires forall i :: 0 <= i < |k.sched.tasks| && IsIrqWaiter(k.sched.tasks[i]) ==>
      forall j ::
        0 <= j < MSI_VECTOR_COUNT && Hits(q, k.sched.tasks[i].value.resume.mask, k.sched.tasks[i].value.domain, j) ==>
        Hits(k.irq, k.sched.tasks[i].value.resume.mask, k.sched.tasks[i].value.domain, j)
    ensures KernelOk(k.(irq := q), idle)
  {
    forall i | 0 <= i < |k.sched.tasks| && k.sched.tasks[i].Some? ensures TaskOk(k.boxes, q, k.sched.tasks[i].value) {
      assert TaskOk(k.boxes, k.irq, k.sched.tasks[i].value);
    }
  }

  predicate IsIrqWaiter(t: Option<Task>) { t.Some? && t.value.state == Blocked && t.value.resume.InIrqWait? }

  /** No other task of the current task's domain is waiting for interrupts. */
  lemma NoOtherWaiter(k: Kernel, idle: nat, i: nat)
    requires KernelOk(k, idle) && k.sched.current != idle && i < |k.sched.tasks| && IsIrqWaiter(k.sched.tasks[i])
    ensures k.sched.tasks[i].value.domain != Me(k).value.domain
  {
    assert i != k.sched.current && i != idle;
  }

  lemma TakePendingOk(k: Kernel, mask: set<nat>, domain: nat, idle: nat)
    requires KernelOk(k, idle)
    ensures KernelOk(k.(irq := TakePending(k.irq, mask, domain).0), idle)
  {
    FewerHitsOk(k, TakePending(k.irq, mask, domain).0, idle);
  }

  /** Setting or clearing the current domain's mask concerns no blocked task. */
  lemma OwnMaskOk(k: Kernel, mask: set<nat>, idle: nat)
    requires KernelOk(k, idle) && k.sched.current != idle && Me(k).value.domain < ANY_MAX_DOMAINS
    ensures KernelOk(k.(irq := k.irq.(anyMask := k.irq.anyMask[Me(k).value.domain := mask])), idle)
  {
    var q := k.irq.(anyMask := k.irq.anyMask[Me(k).value.domain := mask]);
    forall i | 0 <= i < |k.sched.tasks| && k.sched.tasks[i].Some? ensures TaskOk(k.boxes, q, k.sched.tasks[i].value) {
      var t := k.sched.tasks[i].value;
      assert TaskOk(k.boxes, k.irq, t);
      if IsIrqWaiter(k.sched.tasks[i]) {
        NoOtherWaiter(k, idle, i);
        forall j | 0 <= j < MSI_VECTOR_COUNT ensures !Hits(q, t.resume.mask, t.domain, j) {
          assert !Hits(k.irq, t.resume.mask, t.domain, j);
        }
      }
    }
  }

  lemma IrqWaitOk(k: Kernel, mask: set<nat>, ms: nat, idle: nat)
    requires KernelOk(k, idle) && k.sched.current != idle && IrqWait(k, Me(k).value, mask, ms).Some?
    ensures KernelOk(IrqWait(k, Me(k).value, mask, ms).value, idle)
  {
    var t := Me(k).value;
    TakePendingOk(k, mask, t.domain, idle);
    if mask != {} && MaskOk(k, t.domain, mask) && TakePending(k.irq, mask, t.domain).1.None?
      && t.domain < ANY_MAX_DOMAINS
    {
      OwnMaskOk(k, mask, idle);
      var k1 := k.(irq := k.irq.(anyMask := k.irq.anyMask[t.domain := mask]));
      forall j | 0 <= j < MSI_VECTOR_COUNT ensures !Hits(k1.irq, mask, t.domain, j) {
        assert !Hits(k.irq, mask, t.domain, j);
      }
      BlockOk(k1, IrqToken(t.domain), Some(ms), InIrqWait(mask), idle);
    }
  }

  lemma IrqWaitDoneOk(k: Kernel, mask: set<nat>, idle: nat)
    requires KernelOk(k, idle) && k.sched.current != idle
    ensures KernelOk(IrqWaitDone(k, Me(k).value, mask), idle)
  {
    var t := Me(k).value;
    var k1 := if t.domain < ANY_MAX_DOMAINS then k.(irq := k.irq.(anyMask := k.irq.anyMask[t.domain := {}])) else k;
    if t.domain < ANY_MAX_DOMAINS { OwnMaskOk(k, {}, idle); }
    TakePendingOk(k1, mask, t.domain, idle);
    SetCurrentOk(k1.(irq := TakePending(k1.irq, mask, t.domain).0), t.(resume := InUser), idle);
  }

  /** A registration can only add hits for the caller's own domain, and no task of it is waiting. */
  lemma RegisterOk(k: Kernel, irq: nat, idle: nat)
    requires KernelOk(k, idle) && k.sched.current != idle && irq < 256
    ensures KernelOk(Register(k, Me(k).value, irq), idle)
  {
    var q := Register(k, Me(k).value, irq).irq;
    forall i | 0 <= i < |k.sched.tasks| && IsIrqWaiter(k.sched.tasks[i])
      ensures forall j ::
        0 <= j < MSI_VECTOR_COUNT && Hits(q, k.sched.tasks[i].value.resume.mask, k.sched.tasks[i].value.domain, j) ==>
        Hits(k.irq, k.sched.tasks[i].value.resume.mask, k.sched.tasks[i].value.domain, j)
    {
      NoOtherWaiter(k, idle, i);
    }
    FewerHitsOk(k, q, idle);
  }

  /** Waking relaxes, whatever the masks. */
  lemma {:induction false} WakeHitsRelaxes(k: Kernel, masks: seq<set<nat>>, bit: nat, d: nat, idle: nat)
    requires KernelOk(k, idle) && d <= |masks| <= ANY_MAX_DOMAINS
    ensures KernelOk(k.(sched := WakeHits(k.sched, masks, bit, d)), idle)
    ensures var s' := WakeHits(k.sched, masks, bit, d);
            |s'.tasks| == |k.sched.tasks| && forall i :: 0 <= i < |s'.tasks| && IsIrqWaiter(s'.tasks[i]) ==>
              s'.tasks[i] == k.sched.tasks[i]
    decreases |masks| - d
  {
    if d < |masks| {
      WakeOk(k, IrqToken(d), idle);
      WakeRelaxes(k.sched, IrqToken(d));
      WakeHitsRelaxes(k.(sched := if bit in masks[d] then WakeOne(k.sched, IrqToken(d)) else k.sched), masks, bit,
        d + 1, idle);
    }
  }

  /** After the wake-up round no interrupt waiter is left whose domain's mask holds the bit. */
  lemma {:induction false} WakeHitsAll(k: Kernel, masks: seq<set<nat>>, bit: nat, d: nat, idle: nat, i: nat)
    requires KernelOk(k, idle) && d <= |masks| <= ANY_MAX_DOMAINS && i < |k.sched.tasks|
    requires IsIrqWaiter(WakeHits(k.sched, masks, bit, d).tasks[i])
    ensures k.sched.tasks[i].Some?
    ensures var e := k.sched.tasks[i].value.domain; d <= e < |masks| ==> bit !in masks[e]
    decreases |masks| - d
  {
    WakeHitsRelaxes(k, masks, bit, d, idle);
    if d < |masks| {
      var k1 := k.(sched := if bit in masks[d] then WakeOne(k.sched, IrqToken(d)) else k.sched);
      WakeOk(k, IrqToken(d), idle);
      WakeRelaxes(k.sched, IrqToken(d));
      WakeHitsAll(k1, masks, bit, d + 1, idle, i);
      WakeHitsRelaxes(k1, masks, bit, d + 1, idle);
      if bit in masks[d] && k.sched.tasks[i].value.domain == d {
        OneIrqWaiter(k, idle, d, i);
        assert false;
      }
    }
  }

  /** Waking a domain's interrupt token wakes its waiter, which is the only one. */
  lemma OneIrqWaiter(k: Kernel, idle: nat, d: nat, i: nat)
    requires KernelOk(k, idle) && d < ANY_MAX_DOMAINS && i < |k.sched.tasks|
    requires k.sched.tasks[i].Some? && k.sched.tasks[i].value.domain == d
    ensures !IsIrqWaiter(WakeOne(k.sched, IrqToken(d)).tasks[i])
  {
    var tasks, j := k.sched.tasks, FirstWaiter(k.sched.tasks, IrqToken(d), 0);
    if IsIrqWaiter(tasks[i]) {
      assert TaskOk(k.boxes, k.irq, tasks[i].value);
      assert WaitsOn(tasks[i], IrqToken(d)) && j < |tasks|;
      assert TaskOk(k.boxes, k.irq, tasks[j].value);
      assert tasks[j].value.domain < |k.alive|;
      assert tasks[j].value.domain == d && j != idle && i != idle;
    }
  }

  /** No lost interrupt: when the flag goes up, everybody waiting for it is woken. */
  lemma MsiOk(k: Kernel, v: nat, idle: nat)
    requires KernelOk(k, idle) && v < VECTOR_COUNT
    ensures KernelOk(Msi(k, v), idle)
  {
    var k' := Msi(k, v);
    if k.irq.vectors[v].Some? {
      var masks := k.irq.anyMask;
      var bit := if InMsiRange(v) then v - MSI_VECTOR_BASE else 0;
      var k1 := k.(sched := if InMsiRange(v) then WakeHits(k.sched, masks, bit, 0) else k.sched);
      WakeHitsRelaxes(k, masks, bit, 0, idle);
      forall i | 0 <= i < |k1.sched.tasks| && IsIrqWaiter(k1.sched.tasks[i])
        ensures forall j | 0 <= j < MSI_VECTOR_COUNT ::
          Hits(k'.irq, k1.sched.tasks[i].value.resume.mask, k1.sched.tasks[i].value.domain, j) ==>
          Hits(k1.irq, k1.sched.tasks[i].value.resume.mask, k1.sched.tasks[i].value.domain, j)
      {
        assert TaskOk(k1.boxes, k1.irq, k1.sched.tasks[i].value);
        if InMsiRange(v) { WakeHitsAll(k, masks, bit, 0, idle, i); }
      }
      FewerHitsOk(k1, k'.irq, idle);
      assert k' == k1.(irq := k'.irq);
    }
  }

  // ---- domains ----

  lemma ExitOk(k: Kernel, idle: nat)
    requires KernelOk(k, idle) && k.sched.current != idle && Exit(k, Me(k).value).Some?
    ensures KernelOk(Exit(k, Me(k).value).value, idle)
  {
    var t, s := Me(k).value, k.sched;
    ScheduleOk(k, Terminated, idle);
    ScheduleRelaxes(s, Terminated);
    var s' := ScheduleNext(s, Terminated).value;
    if LiveTasks(s.tasks, t.domain) <= 1 && t.domain >= BOOT_DOMAINS { LastLeaves(s, s', t.domain, idle); }
  }

  /** When the only live task of a domain terminates, none is left. */
  lemma LastLeaves(s: Sched, s': Sched, d: nat, idle: nat)
    requires s.current < |s.tasks| == |s'.tasks| && LiveTasks(s.tasks, d) <= 1 && LiveIn(s.tasks[s.current], d)
    requires Is(s', s.current, Terminated) && Relaxed(s.tasks, s'.tasks)
    ensures LiveTasks(s'.tasks, d) == 0
  {
    forall i | 0 <= i < |s'.tasks| ensures !LiveIn(s'.tasks[i], d) {
      assert Relaxed1(s.tasks[i], s'.tasks[i]);
      if i != s.current && LiveIn(s.tasks[i], d) { TwoLive(s.tasks, d, s.current, i); assert false; }
    }
  }

  lemma {:induction false} TwoLive(tasks: seq<Option<Task>>, d: nat, i: nat, j: nat)
    requires i < |tasks| && j < |tasks| && i != j && LiveIn(tasks[i], d) && LiveIn(tasks[j], d)
    ensures LiveTasks(tasks, d) >= 2
    decreases |tasks|
  {
    if i == 0 {
      assert LiveIn(tasks[1..][j - 1], d);
    } else if j == 0 {
      assert LiveIn(tasks[1..][i - 1], d);
    } else {
      TwoLive(tasks[1..], d, i - 1, j - 1);
    }
  }

  /** A task started in a live domain without live tasks that is not waiting to be reclaimed. */
  lemma SpawnTaskOk(k: Kernel, d: nat, idle: nat)
    requires KernelOk(k, idle) && Alive(k, d) && LiveTasks(k.sched.tasks, d) == 0 && d !in k.dying
    requires SpawnTask(k.sched, d).Some?
    ensures KernelOk(k.(sched := SpawnTask(k.sched, d).value), idle)
  {
    var s, s' := k.sched, SpawnTask(k.sched, d).value;
    var n := FreeSlot(s.tasks);
    assert n != idle && n != s.current;
    assert forall i: nat :: Is(s', i, Running) <==> Is(s, i, Running);
    FreshTaskOk(k.dying, s.tasks, n, d, k.alive, idle);
    forall i | 0 <= i < |s'.tasks| && s'.tasks[i].Some? ensures TaskOk(k.boxes, k.irq, s'.tasks[i].value) {
      assert i != n ==> TaskOk(k.boxes, k.irq, s.tasks[i].value);
    }
  }

  lemma FreshTaskOk(dying: seq<nat>, tasks: seq<Option<Task>>, n: nat, d: nat, alive: seq<bool>, idle: nat)
    requires n < |tasks| && tasks[n].None? && d < |alive| && alive[d] && LiveTasks(tasks, d) == 0 && d !in dying
    requires OnePerDomain(tasks, idle) && Homes(tasks, alive) && DyingDead(dying, tasks)
    ensures var b := tasks[n := Some(FreshTask(d))]; OnePerDomain(b, idle) && Homes(b, alive) && DyingDead(dying, b)
  {
    var b := tasks[n := Some(FreshTask(d))];
    assert forall i :: 0 <= i < |tasks| ==> !LiveIn(tasks[i], d);
    forall i | 0 <= i < |dying| ensures LiveTasks(b, dying[i]) == 0 {
      assert forall j :: 0 <= j < |tasks| ==> !LiveIn(tasks[j], dying[i]);
      assert dying[i] in dying;
    }
  }

  /** No live task lives in a dead slot of the domain table. */
  lemma DeadSlotEmpty(k: Kernel, d: nat, idle: nat)
    requires KernelOk(k, idle) && !Alive(k, d)
    ensures LiveTasks(k.sched.tasks, d) == 0
  {
    assert forall i :: 0 <= i < |k.sched.tasks| ==> !LiveIn(k.sched.tasks[i], d);
  }

  /** A domain slot comes alive and gets fresh rows. */
  lemma NewRowsOk(k: Kernel, id: nat, k1: Kernel, idle: nat)
    requires KernelOk(k, idle) && id == FirstDead(k.alive) && id < DOMAIN_LIMIT
    requires k1.sched == k.sched && k1.irq == k.irq && k1.dying == k.dying
    requires OwnPagers(k1.pagers, k.sched.tasks[idle].value.domain)
    requires k1.alive == SetAt(k.alive, id, true, false) && k1.boxes == BoxStep(k.boxes, ResetBox(id)).0
    ensures KernelOk(k1, idle)
  {
    ShrinkOk(k, k1.boxes, idle);
  }

  lemma SpawnDomainOk(k: Kernel, loader: nat, loads: bool, idle: nat)
    requires KernelOk(k, idle) && FirstDead(k.alive) < DOMAIN_LIMIT && Alive(k, loader)
    requires loads && SpawnTask(k.sched, FirstDead(k.alive)).Some? ==> FirstDead(k.alive) !in k.dying
    ensures KernelOk(SpawnDomain(k, loader, loads), idle)
  {
    var id := FirstDead(k.alive);
    var k1 := k.(alive := SetAt(k.alive, id, true, false),
                 caps := Capabilities.Start(k.caps, id),
                 handles := SetRow(k.handles, id, EmptyRow(Handles.HANDLE_SLOTS)),
                 boxes := BoxStep(k.boxes, ResetBox(id)).0,
                 pagers := SetAt(k.pagers, id, Some(loader), None));
    assert Alive(k, k.sched.tasks[idle].value.domain);
    NewRowsOk(k, id, k1, idle);
    DeadSlotEmpty(k, id, idle);
    assert forall i :: 0 <= i < |k.sched.tasks| ==> !LiveIn(k.sched.tasks[i], id);
    if loads && SpawnTask(k1.sched, id).Some? { SpawnTaskOk(k1, id, idle); } else { DestroyOk(k1, id, idle); }
  }

  /** Only the pager of the idle task's domain can take itself or that domain away. */
  lemma FatalByPager(k: Kernel, d: nat, idle: nat)
    requires KernelOk(k, idle) && Destroys(k, d)
    ensures Fatal(k, d, idle) ==> ServesIdle(k, idle)
  {
  }

  lemma DestroyCallOk(k: Kernel, d: nat, idle: nat)
    requires KernelOk(k, idle) && Me(k).Some? && (ServesIdle(k, idle) && Destroys(k, d) ==> !Fatal(k, d, idle))
    ensures KernelOk(if Destroys(k, d) then Destroy(k, d) else k, idle)
  {
    if Destroys(k, d) {
      FatalByPager(k, d, idle);
      DestroyOk(k, d, idle);
    }
  }

  lemma SpawnCallOk(k: Kernel, loads: bool, idle: nat)
    requires KernelOk(k, idle) && Me(k).Some? && FirstDead(k.alive) < DOMAIN_LIMIT
    requires loads && SpawnTask(k.sched, FirstDead(k.alive)).Some? ==> FirstDead(k.alive) !in k.dying
    ensures KernelOk(SpawnDomain(k, Me(k).value.domain, loads), idle)
  {
    assert IsLive(k.sched.tasks[k.sched.current]);
    SpawnDomainOk(k, Me(k).value.domain, loads, idle);
  }

  lemma RestartOk(k: Kernel, d: nat, loads: bool, idle: nat)
    requires KernelOk(k, idle)
    requires loads && Alive(k, d) && LiveTasks(k.sched.tasks, d) == 0 && SpawnTask(Reap(k.sched, d), d).Some? ==>
      d !in k.dying
    ensures KernelOk(Restart(k, d, loads), idle)
  {
    if Alive(k, d) && LiveTasks(k.sched.tasks, d) == 0 {
      var boxes := BoxStep(k.boxes, ResetBox(d)).0;
      ShrinkOk(k, boxes, idle);
      ReapRelaxes(k.sched, d);
      var k1 := k.(boxes := boxes);
      SchedOnlyOk(k1, Reap(k.sched, d), idle);
      var k2 := k1.(sched := Reap(k.sched, d));
      assert forall i :: 0 <= i < |k.sched.tasks| ==> !LiveIn(k.sched.tasks[i], d);
      if loads && SpawnTask(k2.sched, d).Some? { SpawnTaskOk(k2, d, idle); }
    }
  }

  // ---- every step, every run ----

  lemma StepOk(k: Kernel, ev: Event, idle: nat)
    requires KernelOk(k, idle) && Enabled(k, ev) && Polite(k, ev, idle) && Step(k, ev).Some?
    ensures KernelOk(Step(k, ev).value, idle)
  {
    if IsInterrupt(ev) { InterruptOk(k, ev, idle); }
    else if ev.EvResume? { ResumeOk(k, idle); }
    else { SyscallOk(k, ev, idle); }
  }

  lemma InterruptOk(k: Kernel, ev: Event, idle: nat)
    requires KernelOk(k, idle) && Enabled(k, ev) && IsInterrupt(ev) && Step(k, ev).Some?
    ensures KernelOk(Step(k, ev).value, idle)
  {
    match ev
    case EvTick => TickOk(k, idle);
    case EvMsi(v) => MsiOk(k, v, idle);
    case EvPic(irq, data) =>
      if k.irq.handlers[irq].Some? {
        var msg := Message(0, k.irq.handlers[irq].value, data, Fixed([]));
        if DeliverCapped(k, msg) == Deliver(k, msg) { DeliverOk(k, msg, idle); }
      }
  }

  lemma ResumeOk(k: Kernel, idle: nat)
    requires KernelOk(k, idle) && k.sched.current != idle && Resumed(k, Me(k).value).Some?
    ensures KernelOk(Resumed(k, Me(k).value).value, idle)
  {
    match Me(k).value.resume
    case InUser =>
    case InReceive => ReceiveOk(k, idle);
    case InCall(to) => CallRoundOk(k, to, idle);
    case InIrqWait(mask) => IrqWaitDoneOk(k, mask, idle);
    case InFault => SetCurrentOk(k, Me(k).value.(resume := InUser), idle);
  }

  lemma SyscallOk(k: Kernel, ev: Event, idle: nat)
    requires KernelOk(k, idle) && Enabled(k, ev) && Polite(k, ev, idle) && Step(k, ev).Some?
    requires !IsInterrupt(ev) && !ev.EvResume?
    ensures KernelOk(Step(k, ev).value, idle)
  {
    var t := Me(k).value;
    match ev
    case SysYield => ScheduleOk(k, Ready, idle);
    case SysSleep(ms) => SleepOk(k, ms, idle);
    case SysSend(to, tag, payload) =>
      var msg := Message(t.domain, to, tag, Fixed(payload));
      if DeliverCapped(k, msg) == Deliver(k, msg) && Deliver(k, msg).Some? { DeliverOk(k, msg, idle); }
    case SysReceive => ReceiveOk(k, idle);
    case SysTryReceive =>
      var r := BoxStep(k.boxes, Pop(t.domain));
      if r.1.Some? {
        ShrinkOk(k, r.0, idle);
        SetCurrentOk(k.(boxes := r.0), t.(replyTarget := r.1.value.from), idle);
      }
    case SysCall(to, tag, payload) => CallStartOk(k, to, tag, payload, idle);
    case SysReply(tag, payload) =>
      if t.replyTarget != U64_MAX { DeliverOk(k, Message(t.domain, t.replyTarget, tag, Fixed(payload)), idle); }
    case SysFaultReply => WakeOk(k, t.replyTarget, idle);
    case SysFault(payload) => FaultOk(k, payload, idle);
    case SysRegister(irq) => RegisterOk(k, irq, idle);
    case SysIrqPoll(mask) => TakePendingOk(k, mask, t.domain, idle);
    case SysIrqWait(mask, ms) => IrqWaitOk(k, mask, ms, idle);
    case SysCapSend(_, _) =>
    case SysExit => ExitOk(k, idle);
    case SysDestroy(target) => DestroyCallOk(k, target, idle);
    case SysSpawn(loads) => if Has(k, t.domain, Capabilities.Spawn) { SpawnCallOk(k, loads, idle); }
    case SysRestart(target, loads) => if Has(k, t.domain, Capabilities.Spawn) { RestartOk(k, target, loads, idle); }
  }

  /** Every event of the run is enabled and polite when it happens; a panic ends the run. */
  ghost predicate GoodRun(k: Kernel, evs: seq<Event>, idle: nat)
    decreases |evs|
  {
    evs == [] ||
    (Sized(k.irq) && Enabled(k, evs[0]) && Polite(k, evs[0], idle)
     && (Step(k, evs[0]).Some? ==> GoodRun(Step(k, evs[0]).value, evs[1..], idle)))
  }

  /** The state after the first n events; None after a panic. */
  ghost function After(k: Kernel, evs: seq<Event>, n: nat): (r: Option<Kernel>)
    requires n <= |evs|
    decreases n
  {
    if n == 0 then Some(k)
    else if !Sized(k.irq) || !Enabled(k, evs[0]) then None
    else match Step(k, evs[0])
      case None => None
      case Some(k') => After(k', evs[1..], n - 1)
  }

  /** A run is its first step followed by the rest. */
  lemma FirstStep(k: Kernel, evs: seq<Event>, n: nat) returns (k1: Kernel)
    requires 0 < n <= |evs| && After(k, evs, n).Some?
    ensures Sized(k.irq) && Enabled(k, evs[0]) && Step(k, evs[0]) == Some(k1)
    ensures After(k, evs, n) == After(k1, evs[1..], n - 1)
  {
    k1 := Step(k, evs[0]).value;
  }

  /** The step is enabled and polite, and does not panic. */
  ghost predicate GoodStep(k: Kernel, ev: Event, idle: nat) {
    Sized(k.irq) && Enabled(k, ev) && Polite(k, ev, idle) && Step(k, ev).Some?
  }

  /** What every good step keeps holds in every state of every good run. */
  lemma {:induction false} RunKeeps(P: Kernel -> bool, k: Kernel, evs: seq<Event>, idle: nat, n: nat)
    requires P(k) && GoodRun(k, evs, idle) && n <= |evs| && After(k, evs, n).Some?
    requires forall x, ev {:trigger GoodStep(x, ev, idle)} :: P(x) && GoodStep(x, ev, idle) ==> P(Step(x, ev).value)
    ensures P(After(k, evs, n).value)
    decreases n
  {
    if n > 0 {
      var k1 := FirstStep(k, evs, n);
      assert GoodStep(k, evs[0], idle);
      RunKeeps(P, k1, evs[1..], idle, n - 1);
    }
  }

  /** In every state of every run, a task blocked in receive has an empty mailbox, and a task blocked for
      interrupts has no pending vector that is in its mask and registered to it. */
  lemma RunOk(k: Kernel, evs: seq<Event>, idle: nat, n: nat)
    requires KernelOk(k, idle) && GoodRun(k, evs, idle) && n <= |evs| && After(k, evs, n).Some?
    ensures KernelOk(After(k, evs, n).value, idle)
  {
    forall x, ev | KernelOk(x, idle) && GoodStep(x, ev, idle) ensures KernelOk(Step(x, ev).value, idle) {
      StepOk(x, ev, idle);
    }
    RunKeeps(x => KernelOk(x, idle), k, evs, idle, n);
  }
}
