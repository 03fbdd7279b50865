/** What a blocked caller gets: exactly when a page fault reaches the pager, and exactly when the reply a call
    returns was sent after its request. */
module KernelCalls {
  import opened Wrappers
  import opened Scheduling
  import opened Mailboxes
  import opened Interrupts
  import opened KernelSteps
  import opened KernelSafety
  import opened KernelInvariant
  import opened KernelRuns
  import T = KernelTiming

  // ---- page faults ----

  /** A faulting task always blocks, without a deadline. Its pager is told exactly when the pager's mailbox has
      room; otherwise the fault is lost and nothing but a message to the task's domain will wake it. */
  lemma FaultTold(k: Kernel, payload: seq<Byte>, idle: nat)
    requires KernelOk(k, idle) && k.sched.current != idle && Fault(k, Me(k).value, payload).Some?
    ensures var k', t := Fault(k, Me(k).value, payload).value, Me(k).value;
            var pager := k.pagers[t.domain].value;
            && k'.sched.tasks[k.sched.current] == Some(BlockedTask(t, t.domain, 0, InFault))
            && pager < |k.boxes|
            && k'.boxes == if |k.boxes[pager]| >= MAILBOX_CAP then k.boxes
                           else k.boxes[pager := k.boxes[pager] + [Message(t.domain, pager, FAULT_TAG, Fixed(payload))]]
  {
    var t := Me(k).value;
    var msg := Message(t.domain, k.pagers[t.domain].value, FAULT_TAG, Fixed(payload));
    var k1 := DeliverCapped(k, msg).value;
    if k1 != k { DeliverKeepsMe(k, msg); }
    BlockEffect(k1.sched, t.domain, None, InFault);
  }

  // ---- replies ----

  /** Takes from mailbox r or empties it. */
  predicate Drains(op: BoxOp, r: nat) {
    match op
    case Push(_, _) => false
    case Pop(me) => me == r
    case TakeFrom(me, _) => me == r
    case ResetBox(id) => id == r
  }

  predicate NoneDrains(ops: seq<BoxOp>, r: nat) { forall i :: 0 <= i < |ops| ==> !Drains(ops[i], r) }

  /** The messages from s that the operations push into mailbox r. */
  function Pushed(ops: seq<BoxOp>, s: nat, r: nat): (msgs: seq<Message>) {
    if ops == [] then []
    else (if ops[0].Push? && ops[0].to == r && ops[0].msg.from == s then [ops[0].msg] else []) + Pushed(ops[1..], s, r)
  }

  lemma StepQueues(boxes: Boxes, op: BoxOp, s: nat, r: nat)
    requires !Drains(op, r) && r < |boxes|
    ensures var b := BoxStep(boxes, op).0;
            r < |b| && From(b[r], s) == From(boxes[r], s) + if op.Push? && op.to == r && op.msg.from == s then [op.msg]
              else []
  {
    if op.Push? && op.to == r {
      FromAppend(boxes[r], [op.msg], s);
      assert [op.msg][1..] == [];
    }
  }

  /** A mailbox nobody drains only grows. */
  lemma {:induction false} RunQueues(boxes: Boxes, ops: seq<BoxOp>, s: nat, r: nat)
    requires NoneDrains(ops, r) && r < |boxes|
    ensures r < |BoxRun(boxes, ops)| && From(BoxRun(boxes, ops)[r], s) == From(boxes[r], s) + Pushed(ops, s, r)
    decreases |ops|
  {
    if ops != [] {
      var b := BoxStep(boxes, ops[0]).0;
      var first := if ops[0].Push? && ops[0].to == r && ops[0].msg.from == s then [ops[0].msg] else [];
      StepQueues(boxes, ops[0], s, r);
      RunQueues(b, ops[1..], s, r);
      assert BoxRun(boxes, ops) == BoxRun(b, ops[1..]);
      assert (From(boxes[r], s) + first) + Pushed(ops[1..], s, r) ==
        From(boxes[r], s) + (first + Pushed(ops[1..], s, r));
    }
  }

  /** Task i lives, is not running, and is not the idle task. */
  predicate Waits(k: Kernel, i: nat, idle: nat) {
    i < |k.sched.tasks| && IsLive(k.sched.tasks[i]) && i != k.sched.current && i != idle
  }

  /** While a task does not run, no step drains its domain's mailbox, unless it destroys the domain. */
  lemma StepSparesBox(k: Kernel, ev: Event, idle: nat, i: nat)
    requires KernelOk(k, idle) && Enabled(k, ev) && Polite(k, ev, idle) && Step(k, ev).Some? && Waits(k, i, idle)
    requires T.Spares(k, ev, i)
    ensures NoneDrains(BoxOps(k, ev), k.sched.tasks[i].value.domain)
  {
    var d, t := k.sched.tasks[i].value.domain, Me(k).value;
    assert LiveIn(k.sched.tasks[i], d);
    if ev.EvTick? {
      ReclaimSpares(k, idle, i);
    } else if k.sched.current != idle {
      assert IsLive(k.sched.tasks[k.sched.current]) && t.domain != d;
      assert Alive(k, d);
    }
  }

  lemma DestroyDeadOk(k: Kernel, d: nat, idle: nat, i: nat)
    requires KernelOk(k, idle) && LiveTasks(k.sched.tasks, d) == 0 && i < |k.sched.tasks| && IsLive(k.sched.tasks[i])
    ensures var k' := Destroy(k, d);
            && KernelOk(k', idle) && i < |k'.sched.tasks| && IsLive(k'.sched.tasks[i])
            && k'.sched.tasks[i].value.domain == k.sched.tasks[i].value.domain != d
  {
    DeadElsewhere(k, d);
    DestroyOk(k, d, idle);
    RemoveRelaxes(k.sched, d);
  }

  lemma {:induction false} ReclaimSpares(k: Kernel, idle: nat, i: nat)
    requires KernelOk(k, idle) && i < |k.sched.tasks| && IsLive(k.sched.tasks[i])
    ensures NoneDrains(ReclaimOps(k), k.sched.tasks[i].value.domain)
    decreases |k.dying|
  {
    if k.dying != [] {
      var n := |k.dying| - 1;
      var k1 := k.(dying := k.dying[..n]);
      var d, k2, me := k.dying[n], Destroy(k1, k.dying[n]), k.sched.tasks[i].value.domain;
      assert KernelOk(k2, idle) && d != me && IsLive(k2.sched.tasks[i]) && k2.sched.tasks[i].value.domain == me by {
        assert KernelOk(k1, idle);
        DestroyDeadOk(k1, d, idle, i);
      }
      assert NoneDrains(ReclaimOps(k2), me) by { ReclaimSpares(k2, idle, i); }
      NoneDrainsJoin(if Alive(k1, d) then [ResetBox(d)] else [], ReclaimOps(k2), me);
    }
  }

  lemma NoneDrainsJoin(a: seq<BoxOp>, b: seq<BoxOp>, r: nat)
    requires NoneDrains(a, r) && NoneDrains(b, r)
    ensures NoneDrains(a + b, r)
  {
  }

  /** Task i waits in a call to `to`. */
  predicate Calls(k: Kernel, i: nat, to: nat) {
    && i < |k.sched.tasks| && k.sched.tasks[i].Some? && k.sched.tasks[i].value.resume == InCall(to)
    && k.sched.tasks[i].value.domain < |k.boxes|
  }

  /** It runs now, or will without anybody's help. */
  predicate Comes(k: Kernel, i: nat) { k.sched.current == i || R.Pending(k.sched, i) }

  /** For n steps the call of task i has not returned, its domain is not destroyed and the kernel does not panic. It
      may run in between, find no reply and wait again. */
  ghost predicate InCallFor(k: Kernel, evs: seq<Event>, n: nat, i: nat, to: nat)
    requires n <= |evs|
    decreases n
  {
    n > 0 ==>
      && Sized(k.irq) && Enabled(k, evs[0]) && Step(k, evs[0]).Some? && T.Spares(k, evs[0], i)
      && Calls(Step(k, evs[0]).value, i, to) && InCallFor(Step(k, evs[0]).value, evs[1..], n - 1, i, to)
  }

  /** While a caller waits, what its target sends it queues up behind what was there. */
  lemma {:induction false} CallerQueue(k: Kernel, evs: seq<Event>, n: nat, idle: nat, i: nat, to: nat)
    requires KernelOk(k, idle) && GoodRun(k, evs, idle) && n <= |evs| && InCallFor(k, evs, n, i, to)
    requires Calls(k, i, to) && Comes(k, i)
    ensures After(k, evs, n).Some? && Calls(After(k, evs, n).value, i, to)
    ensures var k', me := After(k, evs, n).value, k.sched.tasks[i].value.domain;
            && k'.sched.tasks[i].value.domain == me
            && From(k'.boxes[me], to) == From(k.boxes[me], to) + Pushed(RunOps(k, evs, n), to, me)
    decreases n
  {
    if n > 0 {
      var k1, ops, me := Step(k, evs[0]).value, BoxOps(k, evs[0]), k.sched.tasks[i].value.domain;
      CallerStep(k, evs[0], idle, i, to);
      CallerQueue(k1, evs[1..], n - 1, idle, i, to);
      var rest, last := RunOps(k1, evs[1..], n - 1), After(k1, evs[1..], n - 1).value;
      assert RunOps(k, evs, n) == ops + rest && After(k, evs, n) == Some(last);
      QueueJoin(From(k.boxes[me], to), From(k1.boxes[me], to), From(last.boxes[me], to), ops, rest, to, me);
    }
  }

  lemma QueueJoin(
    q0: seq<Message>, q1: seq<Message>, q2: seq<Message>, a: seq<BoxOp>, b: seq<BoxOp>, s: nat, r: nat)
    requires q1 == q0 + Pushed(a, s, r) && q2 == q1 + Pushed(b, s, r)
    ensures q2 == q0 + Pushed(a + b, s, r)
  {
    PushedJoin(a, b, s, r);
  }

  lemma CallerStep(k: Kernel, ev: Event, idle: nat, i: nat, to: nat)
    requires KernelOk(k, idle) && Enabled(k, ev) && Polite(k, ev, idle) && Step(k, ev).Some? && T.Spares(k, ev, i)
    requires Calls(k, i, to) && Comes(k, i) && Calls(Step(k, ev).value, i, to)
    ensures var k', me := Step(k, ev).value, k.sched.tasks[i].value.domain;
            && KernelOk(k', idle) && k'.sched.tasks[i].value.domain == me && Comes(k', i)
            && From(k'.boxes[me], to) == From(k.boxes[me], to) + Pushed(BoxOps(k, ev), to, me)
  {
    StepOk(k, ev, idle);
    if i == k.sched.current { FailedRound(k, ev, to); } else { OtherStep(k, ev, idle, i, to); }
  }

  lemma OtherStep(k: Kernel, ev: Event, idle: nat, i: nat, to: nat)
    requires KernelOk(k, idle) && Enabled(k, ev) && Polite(k, ev, idle) && Step(k, ev).Some? && T.Spares(k, ev, i)
    requires Calls(k, i, to) && R.Pending(k.sched, i) && i != k.sched.current
    ensures var k', me := Step(k, ev).value, k.sched.tasks[i].value.domain;
            && i < |k'.sched.tasks| && k'.sched.tasks[i].Some? && k'.sched.tasks[i].value.domain == me
            && Comes(k', i) && me < |k'.boxes|
            && From(k'.boxes[me], to) == From(k.boxes[me], to) + Pushed(BoxOps(k, ev), to, me)
  {
    T.StepNoLater(k, ev, idle, i);
    StepSparesBox(k, ev, idle, i);
    StepBoxes(k, ev);
    RunQueues(k.boxes, BoxOps(k, ev), to, k.sched.tasks[i].value.domain);
  }

  /** A round that does not end the call took nothing, and waits for the poll interval again. */
  lemma FailedRound(k: Kernel, ev: Event, to: nat)
    requires Sized(k.irq) && Enabled(k, ev) && Step(k, ev).Some? && Is(k.sched, k.sched.current, Running)
    requires Calls(k, k.sched.current, to) && Calls(Step(k, ev).value, k.sched.current, to)
    ensures var k', i := Step(k, ev).value, k.sched.current;
            var me := k.sched.tasks[i].value.domain;
            && k'.sched.tasks[i].value.domain == me && R.Pending(k'.sched, i) && k'.boxes == k.boxes
            && Pushed(BoxOps(k, ev), to, me) == []
  {
    var t := Me(k).value;
    assert ev == EvResume && BoxOps(k, ev) == [TakeFrom(t.domain, to)];
    assert [TakeFrom(t.domain, to)][1..] == [];
    BlockEffect(k.sched, t.domain, Some(CALL_POLL_MS), InCall(to));
  }

  lemma {:induction false} PushedJoin(a: seq<BoxOp>, b: seq<BoxOp>, s: nat, r: nat)
    ensures Pushed(a + b, s, r) == Pushed(a, s, r) + Pushed(b, s, r)
    decreases |a|
  {
    if a == [] {
      assert a + b == b;
    } else {
      assert (a + b)[1..] == a[1..] + b;
      PushedJoin(a[1..], b, s, r);
    }
  }

  /** The reply of a waiting call is the oldest message of its target: one that was queued when the wait began if
      there was one, and otherwise the first one the target sent since, however often the caller woke in between. */
  lemma WaitingReply(k: Kernel, evs: seq<Event>, n: nat, idle: nat, i: nat, to: nat)
    requires KernelOk(k, idle) && GoodRun(k, evs, idle) && n <= |evs| && InCallFor(k, evs, n, i, to)
    requires Calls(k, i, to) && Comes(k, i)
    ensures var me := k.sched.tasks[i].value.domain;
            var before, since := From(k.boxes[me], to), Pushed(RunOps(k, evs, n), to, me);
            && After(k, evs, n).Some?
            && BoxStep(After(k, evs, n).value.boxes, TakeFrom(me, to)).1 ==
               if before != [] then Some(before[0]) else if since != [] then Some(since[0]) else None
  {
    CallerQueue(k, evs, n, idle, i, to);
    var me := k.sched.tasks[i].value.domain;
    OldestFrom(After(k, evs, n).value.boxes[me], to);
  }

  /** From the request to the return: `k` is the state in which the call is made, `evs` what happens until the round
      that ends it. The message it returns was sent after the request exactly when nothing from the target was queued
      before; a call to the own domain finds its own request. */
  lemma CallReplyExact(
    k: Kernel, to: nat, tag: nat, payload: seq<Byte>, evs: seq<Event>, n: nat, idle: nat)
    requires KernelOk(k, idle) && k.sched.current != idle && CallStart(k, Me(k).value, to, tag, payload).Some?
    requires Has(k, Me(k).value.domain, Capabilities.SendTo(to)) && LiveTasks(k.sched.tasks, to) != 0
    requires Me(k).value.domain < |k.boxes|
    requires var k1 := CallStart(k, Me(k).value, to, tag, payload).value;
             GoodRun(k1, evs, idle) && n <= |evs| && InCallFor(k1, evs, n, k.sched.current, to)
    ensures var me, k1 := Me(k).value.domain, CallStart(k, Me(k).value, to, tag, payload).value;
            var request := Message(me, to, tag, Fixed(payload));
            var before, since := From(k.boxes[me], to), Pushed(RunOps(k1, evs, n), to, me);
            && After(k1, evs, n).Some?
            && BoxStep(After(k1, evs, n).value.boxes, TakeFrom(me, to)).1 ==
               if before != [] then Some(before[0])
               else if to == me then Some(request)
               else if since != [] then Some(since[0]) else None
  {
    var me, i, k1 := Me(k).value.domain, k.sched.current, CallStart(k, Me(k).value, to, tag, payload).value;
    T.CallWaits(k, to, tag, payload, idle);
    CallerBox(k, to, tag, payload);
    WaitingReply(k1, evs, n, idle, i, to);
  }

  /** The request goes into the target's mailbox. */
  lemma CallerBox(k: Kernel, to: nat, tag: nat, payload: seq<Byte>)
    requires Is(k.sched, k.sched.current, Running) && CallStart(k, Me(k).value, to, tag, payload).Some?
    requires Has(k, Me(k).value.domain, Capabilities.SendTo(to)) && LiveTasks(k.sched.tasks, to) != 0
    requires Me(k).value.domain < |k.boxes|
    ensures var me, k1 := Me(k).value.domain, CallStart(k, Me(k).value, to, tag, payload).value;
            && me < |k1.boxes| && k1.sched.tasks[k.sched.current].Some?
            && k1.sched.tasks[k.sched.current].value.domain == me
            && From(k1.boxes[me], to) ==
               From(k.boxes[me], to) + if to == me then [Message(me, to, tag, Fixed(payload))] else []
  {
    var me, msg := Me(k).value.domain, Message(Me(k).value.domain, to, tag, Fixed(payload));
    StepQueues(k.boxes, Push(to, msg), to, me);
    DeliverKeepsMe(k, msg);
    BlockEffect(Deliver(k, msg).value.sched, me, Some(CALL_POLL_MS), InCall(to));
  }

  lemma OldestFrom(box: seq<Message>, s: nat)
    ensures FirstFrom(box, s) < |box| <==> From(box, s) != []
    ensures FirstFrom(box, s) < |box| ==> box[FirstFrom(box, s)] == From(box, s)[0]
    decreases |box|
  {
    if box != [] && box[0].from != s { OldestFrom(box[1..], s); }
  }
}
