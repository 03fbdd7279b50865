/** Consequences for whole runs of the kernel: no lost wakeup, exact delivery, what destroying a domain
    clears, and exactly when deferred reclaim takes a live task with it. */
module KernelRuns {
  import opened Wrappers
  import opened Slots
  import opened Scheduling
  import opened Mailboxes
  import opened Interrupts
  import opened KernelSteps
  import opened KernelSafety
  import opened KernelInvariant

  /** No lost interrupt and no lost message, in every state of every run. */
  lemma NoLostWakeup(k: Kernel, evs: seq<Event>, idle: nat, n: nat, i: nat)
    requires KernelOk(k, idle) && GoodRun(k, evs, idle) && n <= |evs| && After(k, evs, n).Some?
    requires i < |After(k, evs, n).value.sched.tasks| && Is(After(k, evs, n).value.sched, i, Blocked)
    ensures var k' := After(k, evs, n).value;
            var t := k'.sched.tasks[i].value;
            && Sized(k'.irq)
            && (t.resume.InReceive? ==> t.domain < |k'.boxes| && k'.boxes[t.domain] == [])
            && (t.resume.InIrqWait? ==>
                  forall v: nat | InMsiRange(v) && v - MSI_VECTOR_BASE in t.resume.mask ::
                    k'.irq.vectors[v] == Some(t.domain) ==> !k'.irq.pending[v])
  {
    RunOk(k, evs, idle, n);
    var k' := After(k, evs, n).value;
    var t := k'.sched.tasks[i].value;
    assert TaskOk(k'.boxes, k'.irq, t);
    if t.resume.InIrqWait? {
      forall v: nat | InMsiRange(v) && v - MSI_VECTOR_BASE in t.resume.mask
        && k'.irq.vectors[v] == Some(t.domain) ensures !k'.irq.pending[v]
      {
        assert !Hits(k'.irq, t.resume.mask, t.domain, v - MSI_VECTOR_BASE);
      }
    }
  }

  // ---- destroying a domain ----

  /** Destroying empties every row of the domain, removes its tasks, and leaves every other task alone, except
      that whoever waited on the domain is ready again. */
  lemma DestroyClears(k: Kernel, d: nat)
    requires Sized(k.irq) && Alive(k, d)
    ensures var k' := Destroy(k, d);
            && !Alive(k', d)
            && (forall c :: !Capabilities.Holds(k'.caps, d, c)) && (forall h :: Cell(k'.handles, d, h) == None)
            && d < |k'.boxes| && k'.boxes[d] == [] && d < |k'.pagers| && k'.pagers[d] == None
            && (d < ANY_MAX_DOMAINS ==> k'.irq.anyMask[d] == {})
            && Some(d) !in k'.irq.vectors && Some(d) !in k'.irq.handlers
            && (forall i :: 0 <= i < |k'.sched.tasks| && k'.sched.tasks[i].Some? ==>
              k'.sched.tasks[i].value.domain != d)
            && (forall i :: 0 <= i < |k'.sched.tasks| ==> !WaitsOn(k'.sched.tasks[i], d))
    ensures var k' := Destroy(k, d);
            forall i :: 0 <= i < |k.sched.tasks| && k.sched.tasks[i].Some? && k.sched.tasks[i].value.domain != d ==>
              k'.sched.tasks[i] == if WaitsOn(k.sched.tasks[i], d) then Some(Woken(k.sched.tasks[i].value))
                else k.sched.tasks[i]
  {
    assert k.alive[d := false][d] == false;
  }

  /** The rows of every other domain stay as they were. */
  lemma DestroySparesRows(k: Kernel, d: nat, e: nat)
    requires Sized(k.irq) && e != d
    ensures var k' := Destroy(k, d);
            && (Alive(k', e) <==> Alive(k, e))
            && (forall c :: Capabilities.Holds(k'.caps, e, c) <==> Capabilities.Holds(k.caps, e, c))
            && (forall h :: Cell(k'.handles, e, h) == Cell(k.handles, e, h))
            && Queued(k'.boxes, e) == Queued(k.boxes, e)
            && (e < |k.pagers| ==> k'.pagers[e] == k.pagers[e])
            && (e < ANY_MAX_DOMAINS ==> k'.irq.anyMask[e] == k.irq.anyMask[e])
            && (forall v :: 0 <= v < VECTOR_COUNT ==> (k'.irq.vectors[v] == Some(e) <==> k.irq.vectors[v] == Some(e)))
  {
    if Alive(k, d) {
      var k' := Destroy(k, d);
      EmptyRowElsewhere(k.caps, d, e, EmptyRow(Capabilities.CAP_SLOTS));
      EmptyRowElsewhere(k.handles, d, e, EmptyRow(Handles.HANDLE_SLOTS));
      assert k'.caps == SetRow(k.caps, d, EmptyRow(Capabilities.CAP_SLOTS));
    }
  }

  lemma EmptyRowElsewhere<T>(t: Table<T>, d: nat, e: nat, row: Row<T>)
    requires e != d && forall i :: 0 <= i < |row| ==> row[i].None?
    ensures var r := SetRow(t, d, row);
            && (e < |t| ==> e < |r| && r[e] == t[e])
            && (e >= |t| && e < |r| ==> r[e] == row)
            && (forall h :: Cell(r, e, h) == Cell(t, e, h))
  {
  }

  // ---- starting a program ----

  /** A started program holds exactly its three start capabilities, whatever the slot's last owner held: no
      handle, no message, and the loader as its pager. */
  lemma SpawnStartsMinimal(k: Kernel, loader: nat)
    requires Sized(k.irq) && SpawnTask(k.sched, FirstDead(k.alive)).Some?
    ensures var k', id := SpawnDomain(k, loader, true), FirstDead(k.alive);
            && Alive(k', id) && LiveTasks(k'.sched.tasks, id) > 0
            && (forall c :: Capabilities.Holds(k'.caps, id, c) <==> c in Capabilities.StartCaps())
            && (forall h :: Cell(k'.handles, id, h) == None) && Queued(k'.boxes, id) == []
            && id < |k'.pagers| && k'.pagers[id] == Some(loader)
  {
    var k', id := SpawnDomain(k, loader, true), FirstDead(k.alive);
    forall c ensures Capabilities.Holds(k'.caps, id, c) <==> c in Capabilities.StartCaps() {
      Capabilities.StartHolds(k.caps, id, id, c);
    }
    assert LiveIn(k'.sched.tasks[FreeSlot(k.sched.tasks)], id);
  }

  // ---- deferred reclaim ----

  /** After a step every domain waiting to be reclaimed is without live tasks exactly when the step did not
      start a task in one of them. */
  lemma ReviveExact(k: Kernel, ev: Event, idle: nat)
    requires KernelOk(k, idle) && Enabled(k, ev) && PoliteElse(k, ev, idle) && Step(k, ev).Some?
    ensures DyingDead(Step(k, ev).value.dying, Step(k, ev).value.sched.tasks) <==> !Revives(k, ev)
  {
    if !Revives(k, ev) {
      StepOk(k, ev, idle);
    } else {
      var k', d := Step(k, ev).value, Revived(k, ev);
      var i :| 0 <= i < |k.dying| && k.dying[i] == d;
      RevivedLive(k, ev);
      assert k'.dying[i] == d;
    }
  }

  function Revived(k: Kernel, ev: Event): (d: nat) { if ev.SysRestart? then ev.target else FirstDead(k.alive) }

  lemma RevivedLive(k: Kernel, ev: Event)
    requires Sized(k.irq) && Enabled(k, ev) && Revives(k, ev)
    ensures var k' := Step(k, ev).value;
            Step(k, ev).Some? && k'.dying == k.dying && Alive(k', Revived(k, ev))
              && LiveTasks(k'.sched.tasks, Revived(k, ev)) > 0
  {
    var d := Revived(k, ev);
    var s := if ev.SysRestart? then Reap(k.sched, d) else k.sched;
    var s' := SpawnTask(s, d).value;
    assert LiveIn(s'.tasks[FreeSlot(s.tasks)], d);
  }

  /** The next tick then removes the revived domain and every task in it, running or not. */
  lemma RevivedIsReclaimed(k: Kernel, ev: Event)
    requires Sized(k.irq) && Enabled(k, ev) && Revives(k, ev)
    ensures var k', d := Step(k, ev).value, Revived(k, ev);
            && Step(k, ev).Some? && LiveTasks(k'.sched.tasks, d) > 0
            && Sized(k'.irq) && !Alive(Reclaim(k'), d) && LiveTasks(Reclaim(k').sched.tasks, d) == 0
  {
    RevivedLive(k, ev);
    var k', d := Step(k, ev).value, Revived(k, ev);
    ReclaimRemoves(k', d);
  }

  lemma {:induction false} ReclaimRemoves(k: Kernel, d: nat)
    requires Sized(k.irq) && ((d in k.dying && Alive(k, d)) || (!Alive(k, d) && LiveTasks(k.sched.tasks, d) == 0))
    ensures !Alive(Reclaim(k), d) && LiveTasks(Reclaim(k).sched.tasks, d) == 0
    decreases |k.dying|
  {
    if k.dying != [] {
      var n := |k.dying| - 1;
      var k1 := k.(dying := k.dying[..n]);
      var k2 := Destroy(k1, k.dying[n]);
      RemoveRelaxes(k.sched, k.dying[n]);
      if !Alive(k, d) {
        StaysDead(k.sched, k.dying[n], d);
      } else if k.dying[n] == d {
        assert forall i :: 0 <= i < |k2.sched.tasks| ==> !LiveIn(k2.sched.tasks[i], d);
      } else {
        assert k.dying[..n] + [k.dying[n]] == k.dying;
      }
      ReclaimRemoves(k2, d);
    }
  }

  lemma StaysDead(s: Sched, e: nat, d: nat)
    requires LiveTasks(s.tasks, d) == 0
    ensures LiveTasks(Scheduling.RemoveDomain(s, e).tasks, d) == 0
  {
    var s' := Scheduling.RemoveDomain(s, e);
    forall i | 0 <= i < |s'.tasks| ensures !LiveIn(s'.tasks[i], d) { assert !LiveIn(s.tasks[i], d); }
  }

  // ---- delivery ----

  function ReclaimOps(k: Kernel): (ops: seq<BoxOp>)
    requires Sized(k.irq)
    decreases |k.dying|
  {
    if k.dying == [] then []
    else
      var n := |k.dying| - 1;
      var k1 := k.(dying := k.dying[..n]);
      (if Alive(k1, k.dying[n]) then [ResetBox(k.dying[n])] else []) + ReclaimOps(Destroy(k1, k.dying[n]))
  }

  lemma {:induction false} ReclaimBoxes(k: Kernel)
    requires Sized(k.irq)
    ensures Reclaim(k).boxes == BoxRun(k.boxes, ReclaimOps(k))
    decreases |k.dying|
  {
    if k.dying != [] {
      var n := |k.dying| - 1;
      var k1 := k.(dying := k.dying[..n]);
      ReclaimBoxes(Destroy(k1, k.dying[n]));
      assert [] + ReclaimOps(Destroy(k1, k.dying[n])) == ReclaimOps(Destroy(k1, k.dying[n]));
      if Alive(k1, k.dying[n]) {
        BoxRunAppend(k.boxes, [ResetBox(k.dying[n])], ReclaimOps(Destroy(k1, k.dying[n])));
        assert BoxRun(k.boxes, [ResetBox(k.dying[n])]) == BoxRun(BoxStep(k.boxes, ResetBox(k.dying[n])).0, []);
      }
    }
  }

  function CappedOps(k: Kernel, msg: Message): (ops: seq<BoxOp>) {
    if msg.to < |k.boxes| && |k.boxes[msg.to]| >= MAILBOX_CAP then [] else [Push(msg.to, msg)]
  }

  /** What a step does to mailboxes. */
  function BoxOps(k: Kernel, ev: Event): (ops: seq<BoxOp>)
    requires Sized(k.irq) && Enabled(k, ev)
  {
    var t := Me(k).value;
    match ev
    case EvTick => ReclaimOps(k)
    case EvPic(irq, data) =>
      (match k.irq.handlers[irq] case None => [] case Some(d) => CappedOps(k, Message(0, d, data, Fixed([]))))
    case EvResume =>
      if t.resume.InReceive? then [Pop(t.domain)]
      else if t.resume.InCall? then [TakeFrom(t.domain, t.resume.to)] else []
    case SysSend(to, tag, payload) =>
      if Has(k, t.domain, Capabilities.SendTo(to)) then CappedOps(k, Message(t.domain, to, tag, Fixed(payload))) else []
    case SysReceive => [Pop(t.domain)]
    case SysTryReceive => [Pop(t.domain)]
    case SysCall(to, tag, payload) =>
      if Has(k, t.domain, Capabilities.SendTo(to)) && LiveTasks(k.sched.tasks, to) != 0
      then [Push(to, Message(t.domain, to, tag, Fixed(payload)))] else []
    case SysReply(tag, payload) =>
      if t.replyTarget == U64_MAX then []
        else [Push(t.replyTarget, Message(t.domain, t.replyTarget, tag, Fixed(payload)))]
    case SysFault(payload) =>
      if t.domain >= |k.pagers| || k.pagers[t.domain].None? then []
      else CappedOps(k, Message(t.domain, k.pagers[t.domain].value, FAULT_TAG, Fixed(payload)))
    case SysDestroy(target) =>
      if Destroys(k, target) then [ResetBox(target)] else []
    case SysSpawn(loads) =>
      if !Has(k, t.domain, Capabilities.Spawn) then []
      else if loads && SpawnTask(k.sched, FirstDead(k.alive)).Some? then [ResetBox(FirstDead(k.alive))]
      else [ResetBox(FirstDead(k.alive)), ResetBox(FirstDead(k.alive))]
    case SysRestart(target, _) =>
      if Has(k, t.domain, Capabilities.Spawn) && Alive(k, target) && LiveTasks(k.sched.tasks, target) == 0
      then [ResetBox(target)] else []
    case _ => []
  }

  lemma OneOp(boxes: Boxes, op: BoxOp)
    ensures BoxRun(boxes, [op]) == BoxStep(boxes, op).0
  {
    assert BoxRun(boxes, [op]) == BoxRun(BoxStep(boxes, op).0, [op][1..]);
  }

  lemma CappedBoxes(k: Kernel, msg: Message)
    requires DeliverCapped(k, msg).Some?
    ensures DeliverCapped(k, msg).value.boxes == BoxRun(k.boxes, CappedOps(k, msg))
  {
    OneOp(k.boxes, Push(msg.to, msg));
  }

  lemma StepBoxes(k: Kernel, ev: Event)
    requires Sized(k.irq) && Enabled(k, ev) && Step(k, ev).Some?
    ensures Step(k, ev).value.boxes == BoxRun(k.boxes, BoxOps(k, ev))
  {
    if ev.EvTick? { ReclaimBoxes(k); }
    else if ev.EvPic? || ev.SysSend? || ev.SysFault? { CappedStepBoxes(k, ev); }
    else if ev.EvResume? || ev.SysReceive? || ev.SysTryReceive? { TakeStepBoxes(k, ev); }
    else if ev.SysCall? || ev.SysReply? { PushStepBoxes(k, ev); }
    else if ev.SysDestroy? || ev.SysRestart? { ResetStepBoxes(k, ev); }
    else if ev.SysSpawn? { SpawnStepBoxes(k, ev.loads); }
  }

  lemma CappedStepBoxes(k: Kernel, ev: Event)
    requires Sized(k.irq) && Enabled(k, ev) && Step(k, ev).Some? && (ev.EvPic? || ev.SysSend? || ev.SysFault?)
    ensures Step(k, ev).value.boxes == BoxRun(k.boxes, BoxOps(k, ev))
  {
    var t := Me(k).value;
    if ev.EvPic? {
      if k.irq.handlers[ev.irq].Some? { CappedBoxes(k, Message(0, k.irq.handlers[ev.irq].value, ev.data, Fixed([]))); }
    } else if ev.SysSend? {
      if Has(k, t.domain, Capabilities.SendTo(ev.to)) {
        CappedBoxes(k, Message(t.domain, ev.to, ev.tag, Fixed(ev.payload)));
      }
    } else {
      CappedBoxes(k, Message(t.domain, k.pagers[t.domain].value, FAULT_TAG, Fixed(ev.payload)));
    }
  }

  lemma TakeStepBoxes(k: Kernel, ev: Event)
    requires Sized(k.irq) && Enabled(k, ev) && Step(k, ev).Some?
    requires (ev.EvResume? || ev.SysReceive? || ev.SysTryReceive?)
    ensures Step(k, ev).value.boxes == BoxRun(k.boxes, BoxOps(k, ev))
  {
    var t := Me(k).value;
    OneOp(k.boxes, Pop(t.domain));
    if t.resume.InCall? { OneOp(k.boxes, TakeFrom(t.domain, t.resume.to)); }
  }

  lemma PushStepBoxes(k: Kernel, ev: Event)
    requires Sized(k.irq) && Enabled(k, ev) && Step(k, ev).Some? && (ev.SysCall? || ev.SysReply?)
    ensures Step(k, ev).value.boxes == BoxRun(k.boxes, BoxOps(k, ev))
  {
    var t := Me(k).value;
    var msg := if ev.SysCall? then Message(t.domain, ev.to, ev.tag, Fixed(ev.payload))
               else Message(t.domain, t.replyTarget, ev.tag, Fixed(ev.payload));
    OneOp(k.boxes, Push(msg.to, msg));
  }

  lemma ResetStepBoxes(k: Kernel, ev: Event)
    requires Sized(k.irq) && Enabled(k, ev) && Step(k, ev).Some? && (ev.SysDestroy? || ev.SysRestart?)
    ensures Step(k, ev).value.boxes == BoxRun(k.boxes, BoxOps(k, ev))
  {
    OneOp(k.boxes, ResetBox(ev.target));
  }

  lemma SpawnStepBoxes(k: Kernel, loads: bool)
    requires Sized(k.irq) && Enabled(k, SysSpawn(loads))
    ensures Step(k, SysSpawn(loads)).value.boxes == BoxRun(k.boxes, BoxOps(k, SysSpawn(loads)))
  {
    var id := FirstDead(k.alive);
    OneOp(k.boxes, ResetBox(id));
    OneOp(BoxStep(k.boxes, ResetBox(id)).0, ResetBox(id));
    BoxRunAppend(k.boxes, [ResetBox(id)], [ResetBox(id)]);
    assert [ResetBox(id)] + [ResetBox(id)] == [ResetBox(id), ResetBox(id)];
  }

  /** The mailbox operations of the first n events. */
  ghost function RunOps(k: Kernel, evs: seq<Event>, n: nat): (ops: seq<BoxOp>)
    requires n <= |evs|
    decreases n
  {
    if n == 0 || !Sized(k.irq) || !Enabled(k, evs[0]) || Step(k, evs[0]).None? then []
    else BoxOps(k, evs[0]) + RunOps(Step(k, evs[0]).value, evs[1..], n - 1)
  }

  lemma FirstOps(k: Kernel, k1: Kernel, evs: seq<Event>, n: nat)
    requires 0 < n <= |evs| && Sized(k.irq) && Enabled(k, evs[0]) && Step(k, evs[0]) == Some(k1)
    ensures RunOps(k, evs, n) == BoxOps(k, evs[0]) + RunOps(k1, evs[1..], n - 1)
  {
  }

  lemma {:induction false} RunBoxes(k: Kernel, evs: seq<Event>, n: nat)
    requires n <= |evs| && After(k, evs, n).Some?
    ensures After(k, evs, n).value.boxes == BoxRun(k.boxes, RunOps(k, evs, n))
    decreases n
  {
    if n > 0 {
      var k1 := FirstStep(k, evs, n);
      RunBoxes(k1, evs[1..], n - 1);
      FirstOps(k, k1, evs, n);
      assert k1.boxes == BoxRun(k.boxes, BoxOps(k, evs[0])) by { StepBoxes(k, evs[0]); }
      JoinBoxes(k.boxes, k1.boxes, After(k, evs, n).value.boxes, BoxOps(k, evs[0]), RunOps(k1, evs[1..], n - 1));
    }
  }

  lemma JoinBoxes(b0: Boxes, b1: Boxes, b2: Boxes, ops1: seq<BoxOp>, ops2: seq<BoxOp>)
    requires b1 == BoxRun(b0, ops1) && b2 == BoxRun(b1, ops2)
    ensures b2 == BoxRun(b0, ops1 + ops2)
  {
    BoxRunAppend(b0, ops1, ops2);
  }

  /** Over every run, for every sender and receiver: the messages consumed followed by those still queued are
      exactly those pushed since the receiver's mailbox was last reset, in order. */
  lemma RunDeliversExactly(k: Kernel, evs: seq<Event>, n: nat, s: nat, r: nat)
    requires n <= |evs| && After(k, evs, n).Some?
    ensures var start := Log(From(Queued(k.boxes, r), s), []);
            Delivered(TrackRun(start, k.boxes, RunOps(k, evs, n), s, r), After(k, evs, n).value.boxes, s, r)
  {
    var ops, boxes := RunOps(k, evs, n), After(k, evs, n).value.boxes;
    assert boxes == BoxRun(k.boxes, ops) by { RunBoxes(k, evs, n); }
    RunDelivers(Log(From(Queued(k.boxes, r), s), []), k.boxes, ops, s, r);
  }
}
