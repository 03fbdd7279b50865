/** The kernel paths between two block points as they run (kernel/src/ipc.rs, irq.rs, domain.rs, syscall.rs):
    each changes the scheduler, mailboxes, interrupt tables and rows in place, proved against `KernelSteps`.
    A false result is a kernel panic. */
module KernelMachine {
  import opened Wrappers
  import opened Mailboxes
  import I = Interrupts
  import K = KernelSteps
  import S = Scheduling
  import C = Capabilities
  import Sch = Scheduler
  import Irq = IrqTables
  import Tab = CapTables

  class KernelMachine {
    const sched: Sch.Scheduler
    const irq: Irq.IrqTables
    const tables: Tab.CapTables
    var boxes: Boxes
    var alive: seq<bool>
    var dying: seq<nat>
    var pagers: seq<Option<nat>>

    ghost predicate Valid()
      reads this, sched
    {
      && irq.Valid() && sched.current < sched.tasks.Length
      && sched.tasks as object !in {irq.vectors as object, irq.pending as object, irq.anyMask as object,
        irq.handlers as object}
    }

    ghost function View(): (k: K.Kernel)
      requires Valid()
      reads this, sched, sched.tasks, irq.vectors, irq.pending, irq.anyMask, irq.handlers, tables
      ensures I.Sized(k.irq)
    {
      K.Kernel(sched.View(), boxes, irq.View(), alive, dying, pagers, tables.caps, tables.handles)
    }

    /** `n` boot domains, all served by one pager; no tasks yet. */
    constructor (maxTasks: nat, n: nat, pager: nat)
      requires maxTasks > 0
      ensures Valid() && fresh(sched) && fresh(irq) && fresh(tables)
      ensures View().boxes == seq(n, i => []) && View().pagers == seq(n, i => Some(pager))
        && View().alive == seq(n, i => true)
      ensures View().dying == [] && View().sched == S.Sched(seq(maxTasks, i => None), 0, 0)
    {
      sched := new Sch.Scheduler(maxTasks);
      irq := new Irq.IrqTables();
      tables := new Tab.CapTables(n);
      boxes := seq(n, i => []);
      alive := seq(n, i => true);
      dying := [];
      pagers := seq(n, i => Some(pager));
    }

    /** The running task; the scheduler keeps one. */
    method Me() returns (t: Option<S.Task>)
      requires Valid()
      ensures t == K.Me(View())
    {
      t := sched.tasks[sched.current];
    }

    method SetMe(t: S.Task)
      requires Valid()
      modifies sched.tasks
      ensures Valid() && View() == K.SetCurrent(old(View()), t)
    {
      sched.tasks[sched.current] := Some(t);
      assert sched.tasks[..] == old(sched.tasks[..])[sched.current := Some(t)];
    }

    // ---- messages ----

    method Deliver(msg: Message) returns (ok: bool)
      requires Valid()
      modifies this`boxes, sched.tasks
      ensures Valid()
      ensures ok <==> K.Deliver(old(View()), msg).Some?
      ensures ok ==> View() == K.Deliver(old(View()), msg).value
    {
      if msg.to >= |boxes| { return false; }
      boxes := boxes[msg.to := boxes[msg.to] + [msg]];
      sched.WakeOne(msg.to);
      return true;
    }

    /** Refuses a full mailbox without waking anybody. */
    method DeliverCapped(msg: Message) returns (ok: bool)
      requires Valid()
      modifies this`boxes, sched.tasks
      ensures Valid()
      ensures ok <==> K.DeliverCapped(old(View()), msg).Some?
      ensures ok ==> View() == K.DeliverCapped(old(View()), msg).value
    {
      if msg.to < |boxes| && |boxes[msg.to]| >= MAILBOX_CAP { return true; }
      ok := Deliver(msg);
    }

    /** One round of `receive`; `got` is the message it returns. */
    method ReceiveRound(t: S.Task) returns (ok: bool, got: Option<Message>)
      requires Valid() && K.Me(View()) == Some(t)
      modifies this`boxes, sched`current, sched.tasks
      ensures Valid()
      ensures ok <==> K.ReceiveRound(old(View()), t).Some?
      ensures ok ==> View() == K.ReceiveRound(old(View()), t).value
      ensures got == BoxStep(old(boxes), Pop(t.domain)).1
    {
      if t.domain >= |boxes| { return false, None; }
      if boxes[t.domain] != [] {
        var msg := boxes[t.domain][0];
        boxes := boxes[t.domain := boxes[t.domain][1..]];
        SetMe(t.(replyTarget := msg.from, resume := S.InUser));
        return true, Some(msg);
      }
      ok := sched.Block(t.domain, None, S.InReceive);
      got := None;
    }

    /** Remove the oldest message from `sender`, wherever it is in the mailbox. */
    method TakeFrom(me: nat, sender: nat) returns (r: Option<Message>)
      requires me < |boxes|
      modifies this`boxes
      ensures (boxes, r) == BoxStep(old(boxes), BoxOp.TakeFrom(me, sender))
    {
      var box := boxes[me];
      for i := 0 to |box|
        invariant boxes == old(boxes) && forall j :: 0 <= j < i ==> box[j].from != sender
      {
        if box[i].from == sender {
          assert FirstFrom(box, sender) == i;
          boxes := boxes[me := box[..i] + box[i + 1..]];
          return Some(box[i]);
        }
      }
      return None;
    }

    /** One round of `call` after its wait; `reply` is the message it returns. */
    method CallRound(t: S.Task, to: nat) returns (ok: bool, reply: Option<Message>)
      requires Valid() && K.Me(View()) == Some(t)
      modifies this`boxes, sched`current, sched.tasks
      ensures Valid()
      ensures ok <==> K.CallRound(old(View()), t, to).Some?
      ensures ok ==> View() == K.CallRound(old(View()), t, to).value
      ensures reply == BoxStep(old(boxes), BoxOp.TakeFrom(t.domain, to)).1
    {
      if t.domain >= |boxes| { return false, None; }
      reply := TakeFrom(t.domain, to);
      if reply.Some? {
        SetMe(t.(resume := S.InUser));
        return true, reply;
      }
      var live := sched.LiveTasks(to);
      if live == 0 {
        SetMe(t.(resume := S.InUser));
        return true, reply;
      }
      ok := sched.Block(t.domain, Some(K.CALL_POLL_MS), S.InCall(to));
    }

    /** `call` up to its first wait. */
    method CallStart(t: S.Task, to: nat, tag: nat, payload: seq<Byte>) returns (ok: bool)
      requires Valid() && K.Me(View()) == Some(t) && t.domain < |tables.caps|
      modifies this`boxes, sched`current, sched.tasks
      ensures Valid()
      ensures ok <==> K.CallStart(old(View()), t, to, tag, payload).Some?
      ensures ok ==> View() == K.CallStart(old(View()), t, to, tag, payload).value
    {
      var granted := tables.Has(t.domain, C.SendTo(to));
      if !granted { return true; }
      var live := sched.LiveTasks(to);
      if live == 0 { return true; }
      ok := Deliver(Message(t.domain, to, tag, Fixed(payload)));
      if ok { ok := sched.Block(t.domain, Some(K.CALL_POLL_MS), S.InCall(to)); }
    }

    // ---- interrupts ----

    /** Set the vector's flag, then wake every domain whose mask holds it. */
    method SetPending(v: nat)
      requires Valid() && v < I.VECTOR_COUNT
      modifies irq.pending, sched.tasks
      ensures Valid() && View() == K.Msi(old(View()), v)
    {
      if irq.vectors[v].None? { return; }
      irq.pending[v] := true;
      assert irq.pending[..] == old(irq.pending[..])[v := true];
      if !(I.MSI_VECTOR_BASE <= v < I.MSI_VECTOR_BASE + I.MSI_VECTOR_COUNT) { return; }
      var bit := v - I.MSI_VECTOR_BASE;
      var hit: seq<bool> := [];
      for d := 0 to irq.anyMask.Length
        invariant |hit| == d && forall e :: 0 <= e < d ==> hit[e] == (bit in irq.anyMask[e])
      {
        hit := hit + [bit in irq.anyMask[d]];
      }
      ghost var masks := irq.anyMask[..];
      for d := 0 to |hit|
        invariant irq.pending[..] == old(irq.pending[..])[v := true]
        invariant K.WakeHits(sched.View(), masks, bit, d) == K.WakeHits(old(sched.View()), masks, bit, 0)
      {
        if hit[d] { sched.WakeOne(S.IrqToken(d)); }
      }
    }

    /** Every bit of the mask names a vector the domain registered and may use. */
    method IrqMaskOk(d: nat, mask: set<nat>) returns (ok: bool)
      requires Valid() && d < |tables.caps|
      ensures ok == K.MaskOk(View(), d, mask)
    {
      for i := 0 to I.MSI_VECTOR_COUNT
        invariant forall j :: 0 <= j < i && j in mask ==>
          K.Has(View(), d, C.Irq(I.MSI_VECTOR_BASE + j)) && View().irq.vectors[I.MSI_VECTOR_BASE + j] == Some(d)
      {
        if i in mask {
          var granted := tables.Has(d, C.Irq(I.MSI_VECTOR_BASE + i));
          if !granted || irq.vectors[I.MSI_VECTOR_BASE + i] != Some(d) { return false; }
        }
      }
      return true;
    }

    /** SYS_IRQ_WAIT up to its block point: check, take, or record the mask and block; `v` is the vector taken. */
    method IrqWait(t: S.Task, mask: set<nat>, ms: nat) returns (ok: bool, v: Option<nat>)
      requires Valid() && K.Me(View()) == Some(t) && t.domain < |tables.caps|
      modifies irq.pending, irq.anyMask, sched`current, sched.tasks
      ensures Valid()
      ensures ok <==> K.IrqWait(old(View()), t, mask, ms).Some?
      ensures ok ==> View() == K.IrqWait(old(View()), t, mask, ms).value
      ensures v == if mask == {} || !K.MaskOk(old(View()), t.domain, mask) then None
        else I.TakePending(old(View()).irq, mask, t.domain).1
    {
      if mask == {} { return true, None; }
      var good := IrqMaskOk(t.domain, mask);
      if !good { return true, None; }
      v := irq.TakePendingAny(mask, t.domain);
      if v.Some? { return true, v; }
      var recorded := irq.SetAnyMask(t.domain, mask);
      if !recorded { return true, None; }
      ok := sched.Block(S.IrqToken(t.domain), Some(ms), S.InIrqWait(mask));
    }

    /** SYS_IRQ_WAIT after it was woken. */
    method IrqWaitDone(t: S.Task, mask: set<nat>) returns (v: Option<nat>)
      requires Valid() && K.Me(View()) == Some(t)
      modifies irq.pending, irq.anyMask, sched.tasks
      ensures Valid() && View() == K.IrqWaitDone(old(View()), t, mask)
      ensures v == I.TakePending(old(View()).irq, mask, t.domain).1
    {
      irq.ClearAnyMask(t.domain);
      I.TakeIgnoresMasks(old(View()).irq, irq.View(), mask, t.domain);
      v := irq.TakePendingAny(mask, t.domain);
      SetMe(t.(resume := S.InUser));
    }

    /** SYS_REGISTER_IRQ: a PIC line below 16, a vector from 32 on, nothing in between. */
    method Register(t: S.Task, line: nat) returns (done: bool)
      requires Valid() && line < 256 && t.domain < |tables.caps|
      modifies irq.vectors, irq.handlers
      ensures Valid() && View() == K.Register(old(View()), t, line)
      ensures done <==> K.Has(old(View()), t.domain, C.Irq(line)) && (line < I.PIC_LINES || line >= 32)
    {
      var granted := tables.Has(t.domain, C.Irq(line));
      if !granted { return false; }
      if line < I.PIC_LINES {
        irq.Register(line, t.domain);
        return true;
      }
      if line < 32 { return false; }
      irq.RegisterVector(line, t.domain);
      return true;
    }

    // ---- domains ----

    /** Clear every row of the domain and remove its tasks; false when it is not alive. */
    method Destroy(d: nat) returns (done: bool)
      requires Valid()
      modifies this`alive, this`boxes, this`pagers, tables, irq.vectors, irq.anyMask, irq.handlers, sched.tasks
      ensures Valid() && View() == K.Destroy(old(View()), d)
      ensures done == K.Alive(old(View()), d)
    {
      if d >= |alive| || !alive[d] { return false; }
      alive := alive[d := false];
      tables.ClearDomain(d);
      SetMailbox(d, []);
      SetPager(d, None);
      irq.RemoveDomain(d);
      sched.RemoveDomain(d);
      return true;
    }

    /** Replace box `id`, padding the table up to it. */
    method SetMailbox(id: nat, box: seq<Message>)
      modifies this`boxes
      ensures boxes == SetBox(old(boxes), id, box)
    {
      while |boxes| <= id
        invariant |old(boxes)| <= |boxes| && (|boxes| <= id + 1 || |boxes| == |old(boxes)|)
        invariant forall d :: 0 <= d < |boxes| ==> boxes[d] == if d < |old(boxes)| then old(boxes)[d] else []
        decreases id - |boxes|
      {
        boxes := boxes + [[]];
      }
      boxes := boxes[id := box];
    }

    method SetPager(id: nat, pager: Option<nat>)
      modifies this`pagers
      ensures pagers == K.SetAt(old(pagers), id, pager, None)
    {
      while |pagers| <= id
        invariant |old(pagers)| <= |pagers| && (|pagers| <= id + 1 || |pagers| == |old(pagers)|)
        invariant forall d :: 0 <= d < |pagers| ==> pagers[d] == if d < |old(pagers)| then old(pagers)[d] else None
        decreases id - |pagers|
      {
        pagers := pagers + [None];
      }
      pagers := pagers[id := pager];
    }

    /** Destroy everything in the queue, last requested first. */
    method ReclaimPending()
      requires Valid()
      modifies this, tables, irq.vectors, irq.anyMask, irq.handlers, sched.tasks
      ensures Valid() && View() == K.Reclaim(old(View()))
    {
      while dying != []
        invariant Valid() && K.Reclaim(View()) == K.Reclaim(old(View()))
        decreases |dying|
      {
        var n := |dying| - 1;
        var id := dying[n];
        dying := dying[..n];
        var done := Destroy(id);
      }
    }

    method ClockTick() returns (ok: bool)
      requires Valid()
      modifies this, tables, irq.vectors, irq.anyMask, irq.handlers, sched, sched.tasks
      ensures Valid()
      ensures ok <==> K.ClockTick(old(View())).Some?
      ensures ok ==> View() == K.ClockTick(old(View())).value
    {
      ReclaimPending();
      ok := sched.Tick();
    }

    /** Terminate the running task; its domain is queued if that was its last one and it is no boot domain. */
    method Exit(t: S.Task) returns (ok: bool)
      requires Valid() && K.Me(View()) == Some(t)
      modifies this`dying, sched`current, sched.tasks
      ensures Valid()
      ensures ok <==> K.Exit(old(View()), t).Some?
      ensures ok ==> View() == K.Exit(old(View()), t).value
    {
      var live := sched.LiveTasks(t.domain);
      if live <= 1 && t.domain >= K.BOOT_DOMAINS { dying := dying + [t.domain]; }
      ok := sched.ScheduleNext(S.Terminated);
    }

    /** Start a fresh task in a live domain whose tasks have all terminated. */
    method Restart(d: nat, loads: bool) returns (restarted: bool)
      requires Valid()
      modifies this`boxes, sched.tasks
      ensures Valid() && View() == K.Restart(old(View()), d, loads)
      ensures restarted <==>
        K.Alive(old(View()), d) && S.LiveTasks(old(View()).sched.tasks, d) == 0 && loads
          && S.SpawnTask(S.Reap(old(View()).sched, d), d).Some?
    {
      var live := sched.LiveTasks(d);
      if d >= |alive| || !alive[d] || live != 0 { return false; }
      SetMailbox(d, []);
      sched.ReapTerminated(d);
      if !loads { return false; }
      var slot := sched.Spawn(d);
      return slot.Some?;
    }
  }
}
