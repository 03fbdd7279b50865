/** Scheduler, mailboxes, interrupts and the per-domain rows as one step system. System calls enter with
    interrupts off (kernel/src/syscall.rs:977-978), so each kernel path between two block points is one
    atomic step; clock ticks and device interrupts come in between. */
module KernelSteps {
  import opened Wrappers
  import opened Slots
  import opened Scheduling
  import opened Mailboxes
  import opened Interrupts
  import Capabilities
  import Handles

  const BOOT_DOMAINS: nat := 26
  const CALL_POLL_MS: nat := 200
  const FAULT_TAG: nat := 0x5046_4155_4C54

  /** `dying` holds the domains whose destruction is deferred to the next tick. */
  datatype Kernel = Kernel(
    sched: Sched, boxes: Boxes, irq: Irq, alive: seq<bool>, dying: seq<nat>, pagers: seq<Option<nat>>,
    caps: Table<Capabilities.Capability>, handles: Table<nat>)

  function Me(k: Kernel): (t: Option<Task>) { Current(k.sched) }

  predicate Has(k: Kernel, d: nat, c: Capabilities.Capability) { Capabilities.Holds(k.caps, d, c) }

  function SetCurrent(k: Kernel, t: Task): (r: Kernel) {
    if k.sched.current < |k.sched.tasks| then k.(sched := SetTask(k.sched, k.sched.current, t)) else k
  }

  function WithSched(k: Kernel, s: Option<Sched>): (r: Option<Kernel>) {
    match s case None => None case Some(s') => Some(k.(sched := s'))
  }

  // ---- messages ----

  /** Push and wake, as `deliver`, `send`, `call` and `reply` do. None: no such mailbox, a panic. */
  function Deliver(k: Kernel, msg: Message): (r: Option<Kernel>) {
    if msg.to < |k.boxes|
    then Some(k.(boxes := BoxStep(k.boxes, Push(msg.to, msg)).0, sched := WakeOne(k.sched, msg.to)))
    else None
  }

  /** `deliver` and `send` refuse a full mailbox. */
  function DeliverCapped(k: Kernel, msg: Message): (r: Option<Kernel>) {
    if msg.to < |k.boxes| && |k.boxes[msg.to]| >= MAILBOX_CAP then Some(k) else Deliver(k, msg)
  }

  /** One round of `receive`: take the oldest message, or block on the own domain. */
  function ReceiveRound(k: Kernel, t: Task): (r: Option<Kernel>) {
    if t.domain >= |k.boxes| then None
    else match BoxStep(k.boxes, Pop(t.domain))
      case (boxes, Some(msg)) => Some(SetCurrent(k.(boxes := boxes), t.(replyTarget := msg.from, resume := InUser)))
      case (_, None) => WithSched(k, Block(k.sched, t.domain, None, InReceive))
  }

  /** One round of `call` after its wait: take the oldest reply of the target, fail if the target has no live
      task, or wait again. */
  function CallRound(k: Kernel, t: Task, to: nat): (r: Option<Kernel>) {
    if t.domain >= |k.boxes| then None
    else match BoxStep(k.boxes, TakeFrom(t.domain, to))
      case (boxes, Some(_)) => Some(SetCurrent(k.(boxes := boxes), t.(resume := InUser)))
      case (_, None) =>
        if LiveTasks(k.sched.tasks, to) == 0 then Some(SetCurrent(k, t.(resume := InUser)))
        else WithSched(k, Block(k.sched, t.domain, Some(CALL_POLL_MS), InCall(to)))
  }

  function CallStart(k: Kernel, t: Task, to: nat, tag: nat, payload: seq<Byte>): (r: Option<Kernel>) {
    if !Has(k, t.domain, Capabilities.SendTo(to)) || LiveTasks(k.sched.tasks, to) == 0 then Some(k)
    else match Deliver(k, Message(t.domain, to, tag, Fixed(payload)))
      case None => None
      case Some(k1) => WithSched(k1, Block(k1.sched, t.domain, Some(CALL_POLL_MS), InCall(to)))
  }

  function Reply(k: Kernel, t: Task, tag: nat, payload: seq<Byte>): (r: Option<Kernel>) {
    if t.replyTarget == U64_MAX then Some(k) else Deliver(k, Message(t.domain, t.replyTarget, tag, Fixed(payload)))
  }

  /** A user page fault: tell the pager and block on the own domain. None: no pager. */
  function Fault(k: Kernel, t: Task, payload: seq<Byte>): (r: Option<Kernel>) {
    if t.domain >= |k.pagers| || k.pagers[t.domain].None? then None
    else match DeliverCapped(k, Message(t.domain, k.pagers[t.domain].value, FAULT_TAG, Fixed(payload)))
      case None => None
      case Some(k1) => WithSched(k1, Block(k1.sched, t.domain, None, InFault))
  }

  // ---- interrupts ----

  /** Wake, in order, every domain at or above d whose mask holds bit i. */
  function WakeHits(s: Sched, masks: seq<set<nat>>, i: nat, d: nat): (r: Sched)
    requires d <= |masks| <= ANY_MAX_DOMAINS
    ensures |r.tasks| == |s.tasks|
    decreases |masks| - d
  {
    if d == |masks| then s
    else WakeHits(if i in masks[d] then WakeOne(s, IrqToken(d)) else s, masks, i, d + 1)
  }

  /** `set_pending`. */
  function Msi(k: Kernel, v: nat): (r: Kernel)
    requires Sized(k.irq) && v < VECTOR_COUNT
  {
    if k.irq.vectors[v].None? then k
    else
      var k1 := k.(irq := k.irq.(pending := k.irq.pending[v := true]));
      if !InMsiRange(v) then k1 else k1.(sched := WakeHits(k.sched, k.irq.anyMask, v - MSI_VECTOR_BASE, 0))
  }

  predicate MaskOk(k: Kernel, d: nat, mask: set<nat>)
    requires Sized(k.irq)
  {
    forall i :: 0 <= i < MSI_VECTOR_COUNT && i in mask ==>
      Has(k, d, Capabilities.Irq(MSI_VECTOR_BASE + i)) && k.irq.vectors[MSI_VECTOR_BASE + i] == Some(d)
  }

  function IrqPoll(k: Kernel, t: Task, mask: set<nat>): (r: Kernel)
    requires Sized(k.irq)
  {
    if mask == {} || !MaskOk(k, t.domain, mask) then k else k.(irq := TakePending(k.irq, mask, t.domain).0)
  }

  /** SYS_IRQ_WAIT up to its block point. */
  function IrqWait(k: Kernel, t: Task, mask: set<nat>, ms: nat): (r: Option<Kernel>)
    requires Sized(k.irq)
  {
    if mask == {} || !MaskOk(k, t.domain, mask) then Some(k)
    else match TakePending(k.irq, mask, t.domain)
      case (irq, Some(_)) => Some(k.(irq := irq))
      case (_, None) =>
        if t.domain >= ANY_MAX_DOMAINS then Some(k)
        else
          var k1 := k.(irq := k.irq.(anyMask := k.irq.anyMask[t.domain := mask]));
          WithSched(k1, Block(k1.sched, IrqToken(t.domain), Some(ms), InIrqWait(mask)))
  }

  /** SYS_IRQ_WAIT after it: forget the mask and take what came. */
  function IrqWaitDone(k: Kernel, t: Task, mask: set<nat>): (r: Kernel)
    requires Sized(k.irq)
  {
    var irq := if t.domain < ANY_MAX_DOMAINS then k.irq.(anyMask := k.irq.anyMask[t.domain := {}]) else k.irq;
    SetCurrent(k.(irq := TakePending(irq, mask, t.domain).0), t.(resume := InUser))
  }

  function Register(k: Kernel, t: Task, irq: nat): (r: Kernel)
    requires Sized(k.irq) && irq < 256
  {
    if !Has(k, t.domain, Capabilities.Irq(irq)) then k
    else if irq < PIC_LINES then k.(irq := k.irq.(handlers := k.irq.handlers[irq := Some(t.domain)]))
    else if irq >= 32 then k.(irq := k.irq.(vectors := k.irq.vectors[irq := Some(t.domain)]))
    else k
  }

  // ---- domains ----

  function SetAt<T>(s: seq<T>, i: nat, x: T, fill: T): (r: seq<T>)
    ensures |r| == if i < |s| then |s| else i + 1
    ensures forall j :: 0 <= j < |r| ==> r[j] == if j == i then x else if j < |s| then s[j] else fill
  {
    if i < |s| then s[i := x] else s + seq(i - |s|, j => fill) + [x]
  }

  predicate Alive(k: Kernel, d: nat) { d < |k.alive| && k.alive[d] }

  /** `domain::destroy` apart from memory: every row of the domain is cleared and its tasks are removed. */
  function Destroy(k: Kernel, d: nat): (r: Kernel)
    requires Sized(k.irq)
    ensures Sized(r.irq)
  {
    if !Alive(k, d) then k
    else k.(alive := k.alive[d := false],
            caps := SetRow(k.caps, d, EmptyRow(Capabilities.CAP_SLOTS)),
            handles := SetRow(k.handles, d, EmptyRow(Handles.HANDLE_SLOTS)),
            boxes := BoxStep(k.boxes, ResetBox(d)).0,
            pagers := SetAt(k.pagers, d, None, None),
            irq := Interrupts.RemoveDomain(k.irq, d),
            sched := Scheduling.RemoveDomain(k.sched, d))
  }

  /** SYS_DOMAIN_DESTROY of d by the running task is not refused: it may start programs, it is d's pager, and d is
      alive. */
  predicate Destroys(k: Kernel, d: nat) {
    && Me(k).Some? && Has(k, Me(k).value.domain, Capabilities.Spawn)
    && d < |k.pagers| && k.pagers[d] == Some(Me(k).value.domain) && Alive(k, d)
  }

  /** `reclaim_pending`: the last requested domain first. */
  function Reclaim(k: Kernel): (r: Kernel)
    requires Sized(k.irq)
    ensures Sized(r.irq) && r.dying == []
    decreases |k.dying|
  {
    if k.dying == [] then k
    else
      var n := |k.dying| - 1;
      Reclaim(Destroy(k.(dying := k.dying[..n]), k.dying[n]))
  }

  /** `tick`. */
  function ClockTick(k: Kernel): (r: Option<Kernel>)
    requires Sized(k.irq)
  {
    WithSched(Reclaim(k), Tick(Reclaim(k).sched))
  }

  /** `exit_current`. */
  function Exit(k: Kernel, t: Task): (r: Option<Kernel>) {
    var last := LiveTasks(k.sched.tasks, t.domain) <= 1 && t.domain >= BOOT_DOMAINS;
    var k1 := if last then k.(dying := k.dying + [t.domain]) else k;
    WithSched(k1, ScheduleNext(k1.sched, Terminated))
  }

  function FirstDead(alive: seq<bool>): (i: nat)
    ensures i <= |alive| && (i < |alive| ==> !alive[i])
  {
    if alive == [] || !alive[0] then 0 else 1 + FirstDead(alive[1..])
  }

  /** `spawn_elf` apart from memory; `loads` is whether the image could be mapped. */
  function SpawnDomain(k: Kernel, loader: nat, loads: bool): (r: Kernel)
    requires Sized(k.irq)
  {
    var id := FirstDead(k.alive);
    var k1 := k.(alive := SetAt(k.alive, id, true, false),
                 caps := Capabilities.Start(k.caps, id),
                 handles := SetRow(k.handles, id, EmptyRow(Handles.HANDLE_SLOTS)),
                 boxes := BoxStep(k.boxes, ResetBox(id)).0,
                 pagers := SetAt(k.pagers, id, Some(loader), None));
    if loads && SpawnTask(k1.sched, id).Some? then k1.(sched := SpawnTask(k1.sched, id).value) else Destroy(k1, id)
  }

  /** `restart_in_place` apart from memory. */
  function Restart(k: Kernel, d: nat, loads: bool): (r: Kernel) {
    if !Alive(k, d) || LiveTasks(k.sched.tasks, d) != 0 then k
    else
      var k1 := k.(boxes := BoxStep(k.boxes, ResetBox(d)).0, sched := Reap(k.sched, d));
      if loads && SpawnTask(k1.sched, d).Some? then k1.(sched := SpawnTask(k1.sched, d).value) else k1
  }

  // ---- the step system ----

  datatype Event =
    | EvTick
    | EvMsi(vector: nat)
    | EvPic(irq: nat, data: nat)
    | EvResume
    | SysYield
    | SysSleep(ms: nat)
    | SysSend(to: nat, tag: nat, payload: seq<Byte>)
    | SysReceive
    | SysTryReceive
    | SysCall(to: nat, tag: nat, payload: seq<Byte>)
    | SysReply(tag: nat, payload: seq<Byte>)
    | SysFaultReply
    | SysFault(payload: seq<Byte>)
    | SysRegister(irq: nat)
    | SysIrqPoll(mask: set<nat>)
    | SysIrqWait(mask: set<nat>, ms: nat)
    | SysCapSend(to: nat, cap: Capabilities.Capability)
    | SysExit
    | SysDestroy(target: nat)
    | SysSpawn(loads: bool)
    | SysRestart(target: nat, loads: bool)

  /** Interrupt lines and vectors come from the hardware within their ranges. */
  predicate InRange(ev: Event) {
    match ev
    case EvMsi(v) => v < VECTOR_COUNT
    case EvPic(irq, _) => irq < PIC_LINES
    case SysRegister(irq) => irq < 256
    case _ => true
  }

  predicate IsInterrupt(ev: Event) { ev.EvTick? || ev.EvMsi? || ev.EvPic? }

  /** A task that was switched in first finishes the kernel path it blocked in, with interrupts off; only then
      can it be interrupted or make its next system call. */
  predicate Enabled(k: Kernel, ev: Event) {
    Me(k).Some? && InRange(ev) && (ev.EvResume? <==> Me(k).value.resume != InUser)
  }

  function Resumed(k: Kernel, t: Task): (r: Option<Kernel>)
    requires Sized(k.irq)
  {
    match t.resume
    case InUser => Some(k)
    case InReceive => ReceiveRound(k, t)
    case InCall(to) => CallRound(k, t, to)
    case InIrqWait(mask) => Some(IrqWaitDone(k, t, mask))
    case InFault => Some(SetCurrent(k, t.(resume := InUser)))
  }

  /** One step of the kernel. None is a panic. */
  function Step(k: Kernel, ev: Event): (r: Option<Kernel>)
    requires Sized(k.irq) && Enabled(k, ev)
  {
    var t := Me(k).value;
    match ev
    case EvTick => ClockTick(k)
    case EvMsi(v) => Some(Msi(k, v))
    case EvPic(irq, data) =>
      (match k.irq.handlers[irq] case None => Some(k) case Some(d) => DeliverCapped(k, Message(0, d, data, Fixed([]))))
    case EvResume => Resumed(k, t)
    case SysYield => WithSched(k, ScheduleNext(k.sched, Ready))
    case SysSleep(ms) => WithSched(k, Sleep(k.sched, ms))
    case SysSend(to, tag, payload) =>
      if Has(k, t.domain, Capabilities.SendTo(to)) then DeliverCapped(k, Message(t.domain, to, tag, Fixed(payload)))
        else Some(k)
    case SysReceive => ReceiveRound(k, t)
    case SysTryReceive =>
      if t.domain >= |k.boxes| then None
      else (match BoxStep(k.boxes, Pop(t.domain))
            case (boxes, Some(msg)) => Some(SetCurrent(k.(boxes := boxes), t.(replyTarget := msg.from)))
            case (_, None) => Some(k))
    case SysCall(to, tag, payload) => CallStart(k, t, to, tag, payload)
    case SysReply(tag, payload) => Reply(k, t, tag, payload)
    case SysFaultReply =>
      if t.replyTarget == U64_MAX then Some(k) else Some(k.(sched := WakeOne(k.sched, t.replyTarget)))
    case SysFault(payload) => Fault(k, t, payload)
    case SysRegister(irq) => Some(Register(k, t, irq))
    case SysIrqPoll(mask) => Some(IrqPoll(k, t, mask))
    case SysIrqWait(mask, ms) => IrqWait(k, t, mask, ms)
    case SysCapSend(to, cap) => Some(k.(caps := Capabilities.Step(k.caps, Capabilities.CapSend(t.domain, to, cap))))
    case SysExit => Exit(k, t)
    case SysDestroy(target) =>
      if Has(k, t.domain, Capabilities.Spawn) && target < |k.pagers| && k.pagers[target] == Some(t.domain)
      then Some(Destroy(k, target)) else Some(k)
    case SysSpawn(loads) =>
      if Has(k, t.domain, Capabilities.Spawn) then Some(SpawnDomain(k, t.domain, loads)) else Some(k)
    case SysRestart(target, loads) =>
      if Has(k, t.domain, Capabilities.Spawn) then Some(Restart(k, target, loads)) else Some(k)
  }
}
