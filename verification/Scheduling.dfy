/** The task table and its transitions (kernel/src/scheduler/mod.rs) on values. A task that blocks keeps,
    on its kernel stack, what it will do when it runs again: that is `resume`. */
module Scheduling {
  import opened Wrappers
  import opened Ring

  const U64_MAX: nat := 0xFFFF_FFFF_FFFF_FFFF
  const KEY_WAIT: nat := U64_MAX - 1
  const IRQ_WAIT_MARK: nat := U64_MAX - 0x300

  /** Wait key of a domain waiting for interrupt vectors. */
  function IrqToken(domain: nat): (k: nat)
    requires domain <= IRQ_WAIT_MARK
    ensures domain < 64 ==> k > 64 && k != KEY_WAIT
  {
    IRQ_WAIT_MARK - domain
  }

  datatype State = Ready | Running | Sleeping | Blocked | Terminated

  /** What a task's kernel stack will do next; a mask is the set of its one bits. */
  datatype Resume = InUser | InReceive | InCall(to: nat) | InIrqWait(mask: set<nat>) | InFault

  datatype Task = Task(state: State, domain: nat, sleepUntil: nat, waitOn: nat, wakeDeadline: nat, replyTarget: nat,
    resume: Resume)

  datatype Sched = Sched(tasks: seq<Option<Task>>, current: nat, ticks: nat)

  predicate Is(s: Sched, i: nat, st: State) { i < |s.tasks| && s.tasks[i].Some? && s.tasks[i].value.state == st }

  function SetTask(s: Sched, i: nat, t: Task): (r: Sched)
    requires i < |s.tasks|
  {
    s.(tasks := s.tasks[i := Some(t)])
  }

  function SetState(s: Sched, i: nat, st: State): (r: Sched) {
    if i < |s.tasks| && s.tasks[i].Some? then SetTask(s, i, s.tasks[i].value.(state := st)) else s
  }

  /** The first ready task among those i, i + 1, ... n places after `after`. */
  function ReadyFrom(s: Sched, after: nat, i: nat): (r: Option<nat>)
    requires after < |s.tasks| && i <= |s.tasks| + 1
    decreases |s.tasks| + 1 - i
  {
    if i > |s.tasks| then None
    else if Is(s, Wrap(after + i, |s.tasks|), Ready) then Some(Wrap(after + i, |s.tasks|))
    else ReadyFrom(s, after, i + 1)
  }

  function NextReady(s: Sched, after: nat): (r: Option<nat>)
    requires after < |s.tasks|
  {
    ReadyFrom(s, after, 1)
  }

  /** Places from `a` forward to b in a ring of n. */
  function Distance(n: nat, a: nat, b: nat): (k: nat)
    requires a < n && b < n
    ensures k < n
  {
    if b >= a then b - a else b + n - a
  }

  /** The task found is ready, and nothing ready lies strictly between. */
  lemma {:induction false} ReadyFromFirst(s: Sched, after: nat, i: nat, j: nat)
    requires after < |s.tasks| && 1 <= i <= |s.tasks| + 1 && j < |s.tasks| && Is(s, j, Ready)
    requires (if j == after then |s.tasks| else Distance(|s.tasks|, after, j)) >= i
    ensures var r := ReadyFrom(s, after, i);
            && r.Some? && r.value < |s.tasks| && Is(s, r.value, Ready)
            && (r.value == j || j == after ||
                (r.value != after && Distance(|s.tasks|, after, r.value) < Distance(|s.tasks|, after, j)))
    decreases |s.tasks| + 1 - i
  {
    if !Is(s, Wrap(after + i, |s.tasks|), Ready) { ReadyFromFirst(s, after, i + 1, j); }
  }

  lemma {:induction false} ReadyFromReady(s: Sched, after: nat, i: nat)
    requires after < |s.tasks| && 1 <= i <= |s.tasks| + 1
    ensures var r := ReadyFrom(s, after, i); r.Some? ==> r.value < |s.tasks| && Is(s, r.value, Ready)
    decreases |s.tasks| + 1 - i
  {
    if i <= |s.tasks| && !Is(s, Wrap(after + i, |s.tasks|), Ready) { ReadyFromReady(s, after, i + 1); }
  }

  // ---- transitions ----

  /** `schedule_next`: park the current task in state st and run the next ready one. None: panic. */
  function ScheduleNext(s: Sched, st: State): (r: Option<Sched>) {
    if s.current >= |s.tasks| || s.tasks[s.current].None? then None
    else
      var s1 := SetState(s, s.current, st);
      match NextReady(s1, s.current)
      case None => None
      case Some(next) => Some(SetState(s1, next, Running).(current := next))
  }

  /** TARGET_FREQ is 1000 ticks a second; at least one tick, saturating at 64 bits. */
  function MsToTicks(ms: nat): (t: nat)
    ensures t >= 1
  {
    var product := if ms * 1000 > U64_MAX then U64_MAX else ms * 1000;
    var t := (product + 999) / 1000;
    if t < 1 then 1 else t
  }

  /** A wait is never cut short: the ticks cover the milliseconds, as far as 64 bits hold them, and one tick less
      would not. */
  lemma TicksCover(ms: nat)
    ensures var t, want := MsToTicks(ms), if ms * 1000 > U64_MAX then U64_MAX else ms * 1000;
            1000 * t >= want && (t > 1 ==> 1000 * (t - 1) < want)
    ensures 1 <= ms <= U64_MAX / 1000 ==> MsToTicks(ms) == ms
  {
    var want := if ms * 1000 > U64_MAX then U64_MAX else ms * 1000;
    var q := (want + 999) / 1000;
    assert 1000 * q <= want + 999 < 1000 * q + 1000;
  }

  function WakeExpiredTask(t: Task, now: nat): (r: Task) {
    if t.state == Sleeping && now >= t.sleepUntil then t.(state := Ready)
    else if t.state == Blocked && t.wakeDeadline != 0 && now >= t.wakeDeadline then
      t.(state := Ready, wakeDeadline := 0)
    else t
  }

  function WakeExpired(s: Sched): (r: Sched) {
    s.(tasks := seq(|s.tasks|, i requires 0 <= i < |s.tasks| =>
      match s.tasks[i] case None => None case Some(t) => Some(WakeExpiredTask(t, s.ticks))))
  }

  /** The scheduling half of `tick`. */
  function Tick(s: Sched): (r: Option<Sched>) { ScheduleNext(WakeExpired(s.(ticks := s.ticks + 1)), Ready) }

  function Current(s: Sched): (t: Option<Task>) { if s.current < |s.tasks| then s.tasks[s.current] else None }

  function Sleep(s: Sched, ms: nat): (r: Option<Sched>) {
    match Current(s)
    case None => None
    case Some(t) => ScheduleNext(SetTask(s, s.current, t.(sleepUntil := s.ticks + MsToTicks(ms))), Sleeping)
  }

  /** `block_current`, and with `ms` given `block_current_timeout_ms`; `resume` is where the caller waits. */
  function Block(s: Sched, key: nat, ms: Option<nat>, resume: Resume): (r: Option<Sched>) {
    match Current(s)
    case None => None
    case Some(t) =>
      var deadline := match ms case None => 0 case Some(n) => s.ticks + MsToTicks(n);
      ScheduleNext(SetTask(s, s.current, t.(waitOn := key, wakeDeadline := deadline, resume := resume)), Blocked)
  }

  predicate WaitsOn(t: Option<Task>, key: nat) { t.Some? && t.value.state == Blocked && t.value.waitOn == key }

  function Woken(t: Task): (r: Task) { t.(state := Ready, wakeDeadline := 0) }

  /** First task at or after i blocked on `key`, or the table's length. */
  function FirstWaiter(tasks: seq<Option<Task>>, key: nat, i: nat): (k: nat)
    requires i <= |tasks|
    ensures i <= k <= |tasks| && (k < |tasks| ==> WaitsOn(tasks[k], key))
    ensures forall j :: i <= j < k ==> !WaitsOn(tasks[j], key)
    decreases |tasks| - i
  {
    if i == |tasks| || WaitsOn(tasks[i], key) then i else FirstWaiter(tasks, key, i + 1)
  }

  function WakeOne(s: Sched, key: nat): (r: Sched) {
    var k := FirstWaiter(s.tasks, key, 0);
    if k < |s.tasks| then SetTask(s, k, Woken(s.tasks[k].value)) else s
  }

  /** Drop the domain's tasks and wake everybody who waits for the domain. */
  function RemoveDomain(s: Sched, d: nat): (r: Sched) {
    s.(tasks := seq(|s.tasks|, i requires 0 <= i < |s.tasks| =>
      if s.tasks[i].Some? && s.tasks[i].value.domain == d then None
      else if WaitsOn(s.tasks[i], d) then Some(Woken(s.tasks[i].value))
      else s.tasks[i]))
  }

  predicate LiveIn(t: Option<Task>, d: nat) { t.Some? && t.value.domain == d && t.value.state != Terminated }

  /** Number of the domain's tasks that are not terminated. */
  function LiveTasks(tasks: seq<Option<Task>>, d: nat): (n: nat)
    ensures n == 0 <==> forall i :: 0 <= i < |tasks| ==> !LiveIn(tasks[i], d)
  {
    if tasks == [] then 0 else (if LiveIn(tasks[0], d) then 1 else 0) + LiveTasks(tasks[1..], d)
  }

  function FreshTask(d: nat): (t: Task) { Task(Ready, d, 0, 0, 0, U64_MAX, InUser) }

  function FreeSlot(tasks: seq<Option<Task>>): (i: nat)
    ensures i <= |tasks| && (i < |tasks| ==> tasks[i].None?)
    ensures forall j :: 0 <= j < i ==> tasks[j].Some?
  {
    if tasks == [] || tasks[0].None? then 0 else 1 + FreeSlot(tasks[1..])
  }

  /** `spawn_inner`; None when the table is full. */
  function SpawnTask(s: Sched, d: nat): (r: Option<Sched>) {
    var i := FreeSlot(s.tasks);
    if i < |s.tasks| then Some(SetTask(s, i, FreshTask(d))) else None
  }

  function Reap(s: Sched, d: nat): (r: Sched) {
    s.(tasks := seq(|s.tasks|, i requires 0 <= i < |s.tasks| =>
      if s.tasks[i].Some? && s.tasks[i].value.domain == d && s.tasks[i].value.state == Terminated then None
        else s.tasks[i]))
  }
}
