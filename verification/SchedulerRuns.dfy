/** Every run of the scheduler: exactly one task runs, the search for a ready task never fails, and every
    ready or timed task runs within a bound, whatever the others do. */
module SchedulerRuns {
  import opened Wrappers
  import opened Scheduling

  datatype SchedOp =
    | OpTick
    | OpYield
    | OpSleep(ms: nat)
    | OpBlock(key: nat, timeout: Option<nat>, resume: Resume)
    | OpExit
    | OpWake(key: nat)
    | OpSpawn(domain: nat)
    | OpRemove(domain: nat)
    | OpReap(domain: nat)

  /** None is a kernel panic. */
  function Step(s: Sched, op: SchedOp): (r: Option<Sched>) {
    match op
    case OpTick => Tick(s)
    case OpYield => ScheduleNext(s, Ready)
    case OpSleep(ms) => Sleep(s, ms)
    case OpBlock(key, ms, resume) => Block(s, key, ms, resume)
    case OpExit => ScheduleNext(s, Terminated)
    case OpWake(key) => Some(WakeOne(s, key))
    case OpSpawn(d) => (match SpawnTask(s, d) case None => Some(s) case Some(s') => Some(s'))
    case OpRemove(d) => Some(RemoveDomain(s, d))
    case OpReap(d) => Some(Reap(s, d))
  }

  /** Exactly one task is running, and it is the current one. */
  ghost predicate OneRunning(s: Sched) {
    && s.current < |s.tasks| && Is(s, s.current, Running)
    && forall i: nat :: Is(s, i, Running) ==> i == s.current
  }

  /** The idle task is there and can always run. */
  predicate IdleOk(s: Sched, idle: nat) { Is(s, idle, Ready) || Is(s, idle, Running) }

  ghost predicate SchedOk(s: Sched, idle: nat) { OneRunning(s) && IdleOk(s, idle) }

  /** What the kernel relies on: the idle task neither sleeps, blocks nor exits, and neither its domain nor
      the domain of the current task is removed. */
  predicate Allowed(s: Sched, op: SchedOp, idle: nat) {
    && (s.current == idle ==> !op.OpSleep? && !op.OpBlock? && !op.OpExit?)
    && (op.OpRemove? ==> forall i: nat :: i < |s.tasks| && (i == idle || i == s.current) && s.tasks[i].Some? ==>
          s.tasks[i].value.domain != op.domain)
  }

  lemma ScheduleOk(s: Sched, st: State, idle: nat)
    requires OneRunning(s) && idle < |s.tasks| && st != Running
    requires Is(SetState(s, s.current, st), idle, Ready)
    ensures var r := ScheduleNext(s, st); r.Some? && SchedOk(r.value, idle)
  {
    var s1 := SetState(s, s.current, st);
    ReadyFromFirst(s1, s.current, 1, idle);
    var r := ScheduleNext(s, st).value;
    forall i: nat | Is(r, i, Running) ensures i == r.current {
      if i != r.current {
        assert Is(s1, i, Running) && i != s.current;
        assert Is(s, i, Running);
      }
    }
  }

  /** Before it is rescheduled, a step changes no task's running state. */
  lemma SameRunning(s: Sched, s': Sched)
    requires OneRunning(s) && s'.current == s.current && |s'.tasks| == |s.tasks|
    requires forall i: nat :: i < |s.tasks| ==> (Is(s', i, Running) <==> Is(s, i, Running))
    ensures OneRunning(s')
  {
  }

  /** One step keeps the invariant and never panics. */
  lemma StepOk(s: Sched, op: SchedOp, idle: nat)
    requires SchedOk(s, idle) && Allowed(s, op, idle)
    ensures Step(s, op).Some? && SchedOk(Step(s, op).value, idle)
  {
    if Schedules(op) { SchedulingStepOk(s, op, idle); } else { SameRunning(s, Step(s, op).value); }
  }

  lemma SchedulingStepOk(s: Sched, op: SchedOp, idle: nat)
    requires SchedOk(s, idle) && Allowed(s, op, idle) && Schedules(op)
    ensures Step(s, op).Some? && SchedOk(Step(s, op).value, idle)
  {
    match op
    case OpTick =>
      SameRunning(s, WakeExpired(s.(ticks := s.ticks + 1)));
      ScheduleOk(WakeExpired(s.(ticks := s.ticks + 1)), Ready, idle);
    case OpYield => ScheduleOk(s, Ready, idle);
    case OpSleep(ms) => ParkOk(s, Current(s).value.(sleepUntil := s.ticks + MsToTicks(ms)), Sleeping, idle);
    case OpBlock(key, ms, resume) =>
      var deadline := match ms case None => 0 case Some(n) => s.ticks + MsToTicks(n);
      ParkOk(s, Current(s).value.(waitOn := key, wakeDeadline := deadline, resume := resume), Blocked, idle);
    case OpExit => ScheduleOk(s, Terminated, idle);
  }

  lemma ParkOk(s: Sched, t: Task, st: State, idle: nat)
    requires SchedOk(s, idle) && s.current != idle && t.state == Running && st != Running
    ensures var r := ScheduleNext(SetTask(s, s.current, t), st); r.Some? && SchedOk(r.value, idle)
  {
    var s1 := SetTask(s, s.current, t);
    SameRunning(s, s1);
    ScheduleOk(s1, st, idle);
  }

  /** Every operation of the run is allowed when it happens. */
  predicate AllAllowed(s: Sched, ops: seq<SchedOp>, idle: nat)
    decreases |ops|
  {
    ops != [] ==>
      Allowed(s, ops[0], idle) && (Step(s, ops[0]).Some? ==> AllAllowed(Step(s, ops[0]).value, ops[1..], idle))
  }

  /** State after the first k operations; None once the kernel has panicked. */
  function After(s: Sched, ops: seq<SchedOp>, k: nat): (r: Option<Sched>)
    requires k <= |ops|
    decreases k
  {
    if k == 0 then Some(s)
    else match Step(s, ops[0])
      case None => None
      case Some(s') => After(s', ops[1..], k - 1)
  }

  /** Safety of whole runs: no panic, and in every state exactly one task, the current one, is running. */
  lemma {:induction false} RunSafe(s: Sched, ops: seq<SchedOp>, idle: nat, k: nat)
    requires SchedOk(s, idle) && AllAllowed(s, ops, idle) && k <= |ops|
    ensures After(s, ops, k).Some? && SchedOk(After(s, ops, k).value, idle)
    decreases k
  {
    if k > 0 {
      StepOk(s, ops[0], idle);
      RunSafe(Step(s, ops[0]).value, ops[1..], idle, k - 1);
    }
  }

  /** Only a blocked task has a deadline. */
  ghost predicate DeadlinesClear(s: Sched) {
    forall i :: 0 <= i < |s.tasks| && s.tasks[i].Some? && s.tasks[i].value.state != Blocked ==>
      s.tasks[i].value.wakeDeadline == 0
  }

  lemma ScheduleDeadlines(s: Sched, st: State)
    requires ScheduleNext(s, st).Some? && (st != Blocked ==> s.tasks[s.current].value.wakeDeadline == 0)
    requires forall i :: 0 <= i < |s.tasks| && i != s.current && s.tasks[i].Some? ==>
      s.tasks[i].value.state == Blocked || s.tasks[i].value.wakeDeadline == 0
    ensures DeadlinesClear(ScheduleNext(s, st).value)
  {
    ReadyFromReady(SetState(s, s.current, st), s.current, 1);
  }

  lemma StepDeadlines(s: Sched, op: SchedOp)
    requires DeadlinesClear(s) && Is(s, s.current, Running) && Step(s, op).Some?
    ensures DeadlinesClear(Step(s, op).value)
  {
    match op
    case OpTick => ScheduleDeadlines(WakeExpired(s.(ticks := s.ticks + 1)), Ready);
    case OpYield => ScheduleDeadlines(s, Ready);
    case OpSleep(ms) =>
      ScheduleDeadlines(SetTask(s, s.current, Current(s).value.(sleepUntil := s.ticks + MsToTicks(ms))), Sleeping);
    case OpBlock(key, ms, resume) =>
      var deadline := match ms case None => 0 case Some(n) => s.ticks + MsToTicks(n);
      var t := Current(s).value.(waitOn := key, wakeDeadline := deadline, resume := resume);
      ScheduleDeadlines(SetTask(s, s.current, t), Blocked);
    case OpExit => ScheduleDeadlines(s, Terminated);
    case _ =>
  }

  /** However a task was woken, its deadline is gone: in every state of every run only blocked tasks have one. */
  lemma {:induction false} RunDeadlines(s: Sched, ops: seq<SchedOp>, idle: nat, k: nat)
    requires SchedOk(s, idle) && DeadlinesClear(s) && AllAllowed(s, ops, idle) && k <= |ops|
    ensures After(s, ops, k).Some? && DeadlinesClear(After(s, ops, k).value)
    decreases k
  {
    if k > 0 {
      StepOk(s, ops[0], idle);
      StepDeadlines(s, ops[0]);
      RunDeadlines(Step(s, ops[0]).value, ops[1..], idle, k - 1);
    }
  }

  // ---- bounded waiting ----

  /** Task i will run without anybody's help: it is ready, or a clock will make it ready. */
  predicate Pending(s: Sched, i: nat) {
    Is(s, i, Ready) || (Is(s, i, Sleeping) && s.tasks[i].value.sleepUntil > s.ticks)
    || (Is(s, i, Blocked) && s.tasks[i].value.wakeDeadline > s.ticks)
  }

  /** Upper bound on the clock ticks until i runs. */
  function Bound(s: Sched, i: nat): (n: nat)
    requires s.current < |s.tasks| && Pending(s, i)
  {
    if Is(s, i, Ready) then Distance(|s.tasks|, s.current, i)
    else (if Is(s, i, Sleeping) then s.tasks[i].value.sleepUntil - s.ticks else s.tasks[i].value.wakeDeadline - s.ticks)
         + |s.tasks| - 1
  }

  /** Does the operation call `schedule_next`? */
  predicate Schedules(op: SchedOp) { op.OpTick? || op.OpYield? || op.OpSleep? || op.OpBlock? || op.OpExit? }

  /** The operation does not remove task i. */
  predicate Spares(s: Sched, op: SchedOp, i: nat) {
    op.OpRemove? && i < |s.tasks| && s.tasks[i].Some? ==> s.tasks[i].value.domain != op.domain
  }

  /** A call of `schedule_next` either runs the ready task i or brings the current index strictly closer to it. */
  lemma ScheduleCloser(s: Sched, st: State, i: nat)
    requires s.current < |s.tasks| && Is(s, i, Ready) && i != s.current && ScheduleNext(s, st).Some?
    ensures var s' := ScheduleNext(s, st).value;
            s'.current == i ||
            (Is(s', i, Ready) && i != s'.current && s'.current < |s'.tasks| && |s'.tasks| == |s.tasks|
             && Distance(|s.tasks|, s'.current, i) < Distance(|s.tasks|, s.current, i))
  {
    ReadyFromFirst(SetState(s, s.current, st), s.current, 1, i);
  }

  /** A task waiting for the clock stays as it is across a call of `schedule_next`. */
  lemma ScheduleLeaves(s: Sched, st: State, i: nat)
    requires s.current < |s.tasks| && i < |s.tasks| && s.tasks[i].Some? && !Is(s, i, Ready) && i != s.current
    requires ScheduleNext(s, st).Some?
    ensures var s' := ScheduleNext(s, st).value;
            |s'.tasks| == |s.tasks| && s'.tasks[i] == s.tasks[i] && s'.ticks == s.ticks && i != s'.current
              && s'.current < |s.tasks|
  {
    ReadyFromReady(SetState(s, s.current, st), s.current, 1);
  }

  /** i runs in s', or is still pending there with its bound no larger, smaller if `strict`. */
  ghost predicate Closer(s: Sched, s': Sched, i: nat, strict: bool)
    requires s.current < |s.tasks| && Pending(s, i)
  {
    s'.current == i ||
    (Pending(s', i) && i != s'.current && s'.current < |s'.tasks| && (Is(s, i, Ready) ==> Is(s', i, Ready))
     && if strict then Bound(s', i) < Bound(s, i) else Bound(s', i) <= Bound(s, i))
  }

  /** One step: i runs, or stays pending with its bound no larger; a tick, or any scheduling call if i is ready,
      makes the bound strictly smaller. */
  lemma StepCloser(s: Sched, op: SchedOp, i: nat)
    requires Is(s, s.current, Running) && Pending(s, i) && Spares(s, op, i) && Step(s, op).Some? && i != s.current
    ensures Closer(s, Step(s, op).value, i, op.OpTick? || (Schedules(op) && Is(s, i, Ready)))
  {
    assert SetTask(s, s.current, s.tasks[s.current].value).tasks == s.tasks;
    match op
    case OpTick => TickCloser(s, i);
    case OpYield => ParkCloser(s, s.tasks[s.current].value, Ready, i);
    case OpSleep(ms) => ParkCloser(s, s.tasks[s.current].value.(sleepUntil := s.ticks + MsToTicks(ms)), Sleeping, i);
    case OpBlock(key, ms, resume) =>
      var deadline := match ms case None => 0 case Some(n) => s.ticks + MsToTicks(n);
      ParkCloser(s, s.tasks[s.current].value.(waitOn := key, wakeDeadline := deadline, resume := resume), Blocked, i);
    case OpExit => ParkCloser(s, s.tasks[s.current].value, Terminated, i);
    case _ => QuietCloser(s, op, i);
  }

  lemma TickCloser(s: Sched, i: nat)
    requires Is(s, s.current, Running) && Pending(s, i) && Tick(s).Some? && i != s.current
    ensures Closer(s, Tick(s).value, i, true)
  {
    var s1 := WakeExpired(s.(ticks := s.ticks + 1));
    if Is(s1, i, Ready) { ScheduleCloser(s1, Ready, i); } else { ScheduleLeaves(s1, Ready, i); }
  }

  /** The current task is parked with new bookkeeping. */
  lemma ParkCloser(s: Sched, t: Task, st: State, i: nat)
    requires Is(s, s.current, Running) && Pending(s, i) && i != s.current
    requires var s1 := SetTask(s, s.current, t); ScheduleNext(s1, st).Some?
    ensures Closer(s, ScheduleNext(SetTask(s, s.current, t), st).value, i, Is(s, i, Ready))
  {
    var s1 := SetTask(s, s.current, t);
    if Is(s, i, Ready) { ScheduleCloser(s1, st, i); } else { ScheduleLeaves(s1, st, i); }
  }

  /** Operations that do not schedule leave i pending. */
  lemma QuietCloser(s: Sched, op: SchedOp, i: nat)
    requires Is(s, s.current, Running) && Pending(s, i) && Spares(s, op, i) && i != s.current && !Schedules(op)
    ensures Step(s, op).Some? && Closer(s, Step(s, op).value, i, false)
  {
  }

  function Ticks(ops: seq<SchedOp>): (n: nat) {
    if ops == [] then 0 else (if ops[0].OpTick? then 1 else 0) + Ticks(ops[1..])
  }

  function Schedulings(ops: seq<SchedOp>): (n: nat) {
    if ops == [] then 0 else (if Schedules(ops[0]) then 1 else 0) + Schedulings(ops[1..])
  }

  predicate AllSpare(s: Sched, ops: seq<SchedOp>, i: nat)
    decreases |ops|
  {
    ops != [] ==> Spares(s, ops[0], i) && (Step(s, ops[0]).Some? ==> AllSpare(Step(s, ops[0]).value, ops[1..], i))
  }

  /** A ready task that is not removed runs within `Distance`, hence at most n - 1, scheduling calls. */
  lemma {:induction false} ReadyRuns(s: Sched, ops: seq<SchedOp>, idle: nat, i: nat)
    requires SchedOk(s, idle) && AllAllowed(s, ops, idle) && AllSpare(s, ops, i)
    requires Is(s, i, Ready) && Schedulings(ops) >= Distance(|s.tasks|, s.current, i)
    ensures exists k :: 0 <= k <= |ops| && After(s, ops, k).Some? && After(s, ops, k).value.current == i
    decreases |ops|
  {
    assert i != s.current;
    StepOk(s, ops[0], idle);
    StepCloser(s, ops[0], i);
    var s' := Step(s, ops[0]).value;
    if s'.current == i {
      assert After(s, ops, 1) == Some(s');
    } else {
      ReadyRuns(s', ops[1..], idle, i);
      var k :| 0 <= k <= |ops[1..]| && After(s', ops[1..], k).Some? && After(s', ops[1..], k).value.current == i;
      assert After(s, ops, k + 1) == After(s', ops[1..], k);
    }
  }

  /** A task that sleeps or blocks with a deadline, or is ready, runs before `Bound` ticks have passed: a
      deadline D is met by tick D + n - 1. */
  lemma {:induction false} TimedRuns(s: Sched, ops: seq<SchedOp>, idle: nat, i: nat)
    requires SchedOk(s, idle) && AllAllowed(s, ops, idle) && AllSpare(s, ops, i)
    requires Pending(s, i) && Ticks(ops) >= Bound(s, i) && i != s.current
    ensures exists k :: 0 <= k <= |ops| && After(s, ops, k).Some? && After(s, ops, k).value.current == i
    decreases |ops|
  {
    StepOk(s, ops[0], idle);
    StepCloser(s, ops[0], i);
    var s' := Step(s, ops[0]).value;
    if s'.current == i {
      assert After(s, ops, 1) == Some(s');
    } else {
      TimedRuns(s', ops[1..], idle, i);
      var k :| 0 <= k <= |ops[1..]| && After(s', ops[1..], k).Some? && After(s', ops[1..], k).value.current == i;
      assert After(s, ops, k + 1) == After(s', ops[1..], k);
    }
  }

  /** A block with a timeout is pending at once: its deadline is nonzero and ahead. */
  lemma TimedBlockPending(s: Sched, key: nat, ms: nat, resume: Resume, idle: nat)
    requires SchedOk(s, idle) && s.current != idle
    ensures var r := Block(s, key, Some(ms), resume);
            && r.Some? && SchedOk(r.value, idle) && Pending(r.value, s.current) && r.value.current != s.current
            && r.value.tasks[s.current].value.wakeDeadline == s.ticks + MsToTicks(ms)
            && Bound(r.value, s.current) <= MsToTicks(ms) + |s.tasks| - 1
  {
    StepOk(s, OpBlock(key, Some(ms), resume), idle);
    var s1 := SetTask(s, s.current,
      Current(s).value.(waitOn := key, wakeDeadline := s.ticks + MsToTicks(ms), resume := resume));
    ReadyFromReady(SetState(s1, s.current, Blocked), s.current, 1);
  }
}
