/** A run that shows why a domain waiting to be reclaimed must not be restarted before the tick. */
module ReclaimExample {
  import opened Wrappers
  import opened Scheduling
  import opened Interrupts
  import opened KernelSteps
  import opened KernelSafety
  import opened KernelRuns
  import KernelPanics

  const CHILD: nat := 26
  const SUPERVISOR: nat := 1

  function TaskIn(d: nat, state: State): (t: Task) { FreshTask(d).(state := state) }

  /** The idle task, a child about to exit, and a supervisor that may start programs. */
  function Tasks(): (s: seq<Option<Task>>) {
    [Some(TaskIn(0, Ready)), None, Some(TaskIn(CHILD, Running)), Some(TaskIn(SUPERVISOR, Ready))]
  }

  function Start(): (k: Kernel) {
    Kernel(Sched(Tasks(), 2, 0), seq(27, i => []),
           Irq(seq(256, i => None), seq(256, i => false), seq(64, i => {}), seq(16, i => None)),
           seq(27, i => true), [], seq(27, i => Some(SUPERVISOR)),
           seq(27, i => if i == SUPERVISOR then [Some(Capabilities.Spawn)] else []), seq(27, i => []))
  }

  lemma StartOk()
    ensures KernelOk(Start(), 0) && KernelPanics.Provided(Start())
  {
  }

  /** The same kernel after the child's exit: the supervisor runs, the child's domain waits to be reclaimed. */
  function Exited(): (k: Kernel) {
    Start().(sched := Sched([Some(TaskIn(0, Ready)), None, Some(TaskIn(CHILD, Terminated)),
      Some(TaskIn(SUPERVISOR, Running))], 3, 0),
             dying := [CHILD])
  }

  lemma OneChild()
    ensures LiveTasks(Tasks(), CHILD) == 1
  {
    var t := Tasks();
    assert t[1..] == [None, t[2], t[3]] && [None, t[2], t[3]][1..] == [t[2], t[3]];
    assert [t[2], t[3]][1..] == [t[3]] && [t[3]][1..] == [];
  }

  lemma ChildExits()
    ensures Enabled(Start(), SysExit) && Step(Start(), SysExit) == Some(Exited())
  {
    OneChild();
    var s1 := SetState(Start().sched, 2, Terminated);
    assert ReadyFrom(s1, 2, 1) == Some(3);
    assert SetState(s1, 3, Running).tasks == Exited().sched.tasks;
    assert ScheduleNext(Start().sched, Terminated) == Some(Exited().sched);
    assert [] + [CHILD] == [CHILD];
    assert Exit(Start(), Me(Start()).value) == Some(Exited());
  }

  /** The supervisor restarts the child before the tick. */
  lemma RestartRevives()
    ensures Enabled(Exited(), SysRestart(CHILD, true)) && Revives(Exited(), SysRestart(CHILD, true))
  {
    var k := Exited();
    assert k.caps[SUPERVISOR][0] == Some(Capabilities.Spawn);
    assert forall i :: 0 <= i < |k.sched.tasks| ==> !LiveIn(k.sched.tasks[i], CHILD);
    assert Reap(k.sched, CHILD).tasks[1].None?;
  }

  /** The restarted child is live, and the next tick takes it away with its domain. */
  lemma RestartedChildIsLost()
    ensures Step(Start(), SysExit) == Some(Exited()) && Enabled(Exited(), SysRestart(CHILD, true))
    ensures Step(Exited(), SysRestart(CHILD, true)).Some?
    ensures var k := Step(Exited(), SysRestart(CHILD, true)).value;
            Sized(k.irq) && LiveTasks(k.sched.tasks, CHILD) > 0 && LiveTasks(Reclaim(k).sched.tasks, CHILD) == 0
  {
    ChildExits();
    RestartRevives();
    RevivedIsReclaimed(Exited(), SysRestart(CHILD, true));
  }
}
