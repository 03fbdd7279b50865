/** Who can destroy the domain it runs in, or the idle task's: exactly when a destroy keeps the kernel's invariant,
    that over every run at most the boot pager can break it, and what happens then. */
module SelfDestroy {
  import opened Wrappers
  import opened Scheduling
  import opened Interrupts
  import opened KernelSteps
  import opened KernelSafety
  import opened KernelInvariant
  import opened ReclaimExample
  import P = KernelPanics
  import T = KernelTiming

  /** SYS_DOMAIN_DESTROY keeps the invariant exactly when it is refused or takes neither the caller's domain nor the
      idle task's away. */
  lemma DestroyCallExact(k: Kernel, d: nat, idle: nat)
    requires KernelOk(k, idle) && Enabled(k, SysDestroy(d)) && k.sched.current != idle
    ensures KernelOk(Step(k, SysDestroy(d)).value, idle) <==> !(Destroys(k, d) && Fatal(k, d, idle))
  {
    if Destroys(k, d) && Fatal(k, d, idle) {
      var s' := Destroy(k, d).sched;
      assert s'.tasks[idle].None? || s'.tasks[k.sched.current].None?;
    } else {
      DestroyCallOk(k, d, idle);
    }
  }

  /** A caller that destroyed its own domain: at the next tick the scheduler finds no running task and panics. */
  lemma SelfDestroyPanics(k: Kernel)
    requires Sized(k.irq) && Me(k).Some? && Destroys(k, Me(k).value.domain)
    requires Enabled(k, SysDestroy(Me(k).value.domain))
    ensures var k' := Step(k, SysDestroy(Me(k).value.domain)).value; Sized(k'.irq) && ClockTick(k').None?
  {
    var k' := Step(k, SysDestroy(Me(k).value.domain)).value;
    StaysGone(k', k.sched.current);
  }

  lemma {:induction false} StaysGone(k: Kernel, i: nat)
    requires Sized(k.irq) && i < |k.sched.tasks| && k.sched.tasks[i].None?
    ensures var s' := Reclaim(k).sched; i < |s'.tasks| && s'.tasks[i].None? && s'.current == k.sched.current
    decreases |k.dying|
  {
    if k.dying != [] {
      var n := |k.dying| - 1;
      StaysGone(Destroy(k.(dying := k.dying[..n]), k.dying[n]), i);
    }
  }

  /** It can happen: a supervisor that is its own pager, as the boot pager is, and may start programs. */
  lemma SupervisorDestroysItself()
    ensures var k, ev := Exited(), SysDestroy(SUPERVISOR);
            && KernelOk(k, 0) && Enabled(k, ev) && !KernelOk(Step(k, ev).value, 0)
            && Sized(Step(k, ev).value.irq) && ClockTick(Step(k, ev).value).None?
  {
    var k := Exited();
    StartOk();
    ChildExits();
    StepOk(Start(), SysExit, 0);
    assert k.caps[SUPERVISOR][0] == Some(Capabilities.Spawn);
    assert Destroys(k, SUPERVISOR);
    DestroyCallExact(k, SUPERVISOR, 0);
    SelfDestroyPanics(k);
  }

  // ---- over runs: only the boot pager ----

  /** The idle task's domain. */
  function Home(k: Kernel, idle: nat): (d: nat) {
    if idle < |k.sched.tasks| && k.sched.tasks[idle].Some? then k.sched.tasks[idle].value.domain else 0
  }

  /** The idle task lives in domain `home`, whose pager is p. */
  predicate PagedBy(k: Kernel, idle: nat, home: nat, p: nat) {
    Home(k, idle) == home && home < |k.pagers| && k.pagers[home] == Some(p)
  }

  lemma {:induction false} ReclaimPager(k: Kernel, home: nat)
    requires Sized(k.irq) && home < |k.pagers| && forall i :: 0 <= i < |k.dying| ==> k.dying[i] != home
    ensures home < |Reclaim(k).pagers| && Reclaim(k).pagers[home] == k.pagers[home]
    decreases |k.dying|
  {
    if k.dying != [] {
      var n := |k.dying| - 1;
      ReclaimPager(Destroy(k.(dying := k.dying[..n]), k.dying[n]), home);
    }
  }

  lemma StepPager(k: Kernel, ev: Event, idle: nat, home: nat, p: nat)
    requires KernelOk(k, idle) && Enabled(k, ev) && Polite(k, ev, idle) && Step(k, ev).Some?
    requires PagedBy(k, idle, home, p)
    ensures var k' := Step(k, ev).value; home < |k'.pagers| && k'.pagers[home] == Some(p)
  {
    assert Alive(k, home);
    if ev.EvTick? { ReclaimPager(k, home); }
    else if ev.SysDestroy? { if Destroys(k, ev.target) { FatalByPager(k, ev.target, idle); } }
    else if !ev.SysSpawn? && !ev.SysCapSend? && !ev.SysRegister? { P.SameRows(k, ev); }
  }

  lemma {:induction false} WakeHitsRunning(s: Sched, masks: seq<set<nat>>, bit: nat, d: nat, i: nat)
    requires d <= |masks| <= ANY_MAX_DOMAINS && Is(s, i, Running)
    ensures WakeHits(s, masks, bit, d).tasks[i] == s.tasks[i]
    decreases |masks| - d
  {
    if d < |masks| {
      WakeRelaxes(s, IrqToken(d));
      WakeHitsRunning(if bit in masks[d] then WakeOne(s, IrqToken(d)) else s, masks, bit, d + 1, i);
    }
  }

  /** What happens while the idle task runs leaves it in its domain. */
  lemma IdleStays(k: Kernel, ev: Event, idle: nat)
    requires KernelOk(k, idle) && Enabled(k, ev) && Step(k, ev).Some? && k.sched.current == idle
    requires (IsInterrupt(ev) || ev.SysYield?)
    ensures Home(Step(k, ev).value, idle) == Home(k, idle)
  {
    if ev.EvMsi? {
      if InMsiRange(ev.vector) { WakeHitsRunning(k.sched, k.irq.anyMask, ev.vector - MSI_VECTOR_BASE, 0, idle); }
    } else if ev.EvPic? {
      if k.irq.handlers[ev.irq].Some? { WakeRelaxes(k.sched, k.irq.handlers[ev.irq].value); }
    } else if ev.SysYield? {
      ScheduleRelaxes(k.sched, Ready);
      assert Relaxed1(k.sched.tasks[idle], Step(k, ev).value.sched.tasks[idle]);
    } else {
      TickStays(k, idle);
    }
  }

  lemma TickStays(k: Kernel, idle: nat)
    requires KernelOk(k, idle) && ClockTick(k).Some?
    ensures Home(ClockTick(k).value, idle) == Home(k, idle)
  {
    assert KernelOk(Reclaim(k), idle) && Home(Reclaim(k), idle) == Home(k, idle) by {
      ReclaimOk(k, idle);
      assert IsLive(k.sched.tasks[idle]);
    }
    SchedTickStays(Reclaim(k), idle);
  }

  lemma SchedTickStays(k: Kernel, idle: nat)
    requires KernelOk(k, idle) && Tick(k.sched).Some?
    ensures Home(k.(sched := Tick(k.sched).value), idle) == Home(k, idle)
  {
    var k1 := k.(sched := WakeExpired(k.sched.(ticks := k.sched.ticks + 1)));
    assert KernelOk(k1, idle) by { ExpiredOk(k, idle); }
    assert Home(k1, idle) == Home(k, idle);
    ScheduleRelaxes(k1.sched, Ready);
    assert Relaxed1(k1.sched.tasks[idle], Tick(k.sched).value.tasks[idle]);
  }

  lemma StepHome(k: Kernel, ev: Event, idle: nat)
    requires KernelOk(k, idle) && Enabled(k, ev) && Polite(k, ev, idle) && Step(k, ev).Some?
    ensures Home(Step(k, ev).value, idle) == Home(k, idle)
  {
    if k.sched.current == idle {
      IdleStays(k, ev, idle);
    } else {
      if ev.SysDestroy? && Destroys(k, ev.target) { FatalByPager(k, ev.target, idle); }
      T.StepNoLater(k, ev, idle, idle);
    }
  }

  /** In every state of every run, a destroy that would take the caller's own domain or the idle task's can only come
      from the domain that was the idle task's pager at the start, and only while it may start programs. */
  lemma OnlyBootPager(k: Kernel, evs: seq<Event>, idle: nat, home: nat, p: nat, n: nat, d: nat)
    requires KernelOk(k, idle) && PagedBy(k, idle, home, p) && GoodRun(k, evs, idle) && n <= |evs|
    requires After(k, evs, n).Some?
    ensures var k' := After(k, evs, n).value;
            && PagedBy(k', idle, home, p) && KernelOk(k', idle)
            && (Destroys(k', d) && Fatal(k', d, idle) ==> Me(k').value.domain == p && Has(k', p, Capabilities.Spawn))
  {
    forall x, ev | KernelOk(x, idle) && PagedBy(x, idle, home, p) && GoodStep(x, ev, idle)
      ensures KernelOk(Step(x, ev).value, idle) && PagedBy(Step(x, ev).value, idle, home, p)
    {
      StepOk(x, ev, idle);
      StepHome(x, ev, idle);
      StepPager(x, ev, idle, home, p);
    }
    RunKeeps(x => KernelOk(x, idle) && PagedBy(x, idle, home, p), k, evs, idle, n);
    var k' := After(k, evs, n).value;
    if Destroys(k', d) { FatalByPager(k', d, idle); }
  }

  /** Politeness without a word about destroying: the boot pager p does not hold Spawn. */
  ghost predicate Modest(k: Kernel, ev: Event, idle: nat, p: nat) {
    && (k.sched.current == idle ==> IsInterrupt(ev) || ev.SysYield?)
      && (ev.SysSpawn? ==> FirstDead(k.alive) < DOMAIN_LIMIT)
    && (Me(k).Some? ==> !Revives(k, ev)) && !Has(k, p, Capabilities.Spawn)
  }

  ghost predicate ModestRun(k: Kernel, evs: seq<Event>, idle: nat, p: nat)
    decreases |evs|
  {
    evs == [] ||
    (Sized(k.irq) && Enabled(k, evs[0]) && Modest(k, evs[0], idle, p)
     && (Step(k, evs[0]).Some? ==> ModestRun(Step(k, evs[0]).value, evs[1..], idle, p)))
  }

  /** Then every run is a good one, whatever anybody tries to destroy. */
  lemma {:induction false} ModestIsGood(k: Kernel, evs: seq<Event>, idle: nat, home: nat, p: nat)
    requires KernelOk(k, idle) && PagedBy(k, idle, home, p) && ModestRun(k, evs, idle, p)
    ensures GoodRun(k, evs, idle)
    decreases |evs|
  {
    if evs != [] {
      assert Polite(k, evs[0], idle);
      if Step(k, evs[0]).Some? {
        StepOk(k, evs[0], idle);
        StepHome(k, evs[0], idle);
        StepPager(k, evs[0], idle, home, p);
        ModestIsGood(Step(k, evs[0]).value, evs[1..], idle, home, p);
      }
    }
  }
}
