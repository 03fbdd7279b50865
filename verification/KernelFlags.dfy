/** The life of an interrupt: every interrupt of a registered vector is recorded, its flag stays up until a take
    hands the vector to the domain it is registered to, and a waiter woken for it comes back with it. */
module KernelFlags {
  import opened Wrappers
  import opened Scheduling
  import opened Interrupts
  import opened KernelSteps
  import opened KernelSafety
  import opened KernelInvariant
  import opened KernelTiming

  /** The vector the step hands to the running task. */
  function Taken(k: Kernel, ev: Event): (v: Option<nat>)
    requires Sized(k.irq) && Enabled(k, ev)
  {
    var t := Me(k).value;
    match ev
    case SysIrqPoll(mask) => Granted(k, t, mask)
    case SysIrqWait(mask, _) => Granted(k, t, mask)
    case EvResume => if t.resume.InIrqWait? then TakePending(k.irq, t.resume.mask, t.domain).1 else None
    case _ => None
  }

  function Granted(k: Kernel, t: Task, mask: set<nat>): (v: Option<nat>)
    requires Sized(k.irq)
  {
    if mask == {} || !MaskOk(k, t.domain, mask) then None else TakePending(k.irq, mask, t.domain).1
  }

  /** What is handed out was pending and is registered to the running task's domain. */
  lemma TakenIsMine(k: Kernel, ev: Event)
    requires Sized(k.irq) && Enabled(k, ev) && Taken(k, ev).Some?
    ensures var v := Taken(k, ev).value;
            InMsiRange(v) && k.irq.vectors[v] == Some(Me(k).value.domain) && k.irq.pending[v]
  {
    var t := Me(k).value;
    TakeConsumes(k.irq, if ev.EvResume? then t.resume.mask else ev.mask, t.domain);
  }

  // ---- one step ----

  /** A flag of q' is up exactly if it was up in q and v was not taken. */
  ghost predicate Cleared(q: Irq, q': Irq, v: Option<nat>)
    requires Sized(q)
  {
    && Sized(q')
    && forall u :: 0 <= u < VECTOR_COUNT ==> (q'.pending[u] <==> q.pending[u] && v != Some(u))
  }

  lemma TakeClears(q: Irq, q1: Irq, mask: set<nat>, domain: nat)
    requires Sized(q) && Sized(q1) && q1.vectors == q.vectors && q1.pending == q.pending
    ensures Cleared(q, TakePending(q1, mask, domain).0, TakePending(q, mask, domain).1)
  {
    TakeIgnoresMasks(q, q1, mask, domain);
    TakeConsumes(q1, mask, domain);
  }

  lemma {:induction false} ReclaimFlags(k: Kernel)
    requires Sized(k.irq)
    ensures Reclaim(k).irq.pending == k.irq.pending
    decreases |k.dying|
  {
    if k.dying != [] {
      var n := |k.dying| - 1;
      ReclaimFlags(Destroy(k.(dying := k.dying[..n]), k.dying[n]));
    }
  }

  /** Exactly how flags move: up when the interrupt of a registered vector comes, down when the vector is taken,
      and in no other step. */
  lemma FlagExact(k: Kernel, ev: Event, v: nat)
    requires Sized(k.irq) && Enabled(k, ev) && Step(k, ev).Some? && v < VECTOR_COUNT
    ensures Sized(Step(k, ev).value.irq)
    ensures Step(k, ev).value.irq.pending[v] <==>
              (ev == EvMsi(v) && k.irq.vectors[v].Some?) || (k.irq.pending[v] && Taken(k, ev) != Some(v))
  {
    if ev.EvTick? { ReclaimFlags(k); }
    else if ev.EvResume? || ev.SysIrqPoll? || ev.SysIrqWait? { TakeFlags(k, ev); }
    else if ev.EvMsi? { }
    else { SameFlags(k, ev); }
  }

  lemma TakeFlags(k: Kernel, ev: Event)
    requires Sized(k.irq) && Enabled(k, ev) && Step(k, ev).Some? && (ev.EvResume? || ev.SysIrqPoll? || ev.SysIrqWait?)
    ensures Cleared(k.irq, Step(k, ev).value.irq, Taken(k, ev))
  {
    var t := Me(k).value;
    if ev.EvResume? {
      if t.resume.InIrqWait? { DoneFlags(k, t, t.resume.mask); }
    } else if ev.SysIrqPoll? {
      TakeClears(k.irq, k.irq, ev.mask, t.domain);
    } else {
      WaitFlags(k, t, ev.mask, ev.ms);
    }
  }

  lemma DoneFlags(k: Kernel, t: Task, mask: set<nat>)
    requires Sized(k.irq)
    ensures Cleared(k.irq, IrqWaitDone(k, t, mask).irq, TakePending(k.irq, mask, t.domain).1)
  {
    var q := if t.domain < ANY_MAX_DOMAINS then k.irq.(anyMask := k.irq.anyMask[t.domain := {}]) else k.irq;
    TakeClears(k.irq, q, mask, t.domain);
  }

  lemma WaitFlags(k: Kernel, t: Task, mask: set<nat>, ms: nat)
    requires Sized(k.irq) && IrqWait(k, t, mask, ms).Some?
    ensures Cleared(k.irq, IrqWait(k, t, mask, ms).value.irq, Granted(k, t, mask))
  {
    TakeClears(k.irq, k.irq, mask, t.domain);
  }

  lemma SameFlags(k: Kernel, ev: Event)
    requires Sized(k.irq) && Enabled(k, ev) && Step(k, ev).Some?
    requires !ev.EvTick? && !ev.EvMsi? && !ev.EvResume? && !ev.SysIrqPoll? && !ev.SysIrqWait?
    ensures Sized(Step(k, ev).value.irq) && Step(k, ev).value.irq.pending == k.irq.pending
  {
  }

  // ---- the interrupt itself ----

  /** Waking a domain's interrupt token readies its interrupt waiter and nobody else. */
  lemma WakeTokenExact(k: Kernel, idle: nat, d: nat, i: nat)
    requires KernelOk(k, idle) && d < ANY_MAX_DOMAINS && i < |k.sched.tasks|
    ensures var t := k.sched.tasks[i];
            WakeOne(k.sched, IrqToken(d)).tasks[i] ==
              if IsIrqWaiter(t) && t.value.domain == d then Some(Woken(t.value)) else t
  {
    var tasks, j := k.sched.tasks, FirstWaiter(k.sched.tasks, IrqToken(d), 0);
    if tasks[i].Some? { assert TaskOk(k.boxes, k.irq, tasks[i].value); }
    if j < |tasks| {
      assert TaskOk(k.boxes, k.irq, tasks[j].value);
      assert tasks[j].value.domain < |k.alive|;
    }
  }

  lemma {:induction false} WakeHitsExact(k: Kernel, masks: seq<set<nat>>, bit: nat, d: nat, idle: nat, i: nat)
    requires KernelOk(k, idle) && d <= |masks| <= ANY_MAX_DOMAINS && i < |k.sched.tasks|
    ensures var t, s' := k.sched.tasks[i], WakeHits(k.sched, masks, bit, d);
            && s'.tasks[i] == (if IsIrqWaiter(t) && d <= t.value.domain < |masks| && bit in masks[t.value.domain]
                               then Some(Woken(t.value)) else t)
            && s'.current == k.sched.current && s'.ticks == k.sched.ticks
    decreases |masks| - d
  {
    if d < |masks| {
      if bit in masks[d] {
        WakeOk(k, IrqToken(d), idle);
        WakeTokenExact(k, idle, d, i);
        WakeHitsExact(k.(sched := WakeOne(k.sched, IrqToken(d))), masks, bit, d + 1, idle, i);
      } else {
        WakeHitsExact(k, masks, bit, d + 1, idle, i);
      }
    }
  }

  /** The task waits for interrupt v. */
  predicate Awaits(t: Option<Task>, v: nat) {
    IsIrqWaiter(t) && InMsiRange(v) && v - MSI_VECTOR_BASE in t.value.resume.mask
  }

  /** An interrupt of a registered vector raises its flag and readies exactly the tasks that wait for it; an
      interrupt of any other vector does nothing. */
  lemma MsiExact(k: Kernel, v: nat, idle: nat)
    requires KernelOk(k, idle) && Enabled(k, EvMsi(v))
    ensures Step(k, EvMsi(v)).Some?
    ensures var k' := Step(k, EvMsi(v)).value;
            if k.irq.vectors[v].None? then k' == k
            else
              && k' == k.(irq := k'.irq, sched := k'.sched)
              && k'.irq == k.irq.(pending := k.irq.pending[v := true])
              && |k'.sched.tasks| == |k.sched.tasks|
              && k'.sched == k.sched.(tasks := k'.sched.tasks)
              && forall i :: 0 <= i < |k.sched.tasks| ==>
                   k'.sched.tasks[i] ==
                     if Awaits(k.sched.tasks[i], v) then Some(Woken(k.sched.tasks[i].value)) else k.sched.tasks[i]
  {
    var tasks, k' := k.sched.tasks, Step(k, EvMsi(v)).value;
    if k.irq.vectors[v].Some? && InMsiRange(v) {
      forall i | 0 <= i < |tasks|
        ensures k'.sched.tasks[i] == if Awaits(tasks[i], v) then Some(Woken(tasks[i].value)) else tasks[i]
        ensures k'.sched.current == k.sched.current && k'.sched.ticks == k.sched.ticks
      {
        if tasks[i].Some? { assert TaskOk(k.boxes, k.irq, tasks[i].value); }
        WakeHitsExact(k, k.irq.anyMask, v - MSI_VECTOR_BASE, 0, idle, i);
      }
      assert IdleQuiet(k.sched, idle);
    }
  }

  // ---- every run ----

  /** Event j of the run hands v, which is pending, to a task of the domain it is registered to. */
  ghost predicate TakesAt(k: Kernel, evs: seq<Event>, j: nat, v: nat) {
    && j < |evs| && v < VECTOR_COUNT && After(k, evs, j).Some?
    && var x := After(k, evs, j).value;
       Sized(x.irq) && Enabled(x, evs[j]) && Taken(x, evs[j]) == Some(v)
       && x.irq.pending[v] && x.irq.vectors[v] == Some(Me(x).value.domain)
  }

  /** A flag that is up goes down only by being taken by its owner. */
  lemma {:induction false} FlagFalls(k: Kernel, evs: seq<Event>, n: nat, v: nat)
    requires n <= |evs| && After(k, evs, n).Some? && v < VECTOR_COUNT
    requires Sized(k.irq) && k.irq.pending[v]
    ensures Sized(After(k, evs, n).value.irq)
    ensures !After(k, evs, n).value.irq.pending[v] ==> exists j :: 0 <= j < n && TakesAt(k, evs, j, v)
    decreases n
  {
    if n > 0 {
      var k1 := FirstStep(k, evs, n);
      FlagExact(k, evs[0], v);
      if Taken(k, evs[0]) == Some(v) {
        TakenIsMine(k, evs[0]);
        assert TakesAt(k, evs, 0, v);
        RunSized(k1, evs[1..], n - 1);
      } else {
        FlagFalls(k1, evs[1..], n - 1, v);
        if !After(k, evs, n).value.irq.pending[v] {
          var j :| 0 <= j < n - 1 && TakesAt(k1, evs[1..], j, v);
          assert After(k, evs, j + 1) == After(k1, evs[1..], j);
          assert TakesAt(k, evs, j + 1, v);
        }
      }
    }
  }

  lemma {:induction false} RunSized(k: Kernel, evs: seq<Event>, n: nat)
    requires n <= |evs| && After(k, evs, n).Some? && Sized(k.irq)
    ensures Sized(After(k, evs, n).value.irq)
    decreases n
  {
    if n > 0 {
      var k1 := FirstStep(k, evs, n);
      FlagExact(k, evs[0], 0);
      RunSized(k1, evs[1..], n - 1);
    }
  }

  function One(b: bool): (n: nat) { if b then 1 else 0 }

  /** Interrupts of v that came while it was registered, and takes that returned it, in the first n steps. */
  ghost function Raises(k: Kernel, evs: seq<Event>, n: nat, v: nat): (c: nat)
    requires n <= |evs| && After(k, evs, n).Some? && v < VECTOR_COUNT
    decreases n
  {
    if n == 0 then 0
    else One(evs[0] == EvMsi(v) && k.irq.vectors[v].Some?) + Raises(Step(k, evs[0]).value, evs[1..], n - 1, v)
  }

  ghost function Takes(k: Kernel, evs: seq<Event>, n: nat, v: nat): (c: nat)
    requires n <= |evs| && After(k, evs, n).Some? && v < VECTOR_COUNT
    decreases n
  {
    if n == 0 then 0 else One(Taken(k, evs[0]) == Some(v)) + Takes(Step(k, evs[0]).value, evs[1..], n - 1, v)
  }

  /** No interrupt is handed out twice: takes and a flag still up never exceed the interrupts that came and a flag
      that was up. And none is dropped: if one came or was up, it was taken or is up still. */
  lemma {:induction false} FlagsConserved(k: Kernel, evs: seq<Event>, n: nat, v: nat)
    requires n <= |evs| && After(k, evs, n).Some? && v < VECTOR_COUNT && Sized(k.irq)
    ensures Sized(After(k, evs, n).value.irq)
    ensures var up, up' := One(k.irq.pending[v]), One(After(k, evs, n).value.irq.pending[v]);
            var took, came := Takes(k, evs, n, v) + up', Raises(k, evs, n, v) + up;
            took <= came && (came > 0 ==> took > 0)
    decreases n
  {
    if n > 0 {
      var k1 := FirstStep(k, evs, n);
      FlagExact(k, evs[0], v);
      if Taken(k, evs[0]).Some? { TakenIsMine(k, evs[0]); }
      FlagsConserved(k1, evs[1..], n - 1, v);
    }
  }

  // ---- a woken waiter comes back with its interrupt ----

  /** Along the run the kernel does not panic, i's domain is not destroyed, and v stays registered to d. */
  ghost predicate Keeps(k: Kernel, evs: seq<Event>, i: nat, v: nat, d: nat)
    decreases |evs|
  {
    && Sized(k.irq) && v < VECTOR_COUNT && k.irq.vectors[v] == Some(d)
    && (evs != [] ==>
          && Enabled(k, evs[0]) && Step(k, evs[0]).Some? && Spares(k, evs[0], i)
          && Keeps(Step(k, evs[0]).value, evs[1..], i, v, d))
  }

  /** Event n is the return of task i from its wait, with vector w. */
  ghost predicate ReturnsWith(k: Kernel, evs: seq<Event>, n: nat, i: nat, w: nat) {
    && n < |evs| && After(k, evs, n).Some?
    && var x := After(k, evs, n).value;
       Sized(x.irq) && Enabled(x, evs[n]) && x.sched.current == i && evs[n] == EvResume && Taken(x, EvResume) == Some(w)
  }

  /** i returns in the run with v or a lower vector of the mask. */
  ghost predicate Answered(k: Kernel, evs: seq<Event>, i: nat, mask: set<nat>, v: nat) {
    exists n: nat, w: nat :: ReturnsWith(k, evs, n, i, w) && InMsiRange(w) && w <= v && w - MSI_VECTOR_BASE in mask
  }

  lemma AnsweredLater(k: Kernel, k': Kernel, evs: seq<Event>, i: nat, mask: set<nat>, v: nat)
    requires evs != [] && Sized(k.irq) && Enabled(k, evs[0]) && Step(k, evs[0]) == Some(k')
    requires Answered(k', evs[1..], i, mask, v)
    ensures Answered(k, evs, i, mask, v)
  {
    var n: nat, w: nat :| ReturnsWith(k', evs[1..], n, i, w) && InMsiRange(w) && w <= v && w - MSI_VECTOR_BASE in mask;
    assert After(k, evs, n + 1) == After(k', evs[1..], n);
    assert ReturnsWith(k, evs, n + 1, i, w);
  }

  lemma AnsweredNow(k: Kernel, evs: seq<Event>, i: nat, mask: set<nat>, v: nat)
    requires evs != [] && Sized(k.irq) && Enabled(k, evs[0]) && InMsiRange(v) && v - MSI_VECTOR_BASE in mask
    requires i == k.sched.current && k.sched.tasks[i].value.resume == InIrqWait(mask)
    requires k.irq.vectors[v] == Some(k.sched.tasks[i].value.domain) && k.irq.pending[v]
    ensures Answered(k, evs, i, mask, v)
  {
    TakeConsumes(k.irq, mask, k.sched.tasks[i].value.domain);
    assert Hits(k.irq, mask, k.sched.tasks[i].value.domain, v - MSI_VECTOR_BASE);
    assert ReturnsWith(k, evs, 0, i, Taken(k, evs[0]).value);
  }

  /** While i waits, nobody else can take what is registered to its domain. */
  lemma OnlyWaiterTakes(k: Kernel, ev: Event, idle: nat, i: nat, v: nat)
    requires KernelOk(k, idle) && Enabled(k, ev) && Polite(k, ev, idle) && v < VECTOR_COUNT
    requires i < |k.sched.tasks| && IsLive(k.sched.tasks[i]) && i != k.sched.current && i != idle
    requires k.irq.vectors[v] == Some(k.sched.tasks[i].value.domain)
    ensures Taken(k, ev) != Some(v)
  {
    if Taken(k, ev) == Some(v) {
      TakenIsMine(k, ev);
      assert IsLive(k.sched.tasks[k.sched.current]);
      assert false;
    }
  }

  lemma StillUp(k: Kernel, ev: Event, idle: nat, i: nat, v: nat)
    requires KernelOk(k, idle) && Enabled(k, ev) && Polite(k, ev, idle) && Step(k, ev).Some? && v < VECTOR_COUNT
    requires i < |k.sched.tasks| && IsLive(k.sched.tasks[i]) && i != k.sched.current && i != idle
    requires k.irq.vectors[v] == Some(k.sched.tasks[i].value.domain) && k.irq.pending[v]
    ensures Sized(Step(k, ev).value.irq) && Step(k, ev).value.irq.pending[v]
  {
    OnlyWaiterTakes(k, ev, idle, i, v);
    FlagExact(k, ev, v);
  }

  /** A task in an interrupt wait whose vector v is up comes back within its bound, with v or a lower vector of its
      mask. */
  lemma {:induction false} WaiterReturns(k: Kernel, evs: seq<Event>, idle: nat, i: nat, mask: set<nat>, v: nat)
    requires KernelOk(k, idle) && GoodRun(k, evs, idle) && InMsiRange(v) && v - MSI_VECTOR_BASE in mask
    requires i < |k.sched.tasks| && k.sched.tasks[i].Some? && k.sched.tasks[i].value.resume == InIrqWait(mask)
    requires Keeps(k, evs, i, v, k.sched.tasks[i].value.domain) && k.irq.pending[v]
    requires if k.sched.current == i then evs != [] else R.Pending(k.sched, i) && Ticks(evs) > R.Bound(k.sched, i)
    ensures Answered(k, evs, i, mask, v)
    decreases |evs|
  {
    if k.sched.current == i {
      AnsweredNow(k, evs, i, mask, v);
    } else {
      var k' := Step(k, evs[0]).value;
      StepOk(k, evs[0], idle);
      StepNoLater(k, evs[0], idle, i);
      StillUp(k, evs[0], idle, i, v);
      WaiterReturns(k', evs[1..], idle, i, mask, v);
      AnsweredLater(k, k', evs, i, mask, v);
    }
  }

  /** The interrupt a task waits for comes: before more ticks than there are tasks have passed, the task returns
      from its wait with that vector or a lower one of its mask. */
  lemma InterruptArrives(k: Kernel, evs: seq<Event>, idle: nat, i: nat, v: nat)
    requires KernelOk(k, idle) && GoodRun(k, evs, idle) && evs != [] && evs[0] == EvMsi(v)
    requires i < |k.sched.tasks| && Awaits(k.sched.tasks[i], v) && Keeps(k, evs, i, v, k.sched.tasks[i].value.domain)
    requires Ticks(evs) >= |k.sched.tasks|
    ensures exists n: nat, w: nat :: ReturnsWith(k, evs, n, i, w) && InMsiRange(w) && w <= v
                                     && w - MSI_VECTOR_BASE in k.sched.tasks[i].value.resume.mask
  {
    var mask, k' := k.sched.tasks[i].value.resume.mask, Step(k, evs[0]).value;
    StepOk(k, evs[0], idle);
    MsiReadies(k, v, idle, i);
    WaiterReturns(k', evs[1..], idle, i, mask, v);
    AnsweredLater(k, k', evs, i, mask, v);
  }

  lemma MsiReadies(k: Kernel, v: nat, idle: nat, i: nat)
    requires KernelOk(k, idle) && Enabled(k, EvMsi(v)) && k.irq.vectors[v].Some?
    requires i < |k.sched.tasks| && Awaits(k.sched.tasks[i], v)
    ensures Step(k, EvMsi(v)).Some?
    ensures var k' := Step(k, EvMsi(v)).value;
            && |k'.sched.tasks| == |k.sched.tasks| && k'.sched.current < |k'.sched.tasks| && k'.sched.current != i
            && k'.sched.tasks[i] == Some(Woken(k.sched.tasks[i].value)) && Sized(k'.irq) && k'.irq.pending[v]
            && R.Pending(k'.sched, i) && R.Bound(k'.sched, i) < |k.sched.tasks|
  {
    MsiExact(k, v, idle);
  }

  // ---- the wait ----

  /** Exactly what SYS_IRQ_WAIT does before it waits: a bad mask or a domain without a mask row returns at once, a
      pending vector is consumed, and otherwise the mask is noted and the task blocks until `ms` are over. */
  lemma IrqWaitExact(k: Kernel, mask: set<nat>, ms: nat, idle: nat)
    requires KernelOk(k, idle) && k.sched.current != idle && Enabled(k, SysIrqWait(mask, ms))
    requires Step(k, SysIrqWait(mask, ms)).Some?
    ensures var t, k', v := Me(k).value, Step(k, SysIrqWait(mask, ms)).value, Taken(k, SysIrqWait(mask, ms));
            if v.Some? then k' == k.(irq := k.irq.(pending := k.irq.pending[v.value := false]))
            else if mask == {} || !MaskOk(k, t.domain, mask) || t.domain >= ANY_MAX_DOMAINS then k' == k
            else
              && k' == k.(irq := k.irq.(anyMask := k.irq.anyMask[t.domain := mask]), sched := k'.sched)
              && |k'.sched.tasks| == |k.sched.tasks| && k'.sched.current != k.sched.current
              && k'.sched.tasks[k.sched.current] ==
                   Some(t.(state := Blocked, waitOn := U64_MAX - 0x300 - t.domain,
                           wakeDeadline := k.sched.ticks + MsToTicks(ms), resume := InIrqWait(mask)))
  {
    var t := Me(k).value;
    if mask != {} && MaskOk(k, t.domain, mask) {
      TakeConsumes(k.irq, mask, t.domain);
      if TakePending(k.irq, mask, t.domain).1.None? && t.domain < ANY_MAX_DOMAINS {
        WaitBlocks(k.sched, t, mask, ms, Block(k.sched, IrqToken(t.domain), Some(ms), InIrqWait(mask)).value);
      }
    }
  }

  lemma WaitBlocks(s: Sched, t: Task, mask: set<nat>, ms: nat, s': Sched)
    requires t.domain < ANY_MAX_DOMAINS && Is(s, s.current, Running) && s.tasks[s.current] == Some(t)
    requires Block(s, IrqToken(t.domain), Some(ms), InIrqWait(mask)) == Some(s')
    ensures |s'.tasks| == |s.tasks| && s'.current != s.current
    ensures s'.tasks[s.current] == Some(t.(state := Blocked, waitOn := U64_MAX - 0x300 - t.domain,
                                           wakeDeadline := s.ticks + MsToTicks(ms), resume := InIrqWait(mask)))
  {
    BlockEffect(s, IrqToken(t.domain), Some(ms), InIrqWait(mask));
  }
}
