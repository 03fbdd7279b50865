/** Capabilities over whole runs of the kernel: what can come into the system, and exactly when a set of domains
    keeps a capability to itself while programs are started and destroyed. */
module KernelCaps {
  import opened Slots
  import opened Scheduling
  import opened Interrupts
  import opened KernelSteps
  import opened KernelInvariant
  import C = Capabilities

  function ReclaimCapOps(k: Kernel): (ops: seq<C.CapOp>)
    requires Sized(k.irq)
    ensures forall i :: 0 <= i < |ops| ==> ops[i].CapClear?
    decreases |k.dying|
  {
    if k.dying == [] then []
    else
      var n := |k.dying| - 1;
      var k1 := k.(dying := k.dying[..n]);
      (if Alive(k1, k.dying[n]) then [C.CapClear(k.dying[n])] else []) + ReclaimCapOps(Destroy(k1, k.dying[n]))
  }

  lemma {:induction false} RunJoin(t: Table<C.Capability>, a: seq<C.CapOp>, b: seq<C.CapOp>)
    ensures C.Run(t, a + b) == C.Run(C.Run(t, a), b)
    decreases |a|
  {
    if a == [] {
      assert a + b == b;
    } else {
      assert (a + b)[1..] == a[1..] + b;
      RunJoin(C.Step(t, a[0]), a[1..], b);
    }
  }

  lemma OneOp(t: Table<C.Capability>, op: C.CapOp)
    ensures C.Run(t, [op]) == C.Step(t, op)
  {
    assert C.Run(t, [op]) == C.Run(C.Step(t, op), [op][1..]);
  }

  lemma {:induction false} ReclaimCaps(k: Kernel)
    requires Sized(k.irq)
    ensures Reclaim(k).caps == C.Run(k.caps, ReclaimCapOps(k))
    decreases |k.dying|
  {
    if k.dying != [] {
      var n := |k.dying| - 1;
      var k1 := k.(dying := k.dying[..n]);
      var k2 := Destroy(k1, k.dying[n]);
      var first := if Alive(k1, k.dying[n]) then [C.CapClear(k.dying[n])] else [];
      ReclaimCaps(k2);
      assert k2.caps == C.Run(k.caps, first) by { OneOp(k.caps, C.CapClear(k.dying[n])); }
      RunJoin(k.caps, first, ReclaimCapOps(k2));
    }
  }

  /** The step starts a program in a new domain. */
  predicate StartsProgram(k: Kernel, ev: Event)
    requires Me(k).Some?
  {
    ev.SysSpawn? && Has(k, Me(k).value.domain, C.Spawn) && ev.loads && SpawnTask(k.sched, FirstDead(k.alive)).Some?
  }

  /** What a step does to capability rows. */
  function CapOps(k: Kernel, ev: Event): (ops: seq<C.CapOp>)
    requires Sized(k.irq) && Enabled(k, ev)
    ensures if StartsProgram(k, ev) then ops == [C.CapStart(FirstDead(k.alive))] else forall i :: 0 <= i < |ops| ==>
      !ops[i].CapStart?
  {
    var t := Me(k).value;
    match ev
    case EvTick => ReclaimCapOps(k)
    case SysCapSend(to, cap) => [C.CapSend(t.domain, to, cap)]
    case SysDestroy(d) =>
      if Destroys(k, d) then [C.CapClear(d)] else []
    case SysSpawn(loads) =>
      if !Has(k, t.domain, C.Spawn) then []
      else if StartsProgram(k, ev) then [C.CapStart(FirstDead(k.alive))] else [C.CapClear(FirstDead(k.alive))]
    case _ => []
  }

  /** A spawn that fails leaves the row empty. */
  lemma FailedStartClears(t: Table<C.Capability>, d: nat)
    ensures SetRow(C.Start(t, d), d, EmptyRow(C.CAP_SLOTS)) == SetRow(t, d, EmptyRow(C.CAP_SLOTS))
  {
    C.StartRow(t, d);
  }

  lemma StepCaps(k: Kernel, ev: Event)
    requires Sized(k.irq) && Enabled(k, ev) && Step(k, ev).Some?
    ensures Step(k, ev).value.caps == C.Run(k.caps, CapOps(k, ev))
  {
    if ev.EvTick? { ReclaimCaps(k); }
    else if ev.SysCapSend? || ev.SysDestroy? { OneRowCaps(k, ev); }
    else if ev.SysSpawn? { SpawnCaps(k, ev); }
    else { SameCaps(k, ev); }
  }

  lemma OneRowCaps(k: Kernel, ev: Event)
    requires Sized(k.irq) && Enabled(k, ev) && (ev.SysCapSend? || ev.SysDestroy?)
    ensures Step(k, ev).value.caps == C.Run(k.caps, CapOps(k, ev))
  {
    if CapOps(k, ev) != [] { OneOp(k.caps, CapOps(k, ev)[0]); }
  }

  lemma SpawnCaps(k: Kernel, ev: Event)
    requires Sized(k.irq) && Enabled(k, ev) && ev.SysSpawn?
    ensures Step(k, ev).value.caps == C.Run(k.caps, CapOps(k, ev))
  {
    var id, loader := FirstDead(k.alive), Me(k).value.domain;
    if Has(k, loader, C.Spawn) {
      OneOp(k.caps, CapOps(k, ev)[0]);
      SpawnedCaps(k, loader, ev.loads);
    }
  }

  lemma SpawnedCaps(k: Kernel, loader: nat, loads: bool)
    requires Sized(k.irq)
    ensures var id := FirstDead(k.alive);
            SpawnDomain(k, loader, loads).caps ==
            if loads && SpawnTask(k.sched, id).Some? then C.Start(k.caps, id)
              else SetRow(k.caps, id, EmptyRow(C.CAP_SLOTS))
  {
    FailedStartClears(k.caps, FirstDead(k.alive));
  }

  lemma SameCaps(k: Kernel, ev: Event)
    requires Sized(k.irq) && Enabled(k, ev) && Step(k, ev).Some? && !ev.EvTick? && !ev.SysCapSend? && !ev.SysDestroy?
    requires !ev.SysSpawn?
    ensures Step(k, ev).value.caps == k.caps
  {
  }

  // ---- amplification ----

  predicate Spawns(evs: seq<Event>, n: nat)
    requires n <= |evs|
  {
    exists j :: 0 <= j < n && evs[j].SysSpawn?
  }

  /** A capability held after a run of the kernel was held before it, or is one of the three every new program
      starts with and the run spawned one. */
  lemma {:induction false} KernelNeverAmplifies(k: Kernel, evs: seq<Event>, n: nat, c: C.Capability)
    requires n <= |evs| && After(k, evs, n).Some? && C.Anywhere(After(k, evs, n).value.caps, c)
    ensures C.Anywhere(k.caps, c) || (Spawns(evs, n) && c in C.StartCaps())
    decreases n
  {
    if n > 0 {
      var k' := Step(k, evs[0]).value;
      KernelNeverAmplifies(k', evs[1..], n - 1, c);
      if C.Anywhere(k'.caps, c) {
        StepCaps(k, evs[0]);
        C.RunNeverAmplifies(k.caps, CapOps(k, evs[0]), c);
        if StartsProgram(k, evs[0]) { assert evs[0].SysSpawn?; }
      } else {
        var j :| 0 <= j < n - 1 && evs[1..][j].SysSpawn?;
        assert evs[j + 1].SysSpawn?;
      }
    }
  }

  // ---- confinement ----

  lemma {:induction false} LastConfines(t: Table<C.Capability>, ops: seq<C.CapOp>, S: set<nat>, c: C.Capability)
    requires C.AlwaysConfines(t, ops, S, c)
    ensures C.Confines(C.Run(t, ops), S, c)
    decreases |ops|
  {
    if ops != [] { LastConfines(C.Step(t, ops[0]), ops[1..], S, c); }
  }

  /** What a kernel step needs to keep confinement: a program it starts fits. */
  predicate Fits(k: Kernel, ev: Event, S: set<nat>, c: C.Capability)
    requires Me(k).Some?
  {
    StartsProgram(k, ev) ==> C.StartFits(S, FirstDead(k.alive), c)
  }

  lemma StepConfines(k: Kernel, ev: Event, S: set<nat>, c: C.Capability)
    requires Sized(k.irq) && Enabled(k, ev) && Step(k, ev).Some? && C.Confines(k.caps, S, c)
    ensures C.Confines(Step(k, ev).value.caps, S, c) <==> Fits(k, ev, S, c)
  {
    var ops := CapOps(k, ev);
    StepCaps(k, ev);
    if StartsProgram(k, ev) {
      OneOp(k.caps, ops[0]);
      C.StepConfinesExact(k.caps, ops[0], S, c);
    } else {
      C.Confined(k.caps, ops, S, c);
      LastConfines(k.caps, ops, S, c);
    }
  }

  /** In every state of the run S is isolated and nobody outside holds c. */
  ghost predicate RunConfines(k: Kernel, evs: seq<Event>, S: set<nat>, c: C.Capability)
    decreases |evs|
  {
    && C.Confines(k.caps, S, c)
    && (evs != [] && Sized(k.irq) && Enabled(k, evs[0]) && Step(k, evs[0]).Some? ==>
          RunConfines(Step(k, evs[0]).value, evs[1..], S, c))
  }

  ghost predicate RunFits(k: Kernel, evs: seq<Event>, S: set<nat>, c: C.Capability)
    decreases |evs|
  {
    evs != [] && Sized(k.irq) && Enabled(k, evs[0]) && Step(k, evs[0]).Some? ==>
      Fits(k, evs[0], S, c) && RunFits(Step(k, evs[0]).value, evs[1..], S, c)
  }

  /** A kernel run keeps a capability held only in an isolated set of domains there exactly when every program it
      starts has both file services on its own side of the border, and is inside if the capability is one of the
      three it starts with. */
  lemma {:induction false} KernelConfined(k: Kernel, evs: seq<Event>, S: set<nat>, c: C.Capability)
    requires C.Confines(k.caps, S, c)
    ensures RunConfines(k, evs, S, c) <==> RunFits(k, evs, S, c)
    decreases |evs|
  {
    if evs != [] && Sized(k.irq) && Enabled(k, evs[0]) && Step(k, evs[0]).Some? {
      StepConfines(k, evs[0], S, c);
      if Fits(k, evs[0], S, c) { KernelConfined(Step(k, evs[0]).value, evs[1..], S, c); }
    }
  }
}
