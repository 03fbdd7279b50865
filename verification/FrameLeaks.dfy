/** No frame is lost: over every run, each frame in use is a page table, a mapped page, device memory, pinned or
    one of a fixed set of reserved frames, exactly when no page without a reference count is unmapped alone. */
module FrameLeaks {
  import opened Wrappers
  import opened Frames
  import opened Paging
  import opened Ownership
  import opened MemorySteps
  import opened DomainMemory
  import opened MemoryRuns

  /** Somebody can still give the frame back, or it is never to be given back. */
  ghost predicate Accounted(m: Mem, reserved: set<nat>, f: nat) {
    f in reserved || Device(m, f) || Pinned(m.alloc, Addr(f)) || IsTable(m, f) || IsLeaf(m, f)
  }

  ghost predicate AccountedIfUsed(m: Mem, reserved: set<nat>, f: nat) {
    f < |m.alloc.used| && m.alloc.used[f] ==> Accounted(m, reserved, f)
  }

  /** Every frame in use is accounted for. */
  ghost predicate NoLeak(m: Mem, reserved: set<nat>) { forall f: nat :: AccountedIfUsed(m, reserved, f) }

  // ---- mapping ----

  lemma LeafHere(m: Mem, d: nat, p: seq<nat>)
    requires LeafPath(p) && EntryAt(m, d, p).Entry?
    ensures At(m, d, p) == Some(EntryAt(m, d, p).frame) && IsLeaf(m, EntryAt(m, d, p).frame)
  {
    LeafAt(m, d, p);
  }

  /** Filling an empty page adds exactly its frame to the mapped frames. */
  lemma FillLeaves(m: Mem, m': Mem, d: nat, p: seq<nat>, g: nat)
    requires LeafPath(p) && SameLeaves(m, m', d, p) && EntryAt(m, d, p).Unused? && EntryAt(m', d, p).Entry?
    ensures IsLeaf(m', g) <==> IsLeaf(m, g) || g == EntryAt(m', d, p).frame
  {
    LeafHere(m', d, p);
    if IsLeaf(m, g) {
      var d1, q :| LeafPath(q) && At(m, d1, q) == Some(g);
      LeafAt(m, d1, q);
      LeafAt(m', d1, q);
      assert At(m', d1, q) == Some(g);
    }
    if IsLeaf(m', g) {
      var d1, q :| LeafPath(q) && At(m', d1, q) == Some(g);
      LeafAt(m, d1, q);
      LeafAt(m', d1, q);
      assert (d1 == d && q == p) || At(m, d1, q) == Some(g);
    }
  }

  /** Mapping frame f accounts for f and for the new tables, and changes nothing for the others. */
  lemma MapAccounts(m: Mem, d: nat, va: nat, pa: nat, flags: Flags, reserved: set<nat>)
    requires TreeOk(m) && FreeOk(m) && IsUserAddress(va) && !flags.huge
    requires !IsTable(m, pa / FRAME_SIZE) && !IsFree(m.alloc, pa / FRAME_SIZE) && MapUserPage(m, d, va, pa, flags).Some?
    ensures var m' := MapUserPage(m, d, va, pa, flags).value;
            && IsLeaf(m', pa / FRAME_SIZE)
            && (NoLeak(m', reserved) <==> NoLeak(m, reserved + {pa / FRAME_SIZE}))
  {
    var m', p, f := MapUserPage(m, d, va, pa, flags).value, Path(va), pa / FRAME_SIZE;
    UserLeaf(va);
    MapToOk(m, d, p, f, flags);
    LeafAt(m, d, p);
    FillLeaves(m, m', d, p, f);
    forall g: nat ensures AccountedIfUsed(m', reserved, g) <==> AccountedIfUsed(m, reserved + {f}, g) {
      FillLeaves(m, m', d, p, g);
      if IsTable(m, g) { TableStays(m, m', g); }
      assert Pinned(m'.alloc, Addr(g)) <==> Pinned(m.alloc, Addr(g));
    }
  }

  /** Counting has no part in it. */
  lemma SameUse(m: Mem, m': Mem, reserved: set<nat>)
    requires m'.phys == m.phys && m'.domains == m.domains && m'.device == m.device
    requires m'.alloc.used == m.alloc.used && m'.alloc.pinned == m.alloc.pinned
    ensures NoLeak(m', reserved) <==> NoLeak(m, reserved)
  {
    SameNodesTables(m, m');
    SameNodesLeaves(m, m');
    assert forall g: nat :: AccountedIfUsed(m', reserved, g) <==> AccountedIfUsed(m, reserved, g);
  }

  lemma SameNodesLeaves(m: Mem, m': Mem)
    requires m'.phys == m.phys && m'.domains == m.domains
    ensures forall x :: IsLeaf(m', x) <==> IsLeaf(m, x)
  {
    assert forall d, p :: At(m', d, p) == At(m, d, p);
    forall x: nat ensures IsLeaf(m', x) <==> IsLeaf(m, x) {
      if IsLeaf(m, x) { var d, p :| LeafPath(p) && At(m, d, p) == Some(x); assert At(m', d, p) == Some(x); }
    }
  }

  /** Taking a frame leaves that one to be accounted for. */
  lemma TakeAccounts(m: Mem, f: nat, contents: Option<Cell>, reserved: set<nat>)
    requires Consistent(m) && IsFree(m.alloc, f) && NoLeak(m, reserved)
    ensures NoLeak(TakeWith(m, f, contents), reserved + {f})
  {
    var m' := TakeWith(m, f, contents);
    TakeConsistent(m, f, contents);
    forall g: nat ensures AccountedIfUsed(m', reserved + {f}, g) {
      SameTablesFacts(m, m', g);
      assert AccountedIfUsed(m, reserved, g);
    }
  }

  /** A frame that is mapped needs no reservation. */
  lemma DropReserved(m: Mem, reserved: set<nat>, f: nat)
    requires IsLeaf(m, f)
    ensures NoLeak(m, reserved + {f}) <==> NoLeak(m, reserved)
  {
    assert forall g: nat :: AccountedIfUsed(m, reserved + {f}, g) <==> AccountedIfUsed(m, reserved, g);
  }

  // ---- unmapping ----

  lemma LeafMappers(m: Mem, f: nat)
    ensures IsLeaf(m, f) <==> Mappers(m, f) != {}
  {
    if IsLeaf(m, f) {
      var d, p :| LeafPath(p) && At(m, d, p) == Some(f);
      assert d in Mappers(m, f);
    }
    if Mappers(m, f) != {} {
      var d :| d in Mappers(m, f);
      var p :| LeafPath(p) && At(m, d, p) == Some(f);
    }
  }

  /** What is left of a page's frame f after SYS_UNMAP: it is free exactly when it was counted once, still mapped
      exactly when it was counted more than once, and otherwise in use and mapped nowhere. */
  lemma UnmapReturns(m: Mem, d: nat, va: nat)
    requires Consistent(m) && IsUserAddress(va) && UnmapPage(m, d, va).Done? && EntryAt(m, d, Path(va)).Entry?
    requires !Device(m, EntryAt(m, d, Path(va)).frame)
    ensures var m', f := UnmapPage(m, d, va).mem, EntryAt(m, d, Path(va)).frame;
            var count := if Addr(f) in m.alloc.counts then m.alloc.counts[Addr(f)] else 0;
            && (IsFree(m'.alloc, f) <==> count == 1) && (IsLeaf(m', f) <==> count > 1)
            && (Addr(f) in m'.alloc.counts <==> count > 1) && !IsTable(m', f)
  {
    var m', p := UnmapPage(m, d, va).mem, Path(va);
    var f := EntryAt(m, d, p).frame;
    UserLeaf(va);
    UnmapPageEffect(m, d, va);
    LeafAt(m, d, p);
    EmptyMappers(m, m', d, p, f);
    LeafMappers(m', f);
    assert !IsTable(m, f) && !IsFree(m.alloc, f);
    assert CountExact(m, f);
    if Addr(f) !in m.alloc.counts {
      forall x | x in Mappers(m, f) ensures x == d { var q :| LeafPath(q) && At(m, x, q) == Some(f); }
    } else {
      OneLeft(Mappers(m, f), d);
    }
  }

  lemma OneLeft(s: set<nat>, x: nat)
    requires x in s
    ensures s - {x} == {} <==> |s| == 1
  {
    assert |s - {x}| == |s| - 1;
  }

  /** The page at `va` can be unmapped without losing its frame: it is counted, device memory or reserved. */
  ghost predicate Recoverable(m: Mem, reserved: set<nat>, d: nat, va: nat) {
    EntryAt(m, d, Path(va)).Entry? ==>
      var f := EntryAt(m, d, Path(va)).frame;
      f in reserved || Device(m, f) || Addr(f) in m.alloc.counts
  }

  /** The frames of the other pages stay as they were. */
  lemma UnmapOthers(m: Mem, d: nat, va: nat, g: nat)
    requires Consistent(m) && IsUserAddress(va) && UnmapPage(m, d, va).Done? && EntryAt(m, d, Path(va)).Entry?
    requires g != EntryAt(m, d, Path(va)).frame
    ensures var m' := UnmapPage(m, d, va).mem;
            (IsTable(m', g) <==> IsTable(m, g)) && (IsLeaf(m', g) <==> IsLeaf(m, g))
              && (IsFree(m'.alloc, g) <==> IsFree(m.alloc, g))
  {
    var m', p := UnmapPage(m, d, va).mem, Path(va);
    UserLeaf(va);
    UnmapPageEffect(m, d, va);
    SameOtherLeaves(m, m', d, p);
    LeafAt(m, d, p);
    LeafAt(m', d, p);
    if IsLeaf(m, g) { var x, q :| LeafPath(q) && At(m, x, q) == Some(g); assert At(m', x, q) == Some(g); }
    if IsLeaf(m', g) { var x, q :| LeafPath(q) && At(m', x, q) == Some(g); assert At(m, x, q) == Some(g); }
  }

  /** The frame of the unmapped page is accounted for exactly when the page was recoverable. */
  lemma UnmappedFrameExact(m: Mem, d: nat, va: nat, reserved: set<nat>)
    requires Consistent(m) && IsUserAddress(va) && UnmapPage(m, d, va).Done? && EntryAt(m, d, Path(va)).Entry?
    ensures AccountedIfUsed(UnmapPage(m, d, va).mem, reserved, EntryAt(m, d, Path(va)).frame) <==>
      Recoverable(m, reserved, d, va)
  {
    var m', f := UnmapPage(m, d, va).mem, EntryAt(m, d, Path(va)).frame;
    UserLeaf(va);
    assert m'.device == m.device && |m'.alloc.used| == |m.alloc.used| && m'.alloc.pinned == m.alloc.pinned by {
      UnmapPageEffect(m, d, va);
    }
    if !Device(m, f) {
      UnmapReturns(m, d, va);
      assert CountExact(m, f) && !Pinned(m.alloc, Addr(f)) && !Pinned(m'.alloc, Addr(f)) && !Device(m', f);
    }
  }

  lemma UnmappedRest(m: Mem, d: nat, va: nat, reserved: set<nat>)
    requires Consistent(m) && NoLeak(m, reserved) && IsUserAddress(va) && UnmapPage(m, d, va).Done?
    requires EntryAt(m, d, Path(va)).Entry?
    ensures forall g: nat :: g != EntryAt(m, d, Path(va)).frame ==>
      AccountedIfUsed(UnmapPage(m, d, va).mem, reserved, g)
  {
    var m', f := UnmapPage(m, d, va).mem, EntryAt(m, d, Path(va)).frame;
    assert m'.device == m.device && |m'.alloc.used| == |m.alloc.used| && m'.alloc.pinned == m.alloc.pinned by {
      UnmapPageEffect(m, d, va);
    }
    forall g: nat | g != f ensures AccountedIfUsed(m', reserved, g) {
      UnmapOthers(m, d, va, g);
      assert AccountedIfUsed(m, reserved, g);
    }
  }

  /** SYS_UNMAP loses no frame exactly when the page is recoverable. */
  lemma UnmapLeakExact(m: Mem, d: nat, va: nat, reserved: set<nat>)
    requires Consistent(m) && NoLeak(m, reserved) && IsUserAddress(va) && UnmapPage(m, d, va).Done?
    ensures NoLeak(UnmapPage(m, d, va).mem, reserved) <==> Recoverable(m, reserved, d, va)
  {
    var m', p := UnmapPage(m, d, va).mem, Path(va);
    if EntryAt(m, d, p).Entry? {
      UnmappedFrameExact(m, d, va, reserved);
      UnmappedRest(m, d, va, reserved);
    } else {
      assert UnmapPage(m, d, va).mem == m by {
        UserLeaf(va);
        UnmapOk(m, d, p);
      }
    }
  }

  // ---- domains ----

  /** Tearing a domain down loses no frame: what it alone used goes back. */
  lemma TornDownAccounts(m: Mem, m': Mem, d: nat, t: set<nat>, reserved: set<nat>)
    requires Consistent(m) && NoLeak(m, reserved) && TornDown(m, m', d, t) && DevicePagesSafe(m, d)
    ensures NoLeak(m', reserved)
  {
    forall g: nat ensures AccountedIfUsed(m', reserved, g) {
      assert AccountedIfUsed(m, reserved, g);
      assert Pinned(m'.alloc, Addr(g)) <==> Pinned(m.alloc, Addr(g));
      if g < |m.alloc.used| && m'.alloc.used[g] && !Pinned(m.alloc, Addr(g)) && !Device(m, g) && g !in reserved {
        if IsTable(m, g) { TableLeft(m, m', d, t, g); } else { PageLeft(m, m', d, t, g); }
      }
    }
  }

  /** A table still in use after the teardown is still a table. */
  lemma TableLeft(m: Mem, m': Mem, d: nat, t: set<nat>, g: nat)
    requires TreeOk(m) && TornDown(m, m', d, t) && IsTable(m, g) && g < |m.alloc.used| && m'.alloc.used[g]
    requires !Pinned(m.alloc, Addr(g))
    ensures IsTable(m', g)
  {
    var d', p :| TablePath(p) && At(m, d', p) == Some(g);
    if d' != d {
      OthersWalk(m, m', d, t, d', p);
    } else {
      UserTablesExact(m, d, g);
      assert p == [] && g == m.domains[d].value;
      assert At(m', d, []) == Some(g);
    }
  }

  /** A page still in use after the teardown is mapped by another domain. */
  lemma PageLeft(m: Mem, m': Mem, d: nat, t: set<nat>, g: nat)
    requires Consistent(m) && TornDown(m, m', d, t) && IsLeaf(m, g) && !Device(m, g) && m'.alloc.used[g]
    requires !Pinned(m.alloc, Addr(g))
    ensures IsLeaf(m', g)
  {
    assert CountExact(m, g);
    TornDownMappers(m, m', d, t, g);
    LeafMappers(m, g);
    LeafMappers(m', g);
    if d in Mappers(m, g) { OneLeft(Mappers(m, g), d); }
  }

  lemma CreateAccounts(m: Mem, src: nat, reserved: set<nat>)
    requires Consistent(m) && NoLeak(m, reserved) && Create(m, src).Some?
    ensures NoLeak(Create(m, src).value.0, reserved)
  {
    var (m', id) := Create(m, src).value;
    CreateOk(m, src);
    assert At(m', id, []) == m'.domains[id] && TablePath([]);
    forall g: nat ensures AccountedIfUsed(m', reserved, g) {
      assert AccountedIfUsed(m, reserved, g);
      assert Pinned(m'.alloc, Addr(g)) <==> Pinned(m.alloc, Addr(g));
      if IsTable(m, g) { var d, p :| TablePath(p) && At(m, d, p) == Some(g); assert At(m', d, p) == Some(g); }
      if IsLeaf(m, g) { var d, p :| LeafPath(p) && At(m, d, p) == Some(g); assert At(m', d, p) == Some(g); }
    }
  }

  // ---- every step ----

  /** A frame taken and mapped is accounted for, counted or not. */
  lemma NewPageAccounts(m: Mem, d: nat, va: nat, f: nat, contents: Option<Cell>, perm: UserPagePerm, reserved: set<nat>)
    requires Consistent(m) && NoLeak(m, reserved) && IsFree(m.alloc, f) && IsUserAddress(va)
    requires MapUserPage(TakeWith(m, f, contents), d, va, Addr(f), FlagsFor(perm)).Some?
    ensures var m' := MapUserPage(TakeWith(m, f, contents), d, va, Addr(f), FlagsFor(perm)).value;
            NoLeak(m', reserved) && NoLeak(m'.(alloc := IncRef(m'.alloc, Addr(f))), reserved)
  {
    var m1 := TakeWith(m, f, contents);
    TakeConsistent(m, f, contents);
    TakeAccounts(m, f, contents, reserved);
    assert Addr(f) / FRAME_SIZE == f;
    MapAccounts(m1, d, va, Addr(f), FlagsFor(perm), reserved);
    var m' := MapUserPage(m1, d, va, Addr(f), FlagsFor(perm)).value;
    SameUse(m', m'.(alloc := IncRef(m'.alloc, Addr(f))), reserved);
  }

  lemma MmioAccounts(m: Mem, d: nat, va: nat, bar: nat, reserved: set<nat>)
    requires Consistent(m) && NoLeak(m, reserved) && IsUserAddress(va) && MapMmio(m, d, va, bar, true).Done?
    requires Device(m, bar / FRAME_SIZE)
    ensures NoLeak(MapMmio(m, d, va, bar, true).mem, reserved)
  {
    var f := bar / FRAME_SIZE;
    assert !IsTable(m, f) && !IsFree(m.alloc, f);
    MapAccounts(m, d, va, bar, MMIO_FLAGS, reserved);
    assert forall g: nat :: AccountedIfUsed(m, reserved, g) ==> AccountedIfUsed(m, reserved + {f}, g);
  }

  /** Mapping a page that is mapped elsewhere changes nothing for any frame in use. */
  lemma ShareIntoAccounts(m: Mem, from: nat, to: nat, va: nat, pa: nat, reserved: set<nat>)
    requires Consistent(m) && Live(m, from) && IsUserAddress(va) && ResolveUserPage(m, from, va) == Some(pa)
    requires ShareInto(m, to, va, pa).Done?
    ensures NoLeak(ShareInto(m, to, va, pa).mem, reserved) <==> NoLeak(m, reserved)
  {
    var p := Path(va);
    SourceFrame(m, from, va);
    UserLeaf(va);
    var f := EntryAt(m, from, p).frame;
    LeafHere(m, from, p);
    assert pa / FRAME_SIZE == f && !IsTable(m, f) && !IsFree(m.alloc, f);
    MapAccounts(m, to, va, pa, FlagsFor(ReadWrite), reserved);
    DropReserved(m, reserved, f);
    var m' := MapUserPage(m, to, va, pa, FlagsFor(ReadWrite)).value;
    SameUse(m', m'.(alloc := IncRef(m'.alloc, pa)), reserved);
  }

  /** SYS_SHARE_PAGE loses no frame exactly when the page it replaces, if any, is recoverable. */
  lemma ShareLeakExact(m: Mem, from: nat, to: nat, va: nat, granted: bool, reserved: set<nat>)
    requires Consistent(m) && NoLeak(m, reserved) && SharePage(m, from, to, va, granted).Done?
    ensures NoLeak(SharePage(m, from, to, va, granted).mem, reserved) <==>
      (MapsNew(m, from, to, va, granted) ==> Recoverable(m, reserved, to, va))
  {
    if MapsNew(m, from, to, va, granted) {
      var pa := ResolveUserPage(m, from, va).value;
      SourceFrame(m, from, va);
      SourceFrame(m, to, va);
      if ResolveUserPage(m, to, va).None? {
        ShareIntoAccounts(m, from, to, va, pa, reserved);
      } else {
        UnmapPageKeeps(m, to, va);
        UnmapOtherDomain(m, to, from, va);
        UnmapLeakExact(m, to, va, reserved);
        ShareIntoAccounts(UnmapPage(m, to, va).mem, from, to, va, pa, reserved);
      }
    }
  }

  /** What keeps frames from being lost: the pages that are unmapped one by one are recoverable. */
  ghost predicate LeakGuard(m: Mem, op: Op, reserved: set<nat>) {
    match op
    case OpUnmap(d, va) => IsUserAddress(va) ==> Recoverable(m, reserved, d, va)
    case OpShare(d, to, va, granted) => Live(m, d) && MapsNew(m, d, to, va, granted) ==>
      Recoverable(m, reserved, to, va)
    case _ => true
  }

  /** One operation within its accounting guard loses no frame exactly when its pages are recoverable. */
  lemma StepLeakExact(m: Mem, op: Op, reserved: set<nat>)
    requires Consistent(m) && NoLeak(m, reserved) && Covered(m, op) && Guard(m, op) && Step(m, op).Done?
    ensures NoLeak(Step(m, op).mem, reserved) <==> LeakGuard(m, op, reserved)
  {
    match op
    case OpAlloc(d, va, granted, zero) =>
      if granted && IsUserAddress(va) && LowestFree(m.alloc.used, 0).Some? {
        NewPageAccounts(m, d, va, LowestFree(m.alloc.used, 0).value, Contents(zero), ReadWrite, reserved);
      }
    case OpLoad(d, va, perm) =>
      if LowestFree(m.alloc.used, 0).Some? {
        NewPageAccounts(m, d, va, LowestFree(m.alloc.used, 0).value, Some(ZeroPage()), perm, reserved);
      }
    case OpShare(d, to, va, granted) => ShareLeakExact(m, d, to, va, granted, reserved);
    case OpUnmap(d, va) => if IsUserAddress(va) {
      UnmapLeakExact(m, d, va, reserved);
    } else {
      KernelUnmapAccounts(m, d, va, reserved);
    }
    case OpMmio(d, va, bar, granted) => if granted && IsUserAddress(va) { MmioAccounts(m, d, va, bar, reserved); }
    case OpCreate(src) => CreateAccounts(m, src, reserved);
    case OpReset(d) => if Live(m, d) { ResetAccounts(m, d, reserved); }
    case OpDestroy(d) => if Live(m, d) { DestroyAccounts(m, d, reserved); }
  }

  lemma KernelUnmapAccounts(m: Mem, d: nat, va: nat, reserved: set<nat>)
    requires Consistent(m) && NoLeak(m, reserved) && UnmapPage(m, d, va).Done? && UnmapUncounted(m, d, va)
    requires UnmapTable(m, d, va).Some? ==> !IsTable(m, UnmapTable(m, d, va).value)
    ensures NoLeak(UnmapPage(m, d, va).mem, reserved)
  {
    if Unmap(m, m.domains[d].value, Path(va)).Some? {
      KernelUnmapTables(m, d, va);
      var m' := UnmapPage(m, d, va).mem;
      forall g: nat ensures AccountedIfUsed(m', reserved, g) {
        SameTablesFacts(m, m', g);
        assert AccountedIfUsed(m, reserved, g);
      }
    }
  }

  lemma ResetAccounts(m: Mem, d: nat, reserved: set<nat>)
    requires Consistent(m) && NoLeak(m, reserved) && Live(m, d) && DevicePagesSafe(m, d)
    ensures NoLeak(Reset(m, d), reserved)
  {
    FreeUserSpaceEffect(m, d, m.domains);
    assert m.(domains := m.domains) == m;
    TornDownAccounts(m, Reset(m, d), d, UserTables(m, d), reserved);
  }

  lemma DestroyAccounts(m: Mem, d: nat, reserved: set<nat>)
    requires Consistent(m) && NoLeak(m, reserved) && Live(m, d) && DevicePagesSafe(m, d)
    ensures NoLeak(Destroy(m, d), reserved)
  {
    DestroyEffect(m, d);
    TornDownAccounts(m, Destroy(m, d), d, UserTables(m, d) + {m.domains[d].value}, reserved);
  }

  // ---- every run ----

  /** In every state of the run each frame in use is accounted for; a panic ends the run. */
  ghost predicate NeverLeaks(m: Mem, ops: seq<Op>, reserved: set<nat>)
    decreases |ops|
  {
    NoLeak(m, reserved) && (ops != [] && Step(m, ops[0]).Done? ==> NeverLeaks(Step(m, ops[0]).mem, ops[1..], reserved))
  }

  ghost predicate AlwaysRecoverable(m: Mem, ops: seq<Op>, reserved: set<nat>)
    decreases |ops|
  {
    ops != [] && Step(m, ops[0]).Done? ==>
      LeakGuard(m, ops[0], reserved) && AlwaysRecoverable(Step(m, ops[0]).mem, ops[1..], reserved)
  }

  /** A run whose operations meet their accounting guards loses no frame exactly when every page it unmaps or
      replaces is counted, device memory or reserved. */
  lemma {:induction false} RunLeakExact(m: Mem, ops: seq<Op>, reserved: set<nat>)
    requires Consistent(m) && NoLeak(m, reserved) && AlwaysCovered(m, ops) && AlwaysGuarded(m, ops)
    ensures NeverLeaks(m, ops, reserved) <==> AlwaysRecoverable(m, ops, reserved)
    decreases |ops|
  {
    if ops != [] && Step(m, ops[0]).Done? {
      StepExact(m, ops[0]);
      StepLeakExact(m, ops[0], reserved);
      if LeakGuard(m, ops[0], reserved) { RunLeakExact(Step(m, ops[0]).mem, ops[1..], reserved); }
    }
  }

  // ---- the condition is needed: a run from boot that loses a frame ----

  lemma BootNoLeak(n: nat)
    ensures NoLeak(Boot(n), {})
  {
  }

  const IMAGE_UNMAP := OpUnmap(0, USER_SPACE_BASE)

  /** Unmapping a page the loader mapped loses its frame. */
  lemma UnmappedImagePageLeaks()
    ensures !NeverLeaks(Boot(64), [OpCreate(0), OpCreate(0), IMAGE_LOAD, IMAGE_UNMAP], {})
  {
    var m1, m2 := TwoDomains();
    var m3 := ImageLoaded(m2);
    ImageUnmapLeaks(m3);
    LeaksAfter(m1, m2, m3);
  }

  lemma ImageUnmapLeaks(m: Mem)
    requires Consistent(m) && Live(m, 0) && m.alloc.counts == map[]
    requires EntryAt(m, 0, Path(USER_SPACE_BASE)).Entry?
    requires EntryAt(m, 0, Path(USER_SPACE_BASE)).flags == FlagsFor(ReadExecute)
    ensures !NeverLeaks(m, [IMAGE_UNMAP], {})
  {
    UserLeaf(USER_SPACE_BASE);
    var r := UnmapPage(m, 0, USER_SPACE_BASE);
    assert r.Done? by { UnmapOk(m, 0, Path(USER_SPACE_BASE)); }
    assert !Recoverable(m, {}, 0, USER_SPACE_BASE);
    if NoLeak(m, {}) { UnmapLeakExact(m, 0, USER_SPACE_BASE, {}); }
    assert Step(m, IMAGE_UNMAP) == r;
  }

  lemma LeaksAfter(m1: Mem, m2: Mem, m3: Mem)
    requires Step(Boot(64), OpCreate(0)) == Done(m1, 0) && Step(m1, OpCreate(0)) == Done(m2, 1)
    requires Step(m2, IMAGE_LOAD).Done? && Step(m2, IMAGE_LOAD).mem == m3 && !NeverLeaks(m3, [IMAGE_UNMAP], {})
    ensures !NeverLeaks(Boot(64), [OpCreate(0), OpCreate(0), IMAGE_LOAD, IMAGE_UNMAP], {})
  {
    LeaksLater(m2, IMAGE_LOAD, [IMAGE_UNMAP]);
    LeaksLater(m1, OpCreate(0), [IMAGE_LOAD] + [IMAGE_UNMAP]);
    LeaksLater(Boot(64), OpCreate(0), [OpCreate(0)] + ([IMAGE_LOAD] + [IMAGE_UNMAP]));
    assert [OpCreate(0)] + ([OpCreate(0)] + ([IMAGE_LOAD] + [IMAGE_UNMAP])) ==
      [OpCreate(0), OpCreate(0), IMAGE_LOAD, IMAGE_UNMAP];
  }

  lemma LeaksLater(m: Mem, op: Op, ops: seq<Op>)
    requires Step(m, op).Done? && !NeverLeaks(Step(m, op).mem, ops, {})
    ensures !NeverLeaks(m, [op] + ops, {})
  {
    assert ([op] + ops)[1..] == ops;
  }
}
