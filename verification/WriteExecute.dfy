/** No frame is writable through one page and executable through another: what each memory operation needs for
    it, and that every run within the accounting guards keeps it, across all domains. */
module WriteExecute {
  import opened Wrappers
  import opened Frames
  import opened Paging
  import opened Ownership
  import opened MemorySteps
  import opened DomainMemory
  import opened MemoryRuns

  ghost predicate Runs(e: Entry) { e.Entry? && !e.flags.noExecute }

  ghost predicate Writes(e: Entry) { e.Entry? && e.flags.writable }

  /** No frame is executable at one page and writable at a page of any domain. */
  ghost predicate Wx(m: Mem) {
    forall d, p, d', p' :: LeafPath(p) && LeafPath(p') && Runs(EntryAt(m, d, p)) && Writes(EntryAt(m, d', p')) ==>
      EntryAt(m, d, p).frame != EntryAt(m, d', p').frame
  }

  /** Frame f is executable somewhere. */
  ghost predicate RunsAt(m: Mem, f: nat) {
    exists d, p :: LeafPath(p) && Runs(EntryAt(m, d, p)) && EntryAt(m, d, p).frame == f
  }

  /** Executable pages are read-only cached pages that nobody counts. */
  ghost predicate ExecOk(m: Mem) {
    forall d, p :: LeafPath(p) && Runs(EntryAt(m, d, p)) ==>
      var e := EntryAt(m, d, p); !e.flags.writable && !e.flags.noCache && Addr(e.frame) !in m.alloc.counts
  }

  /** In a consistent state an executable frame is mapped once, so nobody can write it. */
  lemma ExecOnce(m: Mem)
    requires Consistent(m) && ExecOk(m)
    ensures Wx(m)
  {
    forall d, p, d', p' | LeafPath(p) && LeafPath(p') && Runs(EntryAt(m, d, p)) && Writes(EntryAt(m, d', p'))
      ensures EntryAt(m, d, p).frame != EntryAt(m, d', p').frame
    {
      LeafAt(m, d, p);
      LeafAt(m, d', p');
    }
  }

  // ---- pages that go, pages that come ----

  /** m' has no page that m has not. */
  ghost predicate FewerLeaves(m: Mem, m': Mem) {
    forall d, p :: LeafPath(p) && EntryAt(m', d, p).Entry? ==> EntryAt(m', d, p) == EntryAt(m, d, p)
  }

  lemma FewerOk(m: Mem, m': Mem)
    requires FewerLeaves(m, m')
    ensures Wx(m) ==> Wx(m')
    ensures ExecOk(m) && m'.alloc.counts.Keys <= m.alloc.counts.Keys ==> ExecOk(m')
  {
  }

  /** A new page leaves the property alone exactly when it does not make an executable frame writable or a
      writable frame executable. */
  lemma FillWx(m: Mem, m': Mem, d: nat, p: seq<nat>)
    requires LeafPath(p) && SameLeaves(m, m', d, p) && EntryAt(m, d, p).Unused? && EntryAt(m', d, p).Entry?
    requires Wx(m) && !Runs(EntryAt(m', d, p)) && Writes(EntryAt(m', d, p))
    ensures Wx(m') <==> !RunsAt(m, EntryAt(m', d, p).frame)
  {
    var f := EntryAt(m', d, p).frame;
    if RunsAt(m, f) {
      var d1, p1 :| LeafPath(p1) && Runs(EntryAt(m, d1, p1)) && EntryAt(m, d1, p1).frame == f;
      assert EntryAt(m', d1, p1) == EntryAt(m, d1, p1);
      assert Writes(EntryAt(m', d, p)) && Runs(EntryAt(m', d1, p1));
    } else {
      assert forall d1, p1 :: LeafPath(p1) && Runs(EntryAt(m', d1, p1)) ==> EntryAt(m', d1, p1) == EntryAt(m, d1, p1);
    }
  }

  /** The new page is not executable, or its frame is not counted; no executable frame becomes counted. */
  lemma FillExec(m: Mem, m': Mem, d: nat, p: seq<nat>)
    requires ExecOk(m) && LeafPath(p) && SameLeaves(m, m', d, p) && EntryAt(m', d, p).Entry?
    requires var e := EntryAt(m', d, p);
             Runs(e) ==> !e.flags.writable && !e.flags.noCache && Addr(e.frame) !in m'.alloc.counts
    requires forall k :: k in m'.alloc.counts && k !in m.alloc.counts ==> k == Addr(EntryAt(m', d, p).frame)
    requires RunsAt(m, EntryAt(m', d, p).frame) ==> Addr(EntryAt(m', d, p).frame) !in m'.alloc.counts
    ensures ExecOk(m')
  {
    var f := EntryAt(m', d, p).frame;
    forall d1, p1 | LeafPath(p1) && Runs(EntryAt(m', d1, p1))
      ensures var e := EntryAt(m', d1, p1); !e.flags.writable && !e.flags.noCache && Addr(e.frame) !in m'.alloc.counts
    {
      if !(d1 == d && p1 == p) {
        assert EntryAt(m', d1, p1) == EntryAt(m, d1, p1);
        if EntryAt(m, d1, p1).frame == f { assert RunsAt(m, f); }
      }
    }
  }

  // ---- the operations ----

  lemma NewPageExec(m: Mem, d: nat, va: nat, f: nat, contents: Option<Cell>, perm: UserPagePerm)
    requires Consistent(m) && ExecOk(m) && IsFree(m.alloc, f) && IsUserAddress(va)
    requires MapUserPage(TakeWith(m, f, contents), d, va, Addr(f), FlagsFor(perm)).Some?
    ensures var m' := MapUserPage(TakeWith(m, f, contents), d, va, Addr(f), FlagsFor(perm)).value;
            ExecOk(m') && (perm != ReadExecute ==> ExecOk(m'.(alloc := IncRef(m'.alloc, Addr(f)))))
  {
    var m1, p := TakeWith(m, f, contents), Path(va);
    TakeConsistent(m, f, contents);
    UserLeaf(va);
    var m' := MapUserPage(m1, d, va, Addr(f), FlagsFor(perm)).value;
    NewLeafTree(m1, d, va, f, perm);
    assert ExecOk(m1);
    assert !RunsAt(m1, f) by { NotRunning(m1, f); }
    FillExec(m1, m', d, p);
    var m2 := m'.(alloc := IncRef(m'.alloc, Addr(f)));
    assert forall d1, q :: LeafPath(q) ==> EntryAt(m2, d1, q) == EntryAt(m', d1, q);
    if perm != ReadExecute { FillExec(m1, m2, d, p); }
  }

  lemma NotRunning(m: Mem, f: nat)
    requires !IsLeaf(m, f)
    ensures !RunsAt(m, f)
  {
    if RunsAt(m, f) {
      var d, p :| LeafPath(p) && Runs(EntryAt(m, d, p)) && EntryAt(m, d, p).frame == f;
      LeafAt(m, d, p);
      assert IsLeaf(m, f);
    }
  }

  lemma UnmapFewer(m: Mem, d: nat, va: nat)
    requires Consistent(m) && IsUserAddress(va) && UnmapPage(m, d, va).Done?
    ensures var m' := UnmapPage(m, d, va).mem; FewerLeaves(m, m') && m'.alloc.counts.Keys <= m.alloc.counts.Keys
  {
    UserLeaf(va);
    if EntryAt(m, d, Path(va)).Entry? { UnmapPageEffect(m, d, va); } else { UnmapOk(m, d, Path(va)); }
  }

  lemma KernelUnmapFewer(m: Mem, d: nat, va: nat)
    requires Consistent(m) && UnmapPage(m, d, va).Done?
    requires (UnmapTable(m, d, va).Some? ==> !IsTable(m, UnmapTable(m, d, va).value))
    ensures var m' := UnmapPage(m, d, va).mem; FewerLeaves(m, m') && m'.alloc.counts.Keys <= m.alloc.counts.Keys
  {
    var r := Unmap(m, m.domains[d].value, Path(va));
    if r.Some? {
      KernelUnmapTables(m, d, va);
      var (m1, f) := r.value;
      assert forall x, p :: LeafPath(p) ==> EntryAt(DropUnmapped(m1, Addr(f)), x, p) == EntryAt(m1, x, p);
    }
  }

  /** The frame is executable somewhere exactly when it is at the given page. */
  lemma RunsHere(m: Mem, d: nat, p: seq<nat>)
    requires Consistent(m) && ExecOk(m) && LeafPath(p) && EntryAt(m, d, p).Entry?
    ensures RunsAt(m, EntryAt(m, d, p).frame) <==> Runs(EntryAt(m, d, p))
  {
    var f := EntryAt(m, d, p).frame;
    LeafAt(m, d, p);
    if RunsAt(m, f) {
      var d1, p1 :| LeafPath(p1) && Runs(EntryAt(m, d1, p1)) && EntryAt(m, d1, p1).frame == f;
      LeafAt(m, d1, p1);
      assert d1 == d && p1 == p;
    }
  }

  /** Mapping a page read-write into another domain keeps the property exactly when it is not executable. */
  lemma ShareIntoWx(m: Mem, from: nat, to: nat, va: nat, pa: nat)
    requires Consistent(m) && ExecOk(m) && Live(m, from) && IsUserAddress(va)
    requires ResolveUserPage(m, from, va) == Some(pa)
    requires EntryAt(m, to, Path(va)).Unused? && ShareInto(m, to, va, pa).Done?
    ensures Wx(ShareInto(m, to, va, pa).mem) <==> !Runs(EntryAt(m, from, Path(va)))
    ensures ShareGuard(m, from, va) ==> ExecOk(ShareInto(m, to, va, pa).mem) && !Runs(EntryAt(m, from, Path(va)))
  {
    var m', p := ShareInto(m, to, va, pa).mem, Path(va);
    UserLeaf(va);
    SourceFrame(m, from, va);
    ShareIntoEntry(m, to, va, pa);
    RunsHere(m, from, p);
    ExecOnce(m);
    FillWx(m, m', to, p);
    if ShareGuard(m, from, va) { FillExec(m, m', to, p); }
  }

  lemma ShareWx(m: Mem, from: nat, to: nat, va: nat, granted: bool)
    requires Consistent(m) && ExecOk(m) && SharePage(m, from, to, va, granted).Done?
    ensures Wx(SharePage(m, from, to, va, granted).mem) <==>
      (MapsNew(m, from, to, va, granted) ==> !Runs(EntryAt(m, from, Path(va))))
    ensures (MapsNew(m, from, to, va, granted) ==> ShareGuard(m, from, va)) ==>
      ExecOk(SharePage(m, from, to, va, granted).mem)
  {
    ExecOnce(m);
    if MapsNew(m, from, to, va, granted) {
      var pa := ResolveUserPage(m, from, va).value;
      SourceFrame(m, from, va);
      SourceFrame(m, to, va);
      if ResolveUserPage(m, to, va).None? {
        ShareIntoWx(m, from, to, va, pa);
      } else {
        var m1 := UnmapPage(m, to, va).mem;
        UnmapPageKeeps(m, to, va);
        UnmapOtherDomain(m, to, from, va);
        UnmapSpares(m, to, from, va);
        UnmapFewer(m, to, va);
        FewerOk(m, m1);
        ShareIntoWx(m1, from, to, va, pa);
      }
    }
  }

  /** An uncached page keeps the property exactly when its frame is executable nowhere. */
  lemma MmioWx(m: Mem, d: nat, va: nat, bar: nat)
    requires Consistent(m) && ExecOk(m) && IsUserAddress(va) && MapMmio(m, d, va, bar, true).Done?
    ensures Wx(MapMmio(m, d, va, bar, true).mem) <==> !RunsAt(m, bar / FRAME_SIZE)
    ensures ExecOk(MapMmio(m, d, va, bar, true).mem)
  {
    var m', p := MapMmio(m, d, va, bar, true).mem, Path(va);
    UserLeaf(va);
    MapToEntry(m, d, p, bar / FRAME_SIZE, MMIO_FLAGS);
    ExecOnce(m);
    FillWx(m, m', d, p);
    assert RunsAt(m, bar / FRAME_SIZE) ==> Addr(bar / FRAME_SIZE) !in m'.alloc.counts;
    FillExec(m, m', d, p);
  }

  lemma TeardownFewer(m: Mem, m': Mem, d: nat, t: set<nat>)
    requires TreeOk(m) && TornDown(m, m', d, t)
    ensures FewerLeaves(m, m') && m'.alloc.counts.Keys <= m.alloc.counts.Keys
  {
    TornDownWalks(m, m', d, t);
  }

  // ---- every step and every run ----

  /** What an operation needs to keep the property. */
  ghost predicate WxGuard(m: Mem, op: Op) {
    match op
    case OpShare(d, to, va, granted) => Live(m, d) && MapsNew(m, d, to, va, granted) ==> !Runs(EntryAt(m, d, Path(va)))
    case OpMmio(d, va, bar, granted) => granted && IsUserAddress(va) ==> !RunsAt(m, bar / FRAME_SIZE)
    case _ => true
  }

  lemma StepWxExact(m: Mem, op: Op)
    requires Consistent(m) && ExecOk(m) && Covered(m, op) && Step(m, op).Done?
    ensures Wx(Step(m, op).mem) <==> WxGuard(m, op)
    ensures Guard(m, op) ==> ExecOk(Step(m, op).mem)
  {
    ExecOnce(m);
    if op.OpAlloc? || op.OpLoad? { NewPageStep(m, op); }
    else if op.OpShare? { ShareWx(m, op.d, op.to, op.va, op.granted); }
    else if op.OpMmio? { if op.granted && IsUserAddress(op.va) { MmioWx(m, op.d, op.va, op.bar); } }
    else { FewerStep(m, op); }
  }

  lemma NewPageStep(m: Mem, op: Op)
    requires Consistent(m) && ExecOk(m) && Covered(m, op) && Step(m, op).Done? && (op.OpAlloc? || op.OpLoad?)
    ensures Wx(Step(m, op).mem) && ExecOk(Step(m, op).mem)
  {
    var free := LowestFree(m.alloc.used, 0);
    StepExact(m, op);
    if op.OpAlloc? {
      if op.granted && IsUserAddress(op.va) && free.Some? {
        NewPageExec(m, op.d, op.va, free.value, Contents(op.zero), ReadWrite);
      }
    } else if free.Some? {
      NewPageExec(m, op.d, op.va, free.value, Some(ZeroPage()), op.perm);
    }
    ExecOnce(Step(m, op).mem);
  }

  lemma FewerStep(m: Mem, op: Op)
    requires Consistent(m) && ExecOk(m) && Covered(m, op) && Step(m, op).Done?
    requires (op.OpUnmap? || op.OpCreate? || op.OpReset? || op.OpDestroy?)
    ensures Wx(Step(m, op).mem) && ExecOk(Step(m, op).mem)
  {
    var m' := Step(m, op).mem;
    ExecOnce(m);
    if op.OpUnmap? {
      if IsUserAddress(op.va) { UnmapFewer(m, op.d, op.va); } else { KernelUnmapFewer(m, op.d, op.va); }
    }
    else if op.OpCreate? { CreateFewer(m, op.src); }
    else if Live(m, op.d) {
      if op.OpReset? {
        FreeUserSpaceEffect(m, op.d, m.domains);
        assert m.(domains := m.domains) == m;
        TeardownFewer(m, m', op.d, UserTables(m, op.d));
      } else {
        DestroyEffect(m, op.d);
        TeardownFewer(m, m', op.d, UserTables(m, op.d) + {m.domains[op.d].value});
      }
    }
    FewerOk(m, m');
  }

  lemma CreateFewer(m: Mem, src: nat)
    requires TreeOk(m) && Create(m, src).Some?
    ensures FewerLeaves(m, Create(m, src).value.0)
  {
    CreatePlaces(m, src);
  }

  ghost predicate AlwaysWx(m: Mem, ops: seq<Op>)
    decreases |ops|
  {
    Wx(m) && (ops != [] && Step(m, ops[0]).Done? ==> AlwaysWx(Step(m, ops[0]).mem, ops[1..]))
  }

  /** In every state of every run within the accounting guards, no frame is writable in one domain and executable
      in another. */
  lemma {:induction false} RunWx(m: Mem, ops: seq<Op>)
    requires Consistent(m) && ExecOk(m) && AlwaysCovered(m, ops) && AlwaysGuarded(m, ops)
    ensures AlwaysWx(m, ops)
    decreases |ops|
  {
    ExecOnce(m);
    if ops != [] && Step(m, ops[0]).Done? {
      StepExact(m, ops[0]);
      StepWxExact(m, ops[0]);
      RunWx(Step(m, ops[0]).mem, ops[1..]);
    }
  }

  /** The property holds in every state, up to and with the first operation outside its accounting guard. */
  ghost predicate WxUntilBreak(m: Mem, ops: seq<Op>)
    decreases |ops|
  {
    && Wx(m)
    && (ops != [] && Step(m, ops[0]).Done? ==>
          if Guard(m, ops[0]) then WxUntilBreak(Step(m, ops[0]).mem, ops[1..]) else Wx(Step(m, ops[0]).mem))
  }

  ghost predicate WxGuarded(m: Mem, ops: seq<Op>)
    decreases |ops|
  {
    ops != [] && Step(m, ops[0]).Done? ==>
      WxGuard(m, ops[0]) && (Guard(m, ops[0]) ==> WxGuarded(Step(m, ops[0]).mem, ops[1..]))
  }

  /** Over every run, as long as frames are accounted for and one operation longer: the property holds throughout
      exactly when no operation shares an executable page or maps an executable frame uncached. */
  lemma {:induction false} RunWxExact(m: Mem, ops: seq<Op>)
    requires Consistent(m) && ExecOk(m) && AlwaysCovered(m, ops)
    ensures WxUntilBreak(m, ops) <==> WxGuarded(m, ops)
    decreases |ops|
  {
    ExecOnce(m);
    if ops != [] && Step(m, ops[0]).Done? {
      StepWxExact(m, ops[0]);
      if Guard(m, ops[0]) {
        StepExact(m, ops[0]);
        RunWxExact(Step(m, ops[0]).mem, ops[1..]);
      }
    }
  }

  /** Outside them it fails: a loaded code page that is shared can be written by the domain it is shared with. */
  lemma SharedImagePageWritable() returns (m1: Mem, m2: Mem, m3: Mem)
    ensures Step(Boot(64), OpCreate(0)) == Done(m1, 0) && Step(m1, OpCreate(0)) == Done(m2, 1)
    ensures Step(m2, IMAGE_LOAD).Done? && Step(m2, IMAGE_LOAD).mem == m3
    ensures Step(m3, IMAGE_SHARE).Done? && !Wx(Step(m3, IMAGE_SHARE).mem)
  {
    m1, m2 := TwoDomains();
    m3 := ImageLoaded(m2);
    CodeLoaded(m2);
    CodeShared(m3);
  }

  lemma CodeLoaded(m: Mem)
    requires Consistent(m) && Step(m, IMAGE_LOAD).Done? && forall d, p :: LeafPath(p) ==> EntryAt(m, d, p).Unused?
    ensures ExecOk(Step(m, IMAGE_LOAD).mem)
  {
    UserLeaf(USER_SPACE_BASE);
    NoPagesExec(m);
    NewPageStep(m, IMAGE_LOAD);
  }

  lemma NoPagesExec(m: Mem)
    requires forall d, p :: LeafPath(p) ==> EntryAt(m, d, p).Unused?
    ensures ExecOk(m)
  {
  }

  lemma CodeShared(m: Mem)
    requires Consistent(m) && ExecOk(m) && Live(m, 0) && Live(m, 1) && FreeCount(m) >= 3
    requires EntryAt(m, 0, Path(USER_SPACE_BASE)).Entry?
    requires EntryAt(m, 0, Path(USER_SPACE_BASE)).flags == FlagsFor(ReadExecute)
    requires EntryAt(m, 1, Path(USER_SPACE_BASE)).Unused?
    ensures Step(m, IMAGE_SHARE).Done? && !Wx(Step(m, IMAGE_SHARE).mem)
  {
    ShareRuns(m, 0, 1, USER_SPACE_BASE);
    ShareWx(m, 0, 1, USER_SPACE_BASE, true);
  }
}
