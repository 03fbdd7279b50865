/** Whole runs of memory operations: from a consistent state, every state of a run is consistent
    exactly when every operation of the run met its condition. */
module MemoryRuns {
  import opened Wrappers
  import opened Frames
  import opened Paging
  import opened Ownership
  import opened MemorySteps
  import opened DomainMemory

  /** One operation of the kernel on memory. `granted` stands for the capability check of the call; `OpAlloc`
      is SYS_ALLOC_PAGE or, with `zero`, SYS_MAP_ANON. */
  datatype Op =
    | OpAlloc(d: nat, va: nat, granted: bool, zero: bool)
    | OpShare(d: nat, to: nat, va: nat, granted: bool)
    | OpUnmap(d: nat, va: nat)
    | OpMmio(d: nat, va: nat, bar: nat, granted: bool)
    | OpLoad(d: nat, va: nat, perm: UserPagePerm)
    | OpCreate(src: nat)
    | OpReset(d: nat)
    | OpDestroy(d: nat)

  function Step(m: Mem, op: Op): (r: Outcome) {
    match op
    case OpAlloc(d, va, granted, zero) => AllocPage(m, d, va, granted, zero)
    case OpShare(d, to, va, granted) => SharePage(m, d, to, va, granted)
    case OpUnmap(d, va) => UnmapPage(m, d, va)
    case OpMmio(d, va, bar, granted) => MapMmio(m, d, va, bar, granted)
    case OpLoad(d, va, perm) =>
      (match LoadPage(m, d, va, perm) case None => Done(m, 0) case Some(r) => r)
    case OpCreate(src) =>
      (match Create(m, src) case None => Halt case Some((m', id)) => Done(m', id))
    case OpReset(d) => if Live(m, d) then Done(Reset(m, d), 1) else Done(m, 0)
    case OpDestroy(d) => if Live(m, d) then Done(Destroy(m, d), 1) else Done(m, 0)
  }

  /** What holds of every operation the kernel makes: the loader loads into user space, and the kernel half of an
      address space has its own page tables. */
  ghost predicate Covered(m: Mem, op: Op) {
    && (op.OpLoad? ==> IsUserAddress(op.va))
    && (op.OpUnmap? && !IsUserAddress(op.va) && UnmapTable(m, op.d, op.va).Some? ==>
      !IsTable(m, UnmapTable(m, op.d, op.va).value))
  }

  ghost predicate AlwaysCovered(m: Mem, ops: seq<Op>)
    decreases |ops|
  {
    ops != [] ==>
      Covered(m, ops[0]) && (Step(m, ops[0]).Done? && Guard(m, ops[0]) ==> AlwaysCovered(Step(m, ops[0]).mem, ops[1..]))
  }

  /** What the kernel relies on without checking it. */
  ghost predicate Guard(m: Mem, op: Op) {
    match op
    case OpShare(d, to, va, granted) => Live(m, d) && MapsNew(m, d, to, va, granted) ==> ShareGuard(m, d, va)
    case OpMmio(d, va, bar, granted) => granted && IsUserAddress(va) ==> Device(m, bar / FRAME_SIZE)
    case OpUnmap(d, va) => IsUserAddress(va) || UnmapUncounted(m, d, va)
    case OpReset(d) => Live(m, d) ==> DevicePagesSafe(m, d)
    case OpDestroy(d) => Live(m, d) ==> DevicePagesSafe(m, d)
    case _ => true
  }

  /** One operation that does not panic keeps the accounting exactly when its guard holds. */
  lemma StepExact(m: Mem, op: Op)
    requires Consistent(m) && Covered(m, op) && Step(m, op).Done?
    ensures Consistent(Step(m, op).mem) <==> Guard(m, op)
  {
    match op
    case OpAlloc(d, va, granted, zero) => AllocPageKeeps(m, d, va, granted, zero);
    case OpShare(d, to, va, granted) => SharePageExact(m, d, to, va, granted);
    case OpUnmap(d, va) => if IsUserAddress(va) { UnmapPageKeeps(m, d, va); } else { KernelUnmapExact(m, d, va); }
    case OpMmio(d, va, bar, granted) => if granted && IsUserAddress(va) { MapMmioExact(m, d, va, bar); }
    case OpLoad(d, va, perm) => LoadPageKeeps(m, d, va, perm);
    case OpCreate(src) => CreateOk(m, src);
    case OpReset(d) => if Live(m, d) { ResetExact(m, d); }
    case OpDestroy(d) => if Live(m, d) { DestroyExact(m, d); }
  }

  /** Every state the run reaches is consistent; a panic ends the run. */
  ghost predicate AlwaysConsistent(m: Mem, ops: seq<Op>)
    decreases |ops|
  {
    Consistent(m) && (ops != [] && Step(m, ops[0]).Done? ==> AlwaysConsistent(Step(m, ops[0]).mem, ops[1..]))
  }

  ghost predicate AlwaysGuarded(m: Mem, ops: seq<Op>)
    decreases |ops|
  {
    ops != [] && Step(m, ops[0]).Done? ==> Guard(m, ops[0]) && AlwaysGuarded(Step(m, ops[0]).mem, ops[1..])
  }

  lemma {:induction false} RunExact(m: Mem, ops: seq<Op>)
    requires Consistent(m) && AlwaysCovered(m, ops)
    ensures AlwaysConsistent(m, ops) <==> AlwaysGuarded(m, ops)
    decreases |ops|
  {
    if ops != [] && Step(m, ops[0]).Done? {
      StepExact(m, ops[0]);
      if Guard(m, ops[0]) { RunExact(Step(m, ops[0]).mem, ops[1..]); }
    }
  }

  /** What a consistent state promises about frames in use: tables and pages of live domains are never
      free; a counted frame has as many mappings as its count, all at one address; any other page that is
      not device memory is mapped exactly once. */
  lemma ConsistentMeaning(m: Mem, d: nat, p: seq<nat>, d': nat, p': seq<nat>)
    requires Consistent(m) && (TablePath(p) || UserPath(p)) && At(m, d, p).Some?
    ensures var f := At(m, d, p).value;
            && !IsFree(m.alloc, f)
            && (TablePath(p) ==> forall d2, p2 :: (TablePath(p2) || UserPath(p2)) && At(m, d2, p2) == Some(f) ==>
              d2 == d && p2 == p)
            && (LeafPath(p) && LeafPath(p') && At(m, d', p') == Some(f) && !Device(m, f) ==> p' == p)
            && (LeafPath(p) && LeafPath(p') && At(m, d', p') == Some(f) && !Device(m, f) ==>
                  Addr(f) !in m.alloc.counts ==> d' == d)
            && (Addr(f) in m.alloc.counts ==> m.alloc.counts[Addr(f)] == |Mappers(m, f)|)
  {
    var f := At(m, d, p).value;
    assert CountExact(m, f);
    if TablePath(p) {
      assert IsTable(m, f);
      assert f < |m.alloc.used| && m.alloc.used[f];
    }
  }

  // ---- the guards are needed: a run from boot that breaks the accounting ----

  /** n free frames, no domain, room for one count. */
  function Boot(n: nat): (m: Mem) { Mem(Alloc(seq(n, i => false), map[], 1, []), map[], [], {}) }

  lemma BootConsistent(n: nat)
    ensures Consistent(Boot(n))
  {
    assert forall f :: CountExact(Boot(n), f);
  }

  lemma {:induction false} AllFree(used: seq<bool>, n: nat)
    requires n <= |used| && forall i :: 0 <= i < n ==> !used[i]
    ensures CountFree(used, n) == n
  {
    if n > 0 { AllFree(used, n - 1); }
  }

  lemma CreateRuns(m: Mem)
    requires Consistent(m) && FreeCount(m) >= 1 && SlotFor(m.domains) == |m.domains|
    ensures var r, n := Step(m, OpCreate(0)), |m.domains|;
            && r.Done? && Consistent(r.mem) && r.mem.alloc.counts == m.alloc.counts
              && FreeCount(r.mem) + 1 == FreeCount(m)
            && |r.mem.domains| == n + 1 && r.mem.domains[..n] == m.domains && r.mem.domains[n].Some?
            && (forall d: nat, p :: LeafPath(p) ==> EntryAt(r.mem, d, p) == if d < n then EntryAt(m, d, p) else Unused)
  {
    AllUsed(m.alloc.used, |m.alloc.used|);
    CountFreeUpdate(m.alloc.used, |m.alloc.used|, LowestFree(m.alloc.used, 0).value, true);
    CreateOk(m, 0);
  }

  lemma {:induction false} SlotAtEnd(domains: seq<Option<nat>>)
    requires forall i :: 0 <= i < |domains| ==> domains[i].Some?
    ensures SlotFor(domains) == |domains|
  {
    if domains != [] { SlotAtEnd(domains[1..]); }
  }

  lemma ShareRuns(m: Mem, from: nat, to: nat, va: nat)
    requires Consistent(m) && Live(m, from) && Live(m, to) && IsUserAddress(va) && Canonical(va) && FreeCount(m) >= 3
    requires EntryAt(m, from, Path(va)).Entry? && EntryAt(m, to, Path(va)).Unused?
    ensures Step(m, OpShare(from, to, va, true)).Done? && MapsNew(m, from, to, va, true)
    ensures m.alloc.counts == map[] ==> !ShareGuard(m, from, va)
  {
    SourceFrame(m, from, va);
    SourceFrame(m, to, va);
    UserLeaf(va);
    var p := Path(va);
    var f := EntryAt(m, from, p).frame;
    LeafAt(m, from, p);
    LeafAt(m, to, p);
    assert ResolveUserPage(m, from, va).value / FRAME_SIZE == f;
    assert !IsTable(m, f) && !IsFree(m.alloc, f);
    MapToOk(m, to, p, f, FlagsFor(ReadWrite));
  }

  const IMAGE_LOAD := OpLoad(0, USER_SPACE_BASE, ReadExecute)
  const IMAGE_SHARE := OpShare(0, 1, USER_SPACE_BASE, true)

  lemma FirstDomain() returns (m: Mem)
    ensures Step(Boot(64), OpCreate(0)) == Done(m, 0)
    ensures Consistent(m) && FreeCount(m) == 63 && m.alloc.counts == map[] && |m.domains| == 1 && m.domains[0].Some?
    ensures forall d, p :: LeafPath(p) ==> EntryAt(m, d, p).Unused?
  {
    var m0 := Boot(64);
    BootConsistent(64);
    AllFree(m0.alloc.used, 64);
    CreateRuns(m0);
    m := Step(m0, OpCreate(0)).mem;
  }

  /** Two fresh domains that map nothing. */
  lemma TwoDomains() returns (m1: Mem, m2: Mem)
    ensures Step(Boot(64), OpCreate(0)) == Done(m1, 0) && Step(m1, OpCreate(0)) == Done(m2, 1)
    ensures Consistent(m2) && Live(m2, 0) && Live(m2, 1) && FreeCount(m2) == 62 && m2.alloc.counts == map[]
    ensures forall d, p :: LeafPath(p) ==> EntryAt(m2, d, p).Unused?
  {
    m1 := FirstDomain();
    SlotAtEnd(m1.domains);
    CreateRuns(m1);
    m2 := Step(m1, OpCreate(0)).mem;
    assert m2.domains[0] == m2.domains[..1][0];
  }

  /** In a state where only the first of two domains maps the page, and nothing is counted, sharing it breaks. */
  lemma ShareUncountedBreaks(m: Mem)
    requires Consistent(m) && Live(m, 0) && Live(m, 1) && FreeCount(m) >= 3 && m.alloc.counts == map[]
    requires EntryAt(m, 0, Path(USER_SPACE_BASE)).Entry? && EntryAt(m, 1, Path(USER_SPACE_BASE)).Unused?
    ensures !AlwaysConsistent(m, [IMAGE_SHARE])
  {
    ShareRuns(m, 0, 1, USER_SPACE_BASE);
    StepExact(m, IMAGE_SHARE);
  }

  /** Loading an image page into one domain and sharing it with another: both map it, its count is 1. */
  lemma SharedImagePageBreaks()
    ensures !AlwaysConsistent(Boot(64), [OpCreate(0), OpCreate(0), IMAGE_LOAD, IMAGE_SHARE])
  {
    var m1, m2 := TwoDomains();
    var m3 := ImageLoaded(m2);
    ShareUncountedBreaks(m3);
    Prefixed(m1, m2, m3);
  }

  lemma ImageLoaded(m: Mem) returns (m': Mem)
    requires Consistent(m) && Live(m, 0) && Live(m, 1) && FreeCount(m) == 62 && m.alloc.counts == map[]
    requires forall d, p :: LeafPath(p) ==> EntryAt(m, d, p).Unused?
    ensures Step(m, IMAGE_LOAD).Done? && Step(m, IMAGE_LOAD).mem == m'
    ensures Consistent(m') && Live(m', 0) && Live(m', 1) && FreeCount(m') >= 3 && m'.alloc.counts == map[]
    ensures EntryAt(m', 0, Path(USER_SPACE_BASE)).Entry? && EntryAt(m', 1, Path(USER_SPACE_BASE)).Unused?
    ensures EntryAt(m', 0, Path(USER_SPACE_BASE)).flags == FlagsFor(ReadExecute)
  {
    UserLeaf(USER_SPACE_BASE);
    LoadRuns(m, 0, USER_SPACE_BASE, ReadExecute);
    LoadPageKeeps(m, 0, USER_SPACE_BASE, ReadExecute);
    m' := Step(m, IMAGE_LOAD).mem;
    assert EntryAt(m', 1, Path(USER_SPACE_BASE)) == EntryAt(m, 1, Path(USER_SPACE_BASE));
  }

  lemma Prefixed(m1: Mem, m2: Mem, m3: Mem)
    requires Step(Boot(64), OpCreate(0)) == Done(m1, 0) && Step(m1, OpCreate(0)) == Done(m2, 1)
    requires Step(m2, IMAGE_LOAD).Done? && Step(m2, IMAGE_LOAD).mem == m3 && !AlwaysConsistent(m3, [IMAGE_SHARE])
    ensures !AlwaysConsistent(Boot(64), [OpCreate(0), OpCreate(0), IMAGE_LOAD, IMAGE_SHARE])
  {
    BreaksLater(m2, IMAGE_LOAD, [IMAGE_SHARE]);
    BreaksLater(m1, OpCreate(0), [IMAGE_LOAD] + [IMAGE_SHARE]);
    BreaksLater(Boot(64), OpCreate(0), [OpCreate(0)] + ([IMAGE_LOAD] + [IMAGE_SHARE]));
    assert [OpCreate(0)] + ([OpCreate(0)] + ([IMAGE_LOAD] + [IMAGE_SHARE])) ==
      [OpCreate(0), OpCreate(0), IMAGE_LOAD, IMAGE_SHARE];
  }

  lemma BreaksLater(m: Mem, op: Op, ops: seq<Op>)
    requires Step(m, op).Done? && !AlwaysConsistent(Step(m, op).mem, ops)
    ensures !AlwaysConsistent(m, [op] + ops)
  {
    assert ([op] + ops)[1..] == ops;
  }
}
