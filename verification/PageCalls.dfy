/** What the page calls give their caller: the exact verdict and the exact effect of SYS_ALLOC_PAGE, SYS_MAP_ANON,
    SYS_SHARE_PAGE and SYS_MAP_MMIO on every page of every domain, contents included. */
module PageCalls {
  import opened Wrappers
  import opened Frames
  import opened Paging
  import opened Ownership
  import opened MemorySteps

  /** Frame f holds what it held. */
  ghost predicate SameFrameContents(m: Mem, m': Mem, f: nat) { f in m.phys ==> f in m'.phys && m'.phys[f] == m.phys[f] }

  /** Every page of every domain but p of d keeps its entry, and what it maps its contents. */
  ghost predicate OthersKept(m: Mem, m': Mem, d: nat, p: seq<nat>) {
    && SameLeaves(m, m', d, p)
    && forall e, q :: LeafPath(q) && !(e == d && q == p) && EntryAt(m, e, q).Entry? ==>
         SameFrameContents(m, m', EntryAt(m, e, q).frame)
  }

  /** Every page that was mapped before keeps the contents of its frame. */
  ghost predicate ContentsKept(m: Mem, m': Mem) {
    forall d, q :: LeafPath(q) && EntryAt(m, d, q).Entry? && EntryAt(m, d, q).frame in m.phys ==>
      EntryAt(m, d, q).frame in m'.phys && m'.phys[EntryAt(m, d, q).frame] == m.phys[EntryAt(m, d, q).frame]
  }

  /** Every address of va's page reaches frame f in domain d. */
  ghost predicate PageReaches(m: Mem, d: nat, va: nat, f: nat) {
    forall v :: 0 <= v && IsUserAddress(v) && Canonical(v) && v / FRAME_SIZE == va / FRAME_SIZE ==>
      Live(m, d) && ResolveUserPage(m, d, v) == Some(f * FRAME_SIZE + v % FRAME_SIZE)
  }

  // ---- SYS_ALLOC_PAGE and SYS_MAP_ANON ----

  /** 0 exactly when the call is refused or no frame is free, and then nothing changed; a panic exactly when there is
      no such domain or address, the page is mapped already, or the frames run out before its tables are there. */
  lemma AllocVerdict(m: Mem, d: nat, va: nat, granted: bool, zero: bool)
    requires Consistent(m)
    ensures var r, refused := AllocPage(m, d, va, granted, zero), !granted || !IsUserAddress(va) || FreeCount(m) == 0;
            && (refused ==> r == Done(m, 0))
            && (!refused && (!Live(m, d) || !Canonical(va)) ==> r == Halt)
            && (!refused && Live(m, d) && Canonical(va) ==>
                  if EntryAt(m, d, Path(va)).Entry? || FreeCount(m) - 1 < Missing(m, d, Path(va), 3) then r == Halt
                  else r.Done? && r.ret == 1)
  {
    AllUsed(m.alloc.used, |m.alloc.used|);
    if granted && IsUserAddress(va) && FreeCount(m) > 0 {
      TakeRuns(m);
      var f, p := LowestFree(m.alloc.used, 0).value, Path(va);
      var m1 := TakeWith(m, f, Contents(zero));
      TakeConsistent(m, f, Contents(zero));
      UserLeaf(va);
      assert Addr(f) / FRAME_SIZE == f;
      if Live(m, d) && Canonical(va) {
        MapToOk(m1, d, p, f, FlagsFor(ReadWrite));
        SameMissing(m, m1, d, p, 3);
        LeafAt(m, d, p);
      }
    }
  }

  lemma {:induction false} SameMissing(m: Mem, m': Mem, d: nat, p: seq<nat>, k: nat)
    requires SameTables(m, m') && LeafPath(p) && k <= 3
    ensures Missing(m', d, p, k) == Missing(m, d, p, k)
  {
    if k > 0 {
      SameMissing(m, m', d, p, k - 1);
      assert UserPath(p[..k]);
    }
  }

  /** A call that returns 1: the page was not mapped; now it holds the lowest free frame, writable and not
      executable, and all its addresses reach it. The frame is counted once if the count table had room. SYS_MAP_ANON
      leaves 4096 zero bytes in it, SYS_ALLOC_PAGE what was there. Every other page of every domain keeps its entry,
      and every page mapped before its contents. */
  lemma AllocEffect(m: Mem, d: nat, va: nat, granted: bool, zero: bool)
    requires Consistent(m) && AllocPage(m, d, va, granted, zero).Done? && AllocPage(m, d, va, granted, zero).ret == 1
    ensures var m', p := AllocPage(m, d, va, granted, zero).mem, Path(va);
            && EntryAt(m, d, p).Unused? && EntryAt(m', d, p).Entry?
            && EntryAt(m', d, p).flags == Flags(true, true, false, false)
    ensures var m' := AllocPage(m, d, va, granted, zero).mem;
            var f := EntryAt(m', d, Path(va)).frame;
            && IsFree(m.alloc, f) && (forall x :: 0 <= x < f ==> !IsFree(m.alloc, x)) && PageReaches(m', d, va, f)
            && m'.alloc.counts ==
                 (if |m.alloc.counts| < m.alloc.slots then m.alloc.counts[f * FRAME_SIZE := 1] else m.alloc.counts)
            && (zero ==> f in m'.phys && m'.phys[f].Data? && |m'.phys[f].bytes| == 4096
                         && forall i :: 0 <= i < 4096 ==> m'.phys[f].bytes[i] == 0)
            && (!zero && f in m.phys ==> f in m'.phys && m'.phys[f] == m.phys[f])
    ensures var m' := AllocPage(m, d, va, granted, zero).mem; SameLeaves(m, m', d, Path(va)) && ContentsKept(m, m')
  {
    var f, p := LowestFree(m.alloc.used, 0).value, Path(va);
    var m1 := TakeWith(m, f, Contents(zero));
    var m2 := MapUserPage(m1, d, va, Addr(f), FlagsFor(ReadWrite)).value;
    var m' := AllocPage(m, d, va, granted, zero).mem;
    UserLeaf(va);
    TakeConsistent(m, f, Contents(zero));
    NewLeafTree(m1, d, va, f, ReadWrite);
    MapKeepsFrames(m1, d, va, f, FlagsFor(ReadWrite));
    SameWalks(m2, m');
    TakenContents(m, m1, m2, f, Contents(zero));
    AllocPageKeeps(m, d, va, granted, zero);
    EntryReaches(m', d, va);
  }

  /** The allocator has no part in what is mapped. */
  lemma SameWalks(m: Mem, m': Mem)
    requires m'.phys == m.phys && m'.domains == m.domains
    ensures forall d, q :: q != [] ==> EntryAt(m', d, q) == EntryAt(m, d, q)
  {
  }

  lemma MapKeepsFrames(m: Mem, d: nat, va: nat, f: nat, flags: Flags)
    requires TreeOk(m) && FreeOk(m) && IsUserAddress(va) && !IsTable(m, f) && !IsFree(m.alloc, f) && !flags.huge
    requires MapUserPage(m, d, va, Addr(f), flags).Some?
    ensures var m' := MapUserPage(m, d, va, Addr(f), flags).value;
            forall x :: x in m.phys && !IsTable(m, x) && !IsFree(m.alloc, x) ==> x in m'.phys && m'.phys[x] == m.phys[x]
  {
    UserLeaf(va);
    assert Addr(f) / FRAME_SIZE == f;
    MapToOk(m, d, Path(va), f, flags);
    var m' := MapUserPage(m, d, va, Addr(f), flags).value;
    forall x | x in m.phys && !IsTable(m, x) && !IsFree(m.alloc, x) ensures x in m'.phys && m'.phys[x] == m.phys[x] {
      assert !IsTable(m', x);
    }
  }

  lemma TakenContents(m: Mem, m1: Mem, m2: Mem, f: nat, contents: Option<Cell>)
    requires Consistent(m) && IsFree(m.alloc, f) && m1 == TakeWith(m, f, contents) && SameTables(m, m1)
    requires forall x :: x in m1.phys && !IsTable(m1, x) && !IsFree(m1.alloc, x) ==>
      x in m2.phys && m2.phys[x] == m1.phys[x]
    requires !IsTable(m1, f)
    ensures ContentsKept(m, m2) && (f in m1.phys ==> f in m2.phys && m2.phys[f] == m1.phys[f])
  {
    forall d, q | LeafPath(q) && EntryAt(m, d, q).Entry? && EntryAt(m, d, q).frame in m.phys
      ensures EntryAt(m, d, q).frame in m2.phys && m2.phys[EntryAt(m, d, q).frame] == m.phys[EntryAt(m, d, q).frame]
    {
      var x := EntryAt(m, d, q).frame;
      LeafAt(m, d, q);
      SameTablesFacts(m, m1, x);
      assert !IsTable(m, x) && !IsFree(m.alloc, x) && x != f;
    }
  }

  /** All addresses of a mapped page reach its frame. */
  lemma EntryReaches(m: Mem, d: nat, va: nat)
    requires TreeOk(m) && Live(m, d) && IsUserAddress(va) && Canonical(va) && EntryAt(m, d, Path(va)).Entry?
    ensures PageReaches(m, d, va, EntryAt(m, d, Path(va)).frame)
  {
    var f := EntryAt(m, d, Path(va)).frame;
    forall v | 0 <= v && IsUserAddress(v) && Canonical(v) && v / FRAME_SIZE == va / FRAME_SIZE
      ensures ResolveUserPage(m, d, v) == Some(f * FRAME_SIZE + v % FRAME_SIZE)
    {
      PathInjective(v, va);
      SourceFrame(m, d, v);
    }
  }

  // ---- SYS_SHARE_PAGE ----

  /** 0 exactly when the call is refused or the caller's page is not mapped. A call that returns 1 either found the
      frame there already and changed nothing, or put it at the same address of the target, writable and not
      executable, whatever was there before. Every other page keeps its entry, every page its contents, and a counted
      frame has one reference more. */
  lemma ShareEffect(m: Mem, from: nat, to: nat, va: nat, granted: bool)
    requires Consistent(m) && SharePage(m, from, to, va, granted).Done?
    ensures var r := SharePage(m, from, to, va, granted);
            if !granted || !IsUserAddress(va) || EntryAt(m, from, Path(va)).Unused? then r == Done(m, 0)
            else r.ret == 1 && SharedPage(m, r.mem, from, to, va)
  {
    if granted && IsUserAddress(va) {
      UserLeaf(va);
      SourceFrame(m, from, va);
      if EntryAt(m, from, Path(va)).Entry? {
        SourceFrame(m, to, va);
        if MapsNew(m, from, to, va, granted) { NewlyShared(m, from, to, va); } else { SharedAlready(m, from, to, va); }
      }
    }
  }

  /** The target's page holds the caller's frame: it did before and nothing changed, or it does now. */
  ghost predicate SharedPage(m: Mem, m': Mem, from: nat, to: nat, va: nat) {
    if At(m, to, Path(va)) == At(m, from, Path(va)) then m' == m
    else NowShared(m, m', from, to, va)
  }

  ghost predicate NowShared(m: Mem, m': Mem, from: nat, to: nat, va: nat) {
    var p, f := Path(va), EntryAt(m, from, Path(va));
    && f.Entry? && EntryAt(m', to, p) == Entry(f.frame, Flags(true, true, false, false))
    && OthersKept(m, m', to, p)
    && (va % FRAME_SIZE == 0 ==> CountedOnce(m, m', f.frame))
  }

  /** One reference more, if the frame is counted and its 8-bit count has room. */
  ghost predicate CountedOnce(m: Mem, m': Mem, f: nat) {
    Addr(f) in m.alloc.counts && m.alloc.counts[Addr(f)] < 255 ==>
      Addr(f) in m'.alloc.counts && m'.alloc.counts[Addr(f)] == m.alloc.counts[Addr(f)] + 1
  }

  lemma SharedAlready(m: Mem, from: nat, to: nat, va: nat)
    requires Consistent(m) && Live(m, from) && IsUserAddress(va) && EntryAt(m, from, Path(va)).Entry?
    requires SharePage(m, from, to, va, true).Done? && !MapsNew(m, from, to, va, true)
    ensures SharePage(m, from, to, va, true) == Done(m, 1) && SharedPage(m, m, from, to, va)
  {
    UserLeaf(va);
    SourceFrame(m, from, va);
    SourceFrame(m, to, va);
    LeafAt(m, from, Path(va));
  }

  lemma NewlyShared(m: Mem, from: nat, to: nat, va: nat)
    requires Consistent(m) && Live(m, from) && IsUserAddress(va) && EntryAt(m, from, Path(va)).Entry?
    requires SharePage(m, from, to, va, true).Done? && MapsNew(m, from, to, va, true)
    ensures SharePage(m, from, to, va, true).ret == 1
    ensures SharedPage(m, SharePage(m, from, to, va, true).mem, from, to, va)
  {
    var p, pa := Path(va), ResolveUserPage(m, from, va).value;
    UserLeaf(va);
    SourceFrame(m, from, va);
    SourceFrame(m, to, va);
    LeafAt(m, from, p);
    LeafAt(m, to, p);
    if ResolveUserPage(m, to, va).None? {
      SharedInto(m, from, to, va, pa);
    } else {
      var m1 := UnmapPage(m, to, va).mem;
      UnmapPageKeeps(m, to, va);
      UnmapOtherDomain(m, to, from, va);
      UnmapSpares(m, to, from, va);
      UnmapOthers(m, to, va);
      SharedInto(m1, from, to, va, pa);
      ReplacedPage(m, m1, ShareInto(m1, to, va, pa).mem, from, to, va);
    }
  }

  lemma UnmapOthers(m: Mem, d: nat, va: nat)
    requires Consistent(m) && IsUserAddress(va) && UnmapPage(m, d, va).Done? && EntryAt(m, d, Path(va)).Entry?
    ensures OthersKept(m, UnmapPage(m, d, va).mem, d, Path(va))
  {
    var m' := UnmapPage(m, d, va).mem;
    UserLeaf(va);
    UnmapPageEffect(m, d, va);
    UnmapOk(m, d, Path(va));
    var m1 := Unmap(m, m.domains[d].value, Path(va)).value.0;
    forall e, q | LeafPath(q) && EntryAt(m, e, q).Entry?
      ensures SameFrameContents(m, m', EntryAt(m, e, q).frame)
    {
      LeafAt(m, e, q);
      assert !IsTable(m1, EntryAt(m, e, q).frame);
    }
  }

  lemma ReplacedPage(m: Mem, m1: Mem, m2: Mem, from: nat, to: nat, va: nat)
    requires IsUserAddress(va) && from != to && OthersKept(m, m1, to, Path(va)) && NowShared(m1, m2, from, to, va)
    requires EntryAt(m, to, Path(va)).Entry? && EntryAt(m, from, Path(va)).Entry?
    requires EntryAt(m, to, Path(va)).frame != EntryAt(m, from, Path(va)).frame
    requires m1.alloc.counts == DecRef(m.alloc, Addr(EntryAt(m, to, Path(va)).frame)).counts
    ensures NowShared(m, m2, from, to, va)
  {
    var p := Path(va);
    UserLeaf(va);
    assert EntryAt(m1, from, p) == EntryAt(m, from, p);
    OthersKeptTwice(m, m1, m2, to, p);
  }

  lemma OthersKeptTwice(m: Mem, m1: Mem, m2: Mem, d: nat, p: seq<nat>)
    requires OthersKept(m, m1, d, p) && OthersKept(m1, m2, d, p)
    ensures OthersKept(m, m2, d, p)
  {
    forall e, q | LeafPath(q) && !(e == d && q == p)
      ensures EntryAt(m2, e, q) == EntryAt(m, e, q)
      ensures EntryAt(m, e, q).Entry? ==> SameFrameContents(m, m2, EntryAt(m, e, q).frame)
    {
      assert EntryAt(m1, e, q) == EntryAt(m, e, q);
    }
  }

  lemma SharedInto(m: Mem, from: nat, to: nat, va: nat, pa: nat)
    requires Consistent(m) && Live(m, from) && IsUserAddress(va) && ResolveUserPage(m, from, va) == Some(pa)
    requires EntryAt(m, to, Path(va)).Unused? && ShareInto(m, to, va, pa).Done?
    ensures NowShared(m, ShareInto(m, to, va, pa).mem, from, to, va)
  {
    var p, m' := Path(va), ShareInto(m, to, va, pa).mem;
    UserLeaf(va);
    SourceFrame(m, from, va);
    LeafAt(m, from, p);
    var f := EntryAt(m, from, p).frame;
    assert pa / FRAME_SIZE == f && (va % FRAME_SIZE == 0 ==> pa == Addr(f));
    assert EntryAt(m', to, p) == Entry(f, FlagsFor(ReadWrite)) && m'.alloc.counts == IncRef(m.alloc, pa).counts by {
      ShareIntoEntry(m, to, va, pa);
    }
    assert OthersKept(m, m', to, p) by {
      MapOthers(m, to, va, pa, FlagsFor(ReadWrite));
      SameOthers(m, MapUserPage(m, to, va, pa, FlagsFor(ReadWrite)).value, m', to, p);
    }
    if va % FRAME_SIZE == 0 { OneMore(m, m', f); }
  }

  lemma OneMore(m: Mem, m': Mem, f: nat)
    requires m'.alloc.counts == IncRef(m.alloc, Addr(f)).counts
    ensures CountedOnce(m, m', f)
  {
  }

  lemma SameOthers(m: Mem, m1: Mem, m2: Mem, d: nat, p: seq<nat>)
    requires OthersKept(m, m1, d, p) && m2.phys == m1.phys && m2.domains == m1.domains
    ensures OthersKept(m, m2, d, p)
  {
    SameWalks(m1, m2);
  }

  lemma MapOthers(m: Mem, d: nat, va: nat, pa: nat, flags: Flags)
    requires TreeOk(m) && FreeOk(m) && IsUserAddress(va) && !flags.huge
    requires !IsTable(m, pa / FRAME_SIZE) && !IsFree(m.alloc, pa / FRAME_SIZE) && MapUserPage(m, d, va, pa, flags).Some?
    ensures OthersKept(m, MapUserPage(m, d, va, pa, flags).value, d, Path(va))
  {
    var m' := MapUserPage(m, d, va, pa, flags).value;
    UserLeaf(va);
    MapToOk(m, d, Path(va), pa / FRAME_SIZE, flags);
    forall e, q | LeafPath(q) && EntryAt(m, e, q).Entry?
      ensures SameFrameContents(m, m', EntryAt(m, e, q).frame)
    {
      LeafAt(m, e, q);
      assert !IsTable(m, EntryAt(m, e, q).frame) && !IsFree(m.alloc, EntryAt(m, e, q).frame);
      assert !IsTable(m', EntryAt(m, e, q).frame);
    }
  }

  // ---- SYS_UNMAP ----

  /** A panic exactly when there is no such domain or address. For a user address: 0, changing nothing, exactly when the
      page is empty; otherwise 1, the page is empty now, its frame has one reference less, and every other page keeps
      entry and contents. */
  lemma UnmapEffect(m: Mem, d: nat, va: nat)
    requires Consistent(m)
    ensures UnmapPage(m, d, va).Halt? <==> !Live(m, d) || !Addressable(va)
    ensures var r, p := UnmapPage(m, d, va), Path(va);
            IsUserAddress(va) && r.Done? ==>
              if EntryAt(m, d, p).Unused? then r == Done(m, 0)
              else && r.ret == 1 && EntryAt(r.mem, d, p).Unused? && OthersKept(m, r.mem, d, p)
                   && r.mem.alloc.counts == DecRef(m.alloc, Addr(EntryAt(m, d, p).frame)).counts
  {
    if Live(m, d) && Addressable(va) && IsUserAddress(va) {
      UserLeaf(va);
      UnmapOk(m, d, Path(va));
      if EntryAt(m, d, Path(va)).Entry? {
        UnmapPageEffect(m, d, va);
        UnmapOthers(m, d, va);
      }
    }
  }

  // ---- SYS_MAP_MMIO ----

  /** 0 exactly when the call is refused. A call that returns 1 put the bar's frame at an empty page, writable, not
      executable and uncached, counts nothing, and leaves every other entry alone and, if the frame is device memory,
      every page's contents. */
  lemma MmioEffect(m: Mem, d: nat, va: nat, bar: nat, granted: bool)
    requires Consistent(m) && MapMmio(m, d, va, bar, granted).Done?
    ensures var r, p := MapMmio(m, d, va, bar, granted), Path(va);
            if !granted || !IsUserAddress(va) then r == Done(m, 0)
            else && r.ret == 1 && EntryAt(m, d, p).Unused?
                 && EntryAt(r.mem, d, p) == Entry(bar / FRAME_SIZE, Flags(true, true, true, false))
                 && r.mem.alloc.counts == m.alloc.counts && SameLeaves(m, r.mem, d, p)
                 && (Device(m, bar / FRAME_SIZE) ==> OthersKept(m, r.mem, d, p))
  {
    if granted && IsUserAddress(va) {
      UserLeaf(va);
      MapToEntry(m, d, Path(va), bar / FRAME_SIZE, MMIO_FLAGS);
      if Device(m, bar / FRAME_SIZE) {
        assert !IsTable(m, bar / FRAME_SIZE) && !IsFree(m.alloc, bar / FRAME_SIZE);
        MapOthers(m, d, va, bar, MMIO_FLAGS);
      }
    }
  }
}
