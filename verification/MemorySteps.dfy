/** The memory arms of the system-call dispatcher (kernel/src/syscall.rs:429-535, 620-632) as steps on
    kernel memory, and exactly when each keeps the frame accounting. */
module MemorySteps {
  import opened Wrappers
  import opened Frames
  import opened Paging
  import opened Ownership

  /** A step either panics, which halts the machine, or returns a value. */
  datatype Outcome = Halt | Done(mem: Mem, ret: nat)

  function MapUserPage(m: Mem, d: nat, va: nat, pa: nat, flags: Flags): (r: Option<Mem>) {
    if !Live(m, d) || !Canonical(va) then None
    else MapTo(m, m.domains[d].value, Path(va), pa / FRAME_SIZE, flags)
  }

  function ResolveUserPage(m: Mem, d: nat, va: nat): (r: Option<nat>)
    requires Live(m, d)
  {
    Resolve(m.phys, m.domains[d].value, va)
  }

  /** SYS_ALLOC_PAGE; with `zero` SYS_MAP_ANON, which clears the frame and whose target domain is an argument
      (`granted` is its MapInto check). */
  function AllocPage(m: Mem, d: nat, va: nat, granted: bool, zero: bool): (r: Outcome) {
    if !granted || !IsUserAddress(va) then Done(m, 0)
    else match LowestFree(m.alloc.used, 0)
      case None => Done(m, 0)
      case Some(f) =>
        match MapUserPage(TakeWith(m, f, Contents(zero)), d, va, Addr(f), FlagsFor(ReadWrite))
        case None => Halt
        case Some(m') => Done(m'.(alloc := IncRef(m'.alloc, Addr(f))), 1)
  }

  function Contents(zero: bool): (c: Option<Cell>) { if zero then Some(ZeroPage()) else None }

  /** Drop one reference of an unmapped frame, freeing it when that was the last one. */
  function DropUnmapped(m: Mem, pa: nat): (r: Mem) {
    m.(alloc := if LastRef(m.alloc, pa) then FreeFrame(DecRef(m.alloc, pa), pa) else DecRef(m.alloc, pa))
  }

  /** SYS_UNMAP. */
  function UnmapPage(m: Mem, d: nat, va: nat): (r: Outcome) {
    if !Live(m, d) || !Addressable(va) then Halt
    else match Unmap(m, m.domains[d].value, Path(va))
      case None => Done(m, 0)
      case Some((m', f)) => Done(DropUnmapped(m', Addr(f)), 1)
  }

  /** SYS_SHARE_PAGE; `granted` is the MapInto check. */
  function SharePage(m: Mem, from: nat, to: nat, va: nat, granted: bool): (r: Outcome) {
    if !Live(m, from) then Halt
    else if !granted || !IsUserAddress(va) then Done(m, 0)
    else match ResolveUserPage(m, from, va)
      case None => Done(m, 0)
      case Some(pa) =>
        if !Live(m, to) then Halt else
        match ResolveUserPage(m, to, va)
        case None => ShareInto(m, to, va, pa)
        case Some(was) =>
          if was == pa then Done(m, 1)
          else match UnmapPage(m, to, va)
            case Halt => Halt
            case Done(m', _) => ShareInto(m', to, va, pa)
  }

  function ShareInto(m: Mem, to: nat, va: nat, pa: nat): (r: Outcome) {
    match MapUserPage(m, to, va, pa, FlagsFor(ReadWrite))
    case None => Halt
    case Some(m') => Done(m'.(alloc := IncRef(m'.alloc, pa)), 1)
  }

  /** SYS_MAP_MMIO; `granted` is the Mmio check for the page-aligned bar. */
  function MapMmio(m: Mem, d: nat, va: nat, bar: nat, granted: bool): (r: Outcome) {
    if !granted || !IsUserAddress(va) then Done(m, 0)
    else match MapUserPage(m, d, va, bar, MMIO_FLAGS)
      case None => Halt
      case Some(m') => Done(m', 1)
  }

  /** The loader's step: a fresh zeroed frame at `va`, not counted. None: out of frames. */
  function LoadPage(m: Mem, d: nat, va: nat, perm: UserPagePerm): (r: Option<Outcome>) {
    match LowestFree(m.alloc.used, 0)
    case None => None
    case Some(f) =>
      var m1 := TakeWith(m, f, Some(ZeroPage()));
      match MapUserPage(m1, d, va, Addr(f), FlagsFor(perm))
      case None => Some(Halt)
      case Some(m') => Some(Done(m', 1))
  }

  function ZeroPage(): (c: Cell) { Data(seq(FRAME_SIZE, i => 0)) }

  // ---- memory with the same tables ----

  /** Same tables, leaves and static facts; the allocator may differ. */
  ghost predicate SameTables(m1: Mem, m2: Mem) {
    && m2.domains == m1.domains && m2.device == m1.device
    && m2.alloc.slots == m1.alloc.slots && m2.alloc.pinned == m1.alloc.pinned && |m2.alloc.used| == |m1.alloc.used|
    && (forall d, p :: TablePath(p) || UserPath(p) ==> At(m2, d, p) == At(m1, d, p))
    && (forall d, p :: UserPath(p) ==> EntryAt(m2, d, p) == EntryAt(m1, d, p))
    && (forall f :: IsTable(m1, f) ==> f in m1.phys && f in m2.phys && m2.phys[f] == m1.phys[f])
  }

  lemma SameTablesFacts(m1: Mem, m2: Mem, f: nat)
    requires SameTables(m1, m2)
    ensures IsTable(m2, f) <==> IsTable(m1, f)
    ensures IsLeaf(m2, f) <==> IsLeaf(m1, f)
    ensures Mappers(m2, f) == Mappers(m1, f)
  {
    forall d ensures Maps(m2, d, f) <==> Maps(m1, d, f) {
      if Maps(m1, d, f) { var p :| LeafPath(p) && At(m1, d, p) == Some(f); assert At(m2, d, p) == Some(f); }
      if Maps(m2, d, f) { var p :| LeafPath(p) && At(m2, d, p) == Some(f); assert At(m1, d, p) == Some(f); }
    }
    if IsTable(m1, f) { var d, p :| TablePath(p) && At(m1, d, p) == Some(f); assert At(m2, d, p) == Some(f); }
    if IsTable(m2, f) { var d, p :| TablePath(p) && At(m2, d, p) == Some(f); assert At(m1, d, p) == Some(f); }
    if IsLeaf(m1, f) { var d, p :| LeafPath(p) && At(m1, d, p) == Some(f); assert At(m2, d, p) == Some(f); }
    if IsLeaf(m2, f) { var d, p :| LeafPath(p) && At(m2, d, p) == Some(f); assert At(m1, d, p) == Some(f); }
  }

  /** Writing a free frame's contents does not disturb any walk. */
  lemma SameTablesFresh(m: Mem, f: nat, c: Cell)
    requires TreeOk(m) && !IsTable(m, f)
    ensures SameTables(m, m.(phys := m.phys[f := c]))
  {
    var m' := m.(phys := m.phys[f := c]);
    forall d: nat, p | TablePath(p) || UserPath(p)
      ensures At(m', d, p) == At(m, d, p) && (p != [] ==> EntryAt(m', d, p) == EntryAt(m, d, p))
    {
      if Live(m, d) {
        forall k | 0 <= k < |p| && Node(m.phys, m.domains[d].value, p[..k]).Some?
          ensures Slot(m'.phys, At(m, d, p[..k]).value, p[k]) == Slot(m.phys, At(m, d, p[..k]).value, p[k])
        {
          PrefixPath(p, k);
          assert IsTable(m, At(m, d, p[..k]).value);
        }
        SameWalk(m.phys, m'.phys, m.domains[d].value, p);
      }
    }
    forall x | IsTable(m, x) ensures x in m.phys && x in m'.phys && m'.phys[x] == m.phys[x] {
      var d, p :| TablePath(p) && At(m, d, p) == Some(x);
    }
  }

  function TakeWith(m: Mem, f: nat, contents: Option<Cell>): (r: Mem)
    requires f < |m.alloc.used|
  {
    m.(alloc := Take(m.alloc, f), phys := if contents.Some? then m.phys[f := contents.value] else m.phys)
  }

  /** Taking a free frame, with any contents, keeps the accounting; the frame belongs to nobody yet. */
  lemma TakeConsistent(m: Mem, f: nat, contents: Option<Cell>)
    requires Consistent(m) && IsFree(m.alloc, f)
    ensures var m' := TakeWith(m, f, contents);
            && Consistent(m') && SameTables(m, m') && !IsTable(m', f) && !IsLeaf(m', f) && !IsFree(m'.alloc, f)
            && !Device(m', f) && Addr(f) !in m'.alloc.counts && !Pinned(m'.alloc, Addr(f))
  {
    var m' := TakeWith(m, f, contents);
    assert !IsTable(m, f) && !IsLeaf(m, f);
    if contents.Some? {
      SameTablesFresh(m, f, contents.value);
    } else {
      forall x | IsTable(m, x) ensures x in m.phys {
        var d, p :| TablePath(p) && At(m, d, p) == Some(x);
      }
    }
    SameTablesConsistent(m, m');
    SameTablesFacts(m, m', f);
  }

  /** With the same tables and counts and no frame newly free, the accounting carries over. */
  lemma SameTablesConsistent(m1: Mem, m2: Mem)
    requires Consistent(m1) && SameTables(m1, m2) && m2.alloc.counts == m1.alloc.counts
    requires forall f :: 0 <= f < |m1.alloc.used| && m1.alloc.used[f] ==> m2.alloc.used[f]
    ensures Consistent(m2)
  {
    forall f: nat ensures (IsTable(m2, f) <==> IsTable(m1, f)) && Mappers(m2, f) == Mappers(m1, f) {
      SameTablesFacts(m1, m2, f);
    }
    forall d, p | TablePath(p) && At(m2, d, p).Some? ensures TableFrame(m2, At(m2, d, p).value) {
      assert IsTable(m1, At(m1, d, p).value);
    }
    forall d, p | UserPath(p) && At(m2, d, p).Some? ensures !IsFree(m2.alloc, At(m2, d, p).value) {
      assert !IsFree(m1.alloc, At(m1, d, p).value);
    }
    assert CountsExact(m2) by {
      forall f ensures CountExact(m2, f) { assert CountExact(m1, f); }
    }
  }

  /** Changing counts alone keeps the tables, as long as no table or free frame gets counted. */
  lemma CountsOnly(m: Mem, counts: map<nat, nat>)
    requires TreeOk(m) && FreeOk(m)
    requires forall g :: Addr(g) in counts ==> Addr(g) in m.alloc.counts || (!IsTable(m, g) && !IsFree(m.alloc, g))
    ensures var m' := m.(alloc := m.alloc.(counts := counts));
            && TreeOk(m') && FreeOk(m')
            && (forall d, p :: LeafPath(p) ==> EntryAt(m', d, p) == EntryAt(m, d, p))
  {
    var m' := m.(alloc := m.alloc.(counts := counts));
    assert forall d, p :: At(m', d, p) == At(m, d, p);
    assert forall d, p :: p != [] ==> EntryAt(m', d, p) == EntryAt(m, d, p);
    forall d, p | TablePath(p) && At(m', d, p).Some? ensures TableFrame(m', At(m', d, p).value) {
      assert IsTable(m, At(m, d, p).value);
    }
    forall f: nat ensures IsTable(m', f) <==> IsTable(m, f) {
      if IsTable(m, f) { var d, p :| TablePath(p) && At(m, d, p) == Some(f); assert At(m', d, p) == Some(f); }
    }
  }

  // ---- the steps keep the accounting ----

  lemma UserLeaf(va: nat)
    requires IsUserAddress(va)
    ensures LeafPath(Path(va))
  {
  }

  /** A fresh frame mapped and, room permitting, counted: the accounting holds after every
      SYS_ALLOC_PAGE and SYS_MAP_ANON that returns. */
  lemma AllocPageKeeps(m: Mem, d: nat, va: nat, granted: bool, zero: bool)
    requires Consistent(m)
    ensures AllocPage(m, d, va, granted, zero).Done? ==> Consistent(AllocPage(m, d, va, granted, zero).mem)
  {
    if granted && IsUserAddress(va) && LowestFree(m.alloc.used, 0).Some? {
      var f := LowestFree(m.alloc.used, 0).value;
      TakeConsistent(m, f, Contents(zero));
      var m1 := TakeWith(m, f, Contents(zero));
      if MapUserPage(m1, d, va, Addr(f), FlagsFor(ReadWrite)).Some? {
        NewLeafKeeps(m1, d, va, f, ReadWrite);
      }
    }
  }

  lemma NewLeafKeeps(m: Mem, d: nat, va: nat, f: nat, perm: UserPagePerm)
    requires Consistent(m) && IsUserAddress(va) && Live(m, d)
    requires !IsTable(m, f) && !IsLeaf(m, f) && !IsFree(m.alloc, f)
    requires !Device(m, f) && Addr(f) !in m.alloc.counts && !Pinned(m.alloc, Addr(f))
    requires MapUserPage(m, d, va, Addr(f), FlagsFor(perm)).Some?
    ensures var m' := MapUserPage(m, d, va, Addr(f), FlagsFor(perm)).value;
            Consistent(m') && Consistent(m'.(alloc := IncRef(m'.alloc, Addr(f))))
  {
    var p := Path(va);
    UserLeaf(va);
    var m1 := MapUserPage(m, d, va, Addr(f), FlagsFor(perm)).value;
    NewLeafTree(m, d, va, f, perm);
    NewLeafAllowed(m, d, p, f, perm);
    FillConsistent(m, m1, d, p);
    var m2 := m1.(alloc := IncRef(m1.alloc, Addr(f)));
    CountsOnly(m1, m2.alloc.counts);
    FillConsistent(m, m2, d, p);
  }

  lemma NewLeafTree(m: Mem, d: nat, va: nat, f: nat, perm: UserPagePerm)
    requires TreeOk(m) && FreeOk(m) && IsUserAddress(va) && !IsTable(m, f) && !IsFree(m.alloc, f)
    requires MapUserPage(m, d, va, Addr(f), FlagsFor(perm)).Some?
    ensures var m', p := MapUserPage(m, d, va, Addr(f), FlagsFor(perm)).value, Path(va);
            && TreeOk(m') && FreeOk(m') && LeafChange(m, m', d, p) && !IsTable(m', f) && !IsFree(m'.alloc, f)
            && EntryAt(m, d, p).Unused? && EntryAt(m', d, p) == Entry(f, FlagsFor(perm))
              && m'.alloc.counts == m.alloc.counts
  {
    UserLeaf(va);
    assert Addr(f) / FRAME_SIZE == f;
    MapToOk(m, d, Path(va), f, FlagsFor(perm));
    LeafAt(m, d, Path(va));
  }

  lemma NewLeafAllowed(m: Mem, d: nat, p: seq<nat>, f: nat, perm: UserPagePerm)
    requires CountsExact(m) && !IsLeaf(m, f) && !Device(m, f) && Addr(f) !in m.alloc.counts && !Pinned(m.alloc, Addr(f))
    ensures FillAllowed(m, m.alloc.counts, d, p, Entry(f, FlagsFor(perm)))
    ensures FillAllowed(m, IncRef(m.alloc, Addr(f)).counts, d, p, Entry(f, FlagsFor(perm)))
  {
  }

  /** A loader step keeps the accounting. */
  lemma LoadPageKeeps(m: Mem, d: nat, va: nat, perm: UserPagePerm)
    requires Consistent(m) && IsUserAddress(va)
    ensures LoadPage(m, d, va, perm).Some? && LoadPage(m, d, va, perm).value.Done? ==>
      Consistent(LoadPage(m, d, va, perm).value.mem)
  {
    if LowestFree(m.alloc.used, 0).Some? {
      var f := LowestFree(m.alloc.used, 0).value;
      TakeConsistent(m, f, Some(ZeroPage()));
      var m1 := TakeWith(m, f, Some(ZeroPage()));
      if MapUserPage(m1, d, va, Addr(f), FlagsFor(perm)).Some? {
        NewLeafKeeps(m1, d, va, f, perm);
      }
    }
  }

  /** SYS_UNMAP of a mapped user page empties that page and drops one reference to its frame. The frame goes back
      exactly when that was its last reference; a frame that is not counted stays in use. */
  lemma UnmapPageEffect(m: Mem, d: nat, va: nat)
    requires Consistent(m) && IsUserAddress(va) && UnmapPage(m, d, va).Done? && EntryAt(m, d, Path(va)).Entry?
    ensures var m', p := UnmapPage(m, d, va).mem, Path(va);
            && TreeOk(m') && FreeOk(m') && LeafChange(m, m', d, p) && EntryAt(m', d, p).Unused?
            && m'.alloc.counts == DecRef(m.alloc, Addr(EntryAt(m, d, p).frame)).counts
            && m'.alloc.used == UsedWithout(m.alloc, EntryAt(m, d, p).frame)
              && (forall x :: IsTable(m', x) <==> IsTable(m, x))
  {
    var p := Path(va);
    UserLeaf(va);
    UnmapOk(m, d, p);
    var (m1, f) := Unmap(m, m.domains[d].value, p).value;
    DropUnmappedTree(m, m1, d, p, f);
  }

  /** The bitmap after one reference to frame f is dropped. */
  function UsedWithout(a: Alloc, f: nat): (used: seq<bool>) {
    if LastRef(a, Addr(f)) && f < |a.used| then a.used[f := false] else a.used
  }

  /** SYS_UNMAP of a user address keeps the accounting. */
  lemma UnmapPageKeeps(m: Mem, d: nat, va: nat)
    requires Consistent(m) && IsUserAddress(va)
    ensures UnmapPage(m, d, va).Done? ==> Consistent(UnmapPage(m, d, va).mem)
  {
    var p := Path(va);
    UserLeaf(va);
    if Live(m, d) && Addressable(va) {
      UnmapOk(m, d, p);
      if EntryAt(m, d, p).Entry? {
        UnmapPageEffect(m, d, va);
        EmptyConsistent(m, UnmapPage(m, d, va).mem, d, p);
      }
    }
  }

  // ---- SYS_UNMAP outside user space ----

  /** The page table SYS_UNMAP ends at. */
  function UnmapTable(m: Mem, d: nat, va: nat): (r: Option<nat>) {
    if Live(m, d) then Walk(m.phys, m.domains[d].value, Path(va), 3) else None
  }

  /** The frame mapped at the address SYS_UNMAP is given, if it finds one, is not counted. */
  predicate UnmapUncounted(m: Mem, d: nat, va: nat) {
    Live(m, d) && Unmap(m, m.domains[d].value, Path(va)).Some? ==>
      Addr(Unmap(m, m.domains[d].value, Path(va)).value.1) !in m.alloc.counts
  }

  /** An entry emptied in a table that is no user table leaves every user page and table where it was. */
  lemma KernelUnmapTables(m: Mem, d: nat, va: nat)
    requires TreeOk(m) && Live(m, d) && Unmap(m, m.domains[d].value, Path(va)).Some?
    requires !IsTable(m, UnmapTable(m, d, va).value)
    ensures var (m1, f) := Unmap(m, m.domains[d].value, Path(va)).value; SameTables(m, m1) && m1.alloc == m.alloc
  {
    var pt := UnmapTable(m, d, va).value;
    SameTablesFresh(m, pt, Table(m.phys[pt].entries[Path(va)[3] := Unused]));
  }

  /** SYS_UNMAP of a kernel page keeps the accounting exactly when the frame mapped there is not counted. */
  lemma KernelUnmapExact(m: Mem, d: nat, va: nat)
    requires Consistent(m) && UnmapPage(m, d, va).Done?
    requires (UnmapTable(m, d, va).Some? ==> !IsTable(m, UnmapTable(m, d, va).value))
    ensures Consistent(UnmapPage(m, d, va).mem) <==> UnmapUncounted(m, d, va)
  {
    var r := Unmap(m, m.domains[d].value, Path(va));
    if r.Some? {
      KernelUnmapTables(m, d, va);
      var (m1, f) := r.value;
      if Addr(f) !in m.alloc.counts {
        SameTablesConsistent(m, m1);
        assert DropUnmapped(m1, Addr(f)) == m1;
      } else {
        SameTablesConsistent(m, m1);
        CountedDropBreaks(m1, f);
      }
    }
  }

  lemma SameNodesMappers(m: Mem, m': Mem, f: nat)
    requires m'.phys == m.phys && m'.domains == m.domains
    ensures Mappers(m', f) == Mappers(m, f)
  {
    assert forall d, p :: At(m', d, p) == At(m, d, p);
    forall x: nat ensures Maps(m', x, f) <==> Maps(m, x, f) {
      if Maps(m, x, f) { var q :| LeafPath(q) && At(m, x, q) == Some(f); assert At(m', x, q) == Some(f); }
    }
  }

  /** A reference dropped while every mapping stays: the count is off, or a mapped frame is free. */
  lemma CountedDropBreaks(m: Mem, f: nat)
    requires Consistent(m) && Addr(f) in m.alloc.counts
    ensures !Consistent(DropUnmapped(m, Addr(f)))
  {
    var m' := DropUnmapped(m, Addr(f));
    assert CountExact(m, f) && Addr(f) / FRAME_SIZE == f;
    if LastRef(m.alloc, Addr(f)) {
      var d, p := MappedSomewhere(m, f);
      assert IsFree(m'.alloc, f) && At(m', d, p) == Some(f);
    } else {
      SameNodesMappers(m, m', f);
      assert !CountExact(m', f);
    }
  }

  lemma MappedSomewhere(m: Mem, f: nat) returns (d: nat, p: seq<nat>)
    requires LeafKinds(m) && CountsExact(m) && Addr(f) in m.alloc.counts
    ensures LeafPath(p) && At(m, d, p) == Some(f) && !Device(m, f) && !Pinned(m.alloc, Addr(f))
  {
    assert CountExact(m, f);
    d :| d in Mappers(m, f);
    p :| LeafPath(p) && At(m, d, p) == Some(f);
    LeafAt(m, d, p);
  }

  lemma DropUnmappedTree(m: Mem, m1: Mem, d: nat, p: seq<nat>, f: nat)
    requires Consistent(m) && Live(m, d) && LeafPath(p) && EntryAt(m, d, p).Entry? && EntryAt(m, d, p).frame == f
    requires TreeOk(m1) && FreeOk(m1) && SameLeaves(m, m1, d, p) && m1.alloc == m.alloc && EntryAt(m1, d, p).Unused?
    requires m1.domains == m.domains && m1.device == m.device && forall x :: IsTable(m1, x) <==> IsTable(m, x)
    ensures var m2 := DropUnmapped(m1, Addr(f));
            && TreeOk(m2) && FreeOk(m2) && LeafChange(m, m2, d, p) && EntryAt(m2, d, p).Unused?
            && m2.alloc.counts == DecRef(m.alloc, Addr(f)).counts && m2.alloc.used == UsedWithout(m.alloc, f)
            && (forall x :: IsTable(m2, x) <==> IsTable(m, x))
  {
    assert Addr(f) / FRAME_SIZE == f;
    CountsOnly(m1, DecRef(m1.alloc, Addr(f)).counts);
    SameNodesTables(m1, DropUnmapped(m1, Addr(f)));
    if LastRef(m.alloc, Addr(f)) {
      var m3 := m1.(alloc := DecRef(m1.alloc, Addr(f)));
      LastLeafGone(m, m1, d, p, f);
      forall d', q ensures LeafPath(q) ==> At(m3, d', q) != Some(f) { assert At(m3, d', q) == At(m1, d', q); }
      LeafAt(m, d, p);
      assert !IsTable(m, f) && CountExact(m, f);
      forall d', q ensures TablePath(q) ==> At(m3, d', q) != Some(f) {
        assert At(m3, d', q) == At(m1, d', q);
        assert TablePath(q) && At(m1, d', q) == Some(f) ==> IsTable(m1, f);
      }
      FreeUnreferenced(m3, f);
    }
  }

  /** The allocator has no part in which frames are tables. */
  lemma SameNodesTables(m: Mem, m': Mem)
    requires m'.phys == m.phys && m'.domains == m.domains
    ensures forall x :: IsTable(m', x) <==> IsTable(m, x)
  {
    assert forall d, p :: At(m', d, p) == At(m, d, p);
    forall x: nat ensures IsTable(m', x) <==> IsTable(m, x) {
      if IsTable(m, x) { var d, p :| TablePath(p) && At(m, d, p) == Some(x); assert At(m', d, p) == Some(x); }
    }
  }

  /** A frame with count one is no leaf once its only leaf is emptied. */
  lemma LastLeafGone(m: Mem, m1: Mem, d: nat, p: seq<nat>, f: nat)
    requires CountsExact(m) && LeafUnique(m) && LeafChange(m, m1, d, p) && EntryAt(m, d, p).Entry?
    requires EntryAt(m, d, p).frame == f && EntryAt(m1, d, p).Unused? && LastRef(m.alloc, Addr(f))
    ensures forall d', q :: LeafPath(q) ==> At(m1, d', q) != Some(f)
  {
    assert CountExact(m, f);
    EmptyMappers(m, m1, d, p, f);
    forall x | x in Mappers(m, f) ensures x == d {
      if x != d { TwoMembers(Mappers(m, f), x, d); }
    }
    forall d', q | LeafPath(q) ensures At(m1, d', q) != Some(f) {
      assert Maps(m1, d', f) ==> d' in Mappers(m1, f);
    }
  }

  /** Freeing a frame no table or leaf uses keeps the tables. */
  lemma FreeUnreferenced(m: Mem, f: nat)
    requires TreeOk(m) && FreeOk(m) && !IsTable(m, f) && !IsLeaf(m, f)
    requires f < |m.alloc.used| && !Pinned(m.alloc, Addr(f)) && Addr(f) !in m.alloc.counts && f !in m.device
    ensures var m' := m.(alloc := FreeFrame(m.alloc, Addr(f)));
            && TreeOk(m') && FreeOk(m') && m'.alloc == m.alloc.(used := m.alloc.used[f := false])
            && (forall d, p :: LeafPath(p) ==> EntryAt(m', d, p) == EntryAt(m, d, p))
  {
    var m' := m.(alloc := FreeFrame(m.alloc, Addr(f)));
    assert Addr(f) / FRAME_SIZE == f;
    assert forall d, p :: At(m', d, p) == At(m, d, p);
    assert forall d, p :: p != [] ==> EntryAt(m', d, p) == EntryAt(m, d, p);
    forall x: nat ensures IsTable(m', x) <==> IsTable(m, x) {
      if IsTable(m, x) { var d, p :| TablePath(p) && At(m, d, p) == Some(x); assert At(m', d, p) == Some(x); }
    }
    forall d, p | TablePath(p) && At(m', d, p).Some? ensures TableFrame(m', At(m', d, p).value) {
      assert IsTable(m, At(m, d, p).value);
    }
    forall d, p | UserPath(p) && At(m', d, p).Some? ensures !IsFree(m'.alloc, At(m', d, p).value) {
      if |p| == 4 { assert IsLeaf(m, At(m, d, p).value); } else { assert IsTable(m, At(m, d, p).value); }
    }
  }

  /** Mapping an uncached page keeps the accounting exactly when the frame is device memory. */
  lemma MapMmioExact(m: Mem, d: nat, va: nat, bar: nat)
    requires Consistent(m) && IsUserAddress(va) && MapMmio(m, d, va, bar, true).Done?
    ensures Consistent(MapMmio(m, d, va, bar, true).mem) <==> Device(m, bar / FRAME_SIZE)
  {
    var p, f := Path(va), bar / FRAME_SIZE;
    var m' := MapMmio(m, d, va, bar, true).mem;
    UserLeaf(va);
    MapToEntry(m, d, p, f, MMIO_FLAGS);
    if Device(m, f) {
      assert !IsTable(m, f) && !IsFree(m.alloc, f);
      assert Addr(f) !in m.alloc.counts by { assert CountExact(m, f); }
      MapToOk(m, d, p, f, MMIO_FLAGS);
      FillConsistent(m, m', d, p);
    } else {
      assert !Device(m', f);
    }
  }

  /** What the shared page must satisfy: the address is page aligned, the source frame is counted, and
      its 8-bit count has room. */
  predicate ShareGuard(m: Mem, from: nat, va: nat)
    requires Live(m, from)
  {
    match ResolveUserPage(m, from, va)
    case None => true
    case Some(pa) => va % FRAME_SIZE == 0 && pa in m.alloc.counts && m.alloc.counts[pa] + 1 < COUNT_WRAP
  }

  /** Mapping the page into an empty slot of another domain keeps the accounting exactly when the guard holds. */
  lemma ShareIntoExact(m: Mem, from: nat, to: nat, va: nat, pa: nat)
    requires Consistent(m) && Live(m, from) && IsUserAddress(va) && ResolveUserPage(m, from, va) == Some(pa)
    requires EntryAt(m, to, Path(va)).Unused? && ShareInto(m, to, va, pa).Done?
    ensures Consistent(ShareInto(m, to, va, pa).mem) <==> ShareGuard(m, from, va)
  {
    var p := Path(va);
    SourceFrame(m, from, va);
    var f := EntryAt(m, from, p).frame;
    assert pa / FRAME_SIZE == f && (va % FRAME_SIZE == 0 <==> pa == Addr(f));
    if ShareGuard(m, from, va) {
      ShareIntoKeeps(m, from, to, va, f);
    } else if Consistent(ShareInto(m, to, va, pa).mem) {
      ShareIntoEntry(m, to, va, pa);
      ShareCounted(m, ShareInto(m, to, va, pa).mem, from, to, p, f);
    }
  }

  lemma ShareIntoEntry(m: Mem, to: nat, va: nat, pa: nat)
    requires TreeOk(m) && FreeOk(m) && IsUserAddress(va) && ShareInto(m, to, va, pa).Done?
    ensures var m', p := ShareInto(m, to, va, pa).mem, Path(va);
            && LeafChange(m, m', to, p) && EntryAt(m', to, p) == Entry(pa / FRAME_SIZE, FlagsFor(ReadWrite))
            && m'.alloc.counts == IncRef(m.alloc, pa).counts
  {
    UserLeaf(va);
    MapToEntry(m, to, Path(va), pa / FRAME_SIZE, FlagsFor(ReadWrite));
    var m1 := MapUserPage(m, to, va, pa, FlagsFor(ReadWrite)).value;
    var m2 := ShareInto(m, to, va, pa).mem;
    assert forall d, q :: q != [] ==> EntryAt(m2, d, q) == EntryAt(m1, d, q);
  }

  lemma ShareIntoKeeps(m: Mem, from: nat, to: nat, va: nat, f: nat)
    requires Consistent(m) && Live(m, from) && IsUserAddress(va) && EntryAt(m, to, Path(va)).Unused?
    requires EntryAt(m, from, Path(va)).Entry? && EntryAt(m, from, Path(va)).frame == f
    requires Addr(f) in m.alloc.counts && m.alloc.counts[Addr(f)] + 1 < COUNT_WRAP
    requires ShareInto(m, to, va, Addr(f)).Done?
    ensures Consistent(ShareInto(m, to, va, Addr(f)).mem)
  {
    var p := Path(va);
    UserLeaf(va);
    LeafAt(m, from, p);
    assert Addr(f) / FRAME_SIZE == f && CountExact(m, f);
    assert !IsTable(m, f) && !IsFree(m.alloc, f);
    ShareIntoTree(m, to, va, f);
    ShareIntoEntry(m, to, va, Addr(f));
    ShareAllowed(m, from, to, p, f);
    FillConsistent(m, ShareInto(m, to, va, Addr(f)).mem, to, p);
  }

  lemma ShareAllowed(m: Mem, from: nat, to: nat, p: seq<nat>, f: nat)
    requires LeafKinds(m) && LeafUnique(m) && CountsExact(m) && LeafPath(p)
    requires EntryAt(m, from, p).Entry? && EntryAt(m, from, p).frame == f
    requires Addr(f) in m.alloc.counts && m.alloc.counts[Addr(f)] + 1 < COUNT_WRAP
    ensures FillAllowed(m, IncRef(m.alloc, Addr(f)).counts, to, p, Entry(f, FlagsFor(ReadWrite)))
  {
    LeafAt(m, from, p);
    assert CountExact(m, f);
    var c := IncRef(m.alloc, Addr(f)).counts;
    assert c.Keys == m.alloc.counts.Keys;
    assert |c| == |c.Keys| == |m.alloc.counts|;
  }

  lemma ShareIntoTree(m: Mem, to: nat, va: nat, f: nat)
    requires TreeOk(m) && FreeOk(m) && IsUserAddress(va) && ShareInto(m, to, va, Addr(f)).Done?
    requires !IsTable(m, f) && !IsFree(m.alloc, f)
    ensures TreeOk(ShareInto(m, to, va, Addr(f)).mem) && FreeOk(ShareInto(m, to, va, Addr(f)).mem)
  {
    UserLeaf(va);
    assert Addr(f) / FRAME_SIZE == f;
    MapToOk(m, to, Path(va), f, FlagsFor(ReadWrite));
    var m1 := MapUserPage(m, to, va, Addr(f), FlagsFor(ReadWrite)).value;
    assert TreeOk(m1) && FreeOk(m1) && !IsTable(m1, f) && !IsFree(m1.alloc, f);
    IncRefTree(m1, f);
  }

  /** Counting a frame that is neither a table nor free keeps the tables. */
  lemma IncRefTree(m: Mem, f: nat)
    requires TreeOk(m) && FreeOk(m) && !IsTable(m, f) && !IsFree(m.alloc, f)
    ensures var m' := m.(alloc := IncRef(m.alloc, Addr(f))); TreeOk(m') && FreeOk(m')
  {
    CountsOnly(m, IncRef(m.alloc, Addr(f)).counts);
  }

  lemma SourceFrame(m: Mem, d: nat, va: nat)
    requires TreeOk(m) && Live(m, d) && IsUserAddress(va)
    ensures match ResolveUserPage(m, d, va)
            case None => EntryAt(m, d, Path(va)).Unused?
            case Some(pa) =>
              EntryAt(m, d, Path(va)).Entry? && pa == Addr(EntryAt(m, d, Path(va)).frame) + va % FRAME_SIZE
  {
    UserLeaf(va);
    var p := Path(va);
    assert UserPath(p[..3]);
    assert EntryAt(m, d, p[..3]).Entry? ==> !EntryAt(m, d, p[..3]).flags.huge;
    ResolveIsWalk(m.phys, m.domains[d].value, va);
    LeafAt(m, d, p);
  }

  /** A frame two domains map is counted, and the count went up by one when the second one was added. */
  lemma ShareCounted(m: Mem, m2: Mem, from: nat, to: nat, p: seq<nat>, f: nat)
    requires LeafUnique(m) && CountsExact(m) && LeafKinds(m2) && LeafUnique(m2) && CountsExact(m2)
    requires LeafChange(m, m2, to, p) && EntryAt(m, to, p).Unused?
    requires EntryAt(m2, to, p) == Entry(f, FlagsFor(ReadWrite))
    requires EntryAt(m, from, p).Entry? && EntryAt(m, from, p).frame == f
    ensures Addr(f) in m2.alloc.counts && m2.alloc.counts[Addr(f)] >= 2
    ensures Addr(f) in m.alloc.counts ==> m2.alloc.counts[Addr(f)] == m.alloc.counts[Addr(f)] + 1
  {
    LeafAt(m, from, p);
    LeafAt(m2, from, p);
    LeafAt(m2, to, p);
    LeafAt(m, to, p);
    assert At(m2, from, p) == At(m2, to, p) == Some(f);
    assert CountExact(m, f) && CountExact(m2, f);
    FillMappers(m, m2, to, p, f);
    assert from in Mappers(m2, f) && to in Mappers(m2, f);
    TwoMembers(Mappers(m2, f), from, to);
    assert forall q :: LeafPath(q) ==> At(m, to, q) != Some(f);
  }

  /** The call gets past its checks and the target does not map this frame there already. */
  predicate MapsNew(m: Mem, from: nat, to: nat, va: nat, granted: bool)
    requires Live(m, from)
  {
    && granted && IsUserAddress(va) && ResolveUserPage(m, from, va).Some?
    && (Live(m, to) ==> ResolveUserPage(m, to, va) != ResolveUserPage(m, from, va))
  }

  /** SYS_SHARE_PAGE keeps the accounting exactly when it maps nothing new or its guard holds. */
  lemma SharePageExact(m: Mem, from: nat, to: nat, va: nat, granted: bool)
    requires Consistent(m) && SharePage(m, from, to, va, granted).Done?
    ensures Consistent(SharePage(m, from, to, va, granted).mem) <==>
      (MapsNew(m, from, to, va, granted) ==> ShareGuard(m, from, va))
  {
    if granted && IsUserAddress(va) && ResolveUserPage(m, from, va).Some? {
      var pa, p := ResolveUserPage(m, from, va).value, Path(va);
      UserLeaf(va);
      SourceFrame(m, from, va);
      SourceFrame(m, to, va);
      match ResolveUserPage(m, to, va) {
        case None => ShareIntoExact(m, from, to, va, pa);
        case Some(was) =>
          if was != pa {
            UnmapPageKeeps(m, to, va);
            var m1 := UnmapPage(m, to, va).mem;
            UnmapOtherDomain(m, to, from, va);
            ShareIntoExact(m1, from, to, va, pa);
          }
      }
    }
  }

  /** Unmapping in one domain leaves another domain's page, and the count of the frame there, alone. */
  lemma UnmapOtherDomain(m: Mem, d: nat, other: nat, va: nat)
    requires Consistent(m) && IsUserAddress(va) && UnmapPage(m, d, va).Done? && Live(m, other)
    requires EntryAt(m, d, Path(va)).Entry? && EntryAt(m, other, Path(va)).Entry?
    requires EntryAt(m, d, Path(va)).frame != EntryAt(m, other, Path(va)).frame
    ensures var m' := UnmapPage(m, d, va).mem;
            && Live(m', other) && EntryAt(m', d, Path(va)).Unused?
            && ResolveUserPage(m', other, va) == ResolveUserPage(m, other, va)
            && (ShareGuard(m', other, va) <==> ShareGuard(m, other, va))
  {
    UnmapSpares(m, d, other, va);
    var m' := UnmapPage(m, d, va).mem;
    SameFrame(m, m', other, va);
    GuardSame(m, m', other, va, EntryAt(m, other, Path(va)).frame, EntryAt(m, d, Path(va)).frame);
  }

  lemma UnmapSpares(m: Mem, d: nat, other: nat, va: nat)
    requires Consistent(m) && IsUserAddress(va) && UnmapPage(m, d, va).Done? && EntryAt(m, d, Path(va)).Entry?
    requires d != other
    ensures var m', p := UnmapPage(m, d, va).mem, Path(va);
            && TreeOk(m') && m'.domains == m.domains && EntryAt(m', d, p).Unused?
              && EntryAt(m', other, p) == EntryAt(m, other, p)
            && m'.alloc.counts == DecRef(m.alloc, Addr(EntryAt(m, d, p).frame)).counts
  {
    UserLeaf(va);
    UnmapPageEffect(m, d, va);
  }

  /** Dropping a reference to another frame does not change the guard. */
  lemma GuardSame(m: Mem, m': Mem, d: nat, va: nat, f: nat, g: nat)
    requires Live(m, d) && Live(m', d) && f != g && m'.alloc.counts == DecRef(m.alloc, Addr(g)).counts
    requires ResolveUserPage(m, d, va) == Some(Addr(f) + va % FRAME_SIZE)
    requires ResolveUserPage(m', d, va) == ResolveUserPage(m, d, va)
    ensures ShareGuard(m', d, va) <==> ShareGuard(m, d, va)
  {
  }

  /** A page with the same entry resolves to the same address. */
  lemma SameFrame(m: Mem, m': Mem, d: nat, va: nat)
    requires TreeOk(m) && TreeOk(m') && Live(m, d) && Live(m', d) && IsUserAddress(va)
    requires EntryAt(m', d, Path(va)) == EntryAt(m, d, Path(va))
    ensures ResolveUserPage(m', d, va) == ResolveUserPage(m, d, va)
    ensures EntryAt(m, d, Path(va)).Entry? ==>
      ResolveUserPage(m, d, va) == Some(Addr(EntryAt(m, d, Path(va)).frame) + va % FRAME_SIZE)
  {
    SourceFrame(m, d, va);
    SourceFrame(m', d, va);
  }

  // ---- steps that go through ----

  ghost function FreeCount(m: Mem): (n: nat) { CountFree(m.alloc.used, |m.alloc.used|) }

  lemma TakeRuns(m: Mem)
    requires Consistent(m) && FreeCount(m) >= 1
    ensures var f := LowestFree(m.alloc.used, 0);
            && f.Some? && FreeCount(TakeWith(m, f.value, Some(ZeroPage()))) + 1 == FreeCount(m)
            && IsFree(m.alloc, f.value)
  {
    AllUsed(m.alloc.used, |m.alloc.used|);
    CountFreeUpdate(m.alloc.used, |m.alloc.used|, LowestFree(m.alloc.used, 0).value, true);
  }

  /** With four free frames and an empty page, a loader step goes through. */
  lemma LoadRuns(m: Mem, d: nat, va: nat, perm: UserPagePerm)
    requires Consistent(m) && Live(m, d) && IsUserAddress(va) && Canonical(va)
    requires EntryAt(m, d, Path(va)).Unused? && FreeCount(m) >= 4
    ensures LoadPage(m, d, va, perm).Some? && LoadPage(m, d, va, perm).value.Done?
    ensures var m' := LoadPage(m, d, va, perm).value.mem;
            && m'.alloc.counts == m.alloc.counts && m'.domains == m.domains
            && FreeCount(m') + 4 >= FreeCount(m) && EntryAt(m', d, Path(va)).Entry?
              && EntryAt(m', d, Path(va)).flags == FlagsFor(perm)
            && SameLeaves(m, m', d, Path(va))
  {
    TakeRuns(m);
    var f := LowestFree(m.alloc.used, 0).value;
    var m1 := TakeWith(m, f, Some(ZeroPage()));
    TakeConsistent(m, f, Some(ZeroPage()));
    UserLeaf(va);
    assert EntryAt(m1, d, Path(va)).Unused?;
    assert forall d', q :: LeafPath(q) ==> EntryAt(m1, d', q) == EntryAt(m, d', q);
    MapRuns(m1, d, va, f, perm);
  }

  lemma MapRuns(m: Mem, d: nat, va: nat, f: nat, perm: UserPagePerm)
    requires TreeOk(m) && FreeOk(m) && Live(m, d) && IsUserAddress(va) && Canonical(va) && FreeCount(m) >= 3
    requires EntryAt(m, d, Path(va)).Unused? && !IsTable(m, f) && !IsFree(m.alloc, f)
    ensures var r := MapUserPage(m, d, va, Addr(f), FlagsFor(perm));
            && r.Some? && r.value.alloc.counts == m.alloc.counts && r.value.domains == m.domains
            && FreeCount(r.value) + 3 >= FreeCount(m) && EntryAt(r.value, d, Path(va)) == Entry(f, FlagsFor(perm))
            && SameLeaves(m, r.value, d, Path(va))
  {
    UserLeaf(va);
    LeafAt(m, d, Path(va));
    assert Addr(f) / FRAME_SIZE == f;
    MapToOk(m, d, Path(va), f, FlagsFor(perm));
  }

  // ---- the tables refine a flat map per domain ----

  /** Same page of the same domain. */
  predicate SamePage(d: nat, va: nat, d': nat, va': nat) { d' == d && va' / FRAME_SIZE == va / FRAME_SIZE }

  /** After a page is mapped, every address of it resolves into the new frame at its offset, and every other
      address of every domain resolves as before. */
  lemma MapResolves(m: Mem, d: nat, va: nat, pa: nat, flags: Flags, d': nat, va': nat)
    requires TreeOk(m) && FreeOk(m) && IsUserAddress(va) && IsUserAddress(va') && Canonical(va')
    requires !IsTable(m, pa / FRAME_SIZE) && !IsFree(m.alloc, pa / FRAME_SIZE) && !flags.huge
    requires MapUserPage(m, d, va, pa, flags).Some? && Live(m, d')
    ensures var m' := MapUserPage(m, d, va, pa, flags).value;
            && Live(m', d')
            && ResolveUserPage(m', d', va') ==
               if SamePage(d, va, d', va') then Some(Addr(pa / FRAME_SIZE) + va' % FRAME_SIZE)
                 else ResolveUserPage(m, d', va')
  {
    var m' := MapUserPage(m, d, va, pa, flags).value;
    UserLeaf(va);
    var e := Entry(pa / FRAME_SIZE, flags);
    assert TreeOk(m') && SameLeaves(m, m', d, Path(va)) && m'.domains == m.domains && EntryAt(m', d, Path(va)) == e by {
      MapToOk(m, d, Path(va), pa / FRAME_SIZE, flags);
    }
    EntryResolves(m, m', d, va, d', va');
  }

  /** After a page is unmapped none of its addresses resolves, and every other address resolves as before. */
  lemma UnmapResolves(m: Mem, d: nat, va: nat, d': nat, va': nat)
    requires Consistent(m) && IsUserAddress(va) && IsUserAddress(va') && Canonical(va')
    requires UnmapPage(m, d, va).Done? && EntryAt(m, d, Path(va)).Entry? && Live(m, d')
    ensures var m' := UnmapPage(m, d, va).mem;
            && Live(m', d')
            && ResolveUserPage(m', d', va') == if SamePage(d, va, d', va') then None else ResolveUserPage(m, d', va')
  {
    UserLeaf(va);
    UserCanonical(va);
    UnmapPageEffect(m, d, va);
    EntryResolves(m, UnmapPage(m, d, va).mem, d, va, d', va');
  }

  lemma EntryResolves(m: Mem, m': Mem, d: nat, va: nat, d': nat, va': nat)
    requires TreeOk(m) && TreeOk(m') && SameLeaves(m, m', d, Path(va)) && m'.domains == m.domains && Live(m, d')
    requires IsUserAddress(va) && Canonical(va) && IsUserAddress(va') && Canonical(va')
    ensures var e := EntryAt(m', d, Path(va));
            ResolveUserPage(m', d', va') ==
            if !SamePage(d, va, d', va') then ResolveUserPage(m, d', va')
            else if e.Unused? then None else Some(Addr(e.frame) + va' % FRAME_SIZE)
  {
    UserLeaf(va');
    PathInjective(va, va');
    SourceFrame(m, d', va');
    SourceFrame(m', d', va');
  }
}
