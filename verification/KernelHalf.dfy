/** The kernel half of every address space keeps page tables of its own: no memory operation within its guard turns
    a table reached through it into a user table, a user page or a free frame. */
module KernelHalf {
  import opened Wrappers
  import opened Frames
  import opened Paging
  import opened Ownership
  import opened MemorySteps
  import opened DomainMemory
  import opened MemoryRuns
  import F = FrameLeaks

  /** Frame x is in use, and neither a user table nor, unless it is device memory, a user page. */
  ghost predicate Apart(m: Mem, x: nat) { !IsTable(m, x) && !IsFree(m.alloc, x) && (IsLeaf(m, x) ==> Device(m, x)) }

  predicate KernelPath(p: seq<nat>) { |p| == 4 && p[0] != USER_P4 && forall i :: 0 <= i < 4 ==> p[i] < TABLE_LEN }

  /** Every table that a kernel address leads to from `root` is apart. */
  ghost predicate HalfFrom(m: Mem, root: nat) {
    forall p, k: nat :: KernelPath(p) && 1 <= k <= 3 && Walk(m.phys, root, p, k).Some? ==>
      Apart(m, Walk(m.phys, root, p, k).value)
  }

  ghost predicate HalfOk(m: Mem) { forall d: nat :: Live(m, d) ==> HalfFrom(m, m.domains[d].value) }

  /** Outside user space SYS_UNMAP then never ends at a user table. */
  lemma HalfCovers(m: Mem, op: Op)
    requires HalfOk(m) && (op.OpLoad? ==> IsUserAddress(op.va))
    ensures Covered(m, op)
  {
    if op.OpUnmap? && !IsUserAddress(op.va) && UnmapTable(m, op.d, op.va).Some? {
      assert KernelPath(Path(op.va));
      assert Apart(m, Walk(m.phys, m.domains[op.d].value, Path(op.va), 3).value);
    }
  }

  // ---- what an operation must leave alone ----

  /** Slot i of frame x reads as before, or is empty now. */
  ghost predicate Kept(m: Mem, m': Mem, x: nat, i: nat) {
    Slot(m'.phys, x, i) == Slot(m.phys, x, i) || Slot(m'.phys, x, i).Unused?
  }

  /** Frames that are apart keep their entries and stay apart. */
  ghost predicate KeepsApart(m: Mem, m': Mem) {
    (forall x: nat :: Apart(m, x) ==> Apart(m', x)) && (forall x: nat, i: nat :: Apart(m, x) ==> Kept(m, m', x, i))
  }

  /** The kernel entries of PML4 `root` are as before. */
  ghost predicate KeepsRoot(m: Mem, m': Mem, root: nat) {
    forall i: nat :: i != USER_P4 && i < TABLE_LEN ==> Kept(m, m', root, i)
  }

  lemma {:induction false} WalkKept(m: Mem, m': Mem, root: nat, root': nat, p: seq<nat>, k: nat)
    requires KeepsApart(m, m') && HalfFrom(m, root) && KernelPath(p) && 1 <= k <= 3
    requires Slot(m'.phys, root', p[0]) == Slot(m.phys, root, p[0]) || Slot(m'.phys, root', p[0]).Unused?
    ensures Walk(m'.phys, root', p, k).Some? ==> Walk(m'.phys, root', p, k) == Walk(m.phys, root, p, k)
  {
    if k == 1 {
      assert Walk(m.phys, root, p, 0) == Some(root) && Walk(m'.phys, root', p, 0) == Some(root');
    } else {
      WalkKept(m, m', root, root', p, k - 1);
      if Walk(m'.phys, root', p, k - 1).Some? {
        var x := Walk(m.phys, root, p, k - 1).value;
        assert Apart(m, x) && Kept(m, m', x, p[k - 1]);
      }
    }
  }

  /** Then whatever led through the kernel half of `root` is led through that of `root'`. */
  lemma HalfKept(m: Mem, m': Mem, root: nat, root': nat)
    requires KeepsApart(m, m') && HalfFrom(m, root)
    requires forall i: nat :: i != USER_P4 && i < TABLE_LEN ==>
      Slot(m'.phys, root', i) == Slot(m.phys, root, i) || Slot(m'.phys, root', i).Unused?
    ensures HalfFrom(m', root')
  {
    forall p, k: nat | KernelPath(p) && 1 <= k <= 3 && Walk(m'.phys, root', p, k).Some?
      ensures Apart(m', Walk(m'.phys, root', p, k).value)
    {
      WalkKept(m, m', root, root', p, k);
      assert Apart(m, Walk(m.phys, root, p, k).value);
    }
  }

  /** m' keeps what is apart and the kernel entries of every domain, and has no new domain. */
  ghost predicate Undisturbed(m: Mem, m': Mem) {
    && KeepsApart(m, m')
    && (forall d: nat :: Live(m', d) ==>
      Live(m, d) && m'.domains[d] == m.domains[d] && KeepsRoot(m, m', m.domains[d].value))
  }

  lemma UndisturbedHalf(m: Mem, m': Mem)
    requires HalfOk(m) && Undisturbed(m, m')
    ensures HalfOk(m')
  {
    forall d: nat | Live(m', d) ensures HalfFrom(m', m'.domains[d].value) {
      var root := m.domains[d].value;
      forall i: nat | i != USER_P4 && i < TABLE_LEN
        ensures Slot(m'.phys, root, i) == Slot(m.phys, root, i) || Slot(m'.phys, root, i).Unused?
      {
        assert Kept(m, m', root, i);
      }
      HalfKept(m, m', root, root);
    }
  }

  /** Which frames may change: user tables and free frames; of a PML4 only the user entry. */
  ghost predicate WritesTables(m: Mem, m': Mem) {
    && m'.domains == m.domains
    && (forall x: nat, i: nat :: !IsTable(m, x) && !IsFree(m.alloc, x) ==> Slot(m'.phys, x, i) == Slot(m.phys, x, i))
    && (forall d: nat, i: nat :: Live(m, d) && i != USER_P4 ==>
      Slot(m'.phys, m.domains[d].value, i) == Slot(m.phys, m.domains[d].value, i))
  }

  // ---- mapping ----

  lemma NextTableWrites(m: Mem, d: nat, p: seq<nat>, i: nat)
    requires TreeOk(m) && TablePath(p) && |p| <= 2 && UserPath(p + [i]) && At(m, d, p).Some?
    requires NextTable(m, At(m, d, p).value, i).Some?
    ensures WritesTables(m, NextTable(m, At(m, d, p).value, i).value.0)
  {
    var f := At(m, d, p).value;
    var (m', g) := NextTable(m, f, i).value;
    assert IsTable(m, f);
    forall d1: nat, j: nat | Live(m, d1) && j != USER_P4
      ensures Slot(m'.phys, m.domains[d1].value, j) == Slot(m.phys, m.domains[d1].value, j)
    {
      RootSlot(m, d, p, i, d1, j);
    }
  }

  /** A user table's slot is no kernel entry of a PML4, and no PML4 is free. */
  lemma RootSlot(m: Mem, d: nat, p: seq<nat>, i: nat, d1: nat, j: nat)
    requires TreeOk(m) && TablePath(p) && UserPath(p + [i]) && At(m, d, p).Some? && Live(m, d1) && j != USER_P4
    ensures var root := m.domains[d1].value; !(root == At(m, d, p).value && j == i) && !IsFree(m.alloc, root)
  {
    var root := m.domains[d1].value;
    assert At(m, d1, []) == Some(root) && TablePath([]);
    assert IsTable(m, root);
    if root == At(m, d, p).value { assert p == [] && (p + [i])[0] == i; }
  }

  lemma WritesTwice(m: Mem, m1: Mem, m2: Mem)
    requires WritesTables(m, m1) && WritesTables(m1, m2) && Grew(m, m1)
    ensures WritesTables(m, m2)
  {
    forall x: nat, i: nat | !IsTable(m, x) && !IsFree(m.alloc, x) ensures Slot(m2.phys, x, i) == Slot(m.phys, x, i) {
      assert !IsTable(m1, x) && !IsFree(m1.alloc, x);
    }
  }

  lemma {:induction false} DescendWrites(m: Mem, d: nat, p: seq<nat>, k: nat)
    requires TreeOk(m) && FreeOk(m) && Live(m, d) && LeafPath(p) && k <= 3 && Descend(m, m.domains[d].value, p, k).Some?
    ensures WritesTables(m, Descend(m, m.domains[d].value, p, k).value.0)
  {
    if k > 0 {
      var (m1, f) := Descend(m, m.domains[d].value, p, k - 1).value;
      DescendWrites(m, d, p, k - 1);
      assert TreeOk(m1) && Grew(m, m1) && At(m1, d, p[..k - 1]) == Some(f) by { DescendOk(m, d, p, k - 1); }
      NextWrites(m, m1, d, p, k, f);
    }
  }

  lemma NextWrites(m: Mem, m1: Mem, d: nat, p: seq<nat>, k: nat, f: nat)
    requires TreeOk(m1) && WritesTables(m, m1) && Grew(m, m1) && LeafPath(p) && 1 <= k <= 3
    requires At(m1, d, p[..k - 1]) == Some(f) && NextTable(m1, f, p[k - 1]).Some?
    ensures WritesTables(m, NextTable(m1, f, p[k - 1]).value.0)
  {
    assert p[..k - 1] + [p[k - 1]] == p[..k] && UserPath(p[..k]) && TablePath(p[..k - 1]);
    NextTableWrites(m1, d, p[..k - 1], p[k - 1]);
    WritesTwice(m, m1, NextTable(m1, f, p[k - 1]).value.0);
  }

  lemma SlotWrites(m: Mem, d: nat, p: seq<nat>, pt: nat, e: Entry)
    requires TreeOk(m) && LeafPath(p) && At(m, d, p[..3]) == Some(pt)
    ensures WritesTables(m, m.(phys := SetSlot(m.phys, pt, p[3], e)))
  {
    var m' := m.(phys := SetSlot(m.phys, pt, p[3], e));
    assert p[..3] + [p[3]] == p && TablePath(p[..3]);
    assert IsTable(m, pt);
    forall d1: nat, j: nat | Live(m, d1) && j != USER_P4
      ensures Slot(m'.phys, m.domains[d1].value, j) == Slot(m.phys, m.domains[d1].value, j)
    {
      RootSlot(m, d, p[..3], p[3], d1, j);
    }
  }

  lemma MapWrites(m: Mem, d: nat, va: nat, pa: nat, flags: Flags)
    requires TreeOk(m) && FreeOk(m) && IsUserAddress(va) && MapUserPage(m, d, va, pa, flags).Some?
    ensures WritesTables(m, MapUserPage(m, d, va, pa, flags).value)
  {
    var p := Path(va);
    UserLeaf(va);
    DescendOk(m, d, p, 3);
    DescendWrites(m, d, p, 3);
    var (m1, pt) := Descend(m, m.domains[d].value, p, 3).value;
    SlotWrites(m1, d, p, pt, Entry(pa / FRAME_SIZE, flags));
    WritesTwice(m, m1, MapUserPage(m, d, va, pa, flags).value);
  }

  /** A frame that is apart stays apart when another frame, or device memory, is mapped. */
  lemma MapApart(m: Mem, d: nat, va: nat, pa: nat, flags: Flags, x: nat)
    requires TreeOk(m) && FreeOk(m) && IsUserAddress(va) && !flags.huge
    requires !IsTable(m, pa / FRAME_SIZE) && !IsFree(m.alloc, pa / FRAME_SIZE) && MapUserPage(m, d, va, pa, flags).Some?
    requires Apart(m, x) && (x != pa / FRAME_SIZE || Device(m, x))
    ensures Apart(MapUserPage(m, d, va, pa, flags).value, x)
  {
    var m', p := MapUserPage(m, d, va, pa, flags).value, Path(va);
    UserLeaf(va);
    MapToOk(m, d, p, pa / FRAME_SIZE, flags);
    LeafAt(m, d, p);
    F.FillLeaves(m, m', d, p, x);
  }

  /** Counting has no part in it. */
  lemma CountApart(m: Mem, m': Mem, x: nat)
    requires m'.phys == m.phys && m'.domains == m.domains && m'.device == m.device && m'.alloc.used == m.alloc.used
    requires Apart(m, x)
    ensures Apart(m', x)
  {
    SameNodesTables(m, m');
    F.SameNodesLeaves(m, m');
  }

  lemma TakeApart(m: Mem, f: nat, contents: Option<Cell>, x: nat)
    requires Consistent(m) && IsFree(m.alloc, f) && Apart(m, x)
    ensures Apart(TakeWith(m, f, contents), x) && x != f
  {
    TakeConsistent(m, f, contents);
    SameTablesFacts(m, TakeWith(m, f, contents), x);
  }

  /** The operation only writes where it may, and leaves what is apart apart. */
  lemma WritesUndisturbed(m: Mem, m': Mem)
    requires WritesTables(m, m') && forall x: nat :: Apart(m, x) ==> Apart(m', x)
    ensures Undisturbed(m, m')
  {
    forall x: nat, i: nat | Apart(m, x) ensures Kept(m, m', x, i) { assert Slot(m'.phys, x, i) == Slot(m.phys, x, i); }
    forall d: nat | Live(m', d) ensures KeepsRoot(m, m', m.domains[d].value) {
      forall i: nat | i != USER_P4 && i < TABLE_LEN ensures Kept(m, m', m.domains[d].value, i) {
        assert Slot(m'.phys, m.domains[d].value, i) == Slot(m.phys, m.domains[d].value, i);
      }
    }
  }

  lemma NewPageUndisturbed(m: Mem, d: nat, va: nat, f: nat, contents: Option<Cell>, perm: UserPagePerm)
    requires Consistent(m) && IsFree(m.alloc, f) && IsUserAddress(va)
    requires MapUserPage(TakeWith(m, f, contents), d, va, Addr(f), FlagsFor(perm)).Some?
    ensures var m' := MapUserPage(TakeWith(m, f, contents), d, va, Addr(f), FlagsFor(perm)).value;
            Undisturbed(m, m') && Undisturbed(m, m'.(alloc := IncRef(m'.alloc, Addr(f))))
  {
    var m1 := TakeWith(m, f, contents);
    TakeConsistent(m, f, contents);
    assert Addr(f) / FRAME_SIZE == f;
    var m' := MapUserPage(m1, d, va, Addr(f), FlagsFor(perm)).value;
    var m2 := m'.(alloc := IncRef(m'.alloc, Addr(f)));
    MapWrites(m1, d, va, Addr(f), FlagsFor(perm));
    TakeThenWrites(m, f, contents, m');
    forall x: nat | Apart(m, x) ensures Apart(m', x) && Apart(m2, x) {
      TakeApart(m, f, contents, x);
      MapApart(m1, d, va, Addr(f), FlagsFor(perm), x);
      CountApart(m', m2, x);
    }
    WritesUndisturbed(m, m');
    WritesUndisturbed(m, m2);
  }

  lemma TakeThenWrites(m: Mem, f: nat, contents: Option<Cell>, m': Mem)
    requires Consistent(m) && IsFree(m.alloc, f) && WritesTables(TakeWith(m, f, contents), m')
    ensures WritesTables(m, m')
  {
    var m1 := TakeWith(m, f, contents);
    TakeConsistent(m, f, contents);
    forall x: nat, i: nat | !IsTable(m, x) && !IsFree(m.alloc, x) ensures Slot(m'.phys, x, i) == Slot(m.phys, x, i) {
      SameTablesFacts(m, m1, x);
      assert !IsTable(m1, x) && !IsFree(m1.alloc, x);
    }
    forall d: nat, i: nat | Live(m, d) && i != USER_P4
      ensures Slot(m'.phys, m.domains[d].value, i) == Slot(m.phys, m.domains[d].value, i)
    {
      assert At(m, d, []) == Some(m.domains[d].value) && TablePath([]);
      assert !IsFree(m.alloc, m.domains[d].value);
      assert Live(m1, d);
    }
  }

  /** Mapping an existing user page, or device memory. */
  lemma MapUndisturbed(m: Mem, d: nat, va: nat, pa: nat, flags: Flags)
    requires Consistent(m) && IsUserAddress(va) && !flags.huge && MapUserPage(m, d, va, pa, flags).Some?
    requires IsLeaf(m, pa / FRAME_SIZE) || Device(m, pa / FRAME_SIZE)
    ensures var m' := MapUserPage(m, d, va, pa, flags).value;
            Undisturbed(m, m') && Undisturbed(m, m'.(alloc := IncRef(m'.alloc, pa)))
  {
    var f, m' := pa / FRAME_SIZE, MapUserPage(m, d, va, pa, flags).value;
    var m2 := m'.(alloc := IncRef(m'.alloc, pa));
    assert !IsTable(m, f) && !IsFree(m.alloc, f) by { NotTable(m, f); }
    MapWrites(m, d, va, pa, flags);
    forall x: nat | Apart(m, x) ensures Apart(m', x) && Apart(m2, x) {
      MapApart(m, d, va, pa, flags, x);
      CountApart(m', m2, x);
    }
    WritesUndisturbed(m, m');
    WritesUndisturbed(m, m2);
  }

  lemma NotTable(m: Mem, f: nat)
    requires Consistent(m) && (IsLeaf(m, f) || Device(m, f))
    ensures !IsTable(m, f) && !IsFree(m.alloc, f)
  {
    if IsLeaf(m, f) { var d, p :| LeafPath(p) && At(m, d, p) == Some(f); }
  }

  // ---- unmapping ----

  lemma UnmapUndisturbed(m: Mem, d: nat, va: nat)
    requires Consistent(m) && IsUserAddress(va) && UnmapPage(m, d, va).Done?
    ensures Undisturbed(m, UnmapPage(m, d, va).mem)
  {
    var m', p := UnmapPage(m, d, va).mem, Path(va);
    UserLeaf(va);
    UnmapOk(m, d, p);
    if EntryAt(m, d, p).Entry? {
      assert WritesTables(m, m') by { UnmapWrites(m, d, va); }
      forall x: nat | Apart(m, x) ensures Apart(m', x) { UnmapApart(m, d, va, x); }
      WritesUndisturbed(m, m');
    } else {
      WritesUndisturbed(m, m);
    }
  }

  lemma UnmapWrites(m: Mem, d: nat, va: nat)
    requires Consistent(m) && IsUserAddress(va) && UnmapPage(m, d, va).Done? && EntryAt(m, d, Path(va)).Entry?
    ensures WritesTables(m, UnmapPage(m, d, va).mem)
  {
    var p := Path(va);
    UserLeaf(va);
    UnmapOk(m, d, p);
    WalkIsNode(m, d, p, 3);
    SlotWrites(m, d, p, At(m, d, p[..3]).value, Unused);
  }

  lemma UnmapApart(m: Mem, d: nat, va: nat, x: nat)
    requires Consistent(m) && IsUserAddress(va) && UnmapPage(m, d, va).Done? && EntryAt(m, d, Path(va)).Entry?
    requires Apart(m, x)
    ensures Apart(UnmapPage(m, d, va).mem, x)
  {
    var m', p := UnmapPage(m, d, va).mem, Path(va);
    var f := EntryAt(m, d, p).frame;
    UserLeaf(va);
    F.LeafHere(m, d, p);
    if x == f {
      UnmapPageEffect(m, d, va);
      assert CountExact(m, f);
    } else {
      F.UnmapOthers(m, d, va, x);
      assert m'.device == m.device && |m'.alloc.used| == |m.alloc.used| by { UnmapPageEffect(m, d, va); }
    }
  }

  /** A kernel page that is unmapped takes its entry out of the kernel half and nothing else. */
  lemma KernelUnmapUndisturbed(m: Mem, d: nat, va: nat)
    requires Consistent(m) && UnmapPage(m, d, va).Done? && UnmapUncounted(m, d, va)
    requires UnmapTable(m, d, va).Some? ==> !IsTable(m, UnmapTable(m, d, va).value)
    ensures Undisturbed(m, UnmapPage(m, d, va).mem)
  {
    var m' := UnmapPage(m, d, va).mem;
    if Unmap(m, m.domains[d].value, Path(va)).Some? {
      KernelUnmapTables(m, d, va);
      forall x: nat | Apart(m, x) ensures Apart(m', x) { SameTablesFacts(m, m', x); }
      assert forall x: nat, i: nat :: Kept(m, m', x, i);
    } else {
      WritesUndisturbed(m, m);
    }
  }

  // ---- domains ----

  lemma TornDownUndisturbed(m: Mem, m': Mem, d: nat, t: set<nat>)
    requires Consistent(m) && TornDown(m, m', d, t) && DevicePagesSafe(m, d)
    ensures Undisturbed(m, m')
  {
    forall x: nat | Apart(m, x) ensures Apart(m', x) { TornDownApart(m, m', d, t, x); }
    forall x: nat, i: nat | Apart(m, x) ensures Kept(m, m', x, i) { TornDownSlot(m, m', d, t, x, i); }
    forall d1: nat | Live(m', d1)
      ensures Live(m, d1) && m'.domains[d1] == m.domains[d1] && KeepsRoot(m, m', m.domains[d1].value)
    {
      forall i: nat | i != USER_P4 && i < TABLE_LEN ensures Kept(m, m', m.domains[d1].value, i) {
        TornDownSlot(m, m', d, t, m.domains[d1].value, i);
      }
    }
  }

  /** A teardown empties user tables and one user entry. */
  lemma TornDownSlot(m: Mem, m': Mem, d: nat, t: set<nat>, x: nat, i: nat)
    requires TornDown(m, m', d, t)
    ensures Kept(m, m', x, i)
  {
  }

  lemma TornDownApart(m: Mem, m': Mem, d: nat, t: set<nat>, x: nat)
    requires Consistent(m) && TornDown(m, m', d, t) && DevicePagesSafe(m, d) && Apart(m, x)
    ensures Apart(m', x)
  {
    TornDownPlaces(m, m', d, t);
    forall d1, p | TablePath(p) ensures At(m', d1, p) != Some(x) { assert At(m, d1, p) == Some(x) ==> IsTable(m, x); }
    if IsLeaf(m', x) { var d1, p :| LeafPath(p) && At(m', d1, p) == Some(x); assert At(m, d1, p) == Some(x); }
    NotReturned(m, m', d, t, x);
  }

  /** Of what is apart a teardown frees nothing: at most device memory that is pinned or unmanaged is mapped. */
  lemma NotReturned(m: Mem, m': Mem, d: nat, t: set<nat>, x: nat)
    requires Consistent(m) && TornDown(m, m', d, t) && DevicePagesSafe(m, d) && Apart(m, x)
    ensures !IsFree(m'.alloc, x)
  {
    UserTablesExact(m, d, x);
    PagesExact(m, d, x);
    assert At(m, d, []) == Some(m.domains[d].value) && TablePath([]);
    assert x !in t;
    if x in Pages(m, d) {
      var q :| LeafPath(q) && At(m, d, q) == Some(x);
      LeafAt(m, d, q);
      assert IsLeaf(m, x);
    }
  }

  /** A new domain's kernel half is that of the PML4 it was copied from. */
  lemma CreateHalf(m: Mem, src: nat)
    requires Consistent(m) && HalfOk(m) && HalfFrom(m, src) && Create(m, src).Some?
    ensures HalfOk(Create(m, src).value.0)
  {
    var (m', id) := Create(m, src).value;
    CreateOk(m, src);
    forall x: nat | Apart(m, x) ensures Apart(m', x) && x != m'.domains[id].value { CreateApart(m, src, x); }
    assert KeepsApart(m, m');
    forall d: nat | Live(m', d) ensures HalfFrom(m', m'.domains[d].value) {
      if d == id {
        HalfKept(m, m', src, m'.domains[id].value);
      } else {
        assert At(m, d, []) == Some(m.domains[d].value) && TablePath([]) && IsTable(m, m.domains[d].value);
        HalfKept(m, m', m.domains[d].value, m.domains[d].value);
      }
    }
  }

  /** The entry a walk along p reads at level k. */
  function Read(phys: Phys, root: nat, p: seq<nat>, k: nat): (e: Entry)
    requires k < |p|
  {
    match Walk(phys, root, p, k) case None => Unused case Some(t) => Slot(phys, t, p[k])
  }

  /** A kernel address is translated in a new domain, entry by entry, as it is by the PML4 that was loaded. */
  lemma {:induction false} CreateCopies(m: Mem, src: nat, p: seq<nat>, k: nat)
    requires Consistent(m) && HalfFrom(m, src) && Create(m, src).Some? && KernelPath(p) && k <= 3
    ensures var (m', id) := Create(m, src).value;
            && Live(m', id)
            && Read(m'.phys, m'.domains[id].value, p, k) == Read(m.phys, src, p, k)
            && (k > 0 ==> Walk(m'.phys, m'.domains[id].value, p, k) == Walk(m.phys, src, p, k))
  {
    var f := LowestFree(m.alloc.used, 0).value;
    assert IsFree(m.alloc, f);
    if k > 0 {
      CreateCopies(m, src, p, k - 1);
      assert Walk(m.phys, src, p, k) == Some(f) ==> Apart(m, f);
    }
  }

  lemma CreateApart(m: Mem, src: nat, x: nat)
    requires Consistent(m) && Create(m, src).Some? && Apart(m, x)
    ensures var (m', id) := Create(m, src).value; Apart(m', x) && x != m'.domains[id].value
  {
    var (m', id) := Create(m, src).value;
    CreatePlaces(m, src);
    forall d, p | TablePath(p) ensures At(m', d, p) != Some(x) { assert At(m, d, p) == Some(x) ==> IsTable(m, x); }
    if IsLeaf(m', x) { var d, p :| LeafPath(p) && At(m', d, p) == Some(x); assert At(m, d, p) == Some(x); }
  }

  // ---- every run ----

  /** The loader loads into user space, and a new domain copies a kernel half that is in order, such as that of any
      domain. */
  ghost predicate Sourced(m: Mem, op: Op) {
    (op.OpLoad? ==> IsUserAddress(op.va)) && (op.OpCreate? ==> HalfFrom(m, op.src))
  }

  lemma StepHalf(m: Mem, op: Op)
    requires Consistent(m) && HalfOk(m) && Sourced(m, op) && Guard(m, op) && Step(m, op).Done?
    ensures HalfOk(Step(m, op).mem)
  {
    HalfCovers(m, op);
    if op.OpCreate? {
      CreateHalf(m, op.src);
    } else {
      StepUndisturbed(m, op);
      UndisturbedHalf(m, Step(m, op).mem);
    }
  }

  lemma StepUndisturbed(m: Mem, op: Op)
    requires Consistent(m) && Covered(m, op) && Guard(m, op) && Step(m, op).Done? && !op.OpCreate?
    ensures Undisturbed(m, Step(m, op).mem)
  {
    WritesUndisturbed(m, m);
    if op.OpAlloc? || op.OpLoad? { NewStep(m, op); }
    else if op.OpShare? { ShareUndisturbed(m, op.d, op.to, op.va, op.granted); }
    else if op.OpMmio? { if op.granted && IsUserAddress(op.va) { MapUndisturbed(m, op.d, op.va, op.bar, MMIO_FLAGS); } }
    else if op.OpUnmap? {
      if IsUserAddress(op.va) { UnmapUndisturbed(m, op.d, op.va); } else { KernelUnmapUndisturbed(m, op.d, op.va); }
    }
    else if Live(m, op.d) { TeardownStep(m, op); }
  }

  lemma NewStep(m: Mem, op: Op)
    requires Consistent(m) && Covered(m, op) && Step(m, op).Done? && (op.OpAlloc? || op.OpLoad?)
    ensures Undisturbed(m, Step(m, op).mem)
  {
    var free := LowestFree(m.alloc.used, 0);
    WritesUndisturbed(m, m);
    if op.OpAlloc? {
      if op.granted && IsUserAddress(op.va) && free.Some? {
        NewPageUndisturbed(m, op.d, op.va, free.value, Contents(op.zero), ReadWrite);
      }
    } else if free.Some? {
      NewPageUndisturbed(m, op.d, op.va, free.value, Some(ZeroPage()), op.perm);
    }
  }

  lemma TeardownStep(m: Mem, op: Op)
    requires Consistent(m) && Guard(m, op) && (op.OpReset? || op.OpDestroy?) && Live(m, op.d)
    ensures Undisturbed(m, Step(m, op).mem)
  {
    if op.OpReset? {
      FreeUserSpaceEffect(m, op.d, m.domains);
      assert m.(domains := m.domains) == m;
      TornDownUndisturbed(m, Reset(m, op.d), op.d, UserTables(m, op.d));
    } else {
      DestroyEffect(m, op.d);
      TornDownUndisturbed(m, Destroy(m, op.d), op.d, UserTables(m, op.d) + {m.domains[op.d].value});
    }
  }

  lemma ShareUndisturbed(m: Mem, from: nat, to: nat, va: nat, granted: bool)
    requires Consistent(m) && SharePage(m, from, to, va, granted).Done?
    ensures Undisturbed(m, SharePage(m, from, to, va, granted).mem)
  {
    WritesUndisturbed(m, m);
    if MapsNew(m, from, to, va, granted) {
      var pa := ResolveUserPage(m, from, va).value;
      if ResolveUserPage(m, to, va).None? {
        ShareIntoUndisturbed(m, from, to, va, pa);
      } else {
        ReplaceUndisturbed(m, from, to, va, pa);
      }
    }
  }

  lemma ShareIntoUndisturbed(m: Mem, from: nat, to: nat, va: nat, pa: nat)
    requires Consistent(m) && Live(m, from) && IsUserAddress(va) && ResolveUserPage(m, from, va) == Some(pa)
    requires ShareInto(m, to, va, pa).Done?
    ensures Undisturbed(m, ShareInto(m, to, va, pa).mem)
  {
    UserLeaf(va);
    SourceFrame(m, from, va);
    F.LeafHere(m, from, Path(va));
    MapUndisturbed(m, to, va, pa, FlagsFor(ReadWrite));
  }

  lemma ReplaceUndisturbed(m: Mem, from: nat, to: nat, va: nat, pa: nat)
    requires Consistent(m) && Live(m, from) && Live(m, to) && IsUserAddress(va) && UnmapPage(m, to, va).Done?
    requires ResolveUserPage(m, from, va) == Some(pa) && ResolveUserPage(m, to, va).Some?
    requires ResolveUserPage(m, to, va) != Some(pa)
    requires ShareInto(UnmapPage(m, to, va).mem, to, va, pa).Done?
    ensures Undisturbed(m, ShareInto(UnmapPage(m, to, va).mem, to, va, pa).mem)
  {
    var m1 := UnmapPage(m, to, va).mem;
    SourceFrame(m, from, va);
    SourceFrame(m, to, va);
    UnmapPageKeeps(m, to, va);
    UnmapOtherDomain(m, to, from, va);
    UnmapUndisturbed(m, to, va);
    ShareIntoUndisturbed(m1, from, to, va, pa);
    UndisturbedTwice(m, m1, ShareInto(m1, to, va, pa).mem);
  }

  lemma UndisturbedTwice(m: Mem, m1: Mem, m2: Mem)
    requires Undisturbed(m, m1) && Undisturbed(m1, m2)
    ensures Undisturbed(m, m2)
  {
    forall x: nat, i: nat | Apart(m, x) ensures Kept(m, m2, x, i) { assert Kept(m, m1, x, i) && Kept(m1, m2, x, i); }
    forall d: nat | Live(m2, d)
      ensures Live(m, d) && m2.domains[d] == m.domains[d] && KeepsRoot(m, m2, m.domains[d].value)
    {
      var root := m.domains[d].value;
      forall i: nat | i != USER_P4 && i < TABLE_LEN ensures Kept(m, m2, root, i) {
        assert Kept(m, m1, root, i) && Kept(m1, m2, root, i);
      }
    }
  }

  ghost predicate AlwaysSourced(m: Mem, ops: seq<Op>)
    decreases |ops|
  {
    ops != [] ==>
      Sourced(m, ops[0]) && (Step(m, ops[0]).Done? && Guard(m, ops[0]) ==> AlwaysSourced(Step(m, ops[0]).mem, ops[1..]))
  }

  /** From a state whose kernel halves are in order, every operation of a run is one the accounting theorems cover. */
  lemma {:induction false} RunCovered(m: Mem, ops: seq<Op>)
    requires Consistent(m) && HalfOk(m) && AlwaysSourced(m, ops)
    ensures AlwaysCovered(m, ops)
    decreases |ops|
  {
    if ops != [] {
      HalfCovers(m, ops[0]);
      if Step(m, ops[0]).Done? && Guard(m, ops[0]) {
        StepExact(m, ops[0]);
        StepHalf(m, ops[0]);
        RunCovered(Step(m, ops[0]).mem, ops[1..]);
      }
    }
  }

  lemma BootHalf(n: nat)
    ensures HalfOk(Boot(n))
  {
  }

  /** The accounting theorem with nothing assumed of later states: from such a state every state of a run is
      consistent exactly when every operation met its guard. */
  lemma RunAccounting(m: Mem, ops: seq<Op>)
    requires Consistent(m) && HalfOk(m) && AlwaysSourced(m, ops)
    ensures AlwaysConsistent(m, ops) <==> AlwaysGuarded(m, ops)
  {
    RunCovered(m, ops);
    RunExact(m, ops);
  }
}
