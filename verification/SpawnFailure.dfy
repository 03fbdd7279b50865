/** A spawn that fails gives back exactly what it took (kernel/src/exec.rs:55-63): the frames a half-built
    domain owns are the only ones that left the free set, and destroying it returns them all. */
module SpawnFailure {
  import opened Wrappers
  import opened Frames
  import opened Paging
  import opened Ownership
  import opened MemorySteps
  import opened DomainMemory
  import opened Elf
  import opened Loader
  import opened LoadedImage

  /** Every frame domain d holds: pages, user tables and PML4. */
  ghost function Owned(m: Mem, d: nat): (s: set<nat>)
    requires Live(m, d)
  {
    Pages(m, d) + UserTables(m, d) + {m.domains[d].value}
  }

  /** The allocator is a0 except that the frames d owns, free in a0, are in use. */
  ghost predicate Borrowed(a0: Alloc, m: Mem, d: nat) {
    && Live(m, d) && m.alloc.counts == a0.counts && m.alloc.slots == a0.slots && m.alloc.pinned == a0.pinned
    && |m.alloc.used| == |a0.used|
    && (forall x :: 0 <= x < |a0.used| ==> (m.alloc.used[x] <==> a0.used[x] || x in Owned(m, d)))
    && (forall x :: x in Owned(m, d) ==> IsFree(a0, x))
  }

  // ---- a loader step ----

  /** m' is m with frames taken for d: one page at p, and tables above it. */
  ghost predicate TookFor(m: Mem, m': Mem, d: nat, p: seq<nat>) {
    && TreeOk(m) && TreeOk(m') && LeafChange(m, m', d, p)
    && EntryAt(m, d, p).Unused? && EntryAt(m', d, p).Entry? && IsFree(m.alloc, EntryAt(m', d, p).frame)
    && OtherTables(m, m', d)
    && (forall q :: TablePath(q) && At(m, d, q).Some? ==> At(m', d, q) == At(m, d, q))
    && (forall x :: IsTable(m', x) ==> IsTable(m, x) || IsFree(m.alloc, x))
    && (forall x :: 0 <= x < |m.alloc.used| && m.alloc.used[x] ==> m'.alloc.used[x])
    && (forall x :: 0 <= x < |m.alloc.used| && m'.alloc.used[x] && !m.alloc.used[x] ==>
          IsTable(m', x) || x == EntryAt(m', d, p).frame)
  }

  lemma LoadPageTook(m: Mem, d: nat, va: nat, perm: UserPagePerm)
    requires Consistent(m) && IsUserAddress(va)
    requires LoadPage(m, d, va, perm).Some? && LoadPage(m, d, va, perm).value.Done?
    ensures TookFor(m, LoadPage(m, d, va, perm).value.mem, d, Path(va))
  {
    LoadPageEffect(m, d, va, perm);
    LoadPageTables(m, d, va, perm);
  }

  /** Which frames a loader step takes: the page's and those of new tables, all for d. */
  lemma LoadPageTables(m: Mem, d: nat, va: nat, perm: UserPagePerm)
    requires Consistent(m) && IsUserAddress(va)
    requires LoadPage(m, d, va, perm).Some? && LoadPage(m, d, va, perm).value.Done?
    ensures var m' := LoadPage(m, d, va, perm).value.mem;
            && OtherTables(m, m', d) && EntryAt(m', d, Path(va)).Entry?
            && (forall q :: TablePath(q) && At(m, d, q).Some? ==> At(m', d, q) == At(m, d, q))
            && (forall x :: IsTable(m', x) ==> IsTable(m, x) || IsFree(m.alloc, x))
            && |m'.alloc.used| == |m.alloc.used|
            && (forall x :: 0 <= x < |m.alloc.used| && m.alloc.used[x] ==> m'.alloc.used[x])
            && (forall x :: 0 <= x < |m.alloc.used| && m'.alloc.used[x] && !m.alloc.used[x] ==>
                  IsTable(m', x) || x == EntryAt(m', d, Path(va)).frame)
  {
    var f := LowestFree(m.alloc.used, 0).value;
    var m1 := TakeWith(m, f, Some(ZeroPage()));
    var m' := LoadPage(m, d, va, perm).value.mem;
    TakeConsistent(m, f, Some(ZeroPage()));
    UserLeaf(va);
    assert Addr(f) / FRAME_SIZE == f;
    MapToOk(m1, d, Path(va), f, FlagsFor(perm));
    forall x | IsTable(m', x) ensures IsTable(m, x) || IsFree(m.alloc, x) { SameTablesFacts(m, m1, x); }
  }

  lemma TookPage(m: Mem, m': Mem, d: nat, p: seq<nat>, x: nat)
    requires TookFor(m, m', d, p)
    ensures x in Pages(m', d) <==> x in Pages(m, d) || x == EntryAt(m', d, p).frame
  {
    PagesExact(m, d, x);
    PagesExact(m', d, x);
    SameOtherLeaves(m, m', d, p);
    LeafAt(m, d, p);
    LeafAt(m', d, p);
    if x in Pages(m, d) {
      var q :| LeafPath(q) && At(m, d, q) == Some(x);
      assert At(m', d, q) == Some(x);
    }
  }

  /** The new tables of d are the newly used frames that are tables. */
  lemma TookTable(m: Mem, m': Mem, d: nat, p: seq<nat>, x: nat)
    requires TookFor(m, m', d, p)
    ensures x in UserTables(m', d) <==> x in UserTables(m, d) || (IsFree(m.alloc, x) && IsTable(m', x))
  {
    UserTablesExact(m, d, x);
    UserTablesExact(m', d, x);
    assert At(m, d, []) == m.domains[d] == At(m', d, []);
    if x in UserTables(m', d) {
      var q :| TablePath(q) && q != [] && At(m', d, q) == Some(x);
      assert IsTable(m', x);
      if IsTable(m, x) {
        var d1, q1 :| TablePath(q1) && At(m, d1, q1) == Some(x);
        assert At(m', d1, q1) == Some(x);
        assert d1 == d && q1 == q;
      }
    }
    if IsFree(m.alloc, x) && IsTable(m', x) {
      var d1, q1 :| TablePath(q1) && At(m', d1, q1) == Some(x);
      assert d1 != d ==> At(m, d1, q1) == Some(x);
      assert d1 == d && q1 != [];
    }
  }

  lemma BorrowedStep(a0: Alloc, m: Mem, m': Mem, d: nat, p: seq<nat>)
    requires Borrowed(a0, m, d) && TookFor(m, m', d, p) && m'.alloc.counts == m.alloc.counts
    ensures Borrowed(a0, m', d)
  {
    forall x: nat
      ensures x in Owned(m', d) ==> IsFree(a0, x)
      ensures x < |a0.used| ==> (m'.alloc.used[x] <==> a0.used[x] || x in Owned(m', d))
    {
      TookPage(m, m', d, p, x);
      TookTable(m, m', d, p, x);
      LeafAt(m', d, p);
      if IsTable(m', x) { var d1, q1 :| TablePath(q1) && At(m', d1, q1) == Some(x); }
    }
  }

  // ---- the whole load ----

  /** A half-built domain d: the accounting holds, others keep what they see, d's frames are borrowed. */
  ghost predicate Held(a0: Alloc, m0: Mem, m: Mem, d: nat) {
    Consistent(m) && PlainPages(m, d) && OthersKeep(m0, m, d) && Borrowed(a0, m, d)
  }

  lemma HeldStep(a0: Alloc, m0: Mem, m: Mem, d: nat, va: nat, perm: UserPagePerm)
    requires Held(a0, m0, m, d) && IsUserAddress(va)
    requires LoadPage(m, d, va, perm).Some? && LoadPage(m, d, va, perm).value.Done?
    ensures Held(a0, m0, LoadPage(m, d, va, perm).value.mem, d)
  {
    var m' := LoadPage(m, d, va, perm).value.mem;
    UserLeaf(va);
    LoadPageEffect(m, d, va, perm);
    assert PlainPages(m', d) by { PlainStep(m, m', d, Path(va)); }
    assert OthersKeep(m0, m', d) by { OthersKeepStep(m0, m, m', d); }
    LoadPageTook(m, d, va, perm);
    BorrowedStep(a0, m, m', d, Path(va));
  }

  /** Every loader step into d that goes through keeps P. */
  ghost predicate KeptByLoads(P: Mem -> bool, d: nat) {
    forall m, va, perm ::
      P(m) && IsUserAddress(va) && LoadPage(m, d, va, perm).Some? && LoadPage(m, d, va, perm).value.Done? ==>
      P(LoadPage(m, d, va, perm).value.mem)
  }

  lemma {:induction false} MapPagesKeep(P: Mem -> bool, m: Mem, d: nat, segs: seq<Segment>, work: seq<(Segment, nat)>)
    requires P(m) && KeptByLoads(P, d) && UserWork(work)
    ensures var r := MapPages(m, d, segs, work); !r.Panic? ==> P(r.mem)
    decreases |work|
  {
    if work != [] && Live(m, d) {
      var pv := work[0].1;
      assert IsUserAddress(work[0].1);
      if ResolveUserPage(m, d, pv).Some? {
        MapPagesKeep(P, m, d, segs, work[1..]);
      } else if PagePerm(segs, pv).Some? {
        var r := LoadPage(m, d, pv, PagePerm(segs, pv).value);
        if r.Some? && r.value.Done? { MapPagesKeep(P, r.value.mem, d, segs, work[1..]); }
      }
    }
  }

  lemma {:induction false} MapStackKeep(P: Mem -> bool, m: Mem, d: nat, i: nat)
    requires P(m) && KeptByLoads(P, d) && i <= USER_STACK_PAGES
    ensures var r := MapStack(m, d, i); !r.Panic? ==> P(r.mem)
    decreases USER_STACK_PAGES - i
  {
    if i < USER_STACK_PAGES {
      StackAddress(i);
      var r := LoadPage(m, d, STACK_BASE + i * FRAME_SIZE, ReadWrite);
      if r.Some? && r.value.Done? { MapStackKeep(P, r.value.mem, d, i + 1); }
    }
  }

  lemma HeldKept(a0: Alloc, m0: Mem, d: nat)
    ensures KeptByLoads(m => Held(a0, m0, m, d), d)
  {
    forall m, va, perm | Held(a0, m0, m, d) && IsUserAddress(va)
      && LoadPage(m, d, va, perm).Some? && LoadPage(m, d, va, perm).value.Done?
      ensures Held(a0, m0, LoadPage(m, d, va, perm).value.mem, d)
    {
      HeldStep(a0, m0, m, d, va, perm);
    }
  }

  /** Copying file bytes takes and returns no frame. */
  lemma HeldSame(a0: Alloc, m0: Mem, m: Mem, m': Mem, d: nat)
    requires Borrowed(a0, m, d) && OthersKeep(m0, m, d)
    requires SameEntries(m, m') && OthersKeep(m, m', d) && m'.alloc == m.alloc
    ensures Borrowed(a0, m', d) && OthersKeep(m0, m', d)
  {
    forall x: nat ensures x in Owned(m', d) <==> x in Owned(m, d) {
      PagesExact(m, d, x);
      PagesExact(m', d, x);
      UserTablesExact(m, d, x);
      UserTablesExact(m', d, x);
      forall q | LeafPath(q) ensures At(m', d, q) == At(m, d, q) { LeafAt(m, d, q); LeafAt(m', d, q); }
    }
  }

  /** A load that does not panic leaves d half-built at worst. */
  lemma MapImageHeld(a0: Alloc, m: Mem, d: nat, image: seq<Byte>, segs: seq<Segment>)
    requires Held(a0, m, m, d) && Empty(m, d) && SegmentsOk(image, segs) && WorkOk(image, Work(segs))
    ensures var r := MapImage(m, d, image, segs); !r.Panic? ==> Held(a0, m, r.mem, d)
  {
    WorkFits(image, segs);
    MapPagesHeld(a0, m, d, segs, Work(segs));
    if MapPages(m, d, segs, Work(segs)).Loaded? {
      CopiesHeld(a0, m, d, image, segs);
      MapStackHeld(a0, m, CopyPages(MapPages(m, d, segs, Work(segs)).mem, d, image, Work(segs)).mem, d);
    }
  }

  lemma MapPagesHeld(a0: Alloc, m: Mem, d: nat, segs: seq<Segment>, work: seq<(Segment, nat)>)
    requires Held(a0, m, m, d) && UserWork(work)
    ensures var r := MapPages(m, d, segs, work); !r.Panic? ==> Held(a0, m, r.mem, d)
  {
    HeldKept(a0, m, d);
    MapPagesKeep(x => Held(a0, m, x, d), m, d, segs, work);
  }

  lemma MapStackHeld(a0: Alloc, m0: Mem, m: Mem, d: nat)
    requires Held(a0, m0, m, d)
    ensures var r := MapStack(m, d, 0); !r.Panic? ==> Held(a0, m0, r.mem, d)
  {
    HeldKept(a0, m0, d);
    MapStackKeep(x => Held(a0, m0, x, d), m, d, 0);
  }

  lemma CopiesHeld(a0: Alloc, m: Mem, d: nat, image: seq<Byte>, segs: seq<Segment>)
    requires Held(a0, m, m, d) && Empty(m, d) && SegmentsOk(image, segs) && WorkOk(image, Work(segs))
    requires var r := MapPages(m, d, segs, Work(segs)); r.Loaded? && Held(a0, m, r.mem, d)
    ensures var r := CopyPages(MapPages(m, d, segs, Work(segs)).mem, d, image, Work(segs));
            r.Loaded? && Held(a0, m, r.mem, d)
  {
    var m1 := MapPages(m, d, segs, Work(segs)).mem;
    StackAddress(0);
    FirstPassSees(m, d, image, segs, STACK_BASE);
    CopyPagesOk(m1, d, image, Work(segs), STACK_BASE);
    HeldSame(a0, m, m1, CopyPages(m1, d, image, Work(segs)).mem, d);
  }

  // ---- giving it all back ----

  lemma DropBorrowed(a0: Alloc, a: Alloc, pages: set<nat>, tables: set<nat>)
    requires a.counts == a0.counts && a.slots == a0.slots && a.pinned == a0.pinned && |a.used| == |a0.used|
    requires forall x :: 0 <= x < |a0.used| ==> (a.used[x] <==> a0.used[x] || x in pages + tables)
    requires forall x :: x in pages + tables ==> IsFree(a0, x)
    requires forall f :: IsFree(a0, f) ==> !Pinned(a0, Addr(f)) && Addr(f) !in a0.counts
    ensures Drop(a, pages, tables) == a0
  {
    var r := Drop(a, pages, tables);
    forall k | k in a.counts ensures !CountsLeaf(pages, k) {
      var f := k / FRAME_SIZE;
      assert k % FRAME_SIZE == 0 ==> Addr(f) == k;
      assert f in pages ==> f in pages + tables;
    }
    assert r.counts == a0.counts;
    forall x | 0 <= x < |a0.used| ensures r.used[x] == a0.used[x] {
      assert Pinned(a, Addr(x)) <==> Pinned(a0, Addr(x));
      assert x in pages + tables ==> !Pinned(a, Addr(x)) && Addr(x) !in a.counts;
    }
    assert r.used == a0.used;
  }

  /** Destroying a half-built domain restores the allocator exactly. */
  lemma DestroyRestores(m0: Mem, m1: Mem, m: Mem, d: nat)
    requires FreeOk(m0) && Held(m0.alloc, m1, m, d)
    ensures Destroy(m, d).alloc == m0.alloc
  {
    DestroyEffect(m, d);
    var pages, tables := Pages(m, d), UserTables(m, d) + {m.domains[d].value};
    assert pages + tables == Owned(m, d);
    DropBorrowed(m0.alloc, m.alloc, pages, tables);
  }

  // ---- spawn_elf ----

  datatype Spawned = SpawnPanic | SpawnFailed(mem: Mem) | SpawnOk(mem: Mem, id: nat)

  /** `spawn_elf` while the tables of PML4 `src` are loaded; `taskFits` is whether the scheduler takes the task. */
  ghost function SpawnElf(m: Mem, src: nat, image: seq<Byte>, taskFits: bool): (r: Spawned) {
    if !Accepts(image) then SpawnFailed(m)
    else
      var segs := LoadSegments(image, Le(image, 56, 2));
      if Budget(segs) > MAX_IMAGE_PAGES then SpawnFailed(m)
      else match Create(m, src)
        case None => SpawnPanic
        case Some((m1, id)) =>
          AcceptedWork(image);
          match MapImage(m1, id, image, segs)
          case Panic => SpawnPanic
          case Refused(m2) => if Live(m2, id) then SpawnFailed(Destroy(m2, id)) else SpawnPanic
          case Loaded(m2) =>
            if taskFits then SpawnOk(m2, id) else if Live(m2, id) then SpawnFailed(Destroy(m2, id)) else SpawnPanic
  }

  lemma AcceptedWork(image: seq<Byte>)
    requires Accepts(image)
    ensures var segs := LoadSegments(image, Le(image, 56, 2));
            SegmentsOk(image, segs) && WorkOk(image, Work(segs)) && |segs| <= MAX_SEGMENTS
  {
    AcceptedImageOk(image);
    WorkFits(image, LoadSegments(image, Le(image, 56, 2)));
  }

  /** All domains see the same: same live domains, same mappings, same page contents. */
  ghost predicate SameViews(m: Mem, m': Mem) {
    && (forall d :: Live(m', d) <==> Live(m, d))
    && (forall d, q :: LeafPath(q) ==> EntryAt(m', d, q) == EntryAt(m, d, q))
    && (forall d, q :: LeafPath(q) && EntryAt(m, d, q).Entry? && EntryAt(m, d, q).frame in m.phys ==>
          EntryAt(m, d, q).frame in m'.phys && m'.phys[EntryAt(m, d, q).frame] == m.phys[EntryAt(m, d, q).frame])
  }

  /** A failed spawn, whatever made it fail, leaves the allocator as it was and nothing anybody can see. */
  lemma FailedSpawnRestores(m: Mem, src: nat, image: seq<Byte>, taskFits: bool)
    requires Consistent(m) && SpawnElf(m, src, image, taskFits).SpawnFailed?
    ensures var m' := SpawnElf(m, src, image, taskFits).mem;
            m'.alloc == m.alloc && SameViews(m, m') && Consistent(m')
  {
    if Accepts(image) && Budget(LoadSegments(image, Le(image, 56, 2))) <= MAX_IMAGE_PAGES {
      var segs := LoadSegments(image, Le(image, 56, 2));
      var (m1, id) := Create(m, src).value;
      AcceptedWork(image);
      CreateHeld(m, src);
      MapImageHeld(m.alloc, m1, id, image, segs);
      var m2 := MapImage(m1, id, image, segs).mem;
      DestroyRestores(m, m1, m2, id);
      DestroyKeepsViews(m, m1, m2, id, src);
      assert Consistent(Destroy(m2, id)) by { PlainSafe(m2, id); DestroyExact(m2, id); }
    }
  }

  /** A spawn that succeeds gives the new domain exactly the file's image and a stack, and changes nothing
      any other domain sees; the page loops visited at most `MAX_IMAGE_PAGES` plus one page per segment. */
  lemma SpawnedSees(m: Mem, src: nat, image: seq<Byte>, v: nat)
    requires Consistent(m) && SpawnElf(m, src, image, true).SpawnOk? && IsUserAddress(v) && Canonical(v)
    ensures var r, segs := SpawnElf(m, src, image, true), LoadSegments(image, Le(image, 56, 2));
            && Consistent(r.mem) && !Live(m, r.id) && Live(r.mem, r.id)
            && SegmentsOk(image, segs) && SeesImage(r.mem, r.id, image, segs, v)
            && OthersSee(m, r.mem, r.id)
            && |Work(segs)| + USER_STACK_PAGES <= MAX_IMAGE_PAGES + MAX_SEGMENTS
  {
    var segs := LoadSegments(image, Le(image, 56, 2));
    var (m1, id) := Create(m, src).value;
    AcceptedWork(image);
    BudgetBounds(segs);
    CreateOk(m, src);
    LoadedImageOk(m1, id, image, segs, v);
    CreateKeepsOthers(m, src);
    SeeThenKeep(m, m1, SpawnElf(m, src, image, true).mem, id);
  }

  lemma CreateKeepsOthers(m: Mem, src: nat)
    requires Consistent(m) && Create(m, src).Some?
    ensures OthersSee(m, Create(m, src).value.0, Create(m, src).value.1)
  {
    var (m1, id) := Create(m, src).value;
    CreateOk(m, src);
    forall d, q | d != id && LeafPath(q) && EntryAt(m, d, q).Entry?
      ensures EntryAt(m, d, q).frame != m1.domains[id].value
    {
      LeafAt(m, d, q);
    }
  }

  /** Whatever domain other than d: the same pages with the same contents. */
  ghost predicate OthersSee(m: Mem, m': Mem, d: nat) {
    forall d', q :: d' != d && LeafPath(q) ==>
      && EntryAt(m', d', q) == EntryAt(m, d', q)
      && (EntryAt(m, d', q).Entry? && EntryAt(m, d', q).frame in m.phys ==>
            EntryAt(m, d', q).frame in m'.phys && m'.phys[EntryAt(m, d', q).frame] == m.phys[EntryAt(m, d', q).frame])
  }

  lemma SeeThenKeep(m: Mem, m1: Mem, m2: Mem, d: nat)
    requires OthersSee(m, m1, d) && OthersKeep(m1, m2, d)
    ensures OthersSee(m, m2, d)
  {
  }

  lemma ResetKeepsOthers(m: Mem, d: nat)
    requires Consistent(m) && Live(m, d)
    ensures OthersSee(m, Reset(m, d), d)
  {
    var m' := Reset(m, d);
    ResetExact(m, d);
    FreeUserSpaceEffect(m, d, m.domains);
    assert m.(domains := m.domains) == m && At(m, d, []) == Some(m.domains[d].value);
    forall d', q | d' != d && LeafPath(q) && EntryAt(m, d', q).Entry? && EntryAt(m, d', q).frame in m.phys
      ensures EntryAt(m, d', q).frame in m'.phys && m'.phys[EntryAt(m, d', q).frame] == m.phys[EntryAt(m, d', q).frame]
    {
      var x := EntryAt(m, d', q).frame;
      LeafAt(m, d', q);
      UserTablesExact(m, d, x);
      assert !IsTable(m, x) && TablePath([]);
    }
  }

  /** Restarting in place: once the old user space was emptied, a load that succeeds gives the domain exactly the
      new image and a stack, and leaves the other domains' pages and their contents alone. */
  lemma ReloadSees(m: Mem, d: nat, image: seq<Byte>, segs: seq<Segment>, v: nat)
    requires Consistent(m) && Live(m, d) && DevicePagesSafe(m, d) && SegmentsOk(image, segs)
    requires WorkOk(image, Work(segs))
    requires MapImage(Reset(m, d), d, image, segs).Loaded? && IsUserAddress(v) && Canonical(v)
    ensures var m' := MapImage(Reset(m, d), d, image, segs).mem;
            && Consistent(m') && SeesImage(m', d, image, segs, v)
            && OthersSee(m, m', d)
  {
    ResetExact(m, d);
    FreeUserSpaceEffect(m, d, m.domains);
    assert m.(domains := m.domains) == m;
    LoadedImageOk(Reset(m, d), d, image, segs, v);
    ResetKeepsOthers(m, d);
    SeeThenKeep(m, Reset(m, d), MapImage(Reset(m, d), d, image, segs).mem, d);
  }

  lemma PlainSafe(m: Mem, d: nat)
    requires PlainPages(m, d)
    ensures DevicePagesSafe(m, d)
  {
  }

  /** A new domain holds its PML4 only. */
  lemma CreateHeld(m: Mem, src: nat)
    requires Consistent(m) && Create(m, src).Some?
    ensures var (m1, id) := Create(m, src).value; Held(m.alloc, m1, m1, id) && Empty(m1, id)
  {
    var (m1, id) := Create(m, src).value;
    CreateOk(m, src);
    assert UserPath([USER_P4]);
    assert At(m1, id, [USER_P4]).None?;
    assert Owned(m1, id) == {m1.domains[id].value};
  }

  lemma DestroyKeepsViews(m: Mem, m1: Mem, m2: Mem, id: nat, src: nat)
    requires Consistent(m) && Create(m, src) == Some((m1, id)) && Consistent(m2) && OthersKeep(m1, m2, id)
    requires Live(m2, id)
    ensures SameViews(m, Destroy(m2, id))
  {
    var m' := Destroy(m2, id);
    DestroyEffect(m2, id);
    forall d, q | LeafPath(q) ensures EntryAt(m', d, q) == EntryAt(m, d, q) {
      if d != id {
        CreateOthers(m, src, d, q);
        DestroyExact(m2, id);
      }
    }
    forall d, q | LeafPath(q) && EntryAt(m, d, q).Entry? && EntryAt(m, d, q).frame in m.phys
      ensures EntryAt(m, d, q).frame in m'.phys && m'.phys[EntryAt(m, d, q).frame] == m.phys[EntryAt(m, d, q).frame]
    {
      DestroyKeepsPage(m, m1, m2, id, src, d, q);
    }
  }

  lemma DestroyKeepsPage(m: Mem, m1: Mem, m2: Mem, id: nat, src: nat, d: nat, q: seq<nat>)
    requires TreeOk(m) && Create(m, src) == Some((m1, id)) && Consistent(m2) && OthersKeep(m1, m2, id) && Live(m2, id)
    requires LeafPath(q) && EntryAt(m, d, q).Entry? && EntryAt(m, d, q).frame in m.phys
    ensures var x, m' := EntryAt(m, d, q).frame, Destroy(m2, id); x in m'.phys && m'.phys[x] == m.phys[x]
  {
    var x, m' := EntryAt(m, d, q).frame, Destroy(m2, id);
    LeafAt(m, d, q);
    assert d != id;
    CreateOthers(m, src, d, q);
    assert m1.phys[x] == m.phys[x];
    assert EntryAt(m2, d, q) == EntryAt(m1, d, q);
    LeafAt(m2, d, q);
    assert !IsTable(m2, x);
    DestroyEffect(m2, id);
    UserTablesExact(m2, id, x);
    assert At(m2, id, []) == m2.domains[id];
    assert x !in UserTables(m2, id) && x != m2.domains[id].value;
  }
}
