/** Creating, resetting and destroying a domain's address space (kernel/src/domain.rs:53-152, 185-214):
    exactly which frames go back, and when the accounting of everybody else survives. */
module DomainMemory {
  import opened Wrappers
  import opened Frames
  import opened Paging
  import opened Ownership
  import opened Teardown

  /** First empty slot of the domain table, or its end. */
  function SlotFor(domains: seq<Option<nat>>): (id: nat)
    ensures id <= |domains|
    ensures id < |domains| ==> domains[id].None?
    ensures forall i :: 0 <= i < id ==> domains[i].Some?
  {
    if domains == [] || domains[0].None? then 0 else 1 + SlotFor(domains[1..])
  }

  /** A PML4 with the kernel entries of `src`; the user entry stays empty. */
  function KernelRoot(phys: Phys, src: nat): (c: Cell) {
    Table(seq(TABLE_LEN, i requires 0 <= i < TABLE_LEN => if i == USER_P4 then Unused else Slot(phys, src, i)))
  }

  /** `domain::create` while the page tables of PML4 `src` are loaded. None: panic, out of frames. */
  function Create(m: Mem, src: nat): (r: Option<(Mem, nat)>) {
    match LowestFree(m.alloc.used, 0)
    case None => None
    case Some(f) =>
      var id := SlotFor(m.domains);
      Some((m.(alloc := Take(m.alloc, f), phys := m.phys[f := KernelRoot(m.phys, src)],
               domains := if id < |m.domains| then m.domains[id := Some(f)] else m.domains + [Some(f)]), id))
  }

  /** `domain::reset`: empty the user half, keep the domain. */
  function Reset(m: Mem, d: nat): (r: Mem)
    requires Live(m, d)
  {
    FreeUserSpace(m, m.domains[d].value)
  }

  /** The memory part of `domain::destroy`. */
  function Destroy(m: Mem, d: nat): (r: Mem)
    requires Live(m, d)
  {
    var root := m.domains[d].value;
    var m' := FreeUserSpace(m.(domains := m.domains[d := None]), root);
    m'.(alloc := FreeFrame(m'.alloc, Addr(root)))
  }

  // ---- what goes back ----

  /** Page frames of domain d. */
  ghost function Pages(m: Mem, d: nat): (s: set<nat>) {
    match At(m, d, [USER_P4]) case None => {} case Some(f) => Leaves(m.phys, f, 3, 0)
  }

  /** User page tables of domain d. */
  ghost function UserTables(m: Mem, d: nat): (s: set<nat>) {
    match At(m, d, [USER_P4]) case None => {} case Some(f) => Tables(m.phys, f, 3, 0) + {f}
  }

  lemma PagesExact(m: Mem, d: nat, x: nat)
    requires Live(m, d)
    ensures x in Pages(m, d) <==> exists q :: LeafPath(q) && At(m, d, q) == Some(x)
  {
    var p := [USER_P4];
    if x in Pages(m, d) { var q := LeafWitness(m, d, p, 0, x); }
    forall q | LeafPath(q) && At(m, d, q) == Some(x) ensures x in Pages(m, d) {
      assert q[..1] == p;
      PrefixSome(m, d, q, 1);
      PathMember(m, d, p, 0, q);
    }
  }

  lemma UserTablesExact(m: Mem, d: nat, x: nat)
    requires Live(m, d)
    ensures x in UserTables(m, d) <==> exists q :: TablePath(q) && q != [] && At(m, d, q) == Some(x)
  {
    var p := [USER_P4];
    if x in UserTables(m, d) {
      if At(m, d, p) == Some(x) { assert TablePath(p); } else { var q := TableWitness(m, d, p, 0, x); }
    }
    forall q | TablePath(q) && q != [] && At(m, d, q) == Some(x) ensures x in UserTables(m, d) {
      assert q[..1] == p;
      PrefixSome(m, d, q, 1);
      if q != p { PathMember(m, d, p, 0, q); }
    }
  }

  /** The root with its user entry emptied. */
  function ClosedRoot(phys: Phys, root: nat): (r: Phys) { SetSlot(phys, root, USER_P4, Unused) }

  /** Emptying a domain's user half drops one reference to each of its pages, frees each of its user
      tables, and changes the contents of no other frame than those tables and the PML4. */
  lemma FreeUserSpaceEffect(m: Mem, d: nat, domains: seq<Option<nat>>)
    requires Consistent(m) && Live(m, d)
    ensures var root := m.domains[d].value;
            var m' := FreeUserSpace(m.(domains := domains), root);
            && m'.alloc == Drop(m.alloc, Pages(m, d), UserTables(m, d))
            && m'.phys == ClosedRoot(Wipe(m.phys, UserTables(m, d)), root)
            && m'.domains == domains && m'.device == m.device
  {
    var root, p := m.domains[d].value, [USER_P4];
    assert [] + p == p && At(m, d, []) == Some(root);
    ChildEntry(m, d, [], USER_P4);
    var m0 := m.(domains := domains);
    assert CountsPositive(m.alloc) by { CountsArePositive(m); }
    if At(m, d, p).Some? {
      var f := At(m, d, p).value;
      assert TablePath(p) && IsTable(m, f);
      assert PagesOnce(m, d) by { CountedPagesOnce(m, d); }
      SubtreeDisjoint(m, d, p, 0);
      FreeTableEffect(m0, f, 3, 0);
      var m1 := FreeTable(m0, f, 3, 0);
      FreeIsDrop(m1.alloc, f);
      var l, t := Leaves(m.phys, f, 3, 0), Tables(m.phys, f, 3, 0);
      NotLeaf(m, d, p, 0, f);
      assert f !in t by {
        if f in t { var q := TableWitness(m, d, p, 0, f); assert false; }
      }
      DropTwice(m.alloc, l, t, {}, {f});
      assert l + {} == l;
      WipeChild(m.phys, f, t);
    } else {
      DropNothing(m.alloc);
      assert Wipe(m.phys, {}) == m.phys;
      assert Slot(m.phys, root, USER_P4).Unused?;
      assert ClosedRoot(m.phys, root) == m.phys by {
        assert m.phys[root].entries[USER_P4 := Unused] == m.phys[root].entries;
      }
    }
  }

  lemma CountsArePositive(m: Mem)
    requires CountsExact(m)
    ensures CountsPositive(m.alloc)
  {
    forall k | k in m.alloc.counts ensures 1 <= m.alloc.counts[k] < COUNT_WRAP {
      assert CountExact(m, k / FRAME_SIZE) && Addr(k / FRAME_SIZE) == k;
    }
  }

  lemma CountedPagesOnce(m: Mem, d: nat)
    requires LeafUnique(m) && CountsExact(m)
    ensures PagesOnce(m, d)
  {
    forall q, q' | LeafPath(q) && LeafPath(q') && At(m, d, q).Some? && At(m, d, q) == At(m, d, q') && q != q'
      ensures Uncounted(m.alloc, At(m, d, q).value)
    {
      assert CountExact(m, At(m, d, q).value);
    }
  }

  /** Destroying frees exactly the PML4, the user tables, the uncounted pages and the counted pages
      mapped nowhere else (pinned and unmanaged frames excepted), each once; all other frames keep
      their bit, their count and their contents. */
  lemma DestroyEffect(m: Mem, d: nat)
    requires Consistent(m) && Live(m, d)
    ensures var root := m.domains[d].value;
            Destroy(m, d) == m.(domains := m.domains[d := None],
                                alloc := Drop(m.alloc, Pages(m, d), UserTables(m, d) + {root}),
                                phys := ClosedRoot(Wipe(m.phys, UserTables(m, d)), root))
  {
    var root := m.domains[d].value;
    var domains := m.domains[d := None];
    FreeUserSpaceEffect(m, d, domains);
    var m1 := FreeUserSpace(m.(domains := domains), root);
    FreeIsDrop(m1.alloc, root);
    CountsArePositive(m);
    assert At(m, d, []) == Some(root) && IsTable(m, root);
    assert root !in Pages(m, d) by { PagesExact(m, d, root); }
    assert root !in UserTables(m, d) by { UserTablesExact(m, d, root); }
    DropTwice(m.alloc, Pages(m, d), UserTables(m, d), {}, {root});
    assert Pages(m, d) + {} == Pages(m, d);
  }

  // ---- everybody else after a teardown ----

  /** Every device page of d is pinned or outside the managed range. */
  ghost predicate DevicePagesSafe(m: Mem, d: nat) {
    forall q :: LeafPath(q) && EntryAt(m, d, q).Entry? && EntryAt(m, d, q).flags.noCache ==>
      Pinned(m.alloc, Addr(EntryAt(m, d, q).frame)) || EntryAt(m, d, q).frame >= |m.alloc.used|
  }

  /** m' is m after d's user half was torn down, and its PML4 too if `t` holds the root. */
  ghost predicate TornDown(m: Mem, m': Mem, d: nat, t: set<nat>) {
    && Live(m, d) && m'.device == m.device && |m'.domains| == |m.domains|
    && (forall d' :: 0 <= d' < |m.domains| && d' != d ==> m'.domains[d'] == m.domains[d'])
    && m'.alloc == Drop(m.alloc, Pages(m, d), t)
    && m'.phys == ClosedRoot(Wipe(m.phys, UserTables(m, d)), m.domains[d].value)
    && ((t == UserTables(m, d) && m'.domains == m.domains)
        || (t == UserTables(m, d) + {m.domains[d].value} && m'.domains == m.domains[d := None]))
  }

  lemma OthersWalk(m: Mem, m': Mem, d: nat, t: set<nat>, d': nat, p: seq<nat>)
    requires TreeOk(m) && TornDown(m, m', d, t) && d' != d && (TablePath(p) || UserPath(p))
    ensures At(m', d', p) == At(m, d', p)
    ensures p != [] ==> EntryAt(m', d', p) == EntryAt(m, d', p)
  {
    if Live(m, d') {
      var root := m.domains[d'].value;
      assert At(m, d, []) == Some(m.domains[d].value);
      forall k | 0 <= k < |p| && Node(m.phys, root, p[..k]).Some?
        ensures Slot(m'.phys, Node(m.phys, root, p[..k]).value, p[k]) ==
          Slot(m.phys, Node(m.phys, root, p[..k]).value, p[k])
      {
        var f := Node(m.phys, root, p[..k]).value;
        PrefixPath(p, k);
        assert At(m, d', p[..k]) == Some(f);
        UserTablesExact(m, d, f);
        assert f !in UserTables(m, d) && f != m.domains[d].value;
      }
      SameWalk(m.phys, m'.phys, root, p);
    }
  }

  /** The torn-down domain maps nothing: at most its PML4 is left. */
  lemma {:induction false} SelfWalk(m: Mem, m': Mem, d: nat, t: set<nat>, p: seq<nat>)
    requires TreeOk(m) && TornDown(m, m', d, t) && UserPath(p)
    ensures EntryAt(m', d, p).Unused? && At(m', d, p).None?
    decreases |p|
  {
    if Live(m', d) {
      var root := m.domains[d].value;
      assert At(m, d, []) == Some(root) && TablePath([]);
      UserTablesExact(m, d, root);
      if |p| == 1 {
        assert p[..0] == [] && At(m', d, []) == Some(root);
        assert IsFull(m.phys, root);
      } else {
        SelfWalk(m, m', d, t, p[..|p| - 1]);
      }
    }
  }

  /** Frames some other domain uses are not given back, and none that are given back is device memory. */
  lemma StillUsed(m: Mem, m': Mem, d: nat, t: set<nat>, d': nat, p: seq<nat>)
    requires Consistent(m) && TornDown(m, m', d, t) && DevicePagesSafe(m, d)
    requires d' != d && (TablePath(p) || UserPath(p)) && At(m, d', p).Some?
    ensures !IsFree(m'.alloc, At(m, d', p).value)
  {
    var f := At(m, d', p).value;
    PagesExact(m, d, f);
    UserTablesExact(m, d, f);
    assert At(m, d, []) == Some(m.domains[d].value) && TablePath([]);
    assert At(m, d', []).Some? && At(m, d', []) == Some(m.domains[d'].value);
    if f < |m.alloc.used| {
      assert m.alloc.used[f];
      if TablePath(p) {
        assert IsTable(m, f);
        assert f !in t && f !in Pages(m, d);
      } else {
        assert f !in t;
        if f in Pages(m, d) {
          var q :| LeafPath(q) && At(m, d, q) == Some(f);
          LeafAt(m, d, q);
          SharedStays(m, d, d', q, p, f);
        }
      }
    }
  }

  /** A page of d that d' maps too is device memory that stays, or counted at least twice. */
  lemma SharedStays(m: Mem, d: nat, d': nat, q: seq<nat>, p: seq<nat>, f: nat)
    requires LeafKinds(m) && LeafUnique(m) && CountsExact(m) && DevicePagesSafe(m, d) && d != d'
    requires LeafPath(q) && LeafPath(p) && At(m, d, q) == Some(f) && At(m, d', p) == Some(f)
    ensures Pinned(m.alloc, Addr(f)) || f >= |m.alloc.used|
      || (Addr(f) in m.alloc.counts && m.alloc.counts[Addr(f)] >= 2)
  {
    LeafAt(m, d, q);
    if !Device(m, f) {
      assert CountExact(m, f);
      assert Live(m, d) && Live(m, d');
      assert d in Mappers(m, f) && d' in Mappers(m, f);
      TwoMembers(Mappers(m, f), d, d');
    }
  }

  lemma TornDownTree(m: Mem, m': Mem, d: nat, t: set<nat>)
    requires Consistent(m) && TornDown(m, m', d, t) && DevicePagesSafe(m, d)
    ensures TreeOk(m')
  {
    TornDownPlaces(m, m', d, t);
    forall x: nat | IsTable(m', x) ensures IsTable(m, x) {
      var d', p :| TablePath(p) && At(m', d', p) == Some(x);
      assert At(m, d', p) == Some(x);
    }
    forall d', p | TablePath(p) && At(m', d', p).Some? ensures TableFrame(m', At(m', d', p).value) {
      TornDownTable(m, m', d, t, d', p);
    }
    forall d', p | UserPath(p) && At(m', d', p).Some? ensures !IsFree(m'.alloc, At(m', d', p).value) {
      StillUsed(m, m', d, t, d', p);
    }
  }

  /** What is still mapped is where it was; the torn-down domain has at most its PML4 left. */
  lemma TornDownPlaces(m: Mem, m': Mem, d: nat, t: set<nat>)
    requires TreeOk(m) && TornDown(m, m', d, t)
    ensures forall d', p :: (TablePath(p) || UserPath(p)) && At(m', d', p).Some? ==> At(m', d', p) == At(m, d', p)
    ensures forall d', p :: UserPath(p) && At(m', d', p).Some? ==> d' != d
    ensures forall d', p :: UserPath(p) && EntryAt(m', d', p).Entry? ==> EntryAt(m', d', p) == EntryAt(m, d', p)
  {
    forall d', p | TablePath(p) || UserPath(p)
      ensures At(m', d', p).Some? ==> At(m', d', p) == At(m, d', p) && (UserPath(p) ==> d' != d)
      ensures UserPath(p) && EntryAt(m', d', p).Entry? ==> EntryAt(m', d', p) == EntryAt(m, d', p)
    {
      if d' != d { OthersWalk(m, m', d, t, d', p); } else if p != [] { SelfWalk(m, m', d, t, p); }
    }
  }

  lemma TornDownTable(m: Mem, m': Mem, d: nat, t: set<nat>, d': nat, p: seq<nat>)
    requires Consistent(m) && TornDown(m, m', d, t) && DevicePagesSafe(m, d)
    requires TablePath(p) && At(m', d', p).Some?
    ensures TableFrame(m', At(m', d', p).value)
  {
    var f := At(m', d', p).value;
    assert At(m, d, []) == Some(m.domains[d].value) && TablePath([]);
    if d' == d {
      if p != [] { SelfWalk(m, m', d, t, p); }
      assert IsTable(m, f);
      UserTablesExact(m, d, f);
      PagesExact(m, d, f);
    } else {
      OthersWalk(m, m', d, t, d', p);
      assert IsTable(m, f);
      UserTablesExact(m, d, f);
      StillUsed(m, m', d, t, d', p);
    }
    assert Pinned(m'.alloc, Addr(f)) <==> Pinned(m.alloc, Addr(f));
  }

  /** Frames given back are neither pinned, counted nor device memory exactly when d's device pages are safe. */
  lemma TornDownFree(m: Mem, m': Mem, d: nat, t: set<nat>)
    requires Consistent(m) && TornDown(m, m', d, t)
    ensures FreeOk(m') <==> DevicePagesSafe(m, d)
  {
    assert At(m, d, []) == Some(m.domains[d].value) && TablePath([]);
    assert forall f :: Pinned(m'.alloc, Addr(f)) <==> Pinned(m.alloc, Addr(f));
    if DevicePagesSafe(m, d) {
      forall f | IsFree(m'.alloc, f)
        ensures !Pinned(m'.alloc, Addr(f)) && Addr(f) !in m'.alloc.counts && f !in m'.device
      {
        PagesExact(m, d, f);
        UserTablesExact(m, d, f);
        GivenBack(m, m', d, t, f);
      }
    } else {
      var q :| LeafPath(q) && EntryAt(m, d, q).Entry? && EntryAt(m, d, q).flags.noCache
               && !(Pinned(m.alloc, Addr(EntryAt(m, d, q).frame)) || EntryAt(m, d, q).frame >= |m.alloc.used|);
      var f := EntryAt(m, d, q).frame;
      LeafAt(m, d, q);
      PagesExact(m, d, f);
      assert CountExact(m, f);
      assert IsFree(m'.alloc, f) && f in m'.device;
    }
  }

  lemma GivenBack(m: Mem, m': Mem, d: nat, t: set<nat>, f: nat)
    requires Consistent(m) && TornDown(m, m', d, t) && DevicePagesSafe(m, d) && IsFree(m'.alloc, f)
    requires f in Pages(m, d) <==> exists q :: LeafPath(q) && At(m, d, q) == Some(f)
    requires f in UserTables(m, d) <==> exists q :: TablePath(q) && q != [] && At(m, d, q) == Some(f)
    ensures !Pinned(m'.alloc, Addr(f)) && Addr(f) !in m'.alloc.counts && f !in m'.device
  {
    assert Addr(f) / FRAME_SIZE == f && Addr(f) % FRAME_SIZE == 0;
    assert Pinned(m'.alloc, Addr(f)) <==> Pinned(m.alloc, Addr(f));
    assert At(m, d, []) == Some(m.domains[d].value) && TablePath([]);
    if f in t {
      assert IsTable(m, f);
    } else if f in Pages(m, d) {
      var q :| LeafPath(q) && At(m, d, q) == Some(f);
      LeafAt(m, d, q);
    }
  }

  lemma TornDownMappers(m: Mem, m': Mem, d: nat, t: set<nat>, f: nat)
    requires TreeOk(m) && TornDown(m, m', d, t)
    ensures Mappers(m', f) == Mappers(m, f) - {d}
    ensures f in Pages(m, d) <==> d in Mappers(m, f)
  {
    PagesExact(m, d, f);
    forall d': nat ensures Maps(m', d', f) <==> d' != d && Maps(m, d', f) {
      forall q | LeafPath(q) ensures At(m', d', q) == if d' == d then None else At(m, d', q) {
        if d' == d { SelfWalk(m, m', d, t, q); } else { OthersWalk(m, m', d, t, d', q); }
      }
    }
  }

  lemma TornDownCounts(m: Mem, m': Mem, d: nat, t: set<nat>)
    requires TreeOk(m) && CountsExact(m) && TornDown(m, m', d, t)
    ensures CountsExact(m')
  {
    forall f ensures CountExact(m', f) {
      assert CountExact(m, f);
      TornDownMappers(m, m', d, t, f);
      assert Addr(f) / FRAME_SIZE == f && Addr(f) % FRAME_SIZE == 0;
    }
    SubsetSize(m'.alloc.counts.Keys, m.alloc.counts.Keys);
  }

  lemma TornDownWalks(m: Mem, m': Mem, d: nat, t: set<nat>)
    requires TreeOk(m) && TornDown(m, m', d, t)
    ensures forall d', q :: LeafPath(q) ==> At(m', d', q) == (if d' == d then None else At(m, d', q))
    ensures forall d', q :: LeafPath(q) ==> EntryAt(m', d', q) == (if d' == d then Unused else EntryAt(m, d', q))
  {
    forall d', q | LeafPath(q)
      ensures At(m', d', q) == (if d' == d then None else At(m, d', q))
      ensures EntryAt(m', d', q) == (if d' == d then Unused else EntryAt(m, d', q))
    {
      if d' == d { SelfWalk(m, m', d, t, q); } else { OthersWalk(m, m', d, t, d', q); }
    }
  }

  /** A frame two domains still map is still counted. */
  lemma TornDownShared(m: Mem, m': Mem, d: nat, t: set<nat>, d1: nat, d2: nat, f: nat)
    requires TreeOk(m) && CountsExact(m) && TornDown(m, m', d, t)
    requires d1 != d2 && d1 in Mappers(m', f) && d2 in Mappers(m', f) && Addr(f) in m.alloc.counts
    ensures Addr(f) in m'.alloc.counts
  {
    assert CountExact(m, f);
    TornDownMappers(m, m', d, t, f);
    TwoMembers(Mappers(m', f), d1, d2);
    SubsetSize(Mappers(m', f), Mappers(m, f));
    assert Addr(f) / FRAME_SIZE == f && Addr(f) % FRAME_SIZE == 0;
  }

  lemma TornDownKinds(m: Mem, m': Mem, d: nat, t: set<nat>)
    requires TreeOk(m) && LeafKinds(m) && TornDown(m, m', d, t)
    ensures LeafKinds(m')
  {
    assert forall f :: Pinned(m'.alloc, Addr(f)) <==> Pinned(m.alloc, Addr(f));
    TornDownWalks(m, m', d, t);
  }

  lemma TornDownUnique(m: Mem, m': Mem, d: nat, t: set<nat>)
    requires TreeOk(m) && LeafUnique(m) && CountsExact(m) && TornDown(m, m', d, t)
    ensures LeafUnique(m')
  {
    TornDownWalks(m, m', d, t);
    forall d1, p1, d2, p2 | LeafPath(p1) && LeafPath(p2) && At(m', d1, p1).Some? && At(m', d1, p1) == At(m', d2, p2)
      && !Device(m', At(m', d1, p1).value)
      ensures p1 == p2 && (Addr(At(m', d1, p1).value) !in m'.alloc.counts ==> d1 == d2)
    {
      var f := At(m', d1, p1).value;
      assert At(m, d1, p1) == At(m, d2, p2) == Some(f);
      if d1 != d2 {
        assert d1 in Mappers(m', f) && d2 in Mappers(m', f);
        TornDownShared(m, m', d, t, d1, d2, f);
      }
    }
  }

  /** A teardown keeps the accounting exactly when the domain's device pages are pinned or unmanaged. */
  lemma TornDownExact(m: Mem, m': Mem, d: nat, t: set<nat>)
    requires Consistent(m) && TornDown(m, m', d, t)
    ensures Consistent(m') <==> DevicePagesSafe(m, d)
  {
    TornDownFree(m, m', d, t);
    if DevicePagesSafe(m, d) {
      TornDownTree(m, m', d, t);
      TornDownCounts(m, m', d, t);
      TornDownKinds(m, m', d, t);
      TornDownUnique(m, m', d, t);
    }
  }

  lemma DestroyExact(m: Mem, d: nat)
    requires Consistent(m) && Live(m, d)
    ensures Consistent(Destroy(m, d)) <==> DevicePagesSafe(m, d)
    ensures forall d', q :: d' != d && LeafPath(q) ==> EntryAt(Destroy(m, d), d', q) == EntryAt(m, d', q)
  {
    var t := UserTables(m, d) + {m.domains[d].value};
    DestroyEffect(m, d);
    TornDownExact(m, Destroy(m, d), d, t);
    forall d', q | d' != d && LeafPath(q) ensures EntryAt(Destroy(m, d), d', q) == EntryAt(m, d', q) {
      OthersWalk(m, Destroy(m, d), d, t, d', q);
    }
  }

  lemma ResetExact(m: Mem, d: nat)
    requires Consistent(m) && Live(m, d)
    ensures Consistent(Reset(m, d)) <==> DevicePagesSafe(m, d)
    ensures forall d', q :: LeafPath(q) ==>
      EntryAt(Reset(m, d), d', q) == if d' == d then Unused else EntryAt(m, d', q)
  {
    FreeUserSpaceEffect(m, d, m.domains);
    assert m.(domains := m.domains) == m;
    TornDownExact(m, Reset(m, d), d, UserTables(m, d));
    forall d', q | LeafPath(q) ensures EntryAt(Reset(m, d), d', q) == if d' == d then Unused else EntryAt(m, d', q) {
      if d' == d { SelfWalk(m, Reset(m, d), d, UserTables(m, d), q); }
      else { OthersWalk(m, Reset(m, d), d, UserTables(m, d), d', q); }
    }
  }

  // ---- a new domain ----

  /** A new domain reuses the first empty slot, maps nothing, shares no table with anybody (its user
      entry is not copied), and leaves every other domain as it was. */
  lemma CreateOk(m: Mem, src: nat)
    requires Consistent(m) && Create(m, src).Some?
    ensures var (m', id) := Create(m, src).value;
            && Consistent(m') && !Live(m, id) && Live(m', id) && IsFree(m.alloc, m'.domains[id].value)
            && (forall d, p :: d != id && (TablePath(p) || UserPath(p)) ==> At(m', d, p) == At(m, d, p))
            && (forall d, p :: d != id && UserPath(p) ==> EntryAt(m', d, p) == EntryAt(m, d, p))
            && (forall p :: UserPath(p) ==> EntryAt(m', id, p).Unused? && At(m', id, p).None?)
  {
    var (m', id) := Create(m, src).value;
    forall d, p | d != id && (TablePath(p) || UserPath(p))
      ensures At(m', d, p) == At(m, d, p) && (p != [] ==> EntryAt(m', d, p) == EntryAt(m, d, p))
    {
      CreateOthers(m, src, d, p);
    }
    forall p | UserPath(p) ensures EntryAt(m', id, p).Unused? && At(m', id, p).None? { CreateEmpty(m, src, p); }
    CreateTree(m, src);
    CreateAccounting(m, src);
  }

  lemma CreateOthers(m: Mem, src: nat, d: nat, p: seq<nat>)
    requires TreeOk(m) && Create(m, src).Some? && d != Create(m, src).value.1 && (TablePath(p) || UserPath(p))
    ensures var m' := Create(m, src).value.0;
            At(m', d, p) == At(m, d, p) && (p != [] ==> EntryAt(m', d, p) == EntryAt(m, d, p))
  {
    var (m', id) := Create(m, src).value;
    if Live(m, d) {
      var root := m.domains[d].value;
      forall k | 0 <= k < |p| && Node(m.phys, root, p[..k]).Some?
        ensures Slot(m'.phys, Node(m.phys, root, p[..k]).value, p[k]) ==
          Slot(m.phys, Node(m.phys, root, p[..k]).value, p[k])
      {
        PrefixPath(p, k);
        assert At(m, d, p[..k]).Some?;
      }
      SameWalk(m.phys, m'.phys, root, p);
    }
  }

  lemma {:induction false} CreateEmpty(m: Mem, src: nat, p: seq<nat>)
    requires Create(m, src).Some? && UserPath(p)
    ensures var (m', id) := Create(m, src).value; EntryAt(m', id, p).Unused? && At(m', id, p).None?
    decreases |p|
  {
    var (m', id) := Create(m, src).value;
    if |p| == 1 {
      assert p[..0] == [] && At(m', id, []) == m'.domains[id];
    } else {
      CreateEmpty(m, src, p[..|p| - 1]);
    }
  }

  /** Where the tables and pages are after a creation. */
  lemma CreatePlaces(m: Mem, src: nat)
    requires TreeOk(m) && Create(m, src).Some?
    ensures var (m', id) := Create(m, src).value;
            && (forall d, p :: (TablePath(p) || UserPath(p)) && At(m', d, p).Some? ==>
                  At(m', d, p) == At(m, d, p) || (d == id && p == [] && At(m', d, p) == m'.domains[id]))
            && (forall d, p :: UserPath(p) ==> EntryAt(m', d, p).Unused? || EntryAt(m', d, p) == EntryAt(m, d, p))
  {
    var (m', id) := Create(m, src).value;
    forall d, p | TablePath(p) || UserPath(p)
      ensures At(m', d, p).Some? ==>
        At(m', d, p) == At(m, d, p) || (d == id && p == [] && At(m', d, p) == m'.domains[id])
      ensures UserPath(p) ==> EntryAt(m', d, p).Unused? || EntryAt(m', d, p) == EntryAt(m, d, p)
    {
      if d != id { CreateOthers(m, src, d, p); } else if p != [] { CreateEmpty(m, src, p); }
    }
  }

  lemma CreateTree(m: Mem, src: nat)
    requires Consistent(m) && Create(m, src).Some?
    ensures TreeOk(Create(m, src).value.0) && FreeOk(Create(m, src).value.0)
  {
    var (m', id) := Create(m, src).value;
    var f := m'.domains[id].value;
    CreatePlaces(m, src);
    forall x: nat | IsTable(m', x) ensures x == f || IsTable(m, x) {
      var d, p :| TablePath(p) && At(m', d, p) == Some(x);
    }
    assert forall x :: Pinned(m'.alloc, Addr(x)) <==> Pinned(m.alloc, Addr(x));
    forall d, p | TablePath(p) && At(m', d, p).Some? ensures TableFrame(m', At(m', d, p).value) {
      assert At(m', d, p).value == f || TableFrame(m, At(m, d, p).value);
    }
  }

  lemma CreateAccounting(m: Mem, src: nat)
    requires TreeOk(m) && LeafKinds(m) && LeafUnique(m) && CountsExact(m) && Create(m, src).Some?
    ensures var m' := Create(m, src).value.0; LeafKinds(m') && LeafUnique(m') && CountsExact(m')
  {
    var (m', id) := Create(m, src).value;
    assert forall x :: Pinned(m'.alloc, Addr(x)) <==> Pinned(m.alloc, Addr(x));
    forall d, p | LeafPath(p)
      ensures At(m', d, p) == At(m, d, p) && EntryAt(m', d, p) == EntryAt(m, d, p)
    {
      if d != id { CreateOthers(m, src, d, p); } else { CreateEmpty(m, src, p); LeafAt(m, d, p); }
    }
    forall f: nat ensures CountExact(m', f) {
      assert CountExact(m, f);
      forall d: nat ensures Maps(m', d, f) <==> Maps(m, d, f) {
        if Maps(m, d, f) { var p :| LeafPath(p) && At(m, d, p) == Some(f); assert At(m', d, p) == Some(f); }
      }
      assert Mappers(m', f) == Mappers(m, f);
    }
  }
}
