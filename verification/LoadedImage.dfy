/** What a domain sees after its image was loaded: for every user address, whether it is mapped, with
    which permission, and which byte it reads. */
module LoadedImage {
  import opened Wrappers
  import opened Frames
  import opened Paging
  import opened Ownership
  import opened MemorySteps
  import opened Elf
  import opened Loader

  /** The byte domain d reads at `va`. */
  ghost function UserByte(m: Mem, d: nat, va: nat): (r: Option<Byte>) {
    match EntryAt(m, d, Path(va))
    case Unused => None
    case Entry(f, _) => if IsPage(m, f) then Some(m.phys[f].bytes[va % FRAME_SIZE]) else None
  }

  predicate IsPage(m: Mem, f: nat) { f in m.phys && m.phys[f].Data? && |m.phys[f].bytes| == FRAME_SIZE }

  /** Every page of d is ordinary memory nobody else maps. */
  ghost predicate PlainPages(m: Mem, d: nat) {
    forall q :: LeafPath(q) && EntryAt(m, d, q).Entry? ==>
      && IsPage(m, EntryAt(m, d, q).frame) && !EntryAt(m, d, q).flags.noCache
      && Addr(EntryAt(m, d, q).frame) !in m.alloc.counts
  }

  /** Page and table frames keep their contents; free frames may have been taken. */
  ghost predicate KeepsPages(m1: Mem, m2: Mem) {
    forall x :: x in m1.phys && !IsFree(m1.alloc, x) && !IsTable(m1, x) ==> x in m2.phys && m2.phys[x] == m1.phys[x]
  }

  /** One loader step: a zeroed page appears at `va`; nothing else any domain maps changes, not even its contents. */
  lemma LoadPageEffect(m: Mem, d: nat, va: nat, perm: UserPagePerm)
    requires Consistent(m) && IsUserAddress(va)
    requires LoadPage(m, d, va, perm).Some? && LoadPage(m, d, va, perm).value.Done?
    ensures var m', p := LoadPage(m, d, va, perm).value.mem, Path(va);
            && Consistent(m') && LeafChange(m, m', d, p) && KeepsPages(m, m')
            && EntryAt(m, d, p).Unused? && EntryAt(m', d, p).Entry? && EntryAt(m', d, p).flags == FlagsFor(perm)
            && IsFree(m.alloc, EntryAt(m', d, p).frame) && m'.alloc.counts == m.alloc.counts
            && EntryAt(m', d, p).frame in m'.phys && m'.phys[EntryAt(m', d, p).frame] == ZeroPage()
  {
    var f := LowestFree(m.alloc.used, 0).value;
    var m1 := TakeWith(m, f, Some(ZeroPage()));
    TakeConsistent(m, f, Some(ZeroPage()));
    LoadPageKeeps(m, d, va, perm);
    NewLeafTree(m1, d, va, f, perm);
    LoadPageContents(m, m1, d, va, f, perm);
    UserLeaf(va);
    var m' := LoadPage(m, d, va, perm).value.mem;
    forall d', q | LeafPath(q) && !(d' == d && q == Path(va)) ensures EntryAt(m', d', q) == EntryAt(m, d', q) {
      assert EntryAt(m1, d', q) == EntryAt(m, d', q);
    }
  }

  lemma LoadPageContents(m: Mem, m1: Mem, d: nat, va: nat, f: nat, perm: UserPagePerm)
    requires TreeOk(m1) && FreeOk(m1) && IsUserAddress(va) && IsFree(m.alloc, f) && SameTables(m, m1)
    requires m1 == TakeWith(m, f, Some(ZeroPage())) && !IsTable(m1, f)
    requires MapUserPage(m1, d, va, Addr(f), FlagsFor(perm)).Some?
    ensures var m' := MapUserPage(m1, d, va, Addr(f), FlagsFor(perm)).value;
            KeepsPages(m, m') && f in m'.phys && m'.phys[f] == ZeroPage()
  {
    UserLeaf(va);
    assert Addr(f) / FRAME_SIZE == f;
    MapToOk(m1, d, Path(va), f, FlagsFor(perm));
    var m' := MapUserPage(m1, d, va, Addr(f), FlagsFor(perm)).value;
    forall x | x in m.phys && !IsFree(m.alloc, x) && !IsTable(m, x)
      ensures x in m'.phys && m'.phys[x] == m.phys[x]
    {
      SameTablesFacts(m, m1, x);
      assert !IsTable(m', x);
    }
  }

  // ---- the first pass ----

  /** What the other domains map, and the bytes there, is as in m0. */
  ghost predicate OthersKeep(m0: Mem, m: Mem, d: nat) {
    && m.domains == m0.domains
    && (forall d', q :: d' != d && LeafPath(q) ==> EntryAt(m, d', q) == EntryAt(m0, d', q))
    && (forall d', q :: d' != d && LeafPath(q) && EntryAt(m0, d', q).Entry? && EntryAt(m0, d', q).frame in m0.phys ==>
          && EntryAt(m0, d', q).frame in m.phys
          && m.phys[EntryAt(m0, d', q).frame] == m0.phys[EntryAt(m0, d', q).frame])
  }

  /** d maps exactly the pages visited in `done`, each zeroed and with its union permission. */
  ghost predicate Mapped(m: Mem, d: nat, segs: seq<Segment>, done: seq<(Segment, nat)>) {
    && (forall q :: LeafPath(q) && EntryAt(m, d, q).Entry? ==> exists i :: 0 <= i < |done| && Path(done[i].1) == q)
    && (forall i :: 0 <= i < |done| ==> ZeroPageAt(m, d, done[i].1, PagePerm(segs, done[i].1)))
  }

  ghost predicate ZeroPageAt(m: Mem, d: nat, va: nat, perm: Option<UserPagePerm>) {
    && perm.Some? && EntryAt(m, d, Path(va)).Entry? && EntryAt(m, d, Path(va)).flags == FlagsFor(perm.value)
    && EntryAt(m, d, Path(va)).frame in m.phys && m.phys[EntryAt(m, d, Path(va)).frame] == ZeroPage()
    && Addr(EntryAt(m, d, Path(va)).frame) !in m.alloc.counts
  }

  predicate UserWork(work: seq<(Segment, nat)>) {
    forall i :: 0 <= i < |work| ==> IsUserAddress(work[i].1) && Canonical(work[i].1) && work[i].1 % FRAME_SIZE == 0
  }

  lemma OthersKeepStep(m0: Mem, m: Mem, m': Mem, d: nat)
    requires OthersKeep(m0, m, d) && TreeOk(m) && KeepsPages(m, m') && m'.domains == m.domains
    requires forall d', q :: d' != d && LeafPath(q) ==> EntryAt(m', d', q) == EntryAt(m, d', q)
    ensures OthersKeep(m0, m', d)
  {
    forall d', q | d' != d && LeafPath(q) && EntryAt(m0, d', q).Entry? && EntryAt(m0, d', q).frame in m0.phys
      ensures EntryAt(m0, d', q).frame in m'.phys
      ensures m'.phys[EntryAt(m0, d', q).frame] == m0.phys[EntryAt(m0, d', q).frame]
    {
      var x := EntryAt(m0, d', q).frame;
      assert EntryAt(m, d', q) == EntryAt(m0, d', q);
      LeafAt(m, d', q);
      assert !IsFree(m.alloc, x) && !IsTable(m, x);
    }
  }

  /** One page mapped: the pages mapped before keep their zeroes and flags. */
  lemma MappedStep(m: Mem, m': Mem, d: nat, segs: seq<Segment>, done: seq<(Segment, nat)>, w: (Segment, nat))
    requires TreeOk(m) && Mapped(m, d, segs, done) && IsUserAddress(w.1) && UserWork(done)
    requires LeafChange(m, m', d, Path(w.1)) && KeepsPages(m, m') && EntryAt(m, d, Path(w.1)).Unused?
    requires ZeroPageAt(m', d, w.1, PagePerm(segs, w.1)) && m'.alloc.counts == m.alloc.counts
    ensures Mapped(m', d, segs, done + [w])
  {
    var all := done + [w];
    forall i | 0 <= i < |all| ensures ZeroPageAt(m', d, all[i].1, PagePerm(segs, all[i].1)) {
      if i < |done| {
        var q := Path(done[i].1);
        assert ZeroPageAt(m, d, done[i].1, PagePerm(segs, done[i].1));
        UserLeaf(done[i].1);
        LeafAt(m, d, q);
        assert EntryAt(m', d, q) == EntryAt(m, d, q);
        assert !IsFree(m.alloc, EntryAt(m, d, q).frame) && !IsTable(m, EntryAt(m, d, q).frame);
      }
    }
    forall q | LeafPath(q) && EntryAt(m', d, q).Entry? ensures exists i :: 0 <= i < |all| && Path(all[i].1) == q {
      if q == Path(w.1) {
        assert Path(all[|done|].1) == q;
      } else {
        var i :| 0 <= i < |done| && Path(done[i].1) == q;
        assert Path(all[i].1) == q;
      }
    }
  }

  /** A visit to a page that is mapped already changes nothing: its permission was the same union. */
  lemma MappedAgain(m: Mem, d: nat, segs: seq<Segment>, done: seq<(Segment, nat)>, w: (Segment, nat))
    requires TreeOk(m) && Mapped(m, d, segs, done) && UserWork(done + [w])
    requires Live(m, d) && ResolveUserPage(m, d, w.1).Some?
    ensures Mapped(m, d, segs, done + [w])
  {
    var all := done + [w];
    assert all[|done|] == w;
    SourceFrame(m, d, w.1);
    UserLeaf(w.1);
    var j :| 0 <= j < |done| && Path(done[j].1) == Path(w.1);
    assert all[j] == done[j];
    PathInjective(done[j].1, w.1);
    assert done[j].1 == w.1;
    forall i | 0 <= i < |all| ensures ZeroPageAt(m, d, all[i].1, PagePerm(segs, all[i].1)) {
      if i == |done| { assert ZeroPageAt(m, d, done[j].1, PagePerm(segs, done[j].1)); }
    }
    forall q | LeafPath(q) && EntryAt(m, d, q).Entry? ensures exists i :: 0 <= i < |all| && Path(all[i].1) == q {
      var i :| 0 <= i < |done| && Path(done[i].1) == q;
      assert Path(all[i].1) == q;
    }
  }

  lemma {:induction false} MapPagesOk(
    m0: Mem, m: Mem, d: nat, segs: seq<Segment>, done: seq<(Segment, nat)>, work: seq<(Segment, nat)>)
    requires Consistent(m) && Live(m, d) && OthersKeep(m0, m, d) && Mapped(m, d, segs, done) && UserWork(done + work)
    ensures var r := MapPages(m, d, segs, work);
            r.Loaded? ==> Consistent(r.mem) && OthersKeep(m0, r.mem, d) && Mapped(r.mem, d, segs, done + work)
    decreases |work|
  {
    if work == [] {
      assert done + work == done;
    } else {
      var w, rest := work[0], work[1..];
      assert done + work == (done + [w]) + rest;
      assert UserWork(done + [w]) by { assert forall i :: 0 <= i <= |done| ==> (done + [w])[i] == (done + work)[i]; }
      assert UserWork(done) by { assert forall i :: 0 <= i < |done| ==> done[i] == (done + work)[i]; }
      if ResolveUserPage(m, d, w.1).Some? {
        MappedAgain(m, d, segs, done, w);
        MapPagesOk(m0, m, d, segs, done + [w], rest);
      } else if PagePerm(segs, w.1).Some? {
        MapPagesStep(m0, m, d, segs, done, w);
        var perm := PagePerm(segs, w.1).value;
        if LoadPage(m, d, w.1, perm).Some? && LoadPage(m, d, w.1, perm).value.Done? {
          MapPagesOk(m0, LoadPage(m, d, w.1, perm).value.mem, d, segs, done + [w], rest);
        }
      }
    }
  }

  lemma MapPagesStep(m0: Mem, m: Mem, d: nat, segs: seq<Segment>, done: seq<(Segment, nat)>, w: (Segment, nat))
    requires Consistent(m) && Live(m, d) && OthersKeep(m0, m, d) && Mapped(m, d, segs, done) && UserWork(done + [w])
    requires ResolveUserPage(m, d, w.1).None? && PagePerm(segs, w.1).Some?
    ensures var r := LoadPage(m, d, w.1, PagePerm(segs, w.1).value);
            r.Some? && r.value.Done? ==>
              && Consistent(r.value.mem) && Live(r.value.mem, d) && OthersKeep(m0, r.value.mem, d)
              && Mapped(r.value.mem, d, segs, done + [w])
  {
    var perm := PagePerm(segs, w.1).value;
    var r := LoadPage(m, d, w.1, perm);
    assert (done + [w])[|done|] == w;
    assert UserWork(done) by { assert forall i :: 0 <= i < |done| ==> done[i] == (done + [w])[i]; }
    if r.Some? && r.value.Done? {
      LoadPageEffect(m, d, w.1, perm);
      MappedStep(m, r.value.mem, d, segs, done, w);
      OthersKeepStep(m0, m, r.value.mem, d);
    }
  }

  lemma MappedPlain(m: Mem, d: nat, segs: seq<Segment>, done: seq<(Segment, nat)>)
    requires Mapped(m, d, segs, done)
    ensures PlainPages(m, d)
  {
    forall q | LeafPath(q) && EntryAt(m, d, q).Entry?
      ensures IsPage(m, EntryAt(m, d, q).frame) && !EntryAt(m, d, q).flags.noCache
      ensures Addr(EntryAt(m, d, q).frame) !in m.alloc.counts
    {
      var i :| 0 <= i < |done| && Path(done[i].1) == q;
      assert ZeroPageAt(m, d, done[i].1, PagePerm(segs, done[i].1));
    }
  }

  // ---- the second pass, seen from one address ----

  /** The byte at v after the copies of `work`, starting from b. */
  ghost function CopyByte(image: seq<Byte>, work: seq<(Segment, nat)>, v: nat, b: Byte): (r: Byte)
    requires WorkOk(image, work)
    decreases |work|
  {
    if work == [] then b
    else
      var (s, pv) := work[0];
      CopyByte(image, work[1..], v, if PageOf(v) == pv && InFile(s, v) then image[s.offset + (v - s.vaddr)] else b)
  }

  ghost predicate SameEntries(m: Mem, m': Mem) {
    && m'.domains == m.domains
    && (forall d, q :: LeafPath(q) ==> EntryAt(m', d, q) == EntryAt(m, d, q))
    && (forall d, q :: TablePath(q) ==> At(m', d, q) == At(m, d, q))
  }

  lemma CopyStep(m: Mem, d: nat, image: seq<Byte>, s: Segment, pv: nat, v: nat)
    requires Consistent(m) && Live(m, d) && PlainPages(m, d) && FileOk(image, s)
    requires IsUserAddress(pv) && Canonical(pv) && pv % FRAME_SIZE == 0 && IsUserAddress(v) && Canonical(v)
    requires EntryAt(m, d, Path(pv)).Entry?
    ensures var m' := CopyInto(m, EntryAt(m, d, Path(pv)).frame, image, s, pv);
            && Consistent(m') && PlainPages(m', d) && SameEntries(m, m') && OthersKeep(m, m', d) && m'.alloc == m.alloc
            && UserByte(m', d, v) == match UserByte(m, d, v)
                                     case None => None
                                     case Some(b) => Some(CopyByte(image, [(s, pv)], v, b))
  {
    var f := EntryAt(m, d, Path(pv)).frame;
    var m' := CopyInto(m, f, image, s, pv);
    UserLeaf(pv);
    UserLeaf(v);
    LeafAt(m, d, Path(pv));
    assert IsPage(m, f) && !Device(m, f);
    assert !IsTable(m, f);
    SameTablesFresh(m, f, m'.phys[f]);
    SameTablesConsistent(m, m');
    forall d', q | d' != d && LeafPath(q) && EntryAt(m, d', q).Entry? ensures EntryAt(m, d', q).frame != f {
      LeafAt(m, d', q);
    }
    CopyStepByte(m, d, image, s, pv, v);
  }

  lemma CopyStepByte(m: Mem, d: nat, image: seq<Byte>, s: Segment, pv: nat, v: nat)
    requires LeafUnique(m) && PlainPages(m, d) && FileOk(image, s)
    requires IsUserAddress(pv) && Canonical(pv) && pv % FRAME_SIZE == 0 && IsUserAddress(v) && Canonical(v)
    requires EntryAt(m, d, Path(pv)).Entry? && !Device(m, EntryAt(m, d, Path(pv)).frame)
    requires var m' := CopyInto(m, EntryAt(m, d, Path(pv)).frame, image, s, pv); SameTables(m, m')
    ensures var m' := CopyInto(m, EntryAt(m, d, Path(pv)).frame, image, s, pv);
            UserByte(m', d, v) == match UserByte(m, d, v)
                                  case None => None
                                  case Some(b) => Some(CopyByte(image, [(s, pv)], v, b))
  {
    UserLeaf(pv);
    UserLeaf(v);
    LeafAt(m, d, Path(pv));
    LeafAt(m, d, Path(v));
    PathInjective(v, pv);
    var f := EntryAt(m, d, Path(pv)).frame;
    assert IsPage(m, f);
    if PageOf(v) == pv {
      assert v == pv + v % FRAME_SIZE;
    } else {
      assert Path(v) != Path(pv);
      assert EntryAt(m, d, Path(v)).Entry? ==> EntryAt(m, d, Path(v)).frame != f;
    }
  }

  /** The pages of `work` are mapped ordinary pages. */
  ghost predicate Ready(m: Mem, d: nat, image: seq<Byte>, work: seq<(Segment, nat)>) {
    && Live(m, d) && PlainPages(m, d) && UserWork(work) && WorkOk(image, work)
    && forall i :: 0 <= i < |work| ==> EntryAt(m, d, Path(work[i].1)).Entry?
  }

  /** m' is m after the copies of `work`: same mappings, and the byte at v is what those copies make of it. */
  ghost predicate Copied(m: Mem, m': Mem, d: nat, image: seq<Byte>, work: seq<(Segment, nat)>, v: nat)
    requires WorkOk(image, work)
  {
    && SameEntries(m, m') && OthersKeep(m, m', d) && m'.alloc == m.alloc
    && UserByte(m', d, v) == match UserByte(m, d, v)
                             case None => None
                             case Some(b) => Some(CopyByte(image, work, v, b))
  }

  /** The first copy of the list. */
  lemma CopyHead(m: Mem, d: nat, image: seq<Byte>, work: seq<(Segment, nat)>, v: nat) returns (m1: Mem)
    requires Consistent(m) && Ready(m, d, image, work) && work != [] && IsUserAddress(v) && Canonical(v)
    ensures Consistent(m1) && Ready(m1, d, image, work[1..]) && Copied(m, m1, d, image, work[..1], v)
    ensures CopyPages(m, d, image, work) == CopyPages(m1, d, image, work[1..])
  {
    var (s, pv) := work[0];
    var rest := work[1..];
    assert IsUserAddress(work[0].1) && Canonical(work[0].1) && FileOk(image, work[0].0) && pv % FRAME_SIZE == 0;
    SourceFrame(m, d, pv);
    UserLeaf(pv);
    var f := EntryAt(m, d, Path(pv)).frame;
    assert ResolveUserPage(m, d, pv).value / FRAME_SIZE == f;
    CopyStep(m, d, image, s, pv, v);
    m1 := CopyInto(m, f, image, s, pv);
    assert work[..1] == [(s, pv)];
    forall i | 0 <= i < |rest| ensures EntryAt(m1, d, Path(rest[i].1)).Entry? {
      assert rest[i] == work[i + 1];
      UserLeaf(rest[i].1);
    }
  }

  lemma CopiedTwice(m: Mem, m1: Mem, m2: Mem, d: nat, image: seq<Byte>, work: seq<(Segment, nat)>, v: nat)
    requires WorkOk(image, work) && work != []
    requires Copied(m, m1, d, image, work[..1], v) && Copied(m1, m2, d, image, work[1..], v)
    ensures Copied(m, m2, d, image, work, v)
  {
    assert work[..1] == [work[0]] && work[..1][1..] == [];
    if UserByte(m, d, v).Some? {
      var b := UserByte(m, d, v).value;
      var b1 := CopyByte(image, work[..1], v, b);
      assert b1 == CopyByte(image, [], v, if PageOf(v) == work[0].1 && InFile(work[0].0, v)
                                          then image[work[0].0.offset + (v - work[0].0.vaddr)] else b);
      assert CopyByte(image, work, v, b) == CopyByte(image, work[1..], v, b1);
    }
  }

  /** The second pass always goes through, and every address sees exactly the copies. */
  lemma {:induction false} CopyPagesOk(m: Mem, d: nat, image: seq<Byte>, work: seq<(Segment, nat)>, v: nat)
    requires Consistent(m) && Ready(m, d, image, work) && IsUserAddress(v) && Canonical(v)
    ensures var r := CopyPages(m, d, image, work);
            r.Loaded? && Consistent(r.mem) && PlainPages(r.mem, d) && Copied(m, r.mem, d, image, work, v)
    decreases |work|
  {
    if work != [] {
      var m1 := CopyHead(m, d, image, work, v);
      CopyPagesOk(m1, d, image, work[1..], v);
      CopiedTwice(m, m1, CopyPages(m, d, image, work).mem, d, image, work, v);
    }
  }

  // ---- the stack ----

  /** What the stack pages from i on add, seen from v. */
  ghost predicate Stacked(m: Mem, m': Mem, d: nat, i: nat, v: nat) {
    && OthersKeep(m, m', d)
    && if InStack(v) && v >= STACK_BASE + i * FRAME_SIZE
       then EntryAt(m, d, Path(v)).Unused? && UserByte(m', d, v) == Some(0)
            && EntryAt(m', d, Path(v)).flags == FlagsFor(ReadWrite)
       else UserByte(m', d, v) == UserByte(m, d, v) && EntryAt(m', d, Path(v)) == EntryAt(m, d, Path(v))
  }

  lemma {:induction false} MapStackOk(m: Mem, d: nat, i: nat, v: nat)
    requires Consistent(m) && PlainPages(m, d) && i <= USER_STACK_PAGES && IsUserAddress(v) && Canonical(v)
    requires Live(m, d)
    ensures var r := MapStack(m, d, i);
            r.Loaded? ==> Consistent(r.mem) && Stacked(m, r.mem, d, i, v)
    decreases USER_STACK_PAGES - i
  {
    if i < USER_STACK_PAGES {
      var r := LoadPage(m, d, STACK_BASE + i * FRAME_SIZE, ReadWrite);
      if r.Some? && r.value.Done? {
        StackStep(m, d, i, v);
        MapStackOk(r.value.mem, d, i + 1, v);
        StackedTwice(m, r.value.mem, MapStack(m, d, i), d, i, v);
      }
    }
  }

  /** Only v's own page changed, from unmapped to zeroes. */
  ghost predicate OnePage(m: Mem, m': Mem, d: nat, pv: nat, v: nat) {
    && OthersKeep(m, m', d)
    && if PageOf(v) == pv
       then EntryAt(m, d, Path(v)).Unused? && UserByte(m', d, v) == Some(0)
            && EntryAt(m', d, Path(v)).flags == FlagsFor(ReadWrite)
       else UserByte(m', d, v) == UserByte(m, d, v) && EntryAt(m', d, Path(v)) == EntryAt(m, d, Path(v))
  }

  lemma StackStep(m: Mem, d: nat, i: nat, v: nat)
    requires Consistent(m) && PlainPages(m, d) && i < USER_STACK_PAGES && IsUserAddress(v) && Canonical(v) && Live(m, d)
    requires var r := LoadPage(m, d, STACK_BASE + i * FRAME_SIZE, ReadWrite); r.Some? && r.value.Done?
    ensures var m1 := LoadPage(m, d, STACK_BASE + i * FRAME_SIZE, ReadWrite).value.mem;
            Consistent(m1) && PlainPages(m1, d) && Live(m1, d) && OnePage(m, m1, d, STACK_BASE + i * FRAME_SIZE, v)
  {
    var pv := STACK_BASE + i * FRAME_SIZE;
    var m1 := LoadPage(m, d, pv, ReadWrite).value.mem;
    StackAddress(i);
    LoadPageEffect(m, d, pv, ReadWrite);
    LoadPageByte(m, m1, d, pv, v);
    PlainStep(m, m1, d, Path(pv));
    OthersKeepStep(m, m, m1, d);
  }

  lemma StackedTwice(m: Mem, m1: Mem, r: Load, d: nat, i: nat, v: nat)
    requires i < USER_STACK_PAGES && OnePage(m, m1, d, STACK_BASE + i * FRAME_SIZE, v)
    ensures r.Loaded? && Stacked(m1, r.mem, d, i + 1, v) ==> Stacked(m, r.mem, d, i, v)
  {
    var pv := STACK_BASE + i * FRAME_SIZE;
    StackAddress(i);
    assert PageOf(v) == pv <==> pv <= v < pv + FRAME_SIZE;
  }

  lemma PlainStep(m: Mem, m': Mem, d: nat, p: seq<nat>)
    requires TreeOk(m) && PlainPages(m, d) && LeafChange(m, m', d, p) && KeepsPages(m, m')
    requires m'.alloc.counts == m.alloc.counts
    requires EntryAt(m', d, p).Entry? && !EntryAt(m', d, p).flags.noCache && IsPage(m', EntryAt(m', d, p).frame)
    requires Addr(EntryAt(m', d, p).frame) !in m.alloc.counts
    ensures PlainPages(m', d)
  {
    forall q | LeafPath(q) && EntryAt(m', d, q).Entry? && q != p ensures IsPage(m', EntryAt(m', d, q).frame) {
      LeafAt(m, d, q);
      assert EntryAt(m', d, q) == EntryAt(m, d, q);
    }
  }

  lemma StackAddress(i: nat)
    requires i < USER_STACK_PAGES
    ensures var pv := STACK_BASE + i * FRAME_SIZE;
            IsUserAddress(pv) && Canonical(pv) && pv % FRAME_SIZE == 0 && InStack(pv)
  {
  }

  /** A page mapped at pv is all an address can notice of it. */
  lemma LoadPageByte(m: Mem, m': Mem, d: nat, pv: nat, v: nat)
    requires TreeOk(m) && LeafChange(m, m', d, Path(pv)) && KeepsPages(m, m')
    requires IsUserAddress(pv) && Canonical(pv) && pv % FRAME_SIZE == 0 && IsUserAddress(v) && Canonical(v)
    requires EntryAt(m', d, Path(pv)).Entry? && EntryAt(m', d, Path(pv)).frame in m'.phys
    requires m'.phys[EntryAt(m', d, Path(pv)).frame] == ZeroPage() && PlainPages(m, d)
    ensures PageOf(v) == pv ==> Path(v) == Path(pv) && UserByte(m', d, v) == Some(0)
    ensures PageOf(v) != pv ==>
      UserByte(m', d, v) == UserByte(m, d, v) && EntryAt(m', d, Path(v)) == EntryAt(m, d, Path(v))
  {
    PathInjective(v, pv);
    UserLeaf(v);
    LeafAt(m, d, Path(v));
  }

  // ---- the bytes of the file ----

  /** The byte at v: the last segment in file order whose file bytes reach v decides, else b. */
  ghost function FileByte(image: seq<Byte>, segs: seq<Segment>, v: nat, b: Byte): (r: Byte)
    requires forall i :: 0 <= i < |segs| ==> FileOk(image, segs[i])
  {
    if segs == [] then b
    else
      var s := segs[0];
      assert FileOk(image, s);
      FileByte(image, segs[1..], v, if InFile(s, v) then image[s.offset + (v - s.vaddr)] else b)
  }

  lemma {:induction false} FileByteLast(image: seq<Byte>, segs: seq<Segment>, v: nat, b: Byte, i: nat)
    requires forall j :: 0 <= j < |segs| ==> FileOk(image, segs[j])
    requires i <= |segs| && forall j :: i < j < |segs| ==> !InFile(segs[j], v)
    requires i < |segs| ==> InFile(segs[i], v)
    requires i == |segs| ==> forall j :: 0 <= j < |segs| ==> !InFile(segs[j], v)
    ensures FileByte(image, segs, v, b) == if i < |segs| then image[segs[i].offset + (v - segs[i].vaddr)] else b
    decreases |segs|
  {
    if segs != [] {
      var b1: Byte := if InFile(segs[0], v) then image[segs[0].offset + (v - segs[0].vaddr)] else b;
      FileByteLast(image, segs[1..], v, b1, if i == 0 then |segs| - 1 else i - 1);
    }
  }

  lemma {:induction false} SegmentWorkByte(
    image: seq<Byte>, s: Segment, pv: nat, rest: seq<(Segment, nat)>, v: nat, b: Byte)
    requires FileOk(image, s) && s.filesz <= s.memsz && pv % FRAME_SIZE == 0
    requires WorkOk(image, rest) && WorkOk(image, SegmentWork(s, pv) + rest)
    ensures CopyByte(image, SegmentWork(s, pv) + rest, v, b) ==
            CopyByte(image, rest, v, if pv <= v && InFile(s, v) then image[s.offset + (v - s.vaddr)] else b)
    decreases s.vaddr + s.memsz - pv
  {
    if pv < s.vaddr + s.memsz {
      var next := SegmentWork(s, pv + FRAME_SIZE) + rest;
      assert SegmentWork(s, pv) + rest == [(s, pv)] + next;
      assert WorkOk(image, next) by {
        assert forall i :: 0 <= i < |next| ==> next[i] == (SegmentWork(s, pv) + rest)[i + 1];
      }
      var b1: Byte := if PageOf(v) == pv && InFile(s, v) then image[s.offset + (v - s.vaddr)] else b;
      assert ([(s, pv)] + next)[1..] == next;
      assert CopyByte(image, [(s, pv)] + next, v, b) == CopyByte(image, next, v, b1);
      SegmentWorkByte(image, s, pv + FRAME_SIZE, rest, v, b1);
      assert PageOf(v) == pv <==> pv <= v < pv + FRAME_SIZE;
    } else {
      assert SegmentWork(s, pv) + rest == rest;
    }
  }

  predicate SegmentsOk(image: seq<Byte>, segs: seq<Segment>) {
    forall i :: 0 <= i < |segs| ==> SegmentOk(segs[i], |image|)
  }

  lemma {:induction false} WorkFits(image: seq<Byte>, segs: seq<Segment>)
    requires SegmentsOk(image, segs)
    ensures WorkOk(image, Work(segs)) && UserWork(Work(segs))
  {
    var work := Work(segs);
    WorkExact(segs, 0);
    forall i | 0 <= i < |work| ensures FileOk(image, work[i].0) && IsUserAddress(work[i].1) && Canonical(work[i].1)
      ensures work[i].1 % FRAME_SIZE == 0
    {
      assert work[i] in work;
      var j :| 0 <= j < |segs| && segs[j] == work[i].0;
      assert SegmentOk(segs[j], |image|);
      CoveredIsUser(segs[j], work[i].1, |image|);
    }
  }

  lemma CoveredIsUser(s: Segment, pv: nat, n: nat)
    requires SegmentOk(s, n) && Covers(s, pv)
    ensures IsUserAddress(pv) && Canonical(pv)
  {
    assert PageOf(s.vaddr) >= USER_SPACE_BASE;
    assert pv / 0x80_0000_0000 == 1;
  }

  lemma {:induction false} WorkByte(image: seq<Byte>, segs: seq<Segment>, v: nat, b: Byte)
    requires SegmentsOk(image, segs)
    ensures WorkOk(image, Work(segs)) && CopyByte(image, Work(segs), v, b) == FileByte(image, segs, v, b)
    decreases |segs|
  {
    WorkFits(image, segs);
    if segs != [] {
      var s, rest := segs[0], segs[1..];
      WorkFits(image, rest);
      assert SegmentOk(s, |image|);
      SegmentWorkByte(image, s, PageOf(s.vaddr), Work(rest), v, b);
      WorkByte(image, rest, v, if InFile(s, v) then image[s.offset + (v - s.vaddr)] else b);
    }
  }

  // ---- the loaded image ----

  /** Domain d maps no user page. */
  ghost predicate Empty(m: Mem, d: nat) { forall q :: LeafPath(q) ==> EntryAt(m, d, q).Unused? }

  /** What d sees at v when its image, with v's byte b, is in place and the stack is not. */
  ghost predicate SeesFile(m: Mem, d: nat, segs: seq<Segment>, v: nat, b: Byte) {
    var e := EntryAt(m, d, Path(v));
    if SomeCover(segs, PageOf(v)) then
      && PagePerm(segs, PageOf(v)).Some? && e.Entry? && e.flags == FlagsFor(PagePerm(segs, PageOf(v)).value)
      && UserByte(m, d, v) == Some(b)
    else e.Unused?
  }

  /** What d sees at v when its image and stack are in place. */
  ghost predicate SeesImage(m: Mem, d: nat, image: seq<Byte>, segs: seq<Segment>, v: nat)
    requires SegmentsOk(image, segs)
  {
    var e := EntryAt(m, d, Path(v));
    if InStack(v) then e.Entry? && e.flags == FlagsFor(ReadWrite) && UserByte(m, d, v) == Some(0)
    else SeesFile(m, d, segs, v, FileByte(image, segs, v, 0))
  }

  /** A loaded page can be written exactly if it is stack or some segment on it is writable, and executed exactly if it
      is not stack and some segment on it is executable. */
  lemma LoadedPermissions(m: Mem, d: nat, image: seq<Byte>, segs: seq<Segment>, v: nat)
    requires SegmentsOk(image, segs) && SeesImage(m, d, image, segs, v) && EntryAt(m, d, Path(v)).Entry?
    ensures var flags := EntryAt(m, d, Path(v)).flags;
            && (flags.writable <==> InStack(v) || WritableAt(segs, PageOf(v)))
            && (flags.noExecute <==> InStack(v) || !ExecutableAt(segs, PageOf(v)))
            && !flags.noCache && !flags.huge
  {
    if !InStack(v) { assert PagePerm(segs, PageOf(v)).Some?; }
  }

  /** A load that succeeds gives d exactly its image and its stack, for every user address v, and leaves
      what the other domains see alone. */
  lemma LoadedImageOk(m: Mem, d: nat, image: seq<Byte>, segs: seq<Segment>, v: nat)
    requires Consistent(m) && Live(m, d) && Empty(m, d) && SegmentsOk(image, segs)
    requires IsUserAddress(v) && Canonical(v)
    requires WorkOk(image, Work(segs)) && MapImage(m, d, image, segs).Loaded?
    ensures var m' := MapImage(m, d, image, segs).mem;
            Consistent(m') && OthersKeep(m, m', d) && SeesImage(m', d, image, segs, v)
  {
    var m1 := MapPages(m, d, segs, Work(segs)).mem;
    FirstPassSees(m, d, image, segs, v);
    CopyPagesOk(m1, d, image, Work(segs), v);
    var m2 := CopyPages(m1, d, image, Work(segs)).mem;
    SecondPassSees(m1, m2, d, image, segs, v);
    MapStackOk(m2, d, 0, v);
    StackSees(m, m1, m2, MapStack(m2, d, 0).mem, d, image, segs, v);
  }

  lemma FirstPassSees(m: Mem, d: nat, image: seq<Byte>, segs: seq<Segment>, v: nat)
    requires Consistent(m) && Live(m, d) && Empty(m, d) && SegmentsOk(image, segs)
    requires IsUserAddress(v) && Canonical(v) && MapPages(m, d, segs, Work(segs)).Loaded?
    ensures var m1 := MapPages(m, d, segs, Work(segs)).mem;
            Consistent(m1) && OthersKeep(m, m1, d) && Ready(m1, d, image, Work(segs)) && SeesFile(m1, d, segs, v, 0)
  {
    var work := Work(segs);
    WorkFits(image, segs);
    assert [] + work == work;
    MapPagesOk(m, m, d, segs, [], work);
    var m1 := MapPages(m, d, segs, work).mem;
    WorkVisits(segs, PageOf(v));
    MappedSees(m1, d, segs, work, v);
    MappedReady(m1, d, image, segs, work);
  }

  lemma MappedReady(m: Mem, d: nat, image: seq<Byte>, segs: seq<Segment>, work: seq<(Segment, nat)>)
    requires Live(m, d) && Mapped(m, d, segs, work) && UserWork(work) && WorkOk(image, work)
    ensures Ready(m, d, image, work)
  {
    MappedPlain(m, d, segs, work);
    forall i | 0 <= i < |work| ensures EntryAt(m, d, Path(work[i].1)).Entry? {
      assert ZeroPageAt(m, d, work[i].1, PagePerm(segs, work[i].1));
    }
  }

  lemma SecondPassSees(m1: Mem, m2: Mem, d: nat, image: seq<Byte>, segs: seq<Segment>, v: nat)
    requires SegmentsOk(image, segs) && WorkOk(image, Work(segs)) && IsUserAddress(v)
    requires SeesFile(m1, d, segs, v, 0) && Copied(m1, m2, d, image, Work(segs), v)
    ensures SeesFile(m2, d, segs, v, FileByte(image, segs, v, 0))
  {
    UserLeaf(v);
    WorkByte(image, segs, v, 0);
  }

  lemma StackSees(m: Mem, m1: Mem, m2: Mem, m3: Mem, d: nat, image: seq<Byte>, segs: seq<Segment>, v: nat)
    requires SegmentsOk(image, segs) && SeesFile(m2, d, segs, v, FileByte(image, segs, v, 0))
    requires Stacked(m2, m3, d, 0, v)
    requires OthersKeep(m, m1, d) && OthersKeep(m1, m2, d)
    ensures OthersKeep(m, m3, d) && SeesImage(m3, d, image, segs, v)
  {
  }

  lemma SamePagePath(v: nat, pv: nat)
    requires IsUserAddress(v) && Canonical(v) && IsUserAddress(pv) && Canonical(pv) && pv % FRAME_SIZE == 0
    ensures Path(v) == Path(pv) <==> PageOf(v) == pv
  {
    PathInjective(v, pv);
  }

  /** A page is visited exactly when a segment covers it. */
  lemma WorkVisits(segs: seq<Segment>, pv: nat)
    requires pv % FRAME_SIZE == 0
    ensures (exists i :: 0 <= i < |Work(segs)| && Work(segs)[i].1 == pv) <==> SomeCover(segs, pv)
  {
    var work := Work(segs);
    WorkExact(segs, pv);
    if SomeCover(segs, pv) {
      var w :| w in work && w.1 == pv;
      var i :| 0 <= i < |work| && work[i] == w;
    }
  }

  lemma WorkPath(work: seq<(Segment, nat)>, i: nat, v: nat)
    requires UserWork(work) && i < |work| && IsUserAddress(v) && Canonical(v)
    ensures Path(work[i].1) == Path(v) <==> work[i].1 == PageOf(v)
  {
    SamePagePath(v, work[i].1);
  }

  /** After the first pass v is mapped exactly when a segment covers its page, and reads zero. */
  lemma MappedSees(m: Mem, d: nat, segs: seq<Segment>, work: seq<(Segment, nat)>, v: nat)
    requires Mapped(m, d, segs, work) && UserWork(work) && IsUserAddress(v) && Canonical(v)
    requires (exists i :: 0 <= i < |work| && work[i].1 == PageOf(v)) <==> SomeCover(segs, PageOf(v))
    ensures EntryAt(m, d, Path(v)).Entry? <==> SomeCover(segs, PageOf(v))
    ensures EntryAt(m, d, Path(v)).Entry? ==> ZeroPageAt(m, d, v, PagePerm(segs, PageOf(v)))
  {
    if i :| 0 <= i < |work| && work[i].1 == PageOf(v) {
      VisitSees(m, d, segs, work, i, v);
    } else {
      UnvisitedUnmapped(m, d, segs, work, v);
    }
  }

  lemma UnvisitedUnmapped(m: Mem, d: nat, segs: seq<Segment>, work: seq<(Segment, nat)>, v: nat)
    requires Mapped(m, d, segs, work) && UserWork(work) && IsUserAddress(v) && Canonical(v)
    requires forall i :: 0 <= i < |work| ==> work[i].1 != PageOf(v)
    ensures EntryAt(m, d, Path(v)).Unused?
  {
    UserLeaf(v);
    forall i | 0 <= i < |work| ensures Path(work[i].1) != Path(v) { WorkPath(work, i, v); }
  }

  lemma VisitSees(m: Mem, d: nat, segs: seq<Segment>, work: seq<(Segment, nat)>, i: nat, v: nat)
    requires Mapped(m, d, segs, work) && UserWork(work) && i < |work| && IsUserAddress(v) && Canonical(v)
    requires work[i].1 == PageOf(v)
    ensures ZeroPageAt(m, d, v, PagePerm(segs, PageOf(v)))
  {
    WorkPath(work, i, v);
    assert ZeroPageAt(m, d, work[i].1, PagePerm(segs, work[i].1));
  }
}
