/** Page tables, address spaces and the loader as the kernel runs them (kernel/src/memory/paging.rs,
    domain.rs, exec.rs, the memory arms of syscall.rs): loops that change tables, frames and counts in
    place, proved against the value model. A false result is a kernel panic. */
module PageMachine {
  import opened Wrappers
  import opened Frames
  import opened Paging
  import opened Teardown
  import DM = DomainMemory
  import MS = MemorySteps
  import L = Loader
  import opened Elf
  import FA = FrameAllocator

  class PageMachine {
    const frames: FA.FrameAllocator
    var phys: Phys
    var domains: seq<Option<nat>>
    ghost const device: set<nat>

    ghost predicate Valid()
      reads this, frames, frames.bitmap, frames.bitmap.data, frames.shared
    {
      frames.Valid()
    }

    ghost function View(): (m: Mem)
      reads this, frames, frames.bitmap, frames.shared
    {
      Mem(frames.View(), phys, domains, device)
    }

    constructor (size: nat, sharedSlots: nat, maxPinned: nat, ghost device: set<nat>)
      ensures Valid() && fresh(frames) && View().phys == map[] && View().domains == [] && View().device == device
    {
      frames := new FA.FrameAllocator(size, sharedSlots, maxPinned);
      phys, domains := map[], [];
      this.device := device;
    }

    // ---- walks ----

    /** Follow slot i of table f, creating the next table if the slot is empty. None is a panic. */
    method NextTable(f: nat, i: nat) returns (r: Option<nat>)
      requires Valid()
      modifies this`phys, frames`freeFrames, frames.bitmap, frames.bitmap.data
      ensures Valid()
      ensures match Paging.NextTable(old(View()), f, i)
              case None => r == None
              case Some((m, g)) => r == Some(g) && View() == m
    {
      var e := Slot(phys, f, i);
      if e.Entry? {
        if e.flags.huge { return None; }
        return Some(e.frame);
      }
      var p := frames.AllocateFrame();
      if p.None? { return None; }
      var g := p.value / FRAME_SIZE;
      ghost var a := LowestFree(old(View()).alloc.used, 0).value;
      assert p.value == Addr(a) && Addr(a) / FRAME_SIZE == a;
      phys := SetSlot(phys, f, i, Entry(g, TABLE_FLAGS))[g := ZeroTable()];
      return Some(g);
    }

    /** `map_to`: three creating levels, then the entry; a page that is mapped already is a panic. */
    method MapTo(root: nat, p: seq<nat>, f: nat, flags: Flags) returns (ok: bool)
      requires Valid() && |p| == 4
      modifies this`phys, frames`freeFrames, frames.bitmap, frames.bitmap.data
      ensures Valid()
      ensures ok <==> Paging.MapTo(old(View()), root, p, f, flags).Some?
      ensures ok ==> View() == Paging.MapTo(old(View()), root, p, f, flags).value
    {
      var table := root;
      for k := 0 to 3
        invariant Valid() && Descend(old(View()), root, p, k) == Some((View(), table))
      {
        var next := NextTable(table, p[k]);
        if next.None? {
          DescendStops(old(View()), root, p, k + 1, 3);
          return false;
        }
        table := next.value;
      }
      if Slot(phys, table, p[3]).Entry? { return false; }
      phys := SetSlot(phys, table, p[3], Entry(f, flags));
      return true;
    }

    method MapUserPage(d: nat, va: nat, pa: nat, flags: Flags) returns (ok: bool)
      requires Valid()
      modifies this`phys, frames`freeFrames, frames.bitmap, frames.bitmap.data
      ensures Valid()
      ensures ok <==> MS.MapUserPage(old(View()), d, va, pa, flags).Some?
      ensures ok ==> View() == MS.MapUserPage(old(View()), d, va, pa, flags).value
    {
      if d >= |domains| || domains[d].None? || !Canonical(va) { return false; }
      ok := MapTo(domains[d].value, Path(va), pa / FRAME_SIZE, flags);
    }

    /** Empty the page's slot; None when nothing is mapped there. */
    method UnmapFrom(root: nat, p: seq<nat>) returns (r: Option<nat>)
      requires Valid() && |p| == 4
      modifies this`phys
      ensures Valid()
      ensures match Unmap(old(View()), root, p)
              case None => r == None && View() == old(View())
              case Some((m, f)) => r == Some(f) && View() == m
    {
      var table := root;
      for k := 0 to 3
        invariant View() == old(View()) && Walk(phys, root, p, k) == Some(table)
      {
        var e := Slot(phys, table, p[k]);
        if e.Unused? || e.flags.huge {
          WalkStops(phys, root, p, k + 1, 3);
          return None;
        }
        table := e.frame;
      }
      var e := Slot(phys, table, p[3]);
      if e.Unused? || e.flags.huge { return None; }
      phys := SetSlot(phys, table, p[3], Unused);
      return Some(e.frame);
    }

    // ---- tearing down ----

    /** Release every page of a page table. */
    method FreePt(pt: nat)
      requires Valid()
      modifies this`phys, frames`freeFrames, frames.bitmap, frames.bitmap.data, frames.shared
      ensures Valid() && View() == FreeTable(old(View()), pt, 1, 0)
    {
      for i := 0 to TABLE_LEN
        invariant Valid() && FreeTable(View(), pt, 1, i) == FreeTable(old(View()), pt, 1, 0)
      {
        var e := Slot(phys, pt, i);
        if e.Entry? {
          frames.ReleaseUserFrame(Addr(e.frame));
          phys := SetSlot(phys, pt, i, Unused);
        }
      }
    }

    /** Release a run of frames, as a 2 MiB entry holds. */
    method ReleaseRun(f: nat, n: nat)
      requires Valid()
      modifies frames`freeFrames, frames.bitmap, frames.bitmap.data, frames.shared
      ensures Valid() && View() == ReleaseFrames(old(View()), f, n)
    {
      for j := 0 to n
        invariant Valid() && View() == ReleaseFrames(old(View()), f, j)
      {
        frames.ReleaseUserFrame(Addr(f + j));
      }
    }

    method FreePd(pd: nat)
      requires Valid()
      modifies this`phys, frames`freeFrames, frames.bitmap, frames.bitmap.data, frames.shared
      ensures Valid() && View() == FreeTable(old(View()), pd, 2, 0)
    {
      for i := 0 to TABLE_LEN
        invariant Valid() && FreeTable(View(), pd, 2, i) == FreeTable(old(View()), pd, 2, 0)
      {
        var e := Slot(phys, pd, i);
        if e.Entry? {
          if e.flags.huge {
            ReleaseRun(e.frame, 512);
          } else {
            FreePt(e.frame);
            frames.FreeFrame(Addr(e.frame));
          }
          phys := SetSlot(phys, pd, i, Unused);
        }
      }
    }

    method FreePdpt(pdpt: nat)
      requires Valid()
      modifies this`phys, frames`freeFrames, frames.bitmap, frames.bitmap.data, frames.shared
      ensures Valid() && View() == FreeTable(old(View()), pdpt, 3, 0)
    {
      for i := 0 to TABLE_LEN
        invariant Valid() && FreeTable(View(), pdpt, 3, i) == FreeTable(old(View()), pdpt, 3, 0)
      {
        var e := Slot(phys, pdpt, i);
        if e.Entry? {
          FreePd(e.frame);
          frames.FreeFrame(Addr(e.frame));
          phys := SetSlot(phys, pdpt, i, Unused);
        }
      }
    }

    method FreeUserSpace(root: nat)
      requires Valid()
      modifies this`phys, frames`freeFrames, frames.bitmap, frames.bitmap.data, frames.shared
      ensures Valid() && View() == Teardown.FreeUserSpace(old(View()), root)
    {
      var e := Slot(phys, root, USER_P4);
      if e.Unused? { return; }
      FreePdpt(e.frame);
      frames.FreeFrame(Addr(e.frame));
      phys := SetSlot(phys, root, USER_P4, Unused);
    }

    // ---- domains ----

    /** A new domain in the first empty slot: a fresh PML4 with the kernel entries of `src`, user space empty. */
    method Create(src: nat) returns (r: Option<nat>)
      requires Valid()
      modifies this`phys, this`domains, frames`freeFrames, frames.bitmap, frames.bitmap.data
      ensures Valid()
      ensures match DM.Create(old(View()), src)
              case None => r == None
              case Some((m, id)) => r == Some(id) && View() == m
    {
      var id := 0;
      while id < |domains| && domains[id].Some?
        invariant 0 <= id <= |domains| && forall j :: 0 <= j < id ==> domains[j].Some?
      {
        id := id + 1;
      }
      assert id == DM.SlotFor(domains);
      var p := frames.AllocateFrame();
      if p.None? { return None; }
      ghost var a := LowestFree(old(View()).alloc.used, 0).value;
      assert p.value == Addr(a) && Addr(a) / FRAME_SIZE == a;
      var f := p.value / FRAME_SIZE;
      var entries := seq(TABLE_LEN, i => Unused);
      for i := 0 to TABLE_LEN
        invariant |entries| == TABLE_LEN
        invariant forall j :: 0 <= j < TABLE_LEN ==>
          entries[j] == if j < i && j != USER_P4 then Slot(phys, src, j) else Unused
      {
        if i != USER_P4 {
          var e := Slot(phys, src, i);
          if e.Entry? { entries := entries[i := e]; }
        }
      }
      assert Table(entries) == DM.KernelRoot(phys, src);
      phys := phys[f := Table(entries)];
      domains := if id < |domains| then domains[id := Some(f)] else domains + [Some(f)];
      return Some(id);
    }

    method Destroy(d: nat) returns (done: bool)
      requires Valid()
      modifies this`phys, this`domains, frames`freeFrames, frames.bitmap, frames.bitmap.data, frames.shared
      ensures Valid() && done == Live(old(View()), d)
      ensures View() == if done then DM.Destroy(old(View()), d) else old(View())
    {
      if d >= |domains| || domains[d].None? { return false; }
      var root := domains[d].value;
      domains := domains[d := None];
      FreeUserSpace(root);
      frames.FreeFrame(Addr(root));
      return true;
    }

    method Reset(d: nat) returns (done: bool)
      requires Valid()
      modifies this`phys, frames`freeFrames, frames.bitmap, frames.bitmap.data, frames.shared
      ensures Valid() && done == Live(old(View()), d)
      ensures View() == if done then DM.Reset(old(View()), d) else old(View())
    {
      if d >= |domains| || domains[d].None? { return false; }
      FreeUserSpace(domains[d].value);
      return true;
    }

    // ---- system calls ----

    /** SYS_ALLOC_PAGE and, with `zero`, SYS_MAP_ANON. */
    method AllocPage(d: nat, va: nat, granted: bool, zero: bool) returns (ok: bool, ret: nat)
      requires Valid()
      modifies this`phys, frames`freeFrames, frames.bitmap, frames.bitmap.data, frames.shared
      ensures Valid()
      ensures ok <==> MS.AllocPage(old(View()), d, va, granted, zero).Done?
      ensures ok ==> MS.Done(View(), ret) == MS.AllocPage(old(View()), d, va, granted, zero)
    {
      if !granted || !IsUserAddress(va) { return true, 0; }
      var p := frames.AllocateFrame();
      if p.None? { return true, 0; }
      ghost var a := LowestFree(old(View()).alloc.used, 0).value;
      assert p.value == Addr(a) && Addr(a) / FRAME_SIZE == a;
      if zero { phys := phys[p.value / FRAME_SIZE := MS.ZeroPage()]; }
      assert View() == MS.TakeWith(old(View()), a, MS.Contents(zero));
      ok := MapUserPage(d, va, p.value, FlagsFor(ReadWrite));
      if !ok { return false, 0; }
      frames.IncRef(p.value);
      return true, 1;
    }

    /** SYS_UNMAP. */
    method UnmapPage(d: nat, va: nat) returns (ok: bool, ret: nat)
      requires Valid()
      modifies this`phys, frames`freeFrames, frames.bitmap, frames.bitmap.data, frames.shared
      ensures Valid()
      ensures ok <==> MS.UnmapPage(old(View()), d, va).Done?
      ensures ok ==> MS.Done(View(), ret) == MS.UnmapPage(old(View()), d, va)
    {
      if d >= |domains| || domains[d].None? || !Addressable(va) { return false, 0; }
      var f := UnmapFrom(domains[d].value, Path(va));
      if f.None? { return true, 0; }
      var last := frames.DecRef(Addr(f.value));
      if last { frames.FreeFrame(Addr(f.value)); }
      return true, 1;
    }

    /** SYS_SHARE_PAGE: map the caller's page into the target at the same address, replacing another frame there. */
    method SharePage(src: nat, to: nat, va: nat, granted: bool) returns (ok: bool, ret: nat)
      requires Valid()
      modifies this`phys, frames`freeFrames, frames.bitmap, frames.bitmap.data, frames.shared
      ensures Valid()
      ensures ok <==> MS.SharePage(old(View()), src, to, va, granted).Done?
      ensures ok ==> MS.Done(View(), ret) == MS.SharePage(old(View()), src, to, va, granted)
    {
      if src >= |domains| || domains[src].None? { return false, 0; }
      if !granted || !IsUserAddress(va) { return true, 0; }
      var pa := Resolve(phys, domains[src].value, va);
      if pa.None? { return true, 0; }
      if to >= |domains| || domains[to].None? { return false, 0; }
      var was := Resolve(phys, domains[to].value, va);
      if was == pa { return true, 1; }
      ok := ReplacePage(to, va, pa.value, was.Some?);
      return ok, 1;
    }

    /** Unmap what the target has there, if anything, then map and count the shared frame. */
    method ReplacePage(to: nat, va: nat, pa: nat, occupied: bool) returns (ok: bool)
      requires Valid()
      modifies this`phys, frames`freeFrames, frames.bitmap, frames.bitmap.data, frames.shared
      ensures Valid()
      ensures var r := if !occupied then MS.ShareInto(old(View()), to, va, pa)
                       else match MS.UnmapPage(old(View()), to, va)
                            case Halt => MS.Halt
                            case Done(m, _) => MS.ShareInto(m, to, va, pa);
              (ok <==> r.Done?) && (ok ==> MS.Done(View(), 1) == r)
    {
      if occupied {
        var unmapped, _ := UnmapPage(to, va);
        if !unmapped { return false; }
      }
      ok := ShareInto(to, va, pa);
    }

    method ShareInto(to: nat, va: nat, pa: nat) returns (ok: bool)
      requires Valid()
      modifies this`phys, frames`freeFrames, frames.bitmap, frames.bitmap.data, frames.shared
      ensures Valid()
      ensures ok <==> MS.ShareInto(old(View()), to, va, pa).Done?
      ensures ok ==> MS.Done(View(), 1) == MS.ShareInto(old(View()), to, va, pa)
    {
      ok := MapUserPage(to, va, pa, FlagsFor(ReadWrite));
      if ok { frames.IncRef(pa); }
    }

    // ---- the loader ----

    method LoadPage(d: nat, va: nat, perm: UserPagePerm) returns (r: Option<bool>)
      requires Valid()
      modifies this`phys, frames`freeFrames, frames.bitmap, frames.bitmap.data
      ensures Valid()
      ensures match MS.LoadPage(old(View()), d, va, perm)
              case None => r == None && View() == old(View())
              case Some(Halt) => r == Some(false)
              case Some(Done(m, _)) => r == Some(true) && View() == m
    {
      var p := frames.AllocateFrame();
      if p.None? { return None; }
      ghost var a := LowestFree(old(View()).alloc.used, 0).value;
      assert p.value == Addr(a) && Addr(a) / FRAME_SIZE == a;
      phys := phys[p.value / FRAME_SIZE := MS.ZeroPage()];
      assert View() == MS.TakeWith(old(View()), a, Some(MS.ZeroPage()));
      var ok := MapUserPage(d, va, p.value, FlagsFor(perm));
      return Some(ok);
    }

    /** The union of the permissions of the segments that cover the page. */
    method PagePerm(segs: seq<Segment>, pv: nat) returns (r: Option<UserPagePerm>)
      ensures r == L.PagePerm(segs, pv)
    {
      var writable, executable := false, false;
      for i := 0 to |segs|
        invariant writable <==> L.WritableAt(segs[..i], pv)
        invariant executable <==> L.ExecutableAt(segs[..i], pv)
      {
        PermStep(segs, i, pv);
        var start, end := L.PageOf(segs[i].vaddr), segs[i].vaddr + segs[i].memsz;
        if pv >= start && pv < end {
          writable := writable || segs[i].Writable();
          executable := executable || segs[i].Executable();
        }
      }
      assert segs[..|segs|] == segs;
      if writable && executable { return None; }
      if executable { return Some(ReadExecute); }
      if writable { return Some(ReadWrite); }
      return Some(ReadOnly);
    }

    /** One visit of the first pass: map the page unless it is mapped already. */
    method VisitPage(d: nat, segs: seq<Segment>, pv: nat) returns (r: Option<bool>)
      requires Valid() && Live(View(), d)
      modifies this`phys, frames`freeFrames, frames.bitmap, frames.bitmap.data
      ensures Valid() && Ends(Visit(old(View()), d, segs, pv), r, View())
    {
      if Resolve(phys, domains[d].value, pv).Some? { return Some(true); }
      var perm := PagePerm(segs, pv);
      if perm.None? { return None; }
      r := LoadPage(d, pv, perm.value);
    }

    method VisitNext(
      d: nat, segs: seq<Segment>, ghost seg: Segment, pv: nat,
        ghost rest: seq<(Segment, nat)>) returns (r: Option<bool>)
      requires Valid() && Live(View(), d) && pv < seg.vaddr + seg.memsz
      modifies this`phys, frames`freeFrames, frames.bitmap, frames.bitmap.data
      ensures Valid()
      ensures var all := L.MapPages(old(View()), d, segs, L.SegmentWork(seg, pv) + rest);
              if r == Some(true) then all == L.MapPages(View(), d, segs, L.SegmentWork(seg, pv + FRAME_SIZE) + rest)
                else Ends(all, r, View())
    {
      VisitHead(View(), d, segs, seg, pv, rest);
      r := VisitPage(d, segs, pv);
    }

    /** The first pass over one segment; `rest` are the visits still to come after it. */
    method MapSegment(
      d: nat, segs: seq<Segment>, seg: Segment, ghost rest: seq<(Segment, nat)>) returns (r: Option<bool>)
      requires Valid() && Live(View(), d)
      modifies this`phys, frames`freeFrames, frames.bitmap, frames.bitmap.data
      ensures Valid()
      ensures var all := L.MapPages(old(View()), d, segs, L.SegmentWork(seg, L.PageOf(seg.vaddr)) + rest);
              if r == Some(true) then all == L.MapPages(View(), d, segs, rest) else Ends(all, r, View())
    {
      var end, pv := seg.vaddr + seg.memsz, L.PageOf(seg.vaddr);
      ghost var all := L.MapPages(View(), d, segs, L.SegmentWork(seg, pv) + rest);
      while pv < end
        invariant Valid() && all == L.MapPages(View(), d, segs, L.SegmentWork(seg, pv) + rest)
      {
        r := VisitNext(d, segs, seg, pv, rest);
        if r != Some(true) { return; }
        pv := pv + FRAME_SIZE;
      }
      assert L.SegmentWork(seg, pv) + rest == rest;
      return Some(true);
    }

    /** First pass of `map_image`. */
    method MapPages(d: nat, segs: seq<Segment>) returns (r: Option<bool>)
      requires Valid() && Live(View(), d)
      modifies this`phys, frames`freeFrames, frames.bitmap, frames.bitmap.data
      ensures Valid() && Ends(L.MapPages(old(View()), d, segs, L.Work(segs)), r, View())
    {
      for s := 0 to |segs|
        invariant Valid()
        invariant L.MapPages(View(), d, segs, L.Work(segs[s..])) == L.MapPages(old(View()), d, segs, L.Work(segs))
      {
        assert segs[s..][0] == segs[s] && segs[s..][1..] == segs[s + 1..];
        r := MapSegment(d, segs, segs[s], L.Work(segs[s + 1..]));
        if r != Some(true) { return; }
      }
      assert segs[|segs|..] == [];
      return Some(true);
    }

    /** One copy of the second pass. */
    method CopyNext(
      d: nat, image: seq<Byte>, seg: Segment, pv: nat, ghost rest: seq<(Segment, nat)>) returns (r: Option<bool>)
      requires Valid() && Live(View(), d) && pv < seg.vaddr + seg.memsz
      requires L.WorkOk(image, L.SegmentWork(seg, pv) + rest)
      modifies this`phys
      ensures Valid() && L.WorkOk(image, L.SegmentWork(seg, pv + FRAME_SIZE) + rest)
      ensures var all := L.CopyPages(old(View()), d, image, L.SegmentWork(seg, pv) + rest);
              if r == Some(true) then all == L.CopyPages(View(), d, image, L.SegmentWork(seg, pv + FRAME_SIZE) + rest)
                else Ends(all, r, View())
    {
      WorkHead(seg, pv, rest);
      WorkTail(image, seg, pv, rest);
      var pa := Resolve(phys, domains[d].value, pv);
      if pa.None? { return None; }
      var f := pa.value / FRAME_SIZE;
      if f in phys && phys[f].Data? && |phys[f].bytes| == FRAME_SIZE {
        phys := phys[f := Data(L.CopyOver(image, seg, pv, phys[f].bytes))];
      }
      return Some(true);
    }

    /** The second pass over one segment. */
    method CopySegment(
      d: nat, image: seq<Byte>, seg: Segment, ghost rest: seq<(Segment, nat)>) returns (r: Option<bool>)
      requires Valid() && Live(View(), d) && L.WorkOk(image, L.SegmentWork(seg, L.PageOf(seg.vaddr)) + rest)
      modifies this`phys
      ensures Valid() && L.WorkOk(image, rest)
      ensures var all := L.CopyPages(old(View()), d, image, L.SegmentWork(seg, L.PageOf(seg.vaddr)) + rest);
              if r == Some(true) then all == L.CopyPages(View(), d, image, rest) else Ends(all, r, View())
    {
      var end, pv := seg.vaddr + seg.memsz, L.PageOf(seg.vaddr);
      ghost var all := L.CopyPages(View(), d, image, L.SegmentWork(seg, pv) + rest);
      RestOk(image, seg, pv, rest);
      while pv < end
        invariant Valid() && L.WorkOk(image, L.SegmentWork(seg, pv) + rest)
        invariant all == L.CopyPages(View(), d, image, L.SegmentWork(seg, pv) + rest)
      {
        r := CopyNext(d, image, seg, pv, rest);
        if r != Some(true) { return; }
        pv := pv + FRAME_SIZE;
      }
      assert L.SegmentWork(seg, pv) + rest == rest;
      return Some(true);
    }

    /** Second pass of `map_image`. */
    method CopyPages(d: nat, image: seq<Byte>, segs: seq<Segment>) returns (r: Option<bool>)
      requires Valid() && Live(View(), d) && L.WorkOk(image, L.Work(segs))
      modifies this`phys
      ensures Valid() && Ends(L.CopyPages(old(View()), d, image, L.Work(segs)), r, View())
    {
      for s := 0 to |segs|
        invariant Valid() && L.WorkOk(image, L.Work(segs[s..]))
        invariant L.CopyPages(View(), d, image, L.Work(segs[s..])) == L.CopyPages(old(View()), d, image, L.Work(segs))
      {
        assert segs[s..][0] == segs[s] && segs[s..][1..] == segs[s + 1..];
        r := CopySegment(d, image, segs[s], L.Work(segs[s + 1..]));
        if r != Some(true) { return; }
      }
      assert segs[|segs|..] == [];
      return Some(true);
    }

    method MapStack(d: nat) returns (r: Option<bool>)
      requires Valid()
      modifies this`phys, frames`freeFrames, frames.bitmap, frames.bitmap.data
      ensures Valid() && Ends(L.MapStack(old(View()), d, 0), r, View())
    {
      for i := 0 to USER_STACK_PAGES
        invariant Valid() && L.MapStack(View(), d, i) == L.MapStack(old(View()), d, 0)
      {
        r := LoadPage(d, L.STACK_BASE + i * FRAME_SIZE, ReadWrite);
        if r != Some(true) { return; }
      }
      return Some(true);
    }

    /** Map the image's pages, copy its bytes, map the stack. */
    method MapImage(d: nat, image: seq<Byte>, segs: seq<Segment>) returns (r: Option<bool>)
      requires Valid() && Live(View(), d) && L.WorkOk(image, L.Work(segs))
      modifies this`phys, frames`freeFrames, frames.bitmap, frames.bitmap.data
      ensures Valid() && Ends(L.MapImage(old(View()), d, image, segs), r, View())
    {
      r := MapPages(d, segs);
      if r != Some(true) { return; }
      r := CopyPages(d, image, segs);
      if r != Some(true) { return; }
      r := MapStack(d);
    }
  }

  /** How a load ended: `None` is refused, `Some(false)` a panic, `Some(true)` loaded. */
  ghost predicate Ends(load: L.Load, r: Option<bool>, m: Mem) {
    match load
    case Panic => r == Some(false)
    case Refused(m') => r == None && m == m'
    case Loaded(m') => r == Some(true) && m == m'
  }

  /** One visit of the first pass. */
  ghost function Visit(m: Mem, d: nat, segs: seq<Segment>, pv: nat): (r: L.Load)
    requires Live(m, d)
  {
    if MS.ResolveUserPage(m, d, pv).Some? then L.Loaded(m)
    else match L.PagePerm(segs, pv)
      case None => L.Refused(m)
      case Some(perm) =>
        match MS.LoadPage(m, d, pv, perm)
        case None => L.Refused(m)
        case Some(Halt) => L.Panic
        case Some(Done(m', _)) => L.Loaded(m')
  }

  lemma VisitHead(m: Mem, d: nat, segs: seq<Segment>, seg: Segment, pv: nat, rest: seq<(Segment, nat)>)
    requires Live(m, d) && pv < seg.vaddr + seg.memsz
    ensures L.MapPages(m, d, segs, L.SegmentWork(seg, pv) + rest) ==
            match Visit(m, d, segs, pv)
            case Loaded(m') => L.MapPages(m', d, segs, L.SegmentWork(seg, pv + FRAME_SIZE) + rest)
            case r => r
  {
    WorkHead(seg, pv, rest);
  }

  lemma WorkHead(seg: Segment, pv: nat, rest: seq<(Segment, nat)>)
    requires pv < seg.vaddr + seg.memsz
    ensures var work := L.SegmentWork(seg, pv) + rest;
            work != [] && work[0] == (seg, pv) && work[1..] == L.SegmentWork(seg, pv + FRAME_SIZE) + rest
  {
  }

  lemma WorkTail(image: seq<Byte>, seg: Segment, pv: nat, rest: seq<(Segment, nat)>)
    requires pv < seg.vaddr + seg.memsz && L.WorkOk(image, L.SegmentWork(seg, pv) + rest)
    ensures L.FileOk(image, seg) && L.WorkOk(image, L.SegmentWork(seg, pv + FRAME_SIZE) + rest)
  {
    var work := L.SegmentWork(seg, pv) + rest;
    WorkHead(seg, pv, rest);
    assert L.FileOk(image, work[0].0);
    assert forall i :: 0 <= i < |work[1..]| ==> work[1..][i] == work[i + 1];
  }

  lemma RestOk(image: seq<Byte>, seg: Segment, pv: nat, rest: seq<(Segment, nat)>)
    requires L.WorkOk(image, L.SegmentWork(seg, pv) + rest)
    ensures L.WorkOk(image, rest)
  {
    var w := L.SegmentWork(seg, pv);
    assert forall i :: 0 <= i < |rest| ==> rest[i] == (w + rest)[|w| + i];
  }

  lemma {:induction false} DescendStops(m: Mem, root: nat, p: seq<nat>, k: nat, n: nat)
    requires k <= n <= |p| && Descend(m, root, p, k).None?
    ensures Descend(m, root, p, n).None?
  {
    if k < n { DescendStops(m, root, p, k, n - 1); }
  }

  lemma {:induction false} WalkStops(phys: Phys, root: nat, p: seq<nat>, k: nat, n: nat)
    requires k <= n <= |p| && Walk(phys, root, p, k).None?
    ensures Walk(phys, root, p, n).None?
  {
    if k < n { WalkStops(phys, root, p, k, n - 1); }
  }

  lemma PermStep(segs: seq<Segment>, i: nat, pv: nat)
    requires i < |segs|
    ensures L.WritableAt(segs[..i + 1], pv) <==>
      L.WritableAt(segs[..i], pv) || (L.Covers(segs[i], pv) && segs[i].Writable())
    ensures L.ExecutableAt(segs[..i + 1], pv) <==>
      L.ExecutableAt(segs[..i], pv) || (L.Covers(segs[i], pv) && segs[i].Executable())
  {
    var a, b := segs[..i], segs[..i + 1];
    assert forall j :: 0 <= j < i ==> b[j] == a[j];
    assert b[i] == segs[i];
    if j :| 0 <= j < |a| && L.Covers(a[j], pv) && a[j].Writable() { assert L.Covers(b[j], pv) && b[j].Writable(); }
    if j :| 0 <= j < |a| && L.Covers(a[j], pv) && a[j].Executable() { assert L.Covers(b[j], pv) && b[j].Executable(); }
    if L.Covers(segs[i], pv) { assert L.Covers(b[i], pv); }
  }
}
