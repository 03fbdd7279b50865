/** `spawn_elf` (kernel/src/exec.rs:29-64) on memory: when a load succeeds, is refused or panics, and
    that a failed spawn leaves the allocator and everybody's memory as they were. */
module Spawn {
  import opened Wrappers
  import opened Frames
  import opened Paging
  import opened Ownership
  import opened MemorySteps
  import opened Elf
  import opened Loader
  import opened LoadedImage

  // ---- the verdict of a load ----

  /** Some page would have to be writable and executable. */
  ghost predicate Conflict(segs: seq<Segment>) {
    exists pv: nat :: pv % FRAME_SIZE == 0 && PageConflict(segs, pv)
  }
  ghost predicate PageConflict(segs: seq<Segment>, pv: nat) { WritableAt(segs, pv) && ExecutableAt(segs, pv) }

  /** Some segment reaches into the stack pages. */
  ghost predicate HitsStack(segs: seq<Segment>) {
    exists i: nat :: i < USER_STACK_PAGES && CoversStackPage(segs, i)
  }

  ghost predicate CoversStackPage(segs: seq<Segment>, i: nat) { SomeCover(segs, STACK_BASE + i * FRAME_SIZE) }

  /** Some visit in `work` is to a page that would be writable and executable. */
  ghost predicate WorkConflict(segs: seq<Segment>, work: seq<(Segment, nat)>) {
    exists i :: 0 <= i < |work| && PagePerm(segs, work[i].1).None?
  }

  /** With four frames per visit the first pass never panics, and is refused exactly on a W^X conflict. */
  lemma {:induction false} MapPagesVerdict(
    m: Mem, d: nat, segs: seq<Segment>, done: seq<(Segment, nat)>, work: seq<(Segment, nat)>)
    requires Consistent(m) && Live(m, d) && Mapped(m, d, segs, done) && UserWork(done + work)
    requires FreeCount(m) >= 4 * |work|
    ensures var r := MapPages(m, d, segs, work);
            && !r.Panic? && (r.Refused? <==> WorkConflict(segs, work))
            && (r.Loaded? ==> FreeCount(r.mem) + 4 * |work| >= FreeCount(m))
    decreases |work|
  {
    if work != [] {
      var w, rest := work[0], work[1..];
      assert done + work == (done + [w]) + rest;
      assert UserWork(done + [w]) by { assert forall i :: 0 <= i <= |done| ==> (done + [w])[i] == (done + work)[i]; }
      ConflictHead(segs, work);
      if ResolveUserPage(m, d, w.1).Some? {
        MappedAgain(m, d, segs, done, w);
        MappedPerm(m, d, segs, done, w);
        MapPagesVerdict(m, d, segs, done + [w], rest);
      } else if PagePerm(segs, w.1).Some? {
        VerdictStep(m, d, segs, done, w);
        MapPagesVerdict(LoadPage(m, d, w.1, PagePerm(segs, w.1).value).value.mem, d, segs, done + [w], rest);
      }
    }
  }

  lemma MappedPerm(m: Mem, d: nat, segs: seq<Segment>, done: seq<(Segment, nat)>, w: (Segment, nat))
    requires Mapped(m, d, segs, done + [w])
    ensures PagePerm(segs, w.1).Some?
  {
    var all := done + [w];
    assert all[|done|] == w;
    assert ZeroPageAt(m, d, all[|done|].1, PagePerm(segs, all[|done|].1));
  }

  /** With four free frames, a visit to an unmapped page maps it. */
  lemma VerdictStep(m: Mem, d: nat, segs: seq<Segment>, done: seq<(Segment, nat)>, w: (Segment, nat))
    requires Consistent(m) && Live(m, d) && Mapped(m, d, segs, done) && UserWork(done + [w])
    requires FreeCount(m) >= 4 && ResolveUserPage(m, d, w.1).None? && PagePerm(segs, w.1).Some?
    ensures var r := LoadPage(m, d, w.1, PagePerm(segs, w.1).value);
            && r.Some? && r.value.Done? && Consistent(r.value.mem) && Live(r.value.mem, d)
            && Mapped(r.value.mem, d, segs, done + [w]) && FreeCount(r.value.mem) + 4 >= FreeCount(m)
  {
    assert (done + [w])[|done|] == w;
    SourceFrame(m, d, w.1);
    LoadRuns(m, d, w.1, PagePerm(segs, w.1).value);
    MapPagesStep(m, m, d, segs, done, w);
  }

  lemma ConflictHead(segs: seq<Segment>, work: seq<(Segment, nat)>)
    requires work != []
    ensures WorkConflict(segs, work) <==> PagePerm(segs, work[0].1).None? || WorkConflict(segs, work[1..])
  {
    if WorkConflict(segs, work[1..]) {
      var i :| 0 <= i < |work[1..]| && PagePerm(segs, work[1..][i].1).None?;
      assert work[1..][i] == work[i + 1];
    }
    if WorkConflict(segs, work) {
      var i :| 0 <= i < |work| && PagePerm(segs, work[i].1).None?;
      if i > 0 { assert work[1..][i - 1] == work[i]; }
    }
  }

  /** With frames to spare the stack goes in exactly when none of its pages is mapped; otherwise the kernel panics. */
  lemma {:induction false} MapStackVerdict(m: Mem, d: nat, i: nat)
    requires Consistent(m) && Live(m, d) && i <= USER_STACK_PAGES && FreeCount(m) >= 4 * (USER_STACK_PAGES - i)
    ensures var r := MapStack(m, d, i);
            !r.Refused? && (r.Panic? <==> exists j: nat :: i <= j < USER_STACK_PAGES && StackPageMapped(m, d, j))
    decreases USER_STACK_PAGES - i
  {
    if i < USER_STACK_PAGES {
      if StackPageMapped(m, d, i) {
        StackPanics(m, d, i);
      } else {
        StackStepRuns(m, d, i);
        MapStackVerdict(LoadPage(m, d, STACK_BASE + i * FRAME_SIZE, ReadWrite).value.mem, d, i + 1);
      }
    }
  }

  ghost predicate StackPageMapped(m: Mem, d: nat, j: nat) { EntryAt(m, d, Path(STACK_BASE + j * FRAME_SIZE)).Entry? }

  /** `map_user_page` panics on a page that is mapped already. */
  lemma StackPanics(m: Mem, d: nat, i: nat)
    requires Consistent(m) && Live(m, d) && i < USER_STACK_PAGES && FreeCount(m) >= 4 && StackPageMapped(m, d, i)
    ensures LoadPage(m, d, STACK_BASE + i * FRAME_SIZE, ReadWrite) == Some(Halt)
  {
    var pv := STACK_BASE + i * FRAME_SIZE;
    StackAddress(i);
    UserLeaf(pv);
    TakeRuns(m);
    var f := LowestFree(m.alloc.used, 0).value;
    var m1 := TakeWith(m, f, Some(ZeroPage()));
    TakeConsistent(m, f, Some(ZeroPage()));
    LeafAt(m1, d, Path(pv));
    assert EntryAt(m1, d, Path(pv)) == EntryAt(m, d, Path(pv));
    assert Addr(f) / FRAME_SIZE == f;
    MapToOk(m1, d, Path(pv), f, FlagsFor(ReadWrite));
  }

  lemma StackStepRuns(m: Mem, d: nat, i: nat)
    requires Consistent(m) && Live(m, d) && i < USER_STACK_PAGES && FreeCount(m) >= 4 && !StackPageMapped(m, d, i)
    ensures var r := LoadPage(m, d, STACK_BASE + i * FRAME_SIZE, ReadWrite);
            && r.Some? && r.value.Done? && Consistent(r.value.mem) && Live(r.value.mem, d)
            && FreeCount(r.value.mem) + 4 >= FreeCount(m)
            && forall j: nat :: i < j < USER_STACK_PAGES ==>
              (StackPageMapped(r.value.mem, d, j) <==> StackPageMapped(m, d, j))
  {
    var pv := STACK_BASE + i * FRAME_SIZE;
    StackAddress(i);
    LoadRuns(m, d, pv, ReadWrite);
    var m1 := LoadPage(m, d, pv, ReadWrite).value.mem;
    LoadPageKeeps(m, d, pv, ReadWrite);
    forall j: nat | i < j < USER_STACK_PAGES ensures StackPageMapped(m1, d, j) <==> StackPageMapped(m, d, j) {
      StackAddress(j);
      UserLeaf(STACK_BASE + j * FRAME_SIZE);
      PathInjective(STACK_BASE + j * FRAME_SIZE, pv);
    }
  }

  /** With enough memory, a load into an empty domain is refused exactly when some page would be writable
      and executable; otherwise it panics exactly when a segment reaches into the stack pages. */
  lemma LoadVerdict(m: Mem, d: nat, image: seq<Byte>, segs: seq<Segment>)
    requires Consistent(m) && Live(m, d) && Empty(m, d) && SegmentsOk(image, segs) && WorkOk(image, Work(segs))
    requires FreeCount(m) >= 4 * (|Work(segs)| + USER_STACK_PAGES)
    ensures var r := MapImage(m, d, image, segs);
            && (r.Refused? <==> Conflict(segs))
            && (r.Panic? <==> !Conflict(segs) && HitsStack(segs))
  {
    var work := Work(segs);
    WorkFits(image, segs);
    assert [] + work == work;
    MapPagesVerdict(m, d, segs, [], work);
    ConflictVisited(segs);
    if !Conflict(segs) { StackVerdict(m, d, image, segs); }
  }

  lemma ConflictVisited(segs: seq<Segment>)
    ensures Conflict(segs) <==> WorkConflict(segs, Work(segs))
  {
    var work := Work(segs);
    if Conflict(segs) {
      var pv: nat :| pv % FRAME_SIZE == 0 && PageConflict(segs, pv);
      assert SomeCover(segs, pv);
      WorkVisits(segs, pv);
      var i :| 0 <= i < |work| && work[i].1 == pv;
      assert PagePerm(segs, work[i].1).None?;
    }
    if WorkConflict(segs, work) {
      var i :| 0 <= i < |work| && PagePerm(segs, work[i].1).None?;
      WorkExact(segs, 0);
      assert work[i] in work;
      assert PageConflict(segs, work[i].1);
    }
  }

  lemma CopiesDone(m: Mem, d: nat, image: seq<Byte>, segs: seq<Segment>) returns (m2: Mem)
    requires Consistent(m) && Live(m, d) && Empty(m, d) && SegmentsOk(image, segs) && WorkOk(image, Work(segs))
    requires MapPages(m, d, segs, Work(segs)).Loaded?
    ensures var m1 := MapPages(m, d, segs, Work(segs)).mem;
            && CopyPages(m1, d, image, Work(segs)) == Loaded(m2) && m2.alloc == m1.alloc && SameEntries(m1, m2)
            && Consistent(m2) && Live(m2, d)
  {
    var m1 := MapPages(m, d, segs, Work(segs)).mem;
    StackAddress(0);
    FirstPassSees(m, d, image, segs, STACK_BASE);
    CopyPagesOk(m1, d, image, Work(segs), STACK_BASE);
    m2 := CopyPages(m1, d, image, Work(segs)).mem;
  }

  lemma StackVerdict(m: Mem, d: nat, image: seq<Byte>, segs: seq<Segment>)
    requires Consistent(m) && Live(m, d) && Empty(m, d) && SegmentsOk(image, segs) && WorkOk(image, Work(segs))
    requires MapPages(m, d, segs, Work(segs)).Loaded?
    requires FreeCount(MapPages(m, d, segs, Work(segs)).mem) >= 4 * USER_STACK_PAGES
    ensures var r := MapImage(m, d, image, segs); !r.Refused? && (r.Panic? <==> HitsStack(segs))
  {
    var m2 := CopiesDone(m, d, image, segs);
    MapStackVerdict(m2, d, 0);
    if j: nat :| j < USER_STACK_PAGES && CoversStackPage(segs, j) {
      StackPageCovered(m, m2, d, image, segs, j);
    }
    if j: nat :| j < USER_STACK_PAGES && StackPageMapped(m2, d, j) {
      StackPageCovered(m, m2, d, image, segs, j);
    }
  }

  lemma StackPageCovered(m: Mem, m2: Mem, d: nat, image: seq<Byte>, segs: seq<Segment>, j: nat)
    requires Consistent(m) && Live(m, d) && Empty(m, d) && SegmentsOk(image, segs) && j < USER_STACK_PAGES
    requires MapPages(m, d, segs, Work(segs)).Loaded? && SameEntries(MapPages(m, d, segs, Work(segs)).mem, m2)
    ensures StackPageMapped(m2, d, j) <==> CoversStackPage(segs, j)
  {
    StackAddress(j);
    UserLeaf(STACK_BASE + j * FRAME_SIZE);
    FirstPassSees(m, d, image, segs, STACK_BASE + j * FRAME_SIZE);
  }
}
