/** The exact verdict of a load, however few frames are free: `FrameNeeds` counts on index paths what the loader does
    on memory. */
module LoadFrames {
  import opened Wrappers
  import opened Frames
  import opened Paging
  import opened Ownership
  import opened MemorySteps
  import opened DomainMemory
  import opened Elf
  import opened Loader
  import opened LoadedImage
  import opened Spawn
  import opened FrameNeeds

  /** Domain d has exactly the pages `done` and the tables above them. */
  ghost predicate Built(m: Mem, d: nat, done: Paths) {
    && Live(m, d) && (forall i :: 0 <= i < |done| ==> LeafPath(done[i]))
    && (forall q :: UserPath(q) ==> (At(m, d, q).Some? <==> Below(done, q)))
  }

  lemma BuiltPage(m: Mem, d: nat, done: Paths, p: seq<nat>)
    requires Built(m, d, done) && LeafPath(p)
    ensures EntryAt(m, d, p).Entry? <==> p in done
  {
    LeafAt(m, d, p);
    CostZero(done, p);
    assert p[..4] == p;
    if Below(done, p) { var i :| 0 <= i < |done| && OnPath(p, done[i]); assert done[i][..4] == done[i]; }
    if p in done { var i :| 0 <= i < |done| && done[i] == p; assert OnPath(p, done[i]); }
  }

  lemma {:induction false} MissingFresh(m: Mem, d: nat, done: Paths, p: seq<nat>, k: nat)
    requires Built(m, d, done) && LeafPath(p) && k <= 3
    ensures Missing(m, d, p, k) == Fresh(done, p, k)
  {
    if k > 0 {
      MissingFresh(m, d, done, p, k - 1);
      assert UserPath(p[..k]);
    }
  }

  /** A page that is not there costs its missing tables and itself. */
  lemma CostMissing(m: Mem, d: nat, done: Paths, p: seq<nat>)
    requires Built(m, d, done) && LeafPath(p) && p !in done
    ensures Cost(done, p) == Missing(m, d, p, 3) + 1
  {
    MissingFresh(m, d, done, p, 3);
    BuiltPage(m, d, done, p);
    LeafAt(m, d, p);
    assert p[..4] == p;
  }

  lemma BelowAppend(done: Paths, p: seq<nat>, q: seq<nat>)
    ensures Below(done + [p], q) <==> Below(done, q) || OnPath(q, p)
  {
    var all := done + [p];
    assert all[|done|] == p;
    if Below(done, q) { var i :| 0 <= i < |done| && OnPath(q, done[i]); assert OnPath(q, all[i]); }
    if OnPath(q, p) { assert OnPath(q, all[|done|]); }
  }

  /** After page p was mapped d has the pages `done` and p. */
  lemma BuiltNext(m: Mem, m': Mem, d: nat, done: Paths, p: seq<nat>)
    requires Built(m, d, done) && LeafPath(p) && m'.domains == m.domains && EntryAt(m', d, p).Entry?
    requires SameOffPath(m, m', d, p) && SameLeaves(m, m', d, p)
    ensures Built(m', d, done + [p])
  {
    forall q | UserPath(q) ensures At(m', d, q).Some? <==> Below(done + [p], q) {
      BelowAppend(done, p, q);
      if OnPath(q, p) {
        LeafAt(m', d, p);
        if |q| < 4 { Teardown.PrefixSome(m', d, p, |q|); } else { assert p[..4] == p; }
      } else if |q| == 4 {
        LeafAt(m, d, q);
        LeafAt(m', d, q);
      }
    }
  }

  // ---- one page ----

  lemma TakenBuilt(m: Mem, d: nat, done: Paths, f: nat)
    requires Consistent(m) && IsFree(m.alloc, f) && Built(m, d, done)
    ensures var m1 := TakeWith(m, f, Some(ZeroPage())); Consistent(m1) && Built(m1, d, done)
    ensures var m1 := TakeWith(m, f, Some(ZeroPage())); !IsTable(m1, f) && !IsFree(m1.alloc, f)
  {
    TakeConsistent(m, f, Some(ZeroPage()));
  }

  /** A loader step: no free frame is a refusal; a page that is there, or fewer frames than it costs, a panic;
      otherwise it takes exactly its cost. */
  lemma LoadPageExact(m: Mem, d: nat, done: Paths, va: nat, perm: UserPagePerm)
    requires Consistent(m) && Built(m, d, done) && IsUserAddress(va) && Canonical(va)
    ensures var r, free, p := LoadPage(m, d, va, perm), FreeCount(m), Path(va);
            && (free == 0 ==> r.None?)
            && (free > 0 && (p in done || free < Cost(done, p)) ==> r == Some(Halt))
            && (free > 0 && p !in done && free >= Cost(done, p) ==>
                  && r.Some? && r.value.Done? && Consistent(r.value.mem) && Built(r.value.mem, d, done + [p])
                  && FreeCount(r.value.mem) + Cost(done, p) == free)
  {
    AllUsed(m.alloc.used, |m.alloc.used|);
    if FreeCount(m) > 0 {
      TakeRuns(m);
      var f := LowestFree(m.alloc.used, 0).value;
      TakenBuilt(m, d, done, f);
      var m1 := TakeWith(m, f, Some(ZeroPage()));
      MapExact(m1, d, done, va, f, perm);
      LoadPageKeeps(m, d, va, perm);
    }
  }

  lemma MapExact(m: Mem, d: nat, done: Paths, va: nat, f: nat, perm: UserPagePerm)
    requires TreeOk(m) && FreeOk(m) && Built(m, d, done) && IsUserAddress(va) && Canonical(va)
    requires !IsTable(m, f) && !IsFree(m.alloc, f)
    ensures var r, p := MapUserPage(m, d, va, Addr(f), FlagsFor(perm)), Path(va);
            && (r.Some? <==> p !in done && FreeCount(m) + 1 >= Cost(done, p))
            && (r.Some? ==> Built(r.value, d, done + [p]) && FreeCount(r.value) + Cost(done, p) == FreeCount(m) + 1)
  {
    var p := Path(va);
    UserLeaf(va);
    assert Addr(f) / FRAME_SIZE == f;
    MapToOk(m, d, p, f, FlagsFor(perm));
    BuiltPage(m, d, done, p);
    LeafAt(m, d, p);
    if p !in done { CostMissing(m, d, done, p); }
    var r := MapUserPage(m, d, va, Addr(f), FlagsFor(perm));
    if r.Some? { BuiltNext(m, r.value, d, done, p); }
  }

  // ---- the loops ----

  ghost function SegmentVisits(segs: seq<Segment>, work: seq<(Segment, nat)>): (vs: seq<Visit>)
    ensures |vs| == |work|
    ensures forall i :: 0 <= i < |work| ==> vs[i] == Segmented(Path(work[i].1), PagePerm(segs, work[i].1).Some?)
  {
    seq(|work|, i requires 0 <= i < |work| => Segmented(Path(work[i].1), PagePerm(segs, work[i].1).Some?))
  }

  function StackVisits(i: nat): (vs: seq<Visit>)
    requires i <= USER_STACK_PAGES
    ensures |vs| == USER_STACK_PAGES - i
    ensures forall j :: 0 <= j < |vs| ==> vs[j] == Stack(Path(STACK_BASE + (i + j) * FRAME_SIZE))
  {
    seq(USER_STACK_PAGES - i, j requires 0 <= j < USER_STACK_PAGES - i =>
      Stack(Path(STACK_BASE + (i + j) * FRAME_SIZE)))
  }

  /** The loader's result is the one counted. */
  ghost predicate Matches(r: Load, o: Fate) {
    && (r.Panic? <==> o.Dies?) && (r.Refused? <==> o.Short?) && (r.Loaded? <==> o.Fits?)
    && (r.Loaded? ==> FreeCount(r.mem) == o.left)
  }

  /** What a loader step at `va` does, for a state of which P holds with the pages `done`. */
  ghost predicate StepAs(P: (Mem, Paths) -> bool, m: Mem, d: nat, done: Paths, va: nat, perm: UserPagePerm) {
    var r, free, p := LoadPage(m, d, va, perm), FreeCount(m), Path(va);
    && Live(m, d) && (ResolveUserPage(m, d, va).Some? <==> p in done) && (p in done ==> P(m, done + [p]))
    && (free == 0 ==> r.None?)
    && (free > 0 && (p in done || free < Cost(done, p)) ==> r == Some(Halt))
    && (free > 0 && p !in done && free >= Cost(done, p) ==>
          && r.Some? && r.value.Done? && P(r.value.mem, done + [p])
          && FreeCount(r.value.mem) + Cost(done, p) == free)
  }

  ghost predicate Lawful(P: (Mem, Paths) -> bool, d: nat) {
    forall m, done, va, perm :: P(m, done) && IsUserAddress(va) && Canonical(va) ==> StepAs(P, m, d, done, va, perm)
  }

  ghost function Stage(d: nat): (P: (Mem, Paths) -> bool) { (m, done) => Consistent(m) && Built(m, d, done) }

  lemma StageLawful(d: nat)
    ensures Lawful(Stage(d), d)
  {
    forall m, done, va, perm | Stage(d)(m, done) && IsUserAddress(va) && Canonical(va)
      ensures StepAs(Stage(d), m, d, done, va, perm)
    {
      ThereAlready(m, d, done, va);
      if Path(va) in done { BuiltAgain(m, d, done, Path(va)); }
      LoadPageExact(m, d, done, va, perm);
    }
  }

  lemma ThereAlready(m: Mem, d: nat, done: Paths, va: nat)
    requires TreeOk(m) && Built(m, d, done) && IsUserAddress(va)
    ensures ResolveUserPage(m, d, va).Some? <==> Path(va) in done
  {
    UserLeaf(va);
    SourceFrame(m, d, va);
    BuiltPage(m, d, done, Path(va));
  }

  lemma BuiltAgain(m: Mem, d: nat, done: Paths, p: seq<nat>)
    requires Built(m, d, done) && p in done
    ensures Built(m, d, done + [p])
  {
    var i :| 0 <= i < |done| && done[i] == p;
    forall q | UserPath(q) ensures Below(done + [p], q) <==> Below(done, q) {
      BelowAppend(done, p, q);
      if OnPath(q, p) { assert OnPath(q, done[i]); }
    }
  }

  lemma {:induction false} MapPagesOutcome(
    P: (Mem, Paths) -> bool, m: Mem, d: nat, segs: seq<Segment>, done: Paths, work: seq<(Segment, nat)>)
    requires P(m, done) && Lawful(P, d) && UserWork(work)
    ensures var r, vs := MapPages(m, d, segs, work), SegmentVisits(segs, work);
            && Matches(r, LoadFate(FreeCount(m), done, vs))
            && (r.Loaded? ==> P(r.mem, done + PathsOf(vs)))
    decreases |work|
  {
    if work == [] {
      assert done + PathsOf(SegmentVisits(segs, work)) == done;
    } else {
      var pv, rest := work[0].1, work[1..];
      var p, perm := Path(pv), if PagePerm(segs, pv).Some? then PagePerm(segs, pv).value else ReadOnly;
      assert IsUserAddress(work[0].1) && Canonical(work[0].1);
      assert StepAs(P, m, d, done, pv, perm);
      VisitsTail(segs, work, done);
      if p in done {
        MapPagesOutcome(P, m, d, segs, done + [p], rest);
      } else if PagePerm(segs, pv).Some? && FreeCount(m) > 0 && FreeCount(m) >= Cost(done, p) {
        var m' := LoadPage(m, d, pv, perm).value.mem;
        assert MapPages(m, d, segs, work) == MapPages(m', d, segs, rest);
        MapPagesOutcome(P, m', d, segs, done + [p], rest);
      }
    }
  }

  lemma VisitsTail(segs: seq<Segment>, work: seq<(Segment, nat)>, done: Paths)
    requires work != []
    ensures var vs, p := SegmentVisits(segs, work), Path(work[0].1);
            && vs != [] && vs[0] == Segmented(p, PagePerm(segs, work[0].1).Some?)
            && vs[1..] == SegmentVisits(segs, work[1..])
            && done + PathsOf(vs) == (done + [p]) + PathsOf(SegmentVisits(segs, work[1..]))
  {
    var vs := SegmentVisits(segs, work);
    assert vs[1..] == SegmentVisits(segs, work[1..]);
    PathsTail(vs, done);
  }

  lemma PathsTail(vs: seq<Visit>, done: Paths)
    requires vs != []
    ensures done + PathsOf(vs) == (done + [vs[0].path]) + PathsOf(vs[1..])
  {
    var l, r, n := done + PathsOf(vs), (done + [vs[0].path]) + PathsOf(vs[1..]), |done|;
    assert |l| == |r|;
    forall i | 0 <= i < |l| ensures l[i] == r[i] {
      if i > n { assert l[i] == vs[i - n].path && r[i] == vs[1..][i - n - 1].path; }
    }
  }

  lemma StackTail(i: nat)
    requires i < USER_STACK_PAGES
    ensures StackVisits(i) != [] && StackVisits(i)[0] == Stack(Path(STACK_BASE + i * FRAME_SIZE))
    ensures StackVisits(i)[1..] == StackVisits(i + 1)
  {
    var vs, rest := StackVisits(i), StackVisits(i + 1);
    forall j | 0 <= j < |rest| ensures vs[1..][j] == rest[j] { assert vs[j + 1] == rest[j]; }
  }

  lemma {:induction false} MapStackOutcome(P: (Mem, Paths) -> bool, m: Mem, d: nat, done: Paths, i: nat)
    requires P(m, done) && Lawful(P, d) && i <= USER_STACK_PAGES
    ensures Matches(MapStack(m, d, i), LoadFate(FreeCount(m), done, StackVisits(i)))
    decreases USER_STACK_PAGES - i
  {
    if i < USER_STACK_PAGES {
      var pv := STACK_BASE + i * FRAME_SIZE;
      StackAddress(i);
      assert StepAs(P, m, d, done, pv, ReadWrite);
      StackTail(i);
      if FreeCount(m) > 0 && Path(pv) !in done && FreeCount(m) >= Cost(done, Path(pv)) {
        MapStackOutcome(P, LoadPage(m, d, pv, ReadWrite).value.mem, d, done + [Path(pv)], i + 1);
      }
    }
  }

  // ---- the whole load ----

  ghost function Visits(segs: seq<Segment>): (vs: seq<Visit>)
    ensures FullVisits(vs)
  {
    SegmentVisits(segs, Work(segs)) + StackVisits(0)
  }

  lemma {:induction false} OutcomeJoin(free: nat, done: Paths, a: seq<Visit>, b: seq<Visit>)
    requires FullVisits(a) && FullVisits(b)
    ensures FullVisits(a + b)
    ensures var o := LoadFate(free, done, a);
            LoadFate(free, done, a + b) == if o.Fits? then LoadFate(o.left, done + PathsOf(a), b) else o
    decreases |a|
  {
    if a == [] {
      assert a + b == b && done + PathsOf(a) == done;
    } else {
      var p, rest := a[0].path, a[1..];
      assert (a + b)[0] == a[0] && (a + b)[1..] == rest + b;
      assert done + PathsOf(a) == (done + [p]) + PathsOf(rest);
      OutcomeJoin(free, done + [p], rest, b);
      if free >= Cost(done, p) { OutcomeJoin(free - Cost(done, p), done + [p], rest, b); }
    }
  }

  lemma SameBuilt(m: Mem, m': Mem, d: nat, done: Paths)
    requires Built(m, d, done) && SameEntries(m, m')
    ensures Built(m', d, done)
  {
    forall q | UserPath(q) ensures At(m', d, q) == At(m, d, q) {
      if |q| == 4 {
        LeafAt(m, d, q);
        LeafAt(m', d, q);
      }
    }
  }

  lemma MapImageOutcome(m: Mem, d: nat, image: seq<Byte>, segs: seq<Segment>)
    requires Consistent(m) && Built(m, d, []) && SegmentsOk(image, segs) && WorkOk(image, Work(segs))
    ensures Matches(MapImage(m, d, image, segs), LoadFate(FreeCount(m), [], Visits(segs)))
  {
    var work, vs := Work(segs), SegmentVisits(segs, Work(segs));
    WorkFits(image, segs);
    StageLawful(d);
    MapPagesOutcome(Stage(d), m, d, segs, [], work);
    OutcomeJoin(FreeCount(m), [], vs, StackVisits(0));
    if MapPages(m, d, segs, work).Loaded? {
      assert Empty(m, d) by { BareEmpty(m, d); }
      var m2 := CopiesDone(m, d, image, segs);
      SameBuilt(MapPages(m, d, segs, work).mem, m2, d, [] + PathsOf(vs));
      MapStackOutcome(Stage(d), m2, d, [] + PathsOf(vs), 0);
    }
  }

  lemma BareEmpty(m: Mem, d: nat)
    requires Built(m, d, [])
    ensures Empty(m, d)
  {
    forall q | LeafPath(q) ensures EntryAt(m, d, q).Unused? { LeafAt(m, d, q); }
  }

  // ---- conflicts and clashes in terms of the segments ----

  lemma SamePath(v: nat, w: nat)
    requires IsUserAddress(v) && Canonical(v) && v % FRAME_SIZE == 0 && IsUserAddress(w) && Canonical(w)
    requires w % FRAME_SIZE == 0
    ensures Path(v) == Path(w) <==> v == w
  {
    PathInjective(v, w);
  }

  /** Some first visit is forbidden exactly when some page would be writable and executable. */
  lemma ForbiddenExact(segs: seq<Segment>)
    requires UserWork(Work(segs))
    ensures (exists i :: 0 <= i < |Visits(segs)| && Forbidden([], Visits(segs), i)) <==> Conflict(segs)
  {
    var vs, work := Visits(segs), Work(segs);
    ConflictVisited(segs);
    if i :| 0 <= i < |vs| && Forbidden([], vs, i) { assert vs[i] == SegmentVisits(segs, work)[i]; }
    if WorkConflict(segs, work) {
      var i := FirstConflict(segs, work, 0);
      assert vs[i] == SegmentVisits(segs, work)[i];
      forall j | 0 <= j < i ensures PathsOf(vs[..i])[j] != vs[i].path {
        assert vs[j] == SegmentVisits(segs, work)[j] && vs[..i][j] == vs[j];
        SamePath(work[j].1, work[i].1);
      }
      assert Forbidden([], vs, i);
    }
  }

  lemma FirstConflict(segs: seq<Segment>, work: seq<(Segment, nat)>, from: nat) returns (i: nat)
    requires from <= |work| && exists j :: from <= j < |work| && PagePerm(segs, work[j].1).None?
    ensures from <= i < |work| && PagePerm(segs, work[i].1).None?
    ensures forall j :: from <= j < i ==> PagePerm(segs, work[j].1).Some?
    decreases |work| - from
  {
    i := from;
    if PagePerm(segs, work[from].1).Some? { i := FirstConflict(segs, work, from + 1); }
  }

  /** Some stack page is there already exactly when a segment reaches into the stack. */
  lemma ClashExact(segs: seq<Segment>)
    requires UserWork(Work(segs))
    ensures (exists i :: 0 <= i < |Visits(segs)| && Clash([], Visits(segs), i)) <==> HitsStack(segs)
  {
    if i :| 0 <= i < |Visits(segs)| && Clash([], Visits(segs), i) { ClashCovered(segs, i); }
    if HitsStack(segs) {
      var k: nat :| k < USER_STACK_PAGES && CoversStackPage(segs, k);
      CoveredClash(segs, k);
    }
  }

  lemma ClashCovered(segs: seq<Segment>, i: nat)
    requires UserWork(Work(segs)) && i < |Visits(segs)| && Clash([], Visits(segs), i)
    ensures HitsStack(segs)
  {
    var vs, work, k := Visits(segs), Work(segs), i - |Work(segs)|;
    StackVisit(segs, k);
    StackAddress(k);
    var j :| 0 <= j < i && PathsOf(vs[..i])[j] == vs[i].path;
    assert vs[..i][j] == vs[j];
    EarlierSegment(segs, j, k);
    SamePath(work[j].1, STACK_BASE + k * FRAME_SIZE);
    WorkVisits(segs, STACK_BASE + k * FRAME_SIZE);
    assert CoversStackPage(segs, k);
  }

  /** Stack pages are distinct, so a page visited before that is the k-th stack page is a segment's. */
  lemma EarlierSegment(segs: seq<Segment>, j: nat, k: nat)
    requires k < USER_STACK_PAGES && j < |Work(segs)| + k && |Visits(segs)| == |Work(segs)| + USER_STACK_PAGES
    requires Visits(segs)[j].path == Path(STACK_BASE + k * FRAME_SIZE)
    ensures j < |Work(segs)| && Visits(segs)[j].path == Path(Work(segs)[j].1)
  {
    var n := j - |Work(segs)|;
    StackVisit(segs, n);
    StackAddress(k);
    if n >= 0 {
      StackAddress(n);
      SamePath(STACK_BASE + n * FRAME_SIZE, STACK_BASE + k * FRAME_SIZE);
    } else {
      assert Visits(segs)[j] == SegmentVisits(segs, Work(segs))[j];
    }
  }

  lemma CoveredClash(segs: seq<Segment>, k: nat)
    requires k < USER_STACK_PAGES && CoversStackPage(segs, k)
    ensures |Work(segs)| + k < |Visits(segs)| && Clash([], Visits(segs), |Work(segs)| + k)
  {
    var pv := STACK_BASE + k * FRAME_SIZE;
    StackAddress(k);
    WorkVisits(segs, pv);
    var j :| 0 <= j < |Work(segs)| && Work(segs)[j].1 == pv;
    SegmentVisit(segs, j);
    StackVisit(segs, k);
    ClashBy(Visits(segs), |Work(segs)| + k, j);
  }

  lemma SegmentVisit(segs: seq<Segment>, j: nat)
    requires j < |Work(segs)|
    ensures j < |Visits(segs)| && Visits(segs)[j].path == Path(Work(segs)[j].1)
  {
    assert Visits(segs)[j] == SegmentVisits(segs, Work(segs))[j];
  }

  lemma ClashBy(vs: seq<Visit>, i: nat, j: nat)
    requires j < i < |vs| && vs[i].Stack? && vs[j].path == vs[i].path
    ensures Clash([], vs, i)
  {
    Visited(vs, i, j);
  }

  lemma Visited(vs: seq<Visit>, i: nat, j: nat)
    requires j < i <= |vs|
    ensures vs[j].path in PathsOf(vs[..i])
  {
    assert vs[..i][j] == vs[j] && PathsOf(vs[..i])[j] == vs[j].path;
  }

  lemma StackVisit(segs: seq<Segment>, k: int)
    requires -|Work(segs)| <= k < USER_STACK_PAGES
    ensures var vs, i := Visits(segs), |Work(segs)| + k;
            |vs| == |Work(segs)| + USER_STACK_PAGES
            && if k < 0 then vs[i].Segmented? else vs[i] == Stack(Path(STACK_BASE + k * FRAME_SIZE))
  {
    var vs, i := Visits(segs), |Work(segs)| + k;
    if k < 0 { assert vs[i] == SegmentVisits(segs, Work(segs))[i]; } else { assert vs[i] == StackVisits(0)[k]; }
  }

  lemma CleanExact(segs: seq<Segment>)
    requires UserWork(Work(segs))
    ensures Clean([], Visits(segs)) <==> !Conflict(segs) && !HitsStack(segs)
  {
    ForbiddenExact(segs);
    ClashExact(segs);
  }

  /** However few frames are free, a load into a domain without user tables succeeds exactly when no page would be
      writable and executable, no segment reaches into the stack, and there is a frame for each distinct page, stack
      included, and each distinct page table above them. It panics exactly when the frames run out within some page's
      needs, or a stack page is taken while a frame is left, before anything is refused; else it is refused. */
  lemma LoadExact(m: Mem, d: nat, image: seq<Byte>, segs: seq<Segment>)
    requires Consistent(m) && Built(m, d, []) && SegmentsOk(image, segs) && WorkOk(image, Work(segs))
    ensures var r, vs := MapImage(m, d, image, segs), Visits(segs);
            && (r.Loaded? <==> !Conflict(segs) && !HitsStack(segs) && |Nodes(PathsOf(vs))| <= FreeCount(m))
            && (r.Panic? <==> exists i :: 0 <= i < |vs| && DiesAt(FreeCount(m), [], vs, i))
  {
    var vs := Visits(segs);
    WorkFits(image, segs);
    MapImageOutcome(m, d, image, segs);
    FitsExact(FreeCount(m), [], vs);
    DiesExact(FreeCount(m), [], vs);
    CleanExact(segs);
    NeedCounts([], PathsOf(vs));
    assert [] + PathsOf(vs) == PathsOf(vs) && Nodes([]) == {};
  }

  /** A new domain, and one that was emptied, has no user tables. */
  lemma CreateBare(m: Mem, src: nat)
    requires Consistent(m) && Create(m, src).Some?
    ensures Built(Create(m, src).value.0, Create(m, src).value.1, [])
  {
    CreateOk(m, src);
  }

  lemma ResetBare(m: Mem, d: nat)
    requires Consistent(m) && Live(m, d)
    ensures Built(Reset(m, d), d, [])
  {
    FreeUserSpaceEffect(m, d, m.domains);
    assert m.(domains := m.domains) == m;
    forall q | UserPath(q) ensures At(Reset(m, d), d, q).None? { SelfWalk(m, Reset(m, d), d, UserTables(m, d), q); }
  }
}
