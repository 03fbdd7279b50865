/** Exactly when a program starts: the verdicts of `spawn_elf` (kernel/src/exec.rs:29-64) and `restart_in_place`
    (kernel/src/syscall.rs:346-366) from the file, the number of free frames and the task table. */
module SpawnVerdict {
  import opened Wrappers
  import opened Frames
  import opened Paging
  import opened Ownership
  import opened MemorySteps
  import opened DomainMemory
  import opened Elf
  import opened Loader
  import opened LoadedImage
  import opened Spawn
  import opened SpawnFailure
  import opened RestartMemory
  import opened FrameNeeds
  import opened LoadFrames

  /** A new domain costs one frame and takes the lowest slot that is not live; the kernel panics exactly when there is
      no frame. */
  lemma CreateCosts(m: Mem, src: nat)
    requires Consistent(m)
    ensures Create(m, src).None? <==> FreeCount(m) == 0
    ensures Create(m, src).Some? ==> FreeCount(Create(m, src).value.0) == FreeCount(m) - 1
    ensures Create(m, src).Some? ==>
      var id := Create(m, src).value.1; !Live(m, id) && forall d :: 0 <= d < id ==> Live(m, d)
  {
    AllUsed(m.alloc.used, |m.alloc.used|);
    if FreeCount(m) > 0 { TakeRuns(m); }
  }

  /** The file is accepted and its image within the budget of 4096 pages. */
  ghost predicate Loadable(image: seq<Byte>) { Accepts(image) && Budget(SegmentsIn(image)) <= 4096 }

  ghost function SegmentsIn(image: seq<Byte>): (segs: seq<Segment>)
    requires Accepts(image)
  {
    LoadSegments(image, Le(image, 56, 2))
  }

  /** The load goes through with n free frames: no page is writable and executable, no segment reaches the stack,
      and there are frames for every page and table. */
  ghost predicate Fits(segs: seq<Segment>, n: nat) {
    !Conflict(segs) && !HitsStack(segs) && |Nodes(PathsOf(Visits(segs)))| <= n
  }

  /** With n free frames the frames run out in the middle of a mapping. */
  ghost predicate RunsOut(segs: seq<Segment>, n: nat) {
    var vs := Visits(segs);
    exists i :: 0 <= i < |vs| && DiesAt(n, [], vs, i)
  }

  /** A program starts exactly when its file is accepted and within budget, a domain can be made, its pages and
      tables fit into what is left, no rule forbids them and the task table has room. The kernel panics exactly when
      there is no frame for the domain, or none left in the middle of a mapping. In all other cases the spawn fails
      and, by `FailedSpawnRestores`, leaves no trace. */
  lemma SpawnExact(m: Mem, src: nat, image: seq<Byte>, taskFits: bool)
    requires Consistent(m)
    ensures var r, n := SpawnElf(m, src, image, taskFits), FreeCount(m);
            && (r.SpawnOk? <==> Loadable(image) && n > 0 && Fits(SegmentsIn(image), n - 1) && taskFits)
            && (r.SpawnPanic? <==> Loadable(image) && (n == 0 || RunsOut(SegmentsIn(image), n - 1)))
  {
    CreateCosts(m, src);
    if Loadable(image) {
      AcceptedWork(image);
      if FreeCount(m) > 0 {
        var (m1, id) := Create(m, src).value;
        SpawnOfLoad(m, src, image, taskFits, m1, id);
        assert Consistent(m1) by { CreateOk(m, src); }
        assert Built(m1, id, []) by { CreateBare(m, src); }
        LoadExact(m1, id, image, SegmentsIn(image));
      }
    }
  }

  lemma SpawnOfLoad(m: Mem, src: nat, image: seq<Byte>, taskFits: bool, m1: Mem, id: nat)
    requires Consistent(m) && Loadable(image) && Create(m, src) == Some((m1, id))
    requires SegmentsOk(image, SegmentsIn(image)) && WorkOk(image, Work(SegmentsIn(image)))
    ensures var r, load := SpawnElf(m, src, image, taskFits), MapImage(m1, id, image, SegmentsIn(image));
            (r.SpawnOk? <==> load.Loaded? && taskFits) && (r.SpawnPanic? <==> load.Panic?)
  {
    CreateHeld(m, src);
    MapImageHeld(m.alloc, m1, id, image, SegmentsIn(image));
  }

  /** A restart in place succeeds exactly when the file is accepted and within budget, its pages and tables fit into
      the frames that are free once the old image is gone, no rule forbids them and the task table has room. It panics
      exactly when those frames run out in the middle of a mapping. */
  lemma RestartExact(m: Mem, d: nat, image: seq<Byte>, taskFits: bool)
    requires Consistent(m) && Live(m, d) && DevicePagesSafe(m, d)
    ensures var r, n := RestartElf(m, d, image, taskFits), FreeCount(Reset(m, d));
            && (r.RestartOk? <==> Loadable(image) && Fits(SegmentsIn(image), n) && taskFits)
            && (r.RestartPanic? <==> Loadable(image) && RunsOut(SegmentsIn(image), n))
  {
    if Loadable(image) {
      AcceptedWork(image);
      ResetExact(m, d);
      ResetBare(m, d);
      LoadExact(Reset(m, d), d, image, SegmentsIn(image));
    }
  }
}
