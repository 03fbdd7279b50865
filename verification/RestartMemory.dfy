/** `restart_in_place` (kernel/src/syscall.rs:346-366) on memory: the old user space is emptied before the new image
    is tried, and what a restart that fails leaves behind. */
module RestartMemory {
  import opened Wrappers
  import opened Frames
  import opened Paging
  import opened Ownership
  import opened DomainMemory
  import opened Elf
  import opened Loader
  import opened LoadedImage
  import opened SpawnFailure

  datatype Restarted = RestartPanic | RestartFailed(mem: Mem) | RestartOk(mem: Mem)

  /** The image is parsed before anything is touched; from then on nothing is rolled back. `taskFits` is whether the
      scheduler takes the task. */
  ghost function RestartElf(m: Mem, d: nat, image: seq<Byte>, taskFits: bool): (r: Restarted)
    requires Live(m, d)
  {
    if !Accepts(image) then RestartFailed(m)
    else
      var m1, segs := Reset(m, d), LoadSegments(image, Le(image, 56, 2));
      if Budget(segs) > MAX_IMAGE_PAGES then RestartFailed(m1)
      else
        AcceptedWork(image);
        match MapImage(m1, d, image, segs)
        case Panic => RestartPanic
        case Refused(m2) => RestartFailed(m2)
        case Loaded(m2) => if taskFits then RestartOk(m2) else RestartFailed(m2)
  }

  /** The emptied domain holds its PML4 only. */
  lemma ResetHeld(m: Mem, d: nat)
    requires Consistent(m) && Live(m, d) && DevicePagesSafe(m, d)
    ensures var m1 := Reset(m, d); Held(Destroy(m, d).alloc, m1, m1, d) && Empty(m1, d)
  {
    ResetExact(m, d);
    ResetBorrowed(m, d);
  }

  lemma ResetBorrowed(m: Mem, d: nat)
    requires Consistent(m) && Live(m, d)
    ensures Borrowed(Destroy(m, d).alloc, Reset(m, d), d)
  {
    var m1, root, a0 := Reset(m, d), m.domains[d].value, Destroy(m, d).alloc;
    FreeUserSpaceEffect(m, d, m.domains);
    DestroyEffect(m, d);
    assert m.(domains := m.domains) == m;
    ResetOwns(m, d);
    RootReturned(m, d);
    forall x | 0 <= x < |a0.used| ensures m1.alloc.used[x] <==> a0.used[x] || x == root {
      assert x != root ==> (x in UserTables(m, d) + {root} <==> x in UserTables(m, d));
    }
  }

  lemma ResetOwns(m: Mem, d: nat)
    requires Consistent(m) && Live(m, d)
    ensures var m1 := Reset(m, d); Live(m1, d) && Owned(m1, d) == {m.domains[d].value}
  {
    var m1 := Reset(m, d);
    FreeUserSpaceEffect(m, d, m.domains);
    assert m.(domains := m.domains) == m;
    assert UserPath([USER_P4]);
    SelfWalk(m, m1, d, UserTables(m, d), [USER_P4]);
  }

  lemma RootReturned(m: Mem, d: nat)
    requires Consistent(m) && Live(m, d)
    ensures var root := m.domains[d].value;
            && root < |m.alloc.used| && m.alloc.used[root] && !Returned(m.alloc, Pages(m, d), UserTables(m, d), root)
            && Returned(m.alloc, Pages(m, d), UserTables(m, d) + {root}, root)
  {
    var root := m.domains[d].value;
    assert At(m, d, []) == Some(root) && TablePath([]) && IsTable(m, root);
    PagesExact(m, d, root);
    UserTablesExact(m, d, root);
  }

  /** A restart that fails: a bad image changes nothing; after that the old pages are gone, what the domain holds is
      on frames that destroying it would have given back or that were free, the accounting holds, and nobody else's
      pages or their contents change. No frame is lost: destroying the domain now and destroying it before leave the
      same allocator. */
  lemma FailedRestartLeaves(m: Mem, d: nat, image: seq<Byte>, taskFits: bool)
    requires Consistent(m) && Live(m, d) && DevicePagesSafe(m, d) && RestartElf(m, d, image, taskFits).RestartFailed?
    ensures var m' := RestartElf(m, d, image, taskFits).mem;
            && Consistent(m') && Live(m', d) && OthersSee(m, m', d)
            && (if !Accepts(image) then m' == m
                else PlainPages(m', d) && Borrowed(Destroy(m, d).alloc, m', d))
            && Destroy(m', d).alloc == Destroy(m, d).alloc
  {
    if Accepts(image) {
      var m', m1, segs := RestartElf(m, d, image, taskFits).mem, Reset(m, d), LoadSegments(image, Le(image, 56, 2));
      ResetHeld(m, d);
      ResetKeepsOthers(m, d);
      if Budget(segs) <= MAX_IMAGE_PAGES {
        AcceptedWork(image);
        MapImageHeld(Destroy(m, d).alloc, m1, d, image, segs);
      }
      SeeThenKeep(m, m1, m', d);
      DestroyExact(m, d);
      DestroyRestores(Destroy(m, d), m1, m', d);
    }
  }
}
