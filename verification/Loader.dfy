/** Loading an executable into a domain (kernel/src/exec.rs): which bytes and permissions the domain
    sees afterwards, when the load is refused or panics, and what a failed spawn leaves behind. */
module Loader {
  import opened Wrappers
  import opened Frames
  import opened Paging
  import opened MemorySteps
  import opened Elf

  const MAX_IMAGE_PAGES: nat := 4096

  function PageOf(va: nat): (pv: nat) { va / FRAME_SIZE * FRAME_SIZE }

  /** The page `pv` holds a byte of segment s, or lies between its first page and its end. */
  predicate Covers(s: Segment, pv: nat) { PageOf(s.vaddr) <= pv < s.vaddr + s.memsz }

  predicate InFile(s: Segment, va: nat) { s.vaddr <= va < s.vaddr + s.filesz }

  /** Visits of the page loops, in order: each segment with each of its pages from `pv` on. */
  function SegmentWork(s: Segment, pv: nat): (w: seq<(Segment, nat)>)
    decreases s.vaddr + s.memsz - pv
  {
    if pv < s.vaddr + s.memsz then [(s, pv)] + SegmentWork(s, pv + FRAME_SIZE) else []
  }

  function Work(segs: seq<Segment>): (w: seq<(Segment, nat)>) {
    if segs == [] then [] else SegmentWork(segs[0], PageOf(segs[0].vaddr)) + Work(segs[1..])
  }

  // ---- the page budget ----

  function Budget(segs: seq<Segment>): (n: nat) {
    if segs == [] then USER_STACK_PAGES else Budget(segs[1..]) + segs[0].memsz / FRAME_SIZE + 1
  }

  /** The budget charges the stack and, for each segment, the least number of pages that is more than its memory. */
  lemma BudgetExact(s: Segment, segs: seq<Segment>, n: nat)
    ensures Budget([]) == 8
    ensures Budget([s] + segs) == Budget(segs) + n <==> 4096 * (n - 1) <= s.memsz < 4096 * n
  {
    assert ([s] + segs)[1..] == segs;
  }

  /** The loops visit at most one page per segment more than the budget charges. */
  lemma {:induction false} BudgetBounds(segs: seq<Segment>)
    ensures |Work(segs)| + USER_STACK_PAGES <= Budget(segs) + |segs|
  {
    if segs != [] {
      BudgetBounds(segs[1..]);
      SegmentWorkSize(segs[0], PageOf(segs[0].vaddr));
    }
  }

  lemma {:induction false} SegmentWorkSize(s: Segment, pv: nat)
    ensures FRAME_SIZE * |SegmentWork(s, pv)| < s.vaddr + s.memsz - pv + FRAME_SIZE || SegmentWork(s, pv) == []
    decreases s.vaddr + s.memsz - pv
  {
    if pv < s.vaddr + s.memsz { SegmentWorkSize(s, pv + FRAME_SIZE); }
  }

  // ---- permissions ----

  ghost predicate SomeCover(segs: seq<Segment>, pv: nat) { exists i :: 0 <= i < |segs| && Covers(segs[i], pv) }
  ghost predicate WritableAt(segs: seq<Segment>, pv: nat) {
    exists i :: 0 <= i < |segs| && Covers(segs[i], pv) && segs[i].Writable()
  }
  ghost predicate ExecutableAt(segs: seq<Segment>, pv: nat) {
    exists i :: 0 <= i < |segs| && Covers(segs[i], pv) && segs[i].Executable()
  }

  /** Permission of a page: the union over the segments that cover it; None when that is both W and X. */
  ghost function PagePerm(segs: seq<Segment>, pv: nat): (r: Option<UserPagePerm>) {
    if WritableAt(segs, pv) && ExecutableAt(segs, pv) then None
    else if ExecutableAt(segs, pv) then Some(ReadExecute)
    else if WritableAt(segs, pv) then Some(ReadWrite)
    else Some(ReadOnly)
  }

  // ---- map_image ----

  datatype Load = Panic | Refused(mem: Mem) | Loaded(mem: Mem)

  /** First pass: a fresh zeroed frame for each page not mapped yet. */
  ghost function MapPages(m: Mem, d: nat, segs: seq<Segment>, work: seq<(Segment, nat)>): (r: Load)
    decreases |work|
  {
    if work == [] then Loaded(m)
    else if !Live(m, d) then Panic
    else
      var pv := work[0].1;
      if ResolveUserPage(m, d, pv).Some? then MapPages(m, d, segs, work[1..])
      else match PagePerm(segs, pv)
        case None => Refused(m)
        case Some(perm) =>
          match LoadPage(m, d, pv, perm)
          case None => Refused(m)
          case Some(Halt) => Panic
          case Some(Done(m', _)) => MapPages(m', d, segs, work[1..])
  }

  predicate FileOk(image: seq<Byte>, s: Segment) { s.offset + s.filesz <= |image| }

  predicate WorkOk(image: seq<Byte>, work: seq<(Segment, nat)>) {
    forall i :: 0 <= i < |work| ==> FileOk(image, work[i].0)
  }

  /** The part of s's file bytes that lies on page `pv`, copied over `bytes`. */
  function CopyOver(image: seq<Byte>, s: Segment, pv: nat, bytes: seq<Byte>): (r: seq<Byte>)
    requires FileOk(image, s) && |bytes| == FRAME_SIZE
    ensures |r| == FRAME_SIZE
    ensures forall k :: 0 <= k < FRAME_SIZE ==>
      r[k] == if InFile(s, pv + k) then image[s.offset + (pv + k - s.vaddr)] else bytes[k]
  {
    var lo := if pv < s.vaddr then s.vaddr else pv;
    var hi := if s.vaddr + s.filesz < pv + FRAME_SIZE then s.vaddr + s.filesz else pv + FRAME_SIZE;
    if lo >= hi then bytes
    else bytes[..lo - pv] + image[s.offset + (lo - s.vaddr)..s.offset + (hi - s.vaddr)] + bytes[hi - pv..]
  }

  /** `copy_segment_page` into frame f. */
  function CopyInto(m: Mem, f: nat, image: seq<Byte>, s: Segment, pv: nat): (r: Mem)
    requires FileOk(image, s)
  {
    if f in m.phys && m.phys[f].Data? && |m.phys[f].bytes| == FRAME_SIZE
    then m.(phys := m.phys[f := Data(CopyOver(image, s, pv, m.phys[f].bytes))])
    else m
  }

  /** Second pass: copy the file bytes of every visit into the frame its page resolves to. */
  function CopyPages(m: Mem, d: nat, image: seq<Byte>, work: seq<(Segment, nat)>): (r: Load)
    requires WorkOk(image, work)
    decreases |work|
  {
    if work == [] then Loaded(m)
    else if !Live(m, d) then Panic
    else
      var (s, pv) := work[0];
      match ResolveUserPage(m, d, pv)
      case None => Refused(m)
      case Some(pa) => CopyPages(CopyInto(m, pa / FRAME_SIZE, image, s, pv), d, image, work[1..])
  }

  const STACK_BASE: nat := USER_STACK_TOP - USER_STACK_PAGES * FRAME_SIZE

  predicate InStack(va: nat) { STACK_BASE <= va < USER_STACK_TOP }

  /** Stack pages i.. : fresh zeroed frames, mapped without looking whether the page is free. */
  function MapStack(m: Mem, d: nat, i: nat): (r: Load)
    requires i <= USER_STACK_PAGES
    decreases USER_STACK_PAGES - i
  {
    if i == USER_STACK_PAGES then Loaded(m)
    else match LoadPage(m, d, STACK_BASE + i * FRAME_SIZE, ReadWrite)
      case None => Refused(m)
      case Some(Halt) => Panic
      case Some(Done(m', _)) => MapStack(m', d, i + 1)
  }

  ghost function MapImage(m: Mem, d: nat, image: seq<Byte>, segs: seq<Segment>): (r: Load)
    requires WorkOk(image, Work(segs))
  {
    match MapPages(m, d, segs, Work(segs))
    case Loaded(m1) =>
      (match CopyPages(m1, d, image, Work(segs))
       case Loaded(m2) => MapStack(m2, d, 0)
       case r => r)
    case r => r
  }

  // ---- which pages the loops visit ----

  lemma {:induction false} SegmentWorkExact(s: Segment, pv: nat, x: nat)
    requires pv % FRAME_SIZE == 0 && x % FRAME_SIZE == 0
    ensures (s, x) in SegmentWork(s, pv) <==> pv <= x < s.vaddr + s.memsz
    ensures forall w :: w in SegmentWork(s, pv) ==> w.0 == s && w.1 % FRAME_SIZE == 0 && pv <= w.1 < s.vaddr + s.memsz
    decreases s.vaddr + s.memsz - pv
  {
    if pv < s.vaddr + s.memsz {
      SegmentWorkExact(s, pv + FRAME_SIZE, x);
      assert pv <= x ==> x == pv || x >= pv + FRAME_SIZE;
    }
  }

  /** The pages visited are exactly the page-aligned addresses some segment covers. */
  lemma {:induction false} WorkExact(segs: seq<Segment>, x: nat)
    requires x % FRAME_SIZE == 0
    ensures (exists w :: w in Work(segs) && w.1 == x) <==> SomeCover(segs, x)
    ensures forall w :: w in Work(segs) ==> w.0 in segs && w.1 % FRAME_SIZE == 0 && Covers(w.0, w.1)
  {
    if segs != [] {
      var s, rest := segs[0], segs[1..];
      WorkExact(rest, x);
      SegmentWorkExact(s, PageOf(s.vaddr), x);
      var first := SegmentWork(s, PageOf(s.vaddr));
      assert Work(segs) == first + Work(rest);
      if SomeCover(segs, x) {
        var i :| 0 <= i < |segs| && Covers(segs[i], x);
        if i == 0 { assert (s, x) in Work(segs); } else { assert Covers(rest[i - 1], x) && SomeCover(rest, x); }
      }
      if exists w :: w in Work(segs) && w.1 == x {
        var w :| w in Work(segs) && w.1 == x;
        if w in first {
          assert Covers(segs[0], x);
        } else {
          assert w in Work(rest);
          var i :| 0 <= i < |rest| && Covers(rest[i], x);
          assert Covers(segs[i + 1], x);
        }
      }
    }
  }
}
