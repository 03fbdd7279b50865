/** Who owns each physical frame: the accounting the counts, the leaf entries and the bitmap keep
    together (kernel/src/memory/frame_allocator.rs:269-348), for every leaf of every domain at once. */
module Ownership {
  import opened Wrappers
  import opened Frames
  import opened Paging

  /** Device memory: never handed out by the allocator. */
  predicate Device(m: Mem, f: nat) { f in m.device || f >= |m.alloc.used| }

  ghost predicate Maps(m: Mem, d: nat, f: nat) { exists p :: LeafPath(p) && At(m, d, p) == Some(f) }

  /** Domains that map frame f. */
  ghost function Mappers(m: Mem, f: nat): (s: set<nat>) { set d: nat | d < |m.domains| && Maps(m, d, f) }

  /** Uncached leaves are exactly the device ones; no other leaf is pinned. */
  ghost predicate LeafKinds(m: Mem) {
    forall d, p :: LeafPath(p) && EntryAt(m, d, p).Entry? ==>
      var e := EntryAt(m, d, p);
      (e.flags.noCache <==> Device(m, e.frame)) && (!Device(m, e.frame) ==> !Pinned(m.alloc, Addr(e.frame)))
  }

  /** A non-device frame is mapped at one address only; an uncounted one in one domain only. */
  ghost predicate LeafUnique(m: Mem) {
    forall d, p, d', p' ::
      LeafPath(p) && LeafPath(p') && At(m, d, p).Some? && At(m, d, p) ==
        At(m, d', p') && !Device(m, At(m, d, p).value) ==>
      p == p' && (Addr(At(m, d, p).value) !in m.alloc.counts ==> d == d')
  }

  ghost predicate CountExact(m: Mem, f: nat) {
    var k := Addr(f);
    k in m.alloc.counts ==>
      !Device(m, f) && 1 <= m.alloc.counts[k] < COUNT_WRAP && m.alloc.counts[k] == |Mappers(m, f)|
  }

  /** Every count is registered under a frame's address and is the number of domains that map the frame. */
  ghost predicate CountsExact(m: Mem) {
    && |m.alloc.counts| <= m.alloc.slots
    && (forall k :: k in m.alloc.counts ==> k % FRAME_SIZE == 0)
    && (forall f :: CountExact(m, f))
  }

  ghost predicate Consistent(m: Mem) {
    TreeOk(m) && FreeOk(m) && LeafKinds(m) && LeafUnique(m) && CountsExact(m)
  }

  // ---- how one leaf change moves the accounting ----

  /** m2 is m1 with leaf (d, p) changed and the same pinned, device and managed frames. */
  ghost predicate LeafChange(m1: Mem, m2: Mem, d: nat, p: seq<nat>) {
    && LeafPath(p) && Live(m1, d) && SameLeaves(m1, m2, d, p) && m2.domains == m1.domains && m2.device == m1.device
    && |m2.alloc.used| == |m1.alloc.used| && m2.alloc.pinned == m1.alloc.pinned && m2.alloc.slots == m1.alloc.slots
  }

  lemma SameOtherLeaves(m1: Mem, m2: Mem, d: nat, p: seq<nat>)
    requires LeafChange(m1, m2, d, p)
    ensures forall d', q :: LeafPath(q) && !(d' == d && q == p) ==> At(m2, d', q) == At(m1, d', q)
  {
    forall d', q | LeafPath(q) && !(d' == d && q == p) ensures At(m2, d', q) == At(m1, d', q) {
      LeafAt(m1, d', q);
      LeafAt(m2, d', q);
    }
  }

  lemma LeafAt(m: Mem, d: nat, p: seq<nat>)
    requires p != []
    ensures At(m, d, p) == match EntryAt(m, d, p) case Unused => None case Entry(f, _) => Some(f)
  {
  }

  lemma MapsIff(m1: Mem, m2: Mem, d: nat, p: seq<nat>, d': nat, f: nat)
    requires LeafChange(m1, m2, d, p) && d' != d
    ensures Maps(m2, d', f) <==> Maps(m1, d', f)
  {
    forall q | LeafPath(q) ensures At(m2, d', q) == At(m1, d', q) {
      LeafAt(m1, d', q);
      LeafAt(m2, d', q);
    }
  }

  /** Filling an empty leaf adds its domain to the mappers of that frame and changes no others. */
  lemma FillMappers(m1: Mem, m2: Mem, d: nat, p: seq<nat>, g: nat)
    requires LeafChange(m1, m2, d, p) && EntryAt(m1, d, p).Unused? && EntryAt(m2, d, p).Entry?
    ensures Mappers(m2, g) == if g == EntryAt(m2, d, p).frame then Mappers(m1, g) + {d} else Mappers(m1, g)
  {
    forall d' | d' != d && 0 <= d' ensures Maps(m2, d', g) <==> Maps(m1, d', g) { MapsIff(m1, m2, d, p, d', g); }
    LeafAt(m2, d, p);
    forall q | LeafPath(q) && q != p ensures At(m2, d, q) == At(m1, d, q) {
      LeafAt(m1, d, q);
      LeafAt(m2, d, q);
    }
    assert Maps(m2, d, g) <==> Maps(m1, d, g) || g == EntryAt(m2, d, p).frame by {
      if g == EntryAt(m2, d, p).frame { assert At(m2, d, p) == Some(g); }
      if Maps(m1, d, g) {
        var q :| LeafPath(q) && At(m1, d, q) == Some(g);
        assert q != p && At(m2, d, q) == Some(g);
      }
    }
  }

  /** Emptying a leaf removes its domain from the mappers of that frame and changes no others. */
  lemma EmptyMappers(m1: Mem, m2: Mem, d: nat, p: seq<nat>, g: nat)
    requires LeafChange(m1, m2, d, p) && EntryAt(m1, d, p).Entry? && EntryAt(m2, d, p).Unused?
    requires LeafUnique(m1) && !Device(m1, g)
    ensures Mappers(m2, g) == if g == EntryAt(m1, d, p).frame then Mappers(m1, g) - {d} else Mappers(m1, g)
    ensures g == EntryAt(m1, d, p).frame ==> d in Mappers(m1, g)
  {
    forall d' | d' != d && 0 <= d' ensures Maps(m2, d', g) <==> Maps(m1, d', g) { MapsIff(m1, m2, d, p, d', g); }
    LeafAt(m1, d, p);
    forall q | LeafPath(q) && q != p ensures At(m2, d, q) == At(m1, d, q) {
      LeafAt(m1, d, q);
      LeafAt(m2, d, q);
    }
    if g == EntryAt(m1, d, p).frame {
      assert At(m1, d, p) == Some(g);
      assert !Maps(m2, d, g);
    } else if Maps(m1, d, g) {
      var q :| LeafPath(q) && At(m1, d, q) == Some(g);
      assert At(m2, d, q) == Some(g);
    }
  }

  /** What a new leaf must satisfy for the accounting to survive it: a device frame is uncached and not
      counted; a frame not counted before is no leaf yet; a counted one is mapped at this very address
      only, and its count is raised. */
  ghost predicate FillAllowed(m1: Mem, counts2: map<nat, nat>, d: nat, p: seq<nat>, e: Entry)
    requires e.Entry?
  {
    var k := Addr(e.frame);
    && (e.flags.noCache <==> Device(m1, e.frame))
    && (!Device(m1, e.frame) ==> !Pinned(m1.alloc, k))
    && |counts2| <= m1.alloc.slots
    && (Device(m1, e.frame) ==> counts2 == m1.alloc.counts)
    && (!Device(m1, e.frame) && k !in m1.alloc.counts ==>
          !IsLeaf(m1, e.frame) && (counts2 == m1.alloc.counts || counts2 == m1.alloc.counts[k := 1]))
    && (k in m1.alloc.counts ==>
          && (forall d', q :: LeafPath(q) && At(m1, d', q) == Some(e.frame) ==> q == p)
          && m1.alloc.counts[k] + 1 < COUNT_WRAP && counts2 == m1.alloc.counts[k := m1.alloc.counts[k] + 1])
  }

  lemma NotMappedBefore(m1: Mem, m2: Mem, d: nat, p: seq<nat>)
    requires CountsExact(m1) && LeafChange(m1, m2, d, p) && EntryAt(m1, d, p).Unused? && EntryAt(m2, d, p).Entry?
    requires FillAllowed(m1, m2.alloc.counts, d, p, EntryAt(m2, d, p))
    requires !Device(m1, EntryAt(m2, d, p).frame)
    ensures d !in Mappers(m1, EntryAt(m2, d, p).frame)
    ensures Addr(EntryAt(m2, d, p).frame) !in m1.alloc.counts ==> Mappers(m1, EntryAt(m2, d, p).frame) == {}
  {
    var f := EntryAt(m2, d, p).frame;
    LeafAt(m1, d, p);
    forall d' | d' in Mappers(m1, f) ensures IsLeaf(m1, f) && (Addr(f) in m1.alloc.counts ==> d' != d) {
      var q :| LeafPath(q) && At(m1, d', q) == Some(f);
    }
  }

  lemma FillCounts(m1: Mem, m2: Mem, d: nat, p: seq<nat>)
    requires CountsExact(m1) && LeafChange(m1, m2, d, p) && EntryAt(m1, d, p).Unused? && EntryAt(m2, d, p).Entry?
    requires FillAllowed(m1, m2.alloc.counts, d, p, EntryAt(m2, d, p))
    ensures CountsExact(m2)
  {
    var f := EntryAt(m2, d, p).frame;
    if !Device(m1, f) { NotMappedBefore(m1, m2, d, p); }
    forall g ensures CountExact(m2, g) {
      FillMappers(m1, m2, d, p, g);
      assert CountExact(m1, g) && CountExact(m1, f);
    }
  }

  lemma FillUnique(m1: Mem, m2: Mem, d: nat, p: seq<nat>)
    requires LeafUnique(m1) && LeafChange(m1, m2, d, p) && EntryAt(m1, d, p).Unused? && EntryAt(m2, d, p).Entry?
    requires FillAllowed(m1, m2.alloc.counts, d, p, EntryAt(m2, d, p))
    ensures LeafUnique(m2)
  {
    var f := EntryAt(m2, d, p).frame;
    LeafAt(m2, d, p);
    SameOtherLeaves(m1, m2, d, p);
    forall d1, p1, d2, p2 | LeafPath(p1) && LeafPath(p2) && At(m2, d1, p1).Some? && At(m2, d1, p1) == At(m2, d2, p2)
      && !Device(m2, At(m2, d1, p1).value)
      ensures p1 == p2 && (Addr(At(m2, d1, p1).value) !in m2.alloc.counts ==> d1 == d2)
    {
      if !(d1 == d && p1 == p) && (d2 == d && p2 == p) { assert At(m1, d1, p1) == Some(f) && IsLeaf(m1, f); }
      if !(d2 == d && p2 == p) && (d1 == d && p1 == p) { assert At(m1, d2, p2) == Some(f) && IsLeaf(m1, f); }
    }
  }

  lemma FillConsistent(m1: Mem, m2: Mem, d: nat, p: seq<nat>)
    requires Consistent(m1) && LeafChange(m1, m2, d, p) && EntryAt(m1, d, p).Unused? && EntryAt(m2, d, p).Entry?
    requires TreeOk(m2) && FreeOk(m2) && FillAllowed(m1, m2.alloc.counts, d, p, EntryAt(m2, d, p))
    ensures Consistent(m2)
  {
    FillCounts(m1, m2, d, p);
    FillUnique(m1, m2, d, p);
  }

  /** An emptied leaf keeps the accounting when one reference to its frame was dropped with it. */
  lemma EmptyConsistent(m1: Mem, m2: Mem, d: nat, p: seq<nat>)
    requires Consistent(m1) && LeafChange(m1, m2, d, p) && EntryAt(m1, d, p).Entry? && EntryAt(m2, d, p).Unused?
    requires TreeOk(m2) && FreeOk(m2)
    requires m2.alloc.counts == DecRef(m1.alloc, Addr(EntryAt(m1, d, p).frame)).counts
    ensures Consistent(m2)
  {
    EmptyCounts(m1, m2, d, p);
    EmptyUnique(m1, m2, d, p);
  }

  lemma EmptyCounts(m1: Mem, m2: Mem, d: nat, p: seq<nat>)
    requires CountsExact(m1) && LeafUnique(m1)
    requires LeafChange(m1, m2, d, p) && EntryAt(m1, d, p).Entry? && EntryAt(m2, d, p).Unused?
    requires m2.alloc.counts == DecRef(m1.alloc, Addr(EntryAt(m1, d, p).frame)).counts
    ensures CountsExact(m2)
  {
    forall g ensures CountExact(m2, g) {
      assert CountExact(m1, g);
      if !Device(m1, g) { EmptyMappers(m1, m2, d, p, g); }
    }
    SubsetSize(m2.alloc.counts.Keys, m1.alloc.counts.Keys);
  }

  lemma EmptyUnique(m1: Mem, m2: Mem, d: nat, p: seq<nat>)
    requires CountsExact(m1) && LeafUnique(m1)
    requires LeafChange(m1, m2, d, p) && EntryAt(m1, d, p).Entry? && EntryAt(m2, d, p).Unused?
    requires m2.alloc.counts == DecRef(m1.alloc, Addr(EntryAt(m1, d, p).frame)).counts
    ensures LeafUnique(m2)
  {
    LeafAt(m2, d, p);
    SameOtherLeaves(m1, m2, d, p);
    forall d1, p1, d2, p2 | LeafPath(p1) && LeafPath(p2) && At(m2, d1, p1).Some? && At(m2, d1, p1) == At(m2, d2, p2)
      && !Device(m2, At(m2, d1, p1).value)
      ensures p1 == p2 && (Addr(At(m2, d1, p1).value) !in m2.alloc.counts ==> d1 == d2)
    {
      if d1 != d2 {
        var f := At(m2, d1, p1).value;
        assert d1 in Mappers(m1, f) && d2 in Mappers(m1, f);
        assert CountExact(m1, f);
        TwoMembers(Mappers(m1, f), d1, d2);
      }
    }
  }

  lemma TwoMembers(s: set<nat>, a: nat, b: nat)
    requires a in s && b in s && a != b
    ensures |s| >= 2
  {
    SubsetSize({a, b}, s);
  }

  lemma SubsetSize(a: set<nat>, b: set<nat>)
    requires a <= b
    ensures |a| <= |b|
  {
    if a != {} {
      var x :| x in a;
      SubsetSize(a - {x}, b - {x});
    }
  }
}
