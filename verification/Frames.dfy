/** The physical-frame allocator on values: occupancy bits, the side table of
    reference counts and the pinned ranges (kernel/src/memory/frame_allocator.rs).
    Physical addresses are byte addresses; frame `f` starts at `f * FRAME_SIZE`. */
module Frames {
  import opened Wrappers

  const FRAME_SIZE: nat := 4096
  /** The `u8` count of a side-table slot wraps to 0 after 255: the kernel is a release build. */
  const COUNT_WRAP: nat := 256

  /** `used[f]` is frame f's bitmap bit. `counts` holds the side table's live slots
      (count > 0), keyed by the address they were registered with; `slots` is the table's size. */
  datatype Alloc = Alloc(used: seq<bool>, counts: map<nat, nat>, slots: nat, pinned: seq<(nat, nat)>)

  function Addr(f: nat): (a: nat) { f * FRAME_SIZE }

  predicate InRange(r: (nat, nat), addr: nat) { r.0 <= addr < r.1 }

  predicate Pinned(a: Alloc, addr: nat) {
    exists i :: 0 <= i < |a.pinned| && InRange(a.pinned[i], addr)
  }

  predicate Tracked(a: Alloc, addr: nat) { addr in a.counts }

  predicate IsFree(a: Alloc, f: nat) { f < |a.used| && !a.used[f] }

  /** The lowest clear bit at or after `from`. */
  function LowestFree(used: seq<bool>, from: nat): (r: Option<nat>)
    requires from <= |used|
    ensures r.Some? ==> from <= r.value < |used| && !used[r.value] && forall i :: from <= i < r.value ==> used[i]
    ensures r.None? ==> forall i :: from <= i < |used| ==> used[i]
    decreases |used| - from
  {
    if from == |used| then None
    else if !used[from] then Some(from)
    else LowestFree(used, from + 1)
  }

  function Take(a: Alloc, f: nat): (r: Alloc)
    requires f < |a.used|
  {
    a.(used := a.used[f := true])
  }

  function FreeFrame(a: Alloc, addr: nat): (r: Alloc) {
    var f := addr / FRAME_SIZE;
    if Pinned(a, addr) || f >= |a.used| then a else a.(used := a.used[f := false])
  }

  function IncRef(a: Alloc, addr: nat): (r: Alloc) {
    if addr in a.counts then
      var c := (a.counts[addr] + 1) % COUNT_WRAP;
      a.(counts := if c == 0 then a.counts - {addr} else a.counts[addr := c])
    else if |a.counts| < a.slots then a.(counts := a.counts[addr := 1])
    else a
  }

  /** Whether `DecRef` takes the count of `addr` to zero. */
  predicate LastRef(a: Alloc, addr: nat) { addr in a.counts && a.counts[addr] == 1 }

  function DecRef(a: Alloc, addr: nat): (r: Alloc) {
    if addr !in a.counts then a
    else if a.counts[addr] <= 1 then a.(counts := a.counts - {addr})
    else a.(counts := a.counts[addr := a.counts[addr] - 1])
  }

  function ReleaseUserFrame(a: Alloc, addr: nat): (r: Alloc) {
    if Tracked(a, addr) then
      if LastRef(a, addr) then FreeFrame(DecRef(a, addr), addr) else DecRef(a, addr)
    else FreeFrame(a, addr)
  }

  function Pin(a: Alloc, start: nat, end: nat): (r: Alloc) {
    a.(pinned := a.pinned + [(start / FRAME_SIZE * FRAME_SIZE, (end + FRAME_SIZE - 1) / FRAME_SIZE * FRAME_SIZE)])
  }

  /** Pinning a byte range pins exactly the frames that overlap it. */
  lemma PinCovers(a: Alloc, start: nat, end: nat, f: nat)
    requires start < end
    ensures Pinned(Pin(a, start, end), Addr(f)) <==> Pinned(a, Addr(f)) || (Addr(f) < end && start < Addr(f + 1))
  {
    var r := Pin(a, start, end);
    var n := |a.pinned|;
    assert InRange(r.pinned[n], Addr(f)) <==> Addr(f) < end && start < Addr(f + 1);
    assert forall i :: 0 <= i < n ==> r.pinned[i] == a.pinned[i];
  }

  /** Number of clear bits below `n`. */
  ghost function CountFree(used: seq<bool>, n: nat): (c: nat)
    requires n <= |used|
  {
    if n == 0 then 0 else CountFree(used, n - 1) + if used[n - 1] then 0 else 1
  }

  lemma {:induction false} CountFreeUpdate(used: seq<bool>, n: nat, i: nat, b: bool)
    requires n <= |used| && i < |used|
    ensures CountFree(used[i := b], n) ==
            CountFree(used, n) + if i < n && used[i] && !b then 1 else if i < n && !used[i] && b then -1 else 0
  {
    if n > 0 { CountFreeUpdate(used, n - 1, i, b); }
  }

  lemma {:induction false} AllUsed(used: seq<bool>, n: nat)
    requires n <= |used|
    ensures CountFree(used, n) == 0 <==> forall i :: 0 <= i < n ==> used[i]
  {
    if n > 0 { AllUsed(used, n - 1); }
  }

  // ---- what releasing a whole set of frames does ----

  /** Frame f is given back when `tables` are freed and one reference to each of `leaves` is dropped. */
  predicate Returned(a: Alloc, leaves: set<nat>, tables: set<nat>, f: nat) {
    && !Pinned(a, Addr(f))
    && (f in tables || (f in leaves && (Addr(f) !in a.counts || a.counts[Addr(f)] == 1)))
  }

  /** The count registered under `k` belongs to one of the frames `leaves`. */
  predicate CountsLeaf(leaves: set<nat>, k: nat) { k % FRAME_SIZE == 0 && k / FRAME_SIZE in leaves }

  function DropCounts(counts: map<nat, nat>, leaves: set<nat>): (r: map<nat, nat>) {
    map k | k in counts && !(CountsLeaf(leaves, k) && counts[k] == 1)
      :: if CountsLeaf(leaves, k) && counts[k] > 1 then counts[k] - 1 else counts[k]
  }

  /** Free every frame of `tables` and drop one reference to every frame of `leaves`, all at once. */
  function Drop(a: Alloc, leaves: set<nat>, tables: set<nat>): (r: Alloc) {
    a.(used := seq(|a.used|, i requires 0 <= i < |a.used| => a.used[i] && !Returned(a, leaves, tables, i)),
       counts := DropCounts(a.counts, leaves))
  }

  ghost predicate CountsPositive(a: Alloc) { forall k :: k in a.counts ==> 1 <= a.counts[k] < COUNT_WRAP }

  /** Dropping an uncounted frame again has no effect. */
  predicate Uncounted(a: Alloc, f: nat) { Addr(f) !in a.counts }

  lemma DropNothing(a: Alloc)
    ensures Drop(a, {}, {}) == a
  {
    assert Drop(a, {}, {}).used == a.used;
    assert Drop(a, {}, {}).counts == a.counts;
  }

  lemma ReleaseIsDrop(a: Alloc, f: nat)
    requires CountsPositive(a)
    ensures ReleaseUserFrame(a, Addr(f)) == Drop(a, {f}, {})
  {
    var r, d := ReleaseUserFrame(a, Addr(f)), Drop(a, {f}, {});
    assert Addr(f) / FRAME_SIZE == f;
    forall k ensures CountsLeaf({f}, k) <==> k == Addr(f) { }
    assert r.counts == d.counts;
    assert r.used == d.used;
  }

  lemma FreeIsDrop(a: Alloc, f: nat)
    ensures FreeFrame(a, Addr(f)) == Drop(a, {}, {f})
  {
    var r, d := FreeFrame(a, Addr(f)), Drop(a, {}, {f});
    assert Addr(f) / FRAME_SIZE == f;
    assert r.counts == d.counts;
    assert r.used == d.used;
  }

  /** Releasing in two rounds is releasing once, when no counted frame is in both rounds. */
  lemma DropTwice(a: Alloc, l1: set<nat>, t1: set<nat>, l2: set<nat>, t2: set<nat>)
    requires CountsPositive(a)
    requires forall f :: f in l1 + t1 && f in l2 + t2 ==> Uncounted(a, f)
    ensures Drop(Drop(a, l1, t1), l2, t2) == Drop(a, l1 + l2, t1 + t2)
    ensures CountsPositive(Drop(a, l1, t1))
  {
    var m, d := Drop(a, l1, t1), Drop(a, l1 + l2, t1 + t2);
    var r := Drop(m, l2, t2);
    forall k | k in a.counts
      ensures !(CountsLeaf(l1, k) && CountsLeaf(l2, k))
      ensures CountsLeaf(l1 + l2, k) <==> CountsLeaf(l1, k) || CountsLeaf(l2, k)
    {
      var f := k / FRAME_SIZE;
      assert k % FRAME_SIZE == 0 ==> Addr(f) == k;
      assert f in l1 && f in l2 ==> f in l1 + t1;
    }
    assert r.counts == d.counts;
    forall i | 0 <= i < |a.used| ensures r.used[i] == d.used[i] {
      assert Addr(i) / FRAME_SIZE == i;
    }
    assert r.used == d.used;
  }
}
