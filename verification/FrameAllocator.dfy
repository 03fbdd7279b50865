/** The bitmap allocator and its side table of reference counts as the kernel runs them:
    packed bits and slot arrays changed in place by scanning loops
    (kernel/src/memory/frame_allocator.rs), proved against the value model of `Frames`. */
module FrameAllocator {
  import opened Wrappers
  import opened Frames

  // ---- the packed bitmap ----

  const MASKS: seq<bv8> := [1, 2, 4, 8, 16, 32, 64, 128]

  /** Mask of bit `i` of a bitmap byte. */
  function Mask(i: nat): (m: bv8)
    requires i < 8
  {
    MASKS[i]
  }

  predicate Bit(b: bv8, i: nat)
    requires i < 8
  {
    b & Mask(i) != 0
  }

  lemma MasksDisjoint(i: nat, j: nat)
    requires i < 8 && j < 8 && i != j
    ensures Mask(i) & Mask(j) == 0
  {
    assert i == 0 || i == 1 || i == 2 || i == 3 || i == 4 || i == 5 || i == 6 || i == 7;
  }

  lemma MaskNonzero(i: nat)
    requires i < 8
    ensures Mask(i) != 0
  {
    assert i == 0 || i == 1 || i == 2 || i == 3 || i == 4 || i == 5 || i == 6 || i == 7;
  }

  /** Setting or clearing mask `m` leaves a disjoint mask `n` as it was, and decides `m` itself. */
  lemma WriteMasked(b: bv8, m: bv8, n: bv8)
    requires m != 0
    ensures m & n == 0 ==> ((b | m) & n != 0 <==> b & n != 0) && ((b & !m) & n != 0 <==> b & n != 0)
    ensures (b | m) & m != 0 && !((b & !m) & m != 0)
  {
  }

  function Written(b: bv8, i: nat, value: bool): (r: bv8)
    requires i < 8
  {
    if value then b | Mask(i) else b & !Mask(i)
  }

  /** Writing bit i changes no other bit of the byte. */
  lemma WrittenBit(b: bv8, i: nat, value: bool, j: nat)
    requires i < 8 && j < 8
    ensures Bit(Written(b, i, value), j) == if j == i then value else Bit(b, j)
  {
    MaskNonzero(i);
    if j != i { MasksDisjoint(i, j); }
    WriteMasked(b, Mask(i), Mask(j));
  }

  class Bitmap {
    const data: array<bv8>
    /** The bits `data` packs, eight to a byte, lowest first. */
    ghost var bits: seq<bool>

    ghost predicate Valid()
      reads this, data
    {
      && |bits| == 8 * data.Length
      && forall i {:trigger Bit(data[i / 8], i % 8)} :: 0 <= i < |bits| ==> bits[i] == Bit(data[i / 8], i % 8)
    }

    /** Every frame starts as used. */
    constructor (size: nat)
      ensures Valid() && fresh(data) && |bits| == 8 * size && forall i :: 0 <= i < |bits| ==> bits[i]
    {
      data := new bv8[size](i => 0xFF);
      bits := seq(8 * size, i => true);
      new;
      forall i | 0 <= i < |bits| ensures bits[i] == Bit(data[i / 8], i % 8) {
        assert MASKS[i % 8] != 0;
      }
    }

    method Test(idx: nat) returns (b: bool)
      requires Valid() && idx < |bits|
      ensures b == bits[idx]
    {
      b := data[idx / 8] & Mask(idx % 8) != 0;
      assert b == Bit(data[idx / 8], idx % 8);
    }

    method Write(idx: nat, value: bool)
      requires Valid() && idx < |bits|
      modifies this, data
      ensures Valid() && bits == old(bits)[idx := value]
    {
      ghost var was := data[idx / 8];
      data[idx / 8] := Written(data[idx / 8], idx % 8, value);
      bits := bits[idx := value];
      forall i | 0 <= i < |bits| ensures bits[i] == Bit(data[i / 8], i % 8) {
        assert old(bits)[i] == Bit(old(data[i / 8]), i % 8);
        if i / 8 == idx / 8 { WrittenBit(was, idx % 8, value, i % 8); }
      }
    }
  }

  // ---- the side table ----

  /** Slots hold an address and a count; a slot with count 0 is empty. */
  ghost predicate DistinctSlots(s: seq<(nat, nat)>) {
    forall i, j :: 0 <= i < j < |s| && s[i].1 > 0 && s[j].1 > 0 ==> s[i].0 != s[j].0
  }

  ghost function LiveSlots(s: seq<(nat, nat)>): (m: map<nat, nat>) {
    if s == [] then map[]
    else
      var last, rest := s[|s| - 1], LiveSlots(s[..|s| - 1]);
      if last.1 > 0 then rest[last.0 := last.1] else rest
  }

  lemma NoLiveSlots(s: seq<(nat, nat)>)
    requires forall i :: 0 <= i < |s| ==> s[i].1 == 0
    ensures LiveSlots(s) == map[]
  {
  }

  lemma {:induction false} LiveSlot(s: seq<(nat, nat)>, k: nat) returns (i: nat)
    requires DistinctSlots(s)
    ensures k in LiveSlots(s) ==> i < |s| && s[i] == (k, LiveSlots(s)[k]) && LiveSlots(s)[k] > 0
    ensures k !in LiveSlots(s) ==> forall j :: 0 <= j < |s| && s[j].1 > 0 ==> s[j].0 != k
  {
    i := 0;
    if s != [] {
      var n := |s| - 1;
      i := LiveSlot(s[..n], k);
      if s[n].1 > 0 && s[n].0 == k { i := n; }
    }
  }

  /** The live slots fill the table exactly when no slot is empty. */
  lemma {:induction false} LiveSlotsFull(s: seq<(nat, nat)>)
    requires DistinctSlots(s)
    ensures |LiveSlots(s)| <= |s|
    ensures |LiveSlots(s)| == |s| <==> forall i :: 0 <= i < |s| ==> s[i].1 > 0
  {
    if s != [] {
      var n := |s| - 1;
      var t := s[..n];
      LiveSlotsFull(t);
      if s[n].1 > 0 {
        var i := LiveSlot(t, s[n].0);
        assert s[n].0 !in LiveSlots(t);
        assert |LiveSlots(s)| == |LiveSlots(t)| + 1;
      }
      assert (forall i :: 0 <= i < |s| ==> s[i].1 > 0) <==> s[n].1 > 0 && forall i :: 0 <= i < |t| ==> t[i].1 > 0;
    }
  }

  /** Overwriting one slot changes the live slots at its old and its new address only. */
  lemma WriteSlot(s: seq<(nat, nat)>, i: nat, addr: nat, c: nat)
    requires DistinctSlots(s) && i < |s|
    requires c > 0 ==> forall j :: 0 <= j < |s| && j != i && s[j].1 > 0 ==> s[j].0 != addr
    ensures DistinctSlots(s[i := (addr, c)])
    ensures LiveSlots(s[i := (addr, c)]) ==
            var rest := if s[i].1 > 0 then LiveSlots(s) - {s[i].0} else LiveSlots(s);
            if c > 0 then rest[addr := c] else rest
  {
    var s' := s[i := (addr, c)];
    var rest := if s[i].1 > 0 then LiveSlots(s) - {s[i].0} else LiveSlots(s);
    var want := if c > 0 then rest[addr := c] else rest;
    forall k: nat ensures (k in LiveSlots(s') <==> k in want) && (k in want ==> LiveSlots(s')[k] == want[k]) {
      var j := LiveSlot(s, k);
      var j' := LiveSlot(s', k);
      assert s'[i] == (addr, c);
      if k in LiveSlots(s') { assert j' != i ==> s[j'] == s'[j']; }
      if k in LiveSlots(s) { assert j != i ==> s'[j] == s[j]; }
    }
    assert LiveSlots(s') == want;
  }

  // ---- the allocator ----

  function SaturatingSub(x: nat, y: nat): (r: nat) { if x < y then 0 else x - y }

  /** `start` begins a run of `count` clear bits. */
  ghost predicate FreeRun(used: seq<bool>, start: nat, count: nat) {
    start + count <= |used| && forall i :: start <= i < start + count ==> !used[i]
  }

  /** The lowest run of `count` clear bits. */
  ghost predicate FirstFit(used: seq<bool>, start: nat, count: nat) {
    FreeRun(used, start, count) && forall s: nat :: s < start ==> !FreeRun(used, s, count)
  }

  ghost function MarkRun(used: seq<bool>, start: nat, count: nat): (r: seq<bool>) {
    seq(|used|, i requires 0 <= i < |used| => used[i] || start <= i < start + count)
  }

  class FrameAllocator {
    const bitmap: Bitmap
    const shared: array<(nat, nat)>
    const maxPinned: nat
    var pinned: seq<(nat, nat)>
    var freeFrames: nat

    ghost predicate Valid()
      reads this, bitmap, bitmap.data, shared
    {
      && bitmap.Valid()
      && bitmap.data as object != shared as object
      && DistinctSlots(shared[..])
      && (forall i :: 0 <= i < shared.Length ==> shared[i].1 < COUNT_WRAP)
      && freeFrames == CountFree(bitmap.bits, |bitmap.bits|)
    }

    ghost function View(): (a: Alloc)
      reads this, bitmap, shared
    {
      Alloc(bitmap.bits, LiveSlots(shared[..]), shared.Length, pinned)
    }

    constructor (size: nat, sharedSlots: nat, maxPinned: nat)
      ensures Valid() && fresh(bitmap) && fresh(bitmap.data) && fresh(shared)
      ensures View().counts == map[] && View().pinned == [] && |View().used| == 8 * size
      ensures forall f :: 0 <= f < 8 * size ==> View().used[f]
    {
      bitmap := new Bitmap(size);
      shared := new (nat, nat)[sharedSlots](i => (0, 0));
      this.maxPinned := maxPinned;
      pinned, freeFrames := [], 0;
      new;
      AllUsed(bitmap.bits, |bitmap.bits|);
      NoLiveSlots(shared[..]);
    }

    method IsPinned(addr: nat) returns (b: bool)
      requires Valid()
      ensures b == Pinned(View(), addr)
    {
      for i := 0 to |pinned|
        invariant forall j :: 0 <= j < i ==> !InRange(pinned[j], addr)
      {
        if pinned[i].0 <= addr < pinned[i].1 {
          assert InRange(View().pinned[i], addr);
          return true;
        }
      }
      return false;
    }

    /** Register a byte range, widened to whole frames; ranges beyond the table's capacity are ignored. */
    method PinRange(start: nat, end: nat)
      requires Valid()
      modifies this`pinned
      ensures Valid()
      ensures View() == if |old(pinned)| < maxPinned then Pin(old(View()), start, end) else old(View())
    {
      var s := start / FRAME_SIZE * FRAME_SIZE;
      var e := (end + FRAME_SIZE - 1) / FRAME_SIZE * FRAME_SIZE;
      if |pinned| < maxPinned {
        pinned := pinned + [(s, e)];
      }
    }

    method ReserveFrame(addr: nat)
      requires Valid()
      modifies this`freeFrames, bitmap, bitmap.data
      ensures Valid()
      ensures View() == if addr / FRAME_SIZE < |old(View()).used| then Take(old(View()), addr / FRAME_SIZE)
        else old(View())
    {
      var idx := addr / FRAME_SIZE;
      if idx < 8 * bitmap.data.Length {
        var b := bitmap.Test(idx);
        CountFreeUpdate(bitmap.bits, |bitmap.bits|, idx, true);
        if !b {
          bitmap.Write(idx, true);
          freeFrames := SaturatingSub(freeFrames, 1);
        } else {
          assert bitmap.bits[idx := true] == bitmap.bits;
        }
      }
    }

    /** The lowest free frame, marked used; `None` exactly when every frame is in use. */
    method AllocateFrame() returns (r: Option<nat>)
      requires Valid()
      modifies this`freeFrames, bitmap, bitmap.data
      ensures Valid()
      ensures match LowestFree(old(View()).used, 0)
              case None => r == None && View() == old(View())
              case Some(f) => r == Some(Addr(f)) && View() == Take(old(View()), f)
    {
      var idx := 0;
      while idx < 8 * bitmap.data.Length
        invariant Valid() && View() == old(View())
        invariant idx <= |bitmap.bits| && LowestFree(bitmap.bits, 0) == LowestFree(bitmap.bits, idx)
      {
        var b := bitmap.Test(idx);
        if !b {
          CountFreeUpdate(bitmap.bits, |bitmap.bits|, idx, true);
          bitmap.Write(idx, true);
          freeFrames := freeFrames - 1;
          return Some(idx * FRAME_SIZE);
        }
        idx := idx + 1;
      }
      return None;
    }

    /** First fit: the lowest run of `count` free frames, marked used; `None` exactly when there is none. */
    method AllocateFrames(count: nat) returns (r: Option<nat>, ghost start: nat)
      requires Valid()
      modifies this`freeFrames, bitmap, bitmap.data
      ensures Valid()
      ensures count == 0 ==> r == None
      ensures r.None? ==> View() == old(View())
      ensures r.None? && count > 0 ==> forall s: nat :: !FreeRun(old(View()).used, s, count)
      ensures r.Some? ==> r.value == Addr(start) && FirstFit(old(View()).used, start, count)
      ensures r.Some? ==> View() == old(View()).(used := MarkRun(old(View()).used, start, count))
    {
      start := 0;
      if count == 0 { return None, 0; }
      var run, runStart, idx := 0, 0, 0;
      ghost var used := bitmap.bits;
      while idx < 8 * bitmap.data.Length
        invariant Valid() && View() == old(View()) && used == bitmap.bits && idx <= |used|
        invariant run < count && run <= idx && (run > 0 ==> runStart == idx - run)
        invariant forall i :: idx - run <= i < idx ==> !used[i]
        invariant forall s: nat :: s < idx - run ==> !FreeRun(used, s, count)
      {
        var b := bitmap.Test(idx);
        if !b {
          if run == 0 { runStart := idx; }
          run := run + 1;
          if run == count {
            MarkFrames(runStart, count);
            return Some(runStart * FRAME_SIZE), runStart;
          }
        } else {
          forall s: nat | s < idx + 1 ensures !FreeRun(used, s, count) {
            assert s >= idx - run ==> s <= idx < s + count;
          }
          run := 0;
        }
        idx := idx + 1;
      }
      return None, 0;
    }

    method MarkFrames(start: nat, count: nat)
      requires Valid() && FreeRun(bitmap.bits, start, count)
      modifies this`freeFrames, bitmap, bitmap.data
      ensures Valid()
      ensures View() == old(View()).(used := MarkRun(old(View()).used, start, count))
    {
      ghost var used := bitmap.bits;
      assert used == MarkRun(used, start, 0);
      var i := start;
      while i < start + count
        invariant start <= i <= start + count
        invariant bitmap.Valid()
        invariant bitmap.bits == MarkRun(used, start, i - start)
        invariant freeFrames == old(freeFrames) && shared[..] == old(shared[..]) && pinned == old(pinned)
        invariant CountFree(bitmap.bits, |bitmap.bits|) + (i - start) == freeFrames
      {
        CountFreeUpdate(bitmap.bits, |bitmap.bits|, i, true);
        bitmap.Write(i, true);
        i := i + 1;
      }
      freeFrames := freeFrames - count;
    }

    method FreeFrame(addr: nat)
      requires Valid()
      modifies this`freeFrames, bitmap, bitmap.data
      ensures Valid()
      ensures View() == Frames.FreeFrame(old(View()), addr)
    {
      var p := IsPinned(addr);
      if p { return; }
      var idx := addr / FRAME_SIZE;
      if idx < 8 * bitmap.data.Length {
        var b := bitmap.Test(idx);
        CountFreeUpdate(bitmap.bits, |bitmap.bits|, idx, false);
        if b {
          bitmap.Write(idx, false);
          freeFrames := freeFrames + 1;
        } else {
          assert bitmap.bits[idx := false] == bitmap.bits;
        }
      }
    }

    /** Index of the live slot of `addr`, if there is one. */
    method FindSlot(addr: nat) returns (r: Option<nat>)
      requires Valid()
      ensures r.Some? ==> r.value < shared.Length && shared[r.value].0 == addr && shared[r.value].1 > 0
                          && Tracked(View(), addr) && View().counts[addr] == shared[r.value].1
      ensures r.None? ==> !Tracked(View(), addr)
    {
      ghost var k := LiveSlot(shared[..], addr);
      for i := 0 to shared.Length
        invariant forall j :: 0 <= j < i ==> !(shared[j].0 == addr && shared[j].1 > 0)
      {
        if shared[i].0 == addr && shared[i].1 > 0 {
          assert shared[..][i] == shared[i];
          return Some(i);
        }
      }
      return None;
    }

    method IsTracked(addr: nat) returns (b: bool)
      requires Valid()
      ensures b == Tracked(View(), addr)
    {
      var r := FindSlot(addr);
      b := r.Some?;
    }

    method IncRef(addr: nat)
      requires Valid()
      modifies shared
      ensures Valid()
      ensures View() == Frames.IncRef(old(View()), addr)
    {
      ghost var s := shared[..];
      var r := FindSlot(addr);
      if r.Some? {
        var i := r.value;
        var c := (shared[i].1 + 1) % COUNT_WRAP;
        WriteSlot(s, i, addr, c);
        shared[i] := (shared[i].0, c);
        assert shared[..] == s[i := (addr, c)];
        return;
      }
      ClaimSlot(addr);
    }

    /** Second scan of `IncRef`: the first empty slot takes a new address; a full table ignores it. */
    method ClaimSlot(addr: nat)
      requires Valid() && !Tracked(View(), addr)
      modifies shared
      ensures Valid()
      ensures View() == Frames.IncRef(old(View()), addr)
    {
      ghost var s := shared[..];
      LiveSlotsFull(s);
      ghost var k := LiveSlot(s, addr);
      for i := 0 to shared.Length
        invariant shared[..] == s && Valid()
        invariant forall j :: 0 <= j < i ==> shared[j].1 > 0
      {
        if shared[i].1 == 0 {
          WriteSlot(s, i, addr, 1);
          shared[i] := (addr, 1);
          assert shared[..] == s[i := (addr, 1)];
          return;
        }
      }
    }

    /** Drop one reference; true when it was the last one. */
    method DecRef(addr: nat) returns (last: bool)
      requires Valid()
      modifies shared
      ensures Valid()
      ensures last == LastRef(old(View()), addr)
      ensures View() == Frames.DecRef(old(View()), addr)
    {
      ghost var s := shared[..];
      var r := FindSlot(addr);
      if r.None? { return false; }
      var i := r.value;
      var c := shared[i].1 - 1;
      last := c == 0;
      var a := if last then 0 else addr;
      WriteSlot(s, i, a, c);
      shared[i] := (a, c);
      assert shared[..] == s[i := (a, c)];
    }

    method ReleaseUserFrame(addr: nat)
      requires Valid()
      modifies this`freeFrames, bitmap, bitmap.data, shared
      ensures Valid()
      ensures View() == Frames.ReleaseUserFrame(old(View()), addr)
    {
      var t := IsTracked(addr);
      if t {
        var last := DecRef(addr);
        if last { FreeFrame(addr); }
      } else {
        FreeFrame(addr);
      }
    }
  }
}
