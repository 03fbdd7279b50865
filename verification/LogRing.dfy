/** The kernel log ring (kernel/src/klog.rs:28-76): a bounded buffer that refines an unbounded log. */
module LogRing {
  import opened Wrappers

  /** Oldest absolute offset still held of a log of n bytes. */
  function Oldest(n: nat, cap: nat): (o: nat) { if n > cap then n - cap else 0 }

  function Min(a: nat, b: nat): (m: nat) { if a < b then a else b }
  function Max(a: nat, b: nat): (m: nat) { if a < b then b else a }

  /** What a read of at most `len` bytes from absolute offset `start` returns. */
  function ReadFrom(log: seq<Byte>, cap: nat, start: nat, len: nat): (r: seq<Byte>) {
    var s := Max(start, Oldest(|log|, cap));
    if s >= |log| then [] else log[s..Min(s + len, |log|)]
  }

  lemma {:induction false} MulGrows(a: nat, b: nat, n: nat)
    requires a < b
    ensures a * n + n <= b * n
  {
    assert b * n == (b - 1) * n + n;
    if a < b - 1 { MulGrows(a, b - 1, n); }
  }

  /** Quotient and remainder are unique. */
  lemma ModUnique(x: nat, n: nat, q: nat, r: nat)
    requires n > 0 && x == q * n + r && r < n
    ensures x % n == r
  {
    var q' := x / n;
    assert x == q' * n + x % n;
    if q < q' { MulGrows(q, q', n); } else if q' < q { MulGrows(q', q, n); }
  }

  lemma ModSub(a: nat, n: nat)
    requires 0 < n <= a
    ensures a % n == (a - n) % n
  {
    var q := a / n;
    assert a == q * n + a % n;
    assert q >= 1;
    assert a - n == (q - 1) * n + a % n;
    ModUnique(a - n, n, q - 1, a % n);
  }

  lemma {:induction false} ModDistinct(a: nat, b: nat, n: nat)
    requires a < b < a + n
    ensures a % n != b % n
  {
    if a >= n {
      ModSub(a, n);
      ModSub(b, n);
      ModDistinct(a - n, b - n, n);
    } else if b >= n {
      ModSub(b, n);
    }
  }

  lemma {:induction false} ModNext(a: nat, n: nat)
    requires n > 0
    ensures (a % n + 1) % n == (a + 1) % n
  {
    if a >= n {
      ModSub(a, n);
      ModSub(a + 1, n);
      ModNext(a - n, n);
    }
  }

  class LogRing {
    const buf: array<Byte>
    var head: nat
    var total: nat
    /** Everything ever captured. */
    ghost var log: seq<Byte>

    ghost predicate Valid()
      reads this, buf
    {
      && buf.Length > 0 && total == |log| && head == total % buf.Length
      && forall s {:trigger log[s]} :: Oldest(total, buf.Length) <= s < total ==> buf[s % buf.Length] == log[s]
    }

    constructor (cap: nat)
      requires cap > 0
      ensures Valid() && fresh(buf) && buf.Length == cap && log == []
    {
      buf := new Byte[cap](i => 0);
      head, total, log := 0, 0, [];
    }

    method CaptureBytes(bytes: seq<Byte>)
      requires Valid()
      modifies this, buf
      ensures Valid() && log == old(log) + bytes
    {
      for i := 0 to |bytes|
        invariant Valid() && log == old(log) + bytes[..i]
      {
        CaptureByte(bytes[i]);
      }
    }

    method CaptureByte(b: Byte)
      requires Valid()
      modifies this, buf
      ensures Valid() && log == old(log) + [b]
    {
      forall s | Oldest(total + 1, buf.Length) <= s < total ensures s % buf.Length != head {
        ModDistinct(s, total, buf.Length);
      }
      ModNext(total, buf.Length);
      buf[head] := b;
      head := (head + 1) % buf.Length;
      total := total + 1;
      log := log + [b];
      forall s | Oldest(total, buf.Length) <= s < total ensures buf[s % buf.Length] == log[s] {
        if s < total - 1 { assert old(log)[s] == old(buf[s % buf.Length]); }
      }
    }

    /** Copies into `dst` what the unbounded log holds from `start` on, as far as the ring still has it. */
    method Read(start: nat, dst: array<Byte>) returns (n: nat)
      requires Valid() && dst != buf
      modifies dst
      ensures n <= dst.Length && dst[..n] == ReadFrom(log, buf.Length, start, dst.Length)
      ensures dst[n..] == old(dst[n..])
    {
      var oldest := if total > buf.Length then total - buf.Length else 0;
      var s := if start < oldest then oldest else start;
      if s >= total { return 0; }
      n := CopyOut(s, dst);
      assert dst[..n] == log[s..s + n];
      assert forall j :: n <= j < dst.Length ==> dst[j] == old(dst[j]);
    }

    /** The copy loop of a read whose start is still held. */
    method CopyOut(first: nat, dst: array<Byte>) returns (n: nat)
      requires Valid() && dst != buf && Oldest(total, buf.Length) <= first < total
      modifies dst
      ensures n == Min(dst.Length, total - first)
      ensures forall j :: 0 <= j < n ==> dst[j] == log[first + j]
      ensures forall j :: n <= j < dst.Length ==> dst[j] == old(dst[j])
    {
      var s := first;
      n := 0;
      while s < total && n < dst.Length
        invariant n <= dst.Length && s == first + n && s <= total && Valid()
        invariant forall j :: 0 <= j < n ==> dst[j] == log[first + j]
        invariant forall j :: n <= j < dst.Length ==> dst[j] == old(dst[j])
      {
        var b := ByteAt(s);
        dst[n] := b;
        n := n + 1;
        s := s + 1;
      }
    }

    /** The byte at an absolute offset the ring still holds. */
    method ByteAt(s: nat) returns (b: Byte)
      requires Valid() && Oldest(total, buf.Length) <= s < total
      ensures b == log[s]
    {
      assert log[s] == buf[s % buf.Length];
      b := buf[s % buf.Length];
    }
  }

  // ---- repeated reads ----

  /** The bytes of successive reads with buffers of the given sizes, each starting where the last one ended. */
  function ReadAll(log: seq<Byte>, cap: nat, start: nat, sizes: seq<nat>): (r: seq<Byte>)
    decreases |sizes|
  {
    if sizes == [] then []
    else
      var part := ReadFrom(log, cap, start, sizes[0]);
      part + ReadAll(log, cap, start + |part|, sizes[1..])
  }

  function Sum(sizes: seq<nat>): (n: nat) { if sizes == [] then 0 else sizes[0] + Sum(sizes[1..]) }

  lemma ReadFromHeld(log: seq<Byte>, cap: nat, start: nat, len: nat)
    requires Oldest(|log|, cap) <= start <= |log|
    ensures ReadFrom(log, cap, start, len) == log[start..Min(start + len, |log|)]
  {
  }

  lemma JoinSlices(log: seq<Byte>, i: nat, j: nat, k: nat)
    requires i <= j <= k <= |log|
    ensures log[i..j] + log[j..k] == log[i..k]
  {
  }

  /** From an offset still held, successive reads return exactly the log from there on, without gap or repetition. */
  lemma {:induction false} ReadAllIsLog(log: seq<Byte>, cap: nat, start: nat, sizes: seq<nat>)
    requires Oldest(|log|, cap) <= start <= |log|
    ensures ReadAll(log, cap, start, sizes) == log[start..Min(start + Sum(sizes), |log|)]
    decreases |sizes|
  {
    if sizes != [] {
      var end, last := Min(start + sizes[0], |log|), Min(start + Sum(sizes), |log|);
      ReadFromHeld(log, cap, start, sizes[0]);
      var part := ReadFrom(log, cap, start, sizes[0]);
      assert start + |part| == end;
      var rest := ReadAll(log, cap, end, sizes[1..]);
      assert rest == log[end..last] by { ReadAllIsLog(log, cap, end, sizes[1..]); }
      JoinSlices(log, start, end, last);
    }
  }

  /** Reading on from the oldest offset until the end rebuilds the last min(total, capacity) bytes. */
  lemma ReadsRebuildTail(log: seq<Byte>, cap: nat, sizes: seq<nat>)
    requires Sum(sizes) >= Min(|log|, cap)
    ensures ReadAll(log, cap, Oldest(|log|, cap), sizes) == log[|log| - Min(|log|, cap)..]
  {
    var o := Oldest(|log|, cap);
    ReadAllIsLog(log, cap, o, sizes);
    assert Min(o + Sum(sizes), |log|) == |log| && o == |log| - Min(|log|, cap);
    assert log[o..|log|] == log[o..];
  }

  // ---- reads that start too early ----

  /** Absolute offset at which a read from `start` begins, and how many bytes it returns. */
  function Begin(n: nat, cap: nat, start: nat): (s: nat) { Max(start, Oldest(n, cap)) }

  function Got(n: nat, cap: nat, start: nat, len: nat): (k: nat) {
    if Begin(n, cap, start) >= n then 0 else Min(len, n - Begin(n, cap, start))
  }

  /** The next read begins where this one ended exactly when `start` was still held. */
  lemma NextReadExact(log: seq<Byte>, cap: nat, start: nat, len: nat)
    requires cap > 0 && len > 0 && start < |log|
    ensures var part := ReadFrom(log, cap, start, len);
            Begin(|log|, cap, start + |part|) == Begin(|log|, cap, start) + |part| <==> start >= Oldest(|log|, cap)
  {
  }

  /** The absolute offsets of the bytes that successive reads return, in order. */
  function Offsets(n: nat, cap: nat, start: nat, sizes: seq<nat>): (r: seq<nat>)
    decreases |sizes|
  {
    if sizes == [] then []
    else
      var k := Got(n, cap, start, sizes[0]);
      Range(Begin(n, cap, start), k) + Offsets(n, cap, start + k, sizes[1..])
  }

  function Range(from: nat, k: nat): (r: seq<nat>) { seq(k, i requires 0 <= i < k => from + i) }

  predicate Within(offs: seq<nat>, n: nat) { forall i :: 0 <= i < |offs| ==> offs[i] < n }

  function BytesAt(log: seq<Byte>, offs: seq<nat>): (r: seq<Byte>)
    requires Within(offs, |log|)
  {
    seq(|offs|, i requires 0 <= i < |offs| => log[offs[i]])
  }

  lemma ReadAllStep(log: seq<Byte>, cap: nat, start: nat, sizes: seq<nat>)
    requires sizes != []
    ensures var k := Got(|log|, cap, start, sizes[0]);
            && ReadAll(log, cap, start, sizes) ==
              ReadFrom(log, cap, start, sizes[0]) + ReadAll(log, cap, start + k, sizes[1..])
            && Offsets(|log|, cap, start, sizes) ==
              Range(Begin(|log|, cap, start), k) + Offsets(|log|, cap, start + k, sizes[1..])
  {
    assert |ReadFrom(log, cap, start, sizes[0])| == Got(|log|, cap, start, sizes[0]);
  }

  /** `bytes` are those at the offsets `offs`. */
  ghost predicate AreAt(log: seq<Byte>, bytes: seq<Byte>, offs: seq<nat>) {
    Within(offs, |log|) && bytes == BytesAt(log, offs)
  }

  lemma AreAtJoin(log: seq<Byte>, a: seq<Byte>, b: seq<Byte>, offsA: seq<nat>, offsB: seq<nat>)
    requires AreAt(log, a, offsA) && AreAt(log, b, offsB)
    ensures AreAt(log, a + b, offsA + offsB)
  {
  }

  lemma ReadBytes(log: seq<Byte>, cap: nat, start: nat, len: nat)
    ensures AreAt(log, ReadFrom(log, cap, start, len), Range(Begin(|log|, cap, start), Got(|log|, cap, start, len)))
  {
  }

  /** The offsets are those of the bytes returned. */
  lemma {:induction false} ReadsOffsets(log: seq<Byte>, cap: nat, start: nat, sizes: seq<nat>)
    ensures AreAt(log, ReadAll(log, cap, start, sizes), Offsets(|log|, cap, start, sizes))
    decreases |sizes|
  {
    if sizes == [] {
      NothingAt(log);
    } else {
      var s, k := Begin(|log|, cap, start), Got(|log|, cap, start, sizes[0]);
      var part, rest := ReadFrom(log, cap, start, sizes[0]), ReadAll(log, cap, start + k, sizes[1..]);
      var offs, tail := Range(s, k), Offsets(|log|, cap, start + k, sizes[1..]);
      assert AreAt(log, part + rest, offs + tail) by {
        ReadsOffsets(log, cap, start + k, sizes[1..]);
        ReadBytes(log, cap, start, sizes[0]);
        AreAtJoin(log, part, rest, offs, tail);
      }
      ReadAllStep(log, cap, start, sizes);
    }
  }

  lemma NothingAt(log: seq<Byte>)
    ensures AreAt(log, [], [])
  {
  }

  /** Each byte is the one after the byte before it: nothing is skipped and nothing comes twice. */
  ghost predicate Contiguous(offs: seq<nat>) { offs != [] ==> offs == Range(offs[0], |offs|) }

  /** Number of reads that ask for anything. */
  function Asking(sizes: seq<nat>): (n: nat) {
    if sizes == [] then 0 else (if sizes[0] > 0 then 1 else 0) + Asking(sizes[1..])
  }

  lemma RangeJoin(from: nat, k: nat, l: nat)
    ensures Range(from, k) + Range(from + k, l) == Range(from, k + l)
  {
  }

  /** Reads from an offset still held. */
  lemma {:induction false} HeldOffsets(n: nat, cap: nat, start: nat, sizes: seq<nat>)
    requires Oldest(n, cap) <= start
    ensures var offs := Offsets(n, cap, start, sizes); offs == Range(start, |offs|)
    decreases |sizes|
  {
    if sizes != [] {
      var k := Got(n, cap, start, sizes[0]);
      HeldOffsets(n, cap, start + k, sizes[1..]);
      RangeJoin(start, k, |Offsets(n, cap, start + k, sizes[1..])|);
    }
  }

  lemma {:induction false} SilentOffsets(n: nat, cap: nat, start: nat, sizes: seq<nat>)
    requires Asking(sizes) == 0
    ensures Offsets(n, cap, start, sizes) == []
    decreases |sizes|
  {
    if sizes != [] { SilentOffsets(n, cap, start, sizes[1..]); }
  }

  /** The first read that asks for anything begins at `Begin`. */
  lemma {:induction false} FirstOffset(n: nat, cap: nat, start: nat, sizes: seq<nat>)
    requires Begin(n, cap, start) < n && Asking(sizes) > 0
    ensures var offs := Offsets(n, cap, start, sizes); offs != [] && offs[0] == Begin(n, cap, start)
    decreases |sizes|
  {
    if sizes[0] == 0 { FirstOffset(n, cap, start, sizes[1..]); }
  }

  /** Successive reads return each byte of a stretch of the log once, in order, exactly when the start was still
      held or at most one of them asks for anything. From an earlier start the second read repeats bytes. */
  lemma {:induction false} ReadsExact(n: nat, cap: nat, start: nat, sizes: seq<nat>)
    requires cap > 0
    ensures Contiguous(Offsets(n, cap, start, sizes)) <==> start >= Oldest(n, cap) || Asking(sizes) <= 1
    decreases |sizes|
  {
    if start >= Oldest(n, cap) { HeldOffsets(n, cap, start, sizes); }
    else if sizes != [] {
      var o, k, rest := Oldest(n, cap), Got(n, cap, start, sizes[0]), sizes[1..];
      if sizes[0] == 0 {
        assert Range(o, 0) + Offsets(n, cap, start, rest) == Offsets(n, cap, start, rest);
        ReadsExact(n, cap, start, rest);
      } else if Asking(rest) == 0 {
        SilentOffsets(n, cap, start + k, rest);
        assert Range(o, k) + [] == Range(o, k);
      } else {
        EarlyRepeats(n, cap, start, sizes);
      }
    }
  }

  /** The second read of an early start begins inside what the first one returned. */
  lemma EarlyRepeats(n: nat, cap: nat, start: nat, sizes: seq<nat>)
    requires cap > 0 && start < Oldest(n, cap) && sizes != [] && sizes[0] > 0 && Asking(sizes[1..]) > 0
    ensures var offs, k := Offsets(n, cap, start, sizes), Got(n, cap, start, sizes[0]);
            k < |offs| && offs[k] in offs[..k]
    ensures !Contiguous(Offsets(n, cap, start, sizes))
  {
    var o, k := Oldest(n, cap), Got(n, cap, start, sizes[0]);
    var offs, next := Offsets(n, cap, start, sizes), Begin(n, cap, start + k);
    assert o <= next < o + k <= n;
    FirstOffset(n, cap, start + k, sizes[1..]);
    assert offs[k] == Offsets(n, cap, start + k, sizes[1..])[0] == next;
    assert offs[next - o] == Range(o, k)[next - o] == next && offs[..k][next - o] == next;
    TwiceThere(offs, next - o, k);
  }

  lemma TwiceThere(offs: seq<nat>, i: nat, k: nat)
    requires i < k < |offs| && offs[i] == offs[k]
    ensures !Contiguous(offs)
  {
    var r := Range(offs[0], |offs|);
    assert r[i] != r[k];
  }

  // ---- reads while the log grows ----

  datatype LogOp = Capture(bytes: seq<Byte>) | ReadNext(len: nat)

  /** The bytes that the reads return, each starting where the last one ended, with captures in between. */
  function Follow(log: seq<Byte>, cap: nat, cursor: nat, ops: seq<LogOp>): (r: seq<Byte>)
    decreases |ops|
  {
    if ops == [] then []
    else match ops[0]
      case Capture(bytes) => Follow(log + bytes, cap, cursor, ops[1..])
      case ReadNext(len) =>
        var part := ReadFrom(log, cap, cursor, len);
        part + Follow(log, cap, cursor + |part|, ops[1..])
  }

  /** The log in the end. */
  function Grown(log: seq<Byte>, ops: seq<LogOp>): (r: seq<Byte>)
    decreases |ops|
  {
    if ops == [] then log else Grown(if ops[0].Capture? then log + ops[0].bytes else log, ops[1..])
  }

  /** The absolute offsets of those bytes, for a log of n bytes so far. */
  function FollowOffsets(n: nat, cap: nat, cursor: nat, ops: seq<LogOp>): (r: seq<nat>)
    decreases |ops|
  {
    if ops == [] then []
    else match ops[0]
      case Capture(bytes) => FollowOffsets(n + |bytes|, cap, cursor, ops[1..])
      case ReadNext(len) =>
        var k := Got(n, cap, cursor, len);
        Range(Begin(n, cap, cursor), k) + FollowOffsets(n, cap, cursor + k, ops[1..])
  }

  lemma {:induction false} GrownKeeps(log: seq<Byte>, ops: seq<LogOp>)
    ensures log <= Grown(log, ops)
    decreases |ops|
  {
    if ops != [] { GrownKeeps(if ops[0].Capture? then log + ops[0].bytes else log, ops[1..]); }
  }

  lemma AreAtLonger(log: seq<Byte>, longer: seq<Byte>, bytes: seq<Byte>, offs: seq<nat>)
    requires AreAt(log, bytes, offs) && log <= longer
    ensures AreAt(longer, bytes, offs)
  {
  }

  /** The bytes returned are those of the final log at these offsets. */
  lemma {:induction false} FollowsOffsets(log: seq<Byte>, cap: nat, cursor: nat, ops: seq<LogOp>)
    ensures AreAt(Grown(log, ops), Follow(log, cap, cursor, ops), FollowOffsets(|log|, cap, cursor, ops))
    decreases |ops|
  {
    if ops == [] {
      NothingAt(log);
    } else if ops[0].Capture? {
      FollowsOffsets(log + ops[0].bytes, cap, cursor, ops[1..]);
    } else {
      var len, rest := ops[0].len, ops[1..];
      var part, k := ReadFrom(log, cap, cursor, len), Got(|log|, cap, cursor, len);
      var offs, tail := Range(Begin(|log|, cap, cursor), k), FollowOffsets(|log|, cap, cursor + k, rest);
      assert |part| == k;
      assert AreAt(Grown(log, rest), part, offs) by {
        ReadBytes(log, cap, cursor, len);
        GrownKeeps(log, rest);
        AreAtLonger(log, Grown(log, rest), part, offs);
      }
      FollowsOffsets(log, cap, cursor + k, rest);
      AreAtJoin(Grown(log, rest), part, Follow(log, cap, cursor + k, rest), offs, tail);
    }
  }

  /** At each read that returns anything the reader is at most the ring's capacity behind. */
  ghost predicate KeepsUp(n: nat, cap: nat, cursor: nat, ops: seq<LogOp>)
    decreases |ops|
  {
    ops != [] ==>
      match ops[0]
      case Capture(bytes) => KeepsUp(n + |bytes|, cap, cursor, ops[1..])
      case ReadNext(len) =>
        var k := Got(n, cap, cursor, len);
        (k > 0 ==> n - cursor <= cap) && KeepsUp(n, cap, cursor + k, ops[1..])
  }

  /** With captures in between, the reads return exactly the log from the cursor on, without gap or repetition,
      exactly when the reader keeps up: a cursor that was held can be overtaken. */
  lemma {:induction false} FollowExact(n: nat, cap: nat, cursor: nat, ops: seq<LogOp>)
    ensures var offs := FollowOffsets(n, cap, cursor, ops);
            offs == Range(cursor, |offs|) <==> KeepsUp(n, cap, cursor, ops)
    decreases |ops|
  {
    if ops != [] {
      var rest := ops[1..];
      match ops[0]
      case Capture(bytes) => FollowExact(n + |bytes|, cap, cursor, rest);
      case ReadNext(len) =>
        var k, begin := Got(n, cap, cursor, len), Begin(n, cap, cursor);
        FollowExact(n, cap, cursor + k, rest);
        RangeSplit(cursor, begin, k, FollowOffsets(n, cap, cursor + k, rest));
    }
  }

  lemma RangeSplit(from: nat, begin: nat, k: nat, tail: seq<nat>)
    ensures var all := Range(begin, k) + tail;
            all == Range(from, |all|) <==> (k > 0 ==> begin == from) && tail == Range(from + k, |tail|)
  {
    var all := Range(begin, k) + tail;
    if all == Range(from, |all|) {
      if k > 0 { assert all[0] == begin && Range(from, |all|)[0] == from; }
      forall i | 0 <= i < |tail| ensures tail[i] == from + k + i { assert all[k + i] == Range(from, |all|)[k + i]; }
      assert tail == Range(from + k, |tail|);
    }
    if (k > 0 ==> begin == from) && tail == Range(from + k, |tail|) { RangeJoin(from, k, |tail|); }
  }
}
