/** ELF64 executables written field by field, low byte first, at the offsets of the System V gABI (chapter 4, ELF
    Header; chapter 5, Program Header), and parsed back. */
module ElfFile {
  import opened Wrappers
  import opened Paging
  import opened Elf

  /** A loadable program header: `x` and `w` are its permission bits 1 and 2, `other` the remaining bits. */
  datatype Part = Part(offset: nat, vaddr: nat, filesz: nat, memsz: nat, x: bool, w: bool, other: nat)

  function Flags(p: Part): (f: nat) { (if p.x then 1 else 0) + (if p.w then 2 else 0) + 4 * p.other }

  // ---- writing ----

  /** n bytes of v, the low byte first. */
  function Put(v: nat, n: nat): (r: seq<Byte>)
    ensures |r| == n
  {
    if n == 0 then [] else [v % 256] + Put(v / 256, n - 1)
  }

  /** p_type, p_flags, p_offset, p_vaddr, p_paddr, p_filesz, p_memsz, p_align. */
  function PartBytes(p: Part): (r: seq<Byte>)
    ensures |r| == 56
  {
    [1, 0, 0, 0] + Put(Flags(p), 4) + Put(p.offset, 8) + Put(p.vaddr, 8) + Put(p.vaddr, 8) + Put(p.filesz, 8)
    + Put(p.memsz, 8) + Put(4096, 8)
  }

  function TableBytes(parts: seq<Part>): (r: seq<Byte>)
    ensures |r| == 56 * |parts|
  {
    if parts == [] then [] else PartBytes(parts[0]) + TableBytes(parts[1..])
  }

  /** e_ident, e_type, e_machine, e_version; e_entry; e_phoff; e_shoff, e_flags, e_ehsize; e_phentsize; e_phnum;
      e_shentsize, e_shnum, e_shstrndx. */
  function HeaderBytes(entry: nat, phoff: nat, n: nat): (r: seq<Byte>)
    ensures |r| == 64
  {
    [0x7f, 0x45, 0x4c, 0x46, 2, 1, 1, 0, 0, 0, 0, 0, 0, 0, 0, 0, 2, 0, 62, 0, 1, 0, 0, 0]
    + Put(entry, 8) + Put(phoff, 8) + [0, 0, 0, 0, 0, 0, 0, 0, 0, 0, 0, 0, 64, 0] + [56, 0] + Put(n, 2)
    + [0, 0, 0, 0, 0, 0]
  }

  /** Header, anything, program headers, anything. */
  function FileBytes(entry: nat, gap: seq<Byte>, parts: seq<Part>, body: seq<Byte>): (r: seq<Byte>) {
    HeaderBytes(entry, 64 + |gap|, |parts|) + gap + TableBytes(parts) + body
  }

  // ---- what is written is a file the kernel is to accept ----

  predicate PartOk(p: Part, fileLen: nat) {
    && p.offset + p.filesz <= fileLen && p.filesz <= p.memsz && p.memsz > 0
    && USER_SPACE_BASE <= p.vaddr && p.vaddr + p.memsz <= USER_SPACE_END && !(p.w && p.x) && Flags(p) < 0x1_0000_0000
  }

  predicate Inside(p: Part, va: nat) { p.vaddr <= va < p.vaddr + p.memsz }

  ghost predicate FileOk(entry: nat, gap: seq<Byte>, parts: seq<Part>, body: seq<Byte>) {
    var n := |FileBytes(entry, gap, parts, body)|;
    && n < U64_LIMIT && 1 <= |parts| <= 32
    && (forall i :: 0 <= i < |parts| ==> PartOk(parts[i], n))
    && exists i :: 0 <= i < |parts| && Inside(parts[i], entry)
  }

  function SegmentOf(p: Part): (s: Segment) { Segment(p.offset, p.vaddr, p.filesz, p.memsz, Flags(p)) }

  function SegmentsOf(parts: seq<Part>): (r: seq<Segment>)
    ensures |r| == |parts| && forall i :: 0 <= i < |r| ==> r[i] == SegmentOf(parts[i])
  {
    seq(|parts|, i requires 0 <= i < |parts| => SegmentOf(parts[i]))
  }

  /** The two permission bits are read as they were written. */
  lemma FlagBits(p: Part)
    ensures SegmentOf(p).Executable() <==> p.x
    ensures SegmentOf(p).Writable() <==> p.w
  {
    var low, high := if p.x then 1 else 0, if p.w then 1 else 0;
    Bits(low, high, p.other);
    assert Flags(p) == low + 2 * (high + 2 * p.other);
  }

  lemma Bits(low: nat, high: nat, other: nat)
    requires low < 2 && high < 2
    ensures var f := low + 2 * (high + 2 * other); f % 2 == low && f / 2 % 2 == high
  {
    var f := low + 2 * (high + 2 * other);
    assert f / 2 == high + 2 * other;
  }

  // ---- reading back ----

  function Pow256(n: nat): (r: nat)
    ensures r >= 1
  {
    if n == 0 then 1 else 256 * Pow256(n - 1)
  }

  /** The bytes written at `off` are read as the number they were written from. */
  lemma {:induction false} LePut(b: seq<Byte>, off: nat, n: nat, v: nat)
    requires off + n <= |b| && b[off..off + n] == Put(v, n) && v < Pow256(n)
    ensures Le(b, off, n) == v
    decreases n
  {
    if n > 0 {
      assert b[off] == b[off..off + n][0] == v % 256;
      assert b[off + 1..off + 1 + (n - 1)] == b[off..off + n][1..] == Put(v / 256, n - 1);
      LePut(b, off + 1, n - 1, v / 256);
    }
  }

  lemma Widths()
    ensures Pow256(2) == 0x1_0000 && Pow256(4) == 0x1_0000_0000 && Pow256(8) == U64_LIMIT
  {
    assert Pow256(4) == 256 * 256 * Pow256(2);
    assert Pow256(8) == 256 * 256 * Pow256(6) && Pow256(6) == 256 * 256 * Pow256(4);
  }

  /** The fields of a header at the start of b. */
  ghost predicate HeaderLaid(b: seq<Byte>, entry: nat, phoff: nat, n: nat) {
    && |b| >= 64 && b[0] == 0x7f && b[1] == 0x45 && b[2] == 0x4c && b[3] == 0x46 && b[4] == 2 && b[5] == 1 && b[6] == 1
    && b[16..18] == [2, 0] && b[18..20] == [62, 0] && b[24..32] == Put(entry, 8) && b[32..40] == Put(phoff, 8)
    && b[54..56] == [56, 0] && b[56..58] == Put(n, 2)
  }

  /** The fields of a program header at ph. */
  ghost predicate PartLaid(b: seq<Byte>, ph: nat, p: Part) {
    && ph + 56 <= |b| && b[ph..ph + 4] == [1, 0, 0, 0] && b[ph + 4..ph + 8] == Put(Flags(p), 4)
    && b[ph + 8..ph + 16] == Put(p.offset, 8) && b[ph + 16..ph + 24] == Put(p.vaddr, 8)
    && b[ph + 32..ph + 40] == Put(p.filesz, 8) && b[ph + 40..ph + 48] == Put(p.memsz, 8)
  }

  ghost predicate TableLaid(b: seq<Byte>, at: nat, parts: seq<Part>) {
    forall i :: 0 <= i < |parts| ==> PartLaid(b, at + 56 * i, parts[i])
  }

  lemma HeaderFields(entry: nat, phoff: nat, n: nat, rest: seq<Byte>)
    ensures HeaderLaid(HeaderBytes(entry, phoff, n) + rest, entry, phoff, n)
  {
    var h := HeaderBytes(entry, phoff, n);
    var b := h + rest;
    assert forall j :: 0 <= j < 64 ==> b[j] == h[j];
    assert b[24..32] == h[24..32] && b[32..40] == h[32..40] && b[56..58] == h[56..58];
  }

  lemma PartFields(pre: seq<Byte>, p: Part, post: seq<Byte>)
    ensures PartLaid(pre + PartBytes(p) + post, |pre|, p)
  {
    var b, h := pre + PartBytes(p) + post, PartBytes(p);
    assert h[0..4] == [1, 0, 0, 0] && h[4..8] == Put(Flags(p), 4) && h[8..16] == Put(p.offset, 8);
    assert h[16..24] == Put(p.vaddr, 8) && h[32..40] == Put(p.filesz, 8) && h[40..48] == Put(p.memsz, 8);
    Slice(pre, h, post, 0, 4);
    Slice(pre, h, post, 4, 8);
    Slice(pre, h, post, 8, 16);
    Slice(pre, h, post, 16, 24);
    Slice(pre, h, post, 32, 40);
    Slice(pre, h, post, 40, 48);
  }

  lemma Slice(pre: seq<Byte>, part: seq<Byte>, post: seq<Byte>, lo: nat, hi: nat)
    requires lo <= hi <= |part|
    ensures (pre + part + post)[|pre| + lo..|pre| + hi] == part[lo..hi]
  {
  }

  lemma {:induction false} TableFields(pre: seq<Byte>, parts: seq<Part>, post: seq<Byte>)
    ensures TableLaid(pre + TableBytes(parts) + post, |pre|, parts)
    decreases |parts|
  {
    if parts != [] {
      var first, rest := PartBytes(parts[0]), TableBytes(parts[1..]);
      var b := pre + (first + rest) + post;
      Regroup(pre, first, rest, post);
      assert PartLaid(b, |pre|, parts[0]) by { PartFields(pre, parts[0], rest + post); }
      assert TableLaid(b, |pre| + 56, parts[1..]) by { TableFields(pre + first, parts[1..], post); }
      TableNext(b, |pre|, parts);
    }
  }

  lemma Regroup(a: seq<Byte>, b: seq<Byte>, c: seq<Byte>, d: seq<Byte>)
    ensures a + (b + c) + d == (a + b) + c + d == a + b + (c + d)
  {
  }

  lemma TableNext(b: seq<Byte>, at: nat, parts: seq<Part>)
    requires parts != [] && PartLaid(b, at, parts[0]) && TableLaid(b, at + 56, parts[1..])
    ensures TableLaid(b, at, parts)
  {
    forall i | 0 <= i < |parts| ensures PartLaid(b, at + 56 * i, parts[i]) {
      if i > 0 { assert PartLaid(b, at + 56 + 56 * (i - 1), parts[1..][i - 1]); }
    }
  }

  /** The file b holds such a header, with its program headers at `at`. */
  ghost predicate Laid(b: seq<Byte>, entry: nat, at: nat, parts: seq<Part>) {
    && |b| < U64_LIMIT && at + 56 * |parts| <= |b| && 1 <= |parts| <= 32
    && HeaderLaid(b, entry, at, |parts|) && TableLaid(b, at, parts)
    && (forall i :: 0 <= i < |parts| ==> PartOk(parts[i], |b|)) && USER_SPACE_BASE <= entry < USER_SPACE_END
  }

  lemma FileLayout(entry: nat, gap: seq<Byte>, parts: seq<Part>, body: seq<Byte>)
    ensures var b, at := FileBytes(entry, gap, parts, body), 64 + |gap|;
            at + 56 * |parts| <= |b| && HeaderLaid(b, entry, at, |parts|) && TableLaid(b, at, parts)
  {
    var h, t := HeaderBytes(entry, 64 + |gap|, |parts|), TableBytes(parts);
    var b := h + gap + t + body;
    assert b == h + (gap + t + body) by {
      Regroup(h, gap, t, body);
      Regroup([], h, gap + t, body);
      assert [] + (h + (gap + t)) + body == h + (gap + t) + body && ([] + h) + (gap + t) + body == h + (gap + t) + body;
      assert [] + h + ((gap + t) + body) == h + (gap + t + body);
    }
    assert HeaderLaid(b, entry, 64 + |gap|, |parts|) by { HeaderFields(entry, 64 + |gap|, |parts|, gap + t + body); }
    assert TableLaid(b, |h + gap|, parts) by { TableFields(h + gap, parts, body); }
  }

  lemma FileLaid(entry: nat, gap: seq<Byte>, parts: seq<Part>, body: seq<Byte>)
    requires FileOk(entry, gap, parts, body)
    ensures Laid(FileBytes(entry, gap, parts, body), entry, 64 + |gap|, parts)
  {
    FileLayout(entry, gap, parts, body);
    var i :| 0 <= i < |parts| && Inside(parts[i], entry);
    assert PartOk(parts[i], |FileBytes(entry, gap, parts, body)|);
  }

  lemma UserRange(va: nat)
    requires USER_SPACE_BASE <= va < USER_SPACE_END
    ensures InUserSpace(va)
  {
  }

  lemma Small(b: seq<Byte>, off: nat, v: Byte)
    requires off + 2 <= |b| && b[off..off + 2] == [v, 0]
    ensures Le(b, off, 2) == v
  {
    assert b[off] == b[off..off + 2][0] && b[off + 1] == b[off..off + 2][1];
    assert Le(b, off + 1, 1) == b[off + 1] + 256 * Le(b, off + 2, 0);
  }

  lemma HeaderRead(b: seq<Byte>, entry: nat, at: nat, n: nat)
    requires HeaderLaid(b, entry, at, n) && n <= 32 && at < U64_LIMIT && USER_SPACE_BASE <= entry < USER_SPACE_END
    ensures Le(b, 24, 8) == entry && Le(b, 32, 8) == at && Le(b, 56, 2) == n
    ensures Le(b, 16, 2) == 2 && Le(b, 18, 2) == 62 && Le(b, 54, 2) == 56
  {
    Widths();
    LePut(b, 24, 8, entry);
    LePut(b, 32, 8, at);
    LePut(b, 56, 2, n);
    Small(b, 16, 2);
    Small(b, 18, 62);
    Small(b, 54, 56);
  }

  lemma PartRead(b: seq<Byte>, ph: nat, p: Part)
    requires |b| < U64_LIMIT && PartLaid(b, ph, p) && PartOk(p, |b|)
    ensures Le(b, ph, 4) == PT_LOAD && SegmentAt(b, ph) == SegmentOf(p)
  {
    Widths();
    assert Put(0, 2) == [0] + Put(0, 1) && Put(0, 3) == [0] + Put(0, 2) && Put(1, 4) == [1] + Put(0, 3);
    LePut(b, ph, 4, 1);
    LePut(b, ph + 4, 4, Flags(p));
    LePut(b, ph + 8, 8, p.offset);
    LePut(b, ph + 16, 8, p.vaddr);
    LePut(b, ph + 32, 8, p.filesz);
    LePut(b, ph + 40, 8, p.memsz);
  }

  /** Program header ph is read as p and accepted. */
  ghost predicate ReadsAs(b: seq<Byte>, ph: nat, p: Part) {
    ph + 56 <= |b| && SegmentAt(b, ph) == SegmentOf(p) && PhOk(b, ph) && Loads(b, ph)
  }

  lemma PartAccepted(b: seq<Byte>, ph: nat, p: Part)
    requires |b| < U64_LIMIT && PartLaid(b, ph, p) && PartOk(p, |b|)
    ensures ReadsAs(b, ph, p)
  {
    PartRead(b, ph, p);
    FlagBits(p);
    UserRange(p.vaddr);
  }

  ghost predicate AllRead(b: seq<Byte>, at: nat, parts: seq<Part>) {
    forall i :: 0 <= i < |parts| ==> ReadsAs(b, at + 56 * i, parts[i])
  }

  lemma {:induction false} TableRead(b: seq<Byte>, at: nat, parts: seq<Part>, n: nat)
    requires |b| >= 64 && Le(b, 32, 8) == at && at + 56 * |parts| <= |b| && n <= |parts| && AllRead(b, at, parts)
    ensures TableFits(b, n) && LoadSegments(b, n) == SegmentsOf(parts[..n])
  {
    if n > 0 {
      TableRead(b, at, parts, n - 1);
      assert Ph(b, n - 1) == at + 56 * (n - 1);
      assert ReadsAs(b, at + 56 * (n - 1), parts[n - 1]);
      NextSegment(b, n, at + 56 * (n - 1), parts[n - 1]);
      SegmentsNext(parts, n);
    }
  }

  lemma NextSegment(b: seq<Byte>, n: nat, ph: nat, p: Part)
    requires n > 0 && TableFits(b, n) && ph == Ph(b, n - 1) && ReadsAs(b, ph, p)
    ensures LoadSegments(b, n) == LoadSegments(b, n - 1) + [SegmentOf(p)]
  {
  }

  lemma SegmentsNext(parts: seq<Part>, n: nat)
    requires 0 < n <= |parts|
    ensures SegmentsOf(parts[..n]) == SegmentsOf(parts[..n - 1]) + [SegmentOf(parts[n - 1])]
  {
  }

  /** Every file written this way is accepted. */
  lemma WrittenAccepted(entry: nat, gap: seq<Byte>, parts: seq<Part>, body: seq<Byte>)
    requires FileOk(entry, gap, parts, body)
    ensures var b := FileBytes(entry, gap, parts, body);
            && Accepts(b) && Le(b, 24, 8) == entry && LoadSegments(b, Le(b, 56, 2)) == SegmentsOf(parts)
  {
    FileLaid(entry, gap, parts, body);
    var i :| 0 <= i < |parts| && Inside(parts[i], entry);
    LaidAccepted(FileBytes(entry, gap, parts, body), entry, 64 + |gap|, parts, i);
  }

  lemma LaidAccepted(b: seq<Byte>, entry: nat, at: nat, parts: seq<Part>, i: nat)
    requires Laid(b, entry, at, parts) && i < |parts| && Inside(parts[i], entry)
    ensures Accepts(b) && Le(b, 24, 8) == entry && LoadSegments(b, Le(b, 56, 2)) == SegmentsOf(parts)
  {
    HeaderRead(b, entry, at, |parts|);
    UserRange(entry);
    forall j | 0 <= j < |parts| ensures ReadsAs(b, at + 56 * j, parts[j]) { PartAccepted(b, at + 56 * j, parts[j]); }
    TableRead(b, at, parts, |parts|);
    forall j | 0 <= j < |parts| ensures PhOk(b, Ph(b, j)) { assert ReadsAs(b, at + 56 * j, parts[j]); }
    assert parts[..|parts|] == parts;
    assert SegmentsOf(parts)[i] in SegmentsOf(parts) && Contains(SegmentsOf(parts)[i], entry);
  }

  /** What an accepted file must hold, byte by byte: the magic, 64 bits, little endian, version 1, an executable for
      x86-64 with program headers of 56 bytes, of which there are 1 to 32. */
  lemma AcceptedBytes(b: seq<Byte>)
    requires Accepts(b)
    ensures |b| >= 64 && b[..7] == [0x7f, 0x45, 0x4c, 0x46, 2, 1, 1] && b[16..20] == [2, 0, 62, 0]
    ensures b[54] == 56 && b[55] == 0 && 1 <= b[56] <= 32 && b[57] == 0
  {
    Two(b, 16);
    Two(b, 18);
    Two(b, 54);
    Two(b, 56);
  }

  lemma Two(b: seq<Byte>, off: nat)
    requires off + 2 <= |b|
    ensures var lo: nat, hi: nat := b[off], b[off + 1]; Le(b, off, 2) == lo + 256 * hi
  {
    assert Le(b, off + 2, 0) == 0;
    var hi: nat := b[off + 1];
    assert Le(b, off + 1, 1) == hi;
  }

  /** Parsing inverts writing: the entry and exactly the segments, in order, with the permissions written. */
  method ParseWritten(entry: nat, gap: seq<Byte>, parts: seq<Part>, body: seq<Byte>) returns (r: Option<Image>)
    requires FileOk(entry, gap, parts, body)
    ensures r == Some(Image(entry, SegmentsOf(parts)))
    ensures forall i :: 0 <= i < |parts| ==>
      (r.value.segments[i].Executable() <==> parts[i].x) && (r.value.segments[i].Writable() <==> parts[i].w)
  {
    WrittenAccepted(entry, gap, parts, body);
    r := Parse(FileBytes(entry, gap, parts, body));
    forall i | 0 <= i < |parts|
      ensures (SegmentOf(parts[i]).Executable() <==> parts[i].x) && (SegmentOf(parts[i]).Writable() <==> parts[i].w)
    {
      FlagBits(parts[i]);
    }
  }
}
