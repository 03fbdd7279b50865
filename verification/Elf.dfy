/** Parsing and validating an ELF64 executable (kernel/src/elf.rs), the trust boundary of the loader.
    Header layout: System V gABI chapter 4 (ELF Header) and chapter 5 (Program Header). */
module Elf {
  import opened Wrappers
  import opened Paging

  const MAX_SEGMENTS: nat := 32
  const PHENT_SIZE: nat := 56
  const U64_LIMIT: nat := 0x1_0000_0000_0000_0000
  const PT_LOAD: nat := 1

  datatype Segment = Segment(offset: nat, vaddr: nat, filesz: nat, memsz: nat, flags: nat)
  {
    predicate Executable() { flags % 2 == 1 }
    predicate Writable() { flags / 2 % 2 == 1 }
  }

  /** Entry point and the loaded segments, in file order. */
  datatype Image = Image(entry: nat, segments: seq<Segment>)

  // ---- little-endian fields ----

  /** The n bytes at `off` as a little-endian number. */
  function Le(bytes: seq<Byte>, off: nat, n: nat): (v: nat)
    requires off + n <= |bytes|
    decreases n
  {
    if n == 0 then 0 else bytes[off] + 256 * Le(bytes, off + 1, n - 1)
  }

  /** The bounds-checked readers `u16le`, `u32le` and `u64le`. */
  function ReadLe(bytes: seq<Byte>, off: nat, n: nat): (r: Option<nat>)
    ensures r.Some? <==> off + n <= |bytes|
  {
    if off + n <= |bytes| then Some(Le(bytes, off, n)) else None
  }

  function CheckedAdd(x: nat, y: nat): (r: Option<nat>) {
    if x + y < U64_LIMIT then Some(x + y) else None
  }

  predicate InUserSpace(va: nat) { IsUserAddress(va) && va >= USER_SPACE_BASE }

  // ---- what is accepted ----

  ghost predicate HeaderOk(b: seq<Byte>) {
    && |b| >= 64
    && b[0] == 0x7f && b[1] == 0x45 && b[2] == 0x4c && b[3] == 0x46
    && b[4] == 2 && b[5] == 1 && b[6] == 1
    && Le(b, 16, 2) == 2 && Le(b, 18, 2) == 62
    && Le(b, 54, 2) == PHENT_SIZE
    && 1 <= Le(b, 56, 2) <= MAX_SEGMENTS
    && Le(b, 32, 8) + PHENT_SIZE * Le(b, 56, 2) <= |b|
    && InUserSpace(Le(b, 24, 8))
  }

  /** Offset of program header i. */
  ghost function Ph(b: seq<Byte>, i: nat): (off: nat)
    requires |b| >= 64
  {
    Le(b, 32, 8) + PHENT_SIZE * i
  }

  ghost function SegmentAt(b: seq<Byte>, ph: nat): (s: Segment)
    requires ph + PHENT_SIZE <= |b|
  {
    Segment(Le(b, ph + 8, 8), Le(b, ph + 16, 8), Le(b, ph + 32, 8), Le(b, ph + 40, 8), Le(b, ph + 4, 4))
  }

  /** A program header the loader takes as a segment; empty ones are skipped. */
  ghost predicate Loads(b: seq<Byte>, ph: nat)
    requires ph + PHENT_SIZE <= |b|
  {
    Le(b, ph, 4) == PT_LOAD && SegmentAt(b, ph).memsz > 0
  }

  /** A loadable header must stay inside the file and, if it occupies memory, inside user space. */
  ghost predicate PhOk(b: seq<Byte>, ph: nat)
    requires ph + PHENT_SIZE <= |b|
  {
    Le(b, ph, 4) == PT_LOAD ==>
      var s := SegmentAt(b, ph);
      && !(s.Writable() && s.Executable())
      && s.offset + s.filesz <= |b| && s.filesz <= s.memsz
      && (s.memsz > 0 ==> InUserSpace(s.vaddr) && s.vaddr + s.memsz <= USER_SPACE_END)
  }

  ghost predicate TableFits(b: seq<Byte>, n: nat) {
    |b| >= 64 && Le(b, 32, 8) + PHENT_SIZE * n <= |b|
  }

  /** Segments of the first n program headers, in order. */
  ghost function LoadSegments(b: seq<Byte>, n: nat): (s: seq<Segment>)
    requires TableFits(b, n)
  {
    if n == 0 then []
    else LoadSegments(b, n - 1) + if Loads(b, Ph(b, n - 1)) then [SegmentAt(b, Ph(b, n - 1))] else []
  }

  predicate Contains(s: Segment, va: nat) { s.vaddr <= va < s.vaddr + s.memsz }

  ghost predicate Accepts(b: seq<Byte>) {
    && HeaderOk(b)
    && (forall i :: 0 <= i < Le(b, 56, 2) ==> PhOk(b, Ph(b, i)))
    && exists s :: s in LoadSegments(b, Le(b, 56, 2)) && Contains(s, Le(b, 24, 8))
  }

  /** Parsing is total: every byte string is accepted or refused, and no read leaves the image. */
  method Parse(bytes: seq<Byte>) returns (r: Option<Image>)
    requires |bytes| < U64_LIMIT
    ensures r.Some? <==> Accepts(bytes)
    ensures r.Some? ==> r.value == Image(Le(bytes, 24, 8), LoadSegments(bytes, Le(bytes, 56, 2)))
  {
    var headerOk := CheckHeader(bytes);
    if !headerOk { return None; }
    var entry := ReadLe(bytes, 24, 8).value;
    var phnum := ReadLe(bytes, 56, 2).value;
    var ok, segments := ParseSegments(bytes, phnum);
    if !ok { return None; }
    if |segments| == 0 { return None; }
    var inSegment := EntryInSegment(segments, entry);
    if !inSegment { return None; }
    return Some(Image(entry, segments));
  }

  method CheckHeader(bytes: seq<Byte>) returns (ok: bool)
    requires |bytes| < U64_LIMIT
    ensures ok <==> HeaderOk(bytes)
  {
    if |bytes| < 64 { return false; }
    if !(bytes[0] == 0x7f && bytes[1] == 0x45 && bytes[2] == 0x4c && bytes[3] == 0x46) { return false; }
    if bytes[4] != 2 { return false; }
    if bytes[5] != 1 { return false; }
    if bytes[6] != 1 { return false; }
    if ReadLe(bytes, 16, 2) != Some(2) { return false; }
    if ReadLe(bytes, 18, 2) != Some(62) { return false; }
    var entry := ReadLe(bytes, 24, 8).value;
    var phoff := ReadLe(bytes, 32, 8).value;
    var phentsize := ReadLe(bytes, 54, 2).value;
    var phnum := ReadLe(bytes, 56, 2).value;
    if phentsize != PHENT_SIZE { return false; }
    if phnum == 0 || phnum > MAX_SEGMENTS { return false; }
    var phEnd := CheckedAdd(phoff, PHENT_SIZE * phnum);
    if phEnd.None? || phEnd.value > |bytes| { return false; }
    return InUserSpace(entry);
  }

  /** The program-header loop: refuses at the first bad header, collects the loadable ones in order. */
  method ParseSegments(bytes: seq<Byte>, phnum: nat) returns (ok: bool, segments: seq<Segment>)
    requires |bytes| < U64_LIMIT && phnum <= MAX_SEGMENTS && TableFits(bytes, phnum)
    ensures ok <==> forall i :: 0 <= i < phnum ==> PhOk(bytes, Ph(bytes, i))
    ensures ok ==> segments == LoadSegments(bytes, phnum)
  {
    var phoff := ReadLe(bytes, 32, 8).value;
    segments := [];
    var i := 0;
    while i < phnum
      invariant i <= phnum && segments == LoadSegments(bytes, i)
      invariant forall j :: 0 <= j < i ==> PhOk(bytes, Ph(bytes, j))
    {
      var ph := phoff + i * PHENT_SIZE;
      assert ph == Ph(bytes, i) && ph + PHENT_SIZE <= |bytes|;
      if ReadLe(bytes, ph, 4) == Some(PT_LOAD) {
        var segmentOk, s := ParseSegment(bytes, ph);
        if !segmentOk { return false, segments; }
        if s.memsz > 0 { segments := segments + [s]; }
      }
      i := i + 1;
    }
    return true, segments;
  }

  method ParseSegment(bytes: seq<Byte>, ph: nat) returns (ok: bool, s: Segment)
    requires |bytes| < U64_LIMIT && ph + PHENT_SIZE <= |bytes| && Le(bytes, ph, 4) == PT_LOAD
    ensures s == SegmentAt(bytes, ph)
    ensures ok <==> PhOk(bytes, ph)
  {
    var flags := ReadLe(bytes, ph + 4, 4).value;
    var offset := ReadLe(bytes, ph + 8, 8).value;
    var vaddr := ReadLe(bytes, ph + 16, 8).value;
    var filesz := ReadLe(bytes, ph + 32, 8).value;
    var memsz := ReadLe(bytes, ph + 40, 8).value;
    s := Segment(offset, vaddr, filesz, memsz, flags);
    if s.Writable() && s.Executable() { return false, s; }
    var fileEnd := CheckedAdd(offset, filesz);
    if fileEnd.None? || fileEnd.value > |bytes| { return false, s; }
    if filesz > memsz { return false, s; }
    if memsz == 0 { return true, s; }
    if !InUserSpace(vaddr) { return false, s; }
    var memEnd := CheckedAdd(vaddr, memsz);
    if memEnd.None? || memEnd.value > USER_SPACE_END { return false, s; }
    return true, s;
  }

  method EntryInSegment(segments: seq<Segment>, entry: nat) returns (b: bool)
    ensures b <==> exists s :: s in segments && Contains(s, entry)
  {
    for i := 0 to |segments|
      invariant forall j :: 0 <= j < i ==> !Contains(segments[j], entry)
    {
      if segments[i].vaddr <= entry < segments[i].vaddr + segments[i].memsz {
        assert segments[i] in segments && Contains(segments[i], entry);
        return true;
      }
    }
    return false;
  }

  // ---- what an accepted image guarantees ----

  predicate SegmentOk(s: Segment, fileLen: nat) {
    && s.offset + s.filesz <= fileLen && s.filesz <= s.memsz && s.memsz > 0
    && USER_SPACE_BASE <= s.vaddr && s.vaddr + s.memsz <= USER_SPACE_END
    && !(s.Writable() && s.Executable())
  }

  ghost predicate ImageOk(img: Image, fileLen: nat) {
    && 1 <= |img.segments| <= MAX_SEGMENTS
    && (forall i :: 0 <= i < |img.segments| ==> SegmentOk(img.segments[i], fileLen))
    && USER_SPACE_BASE <= img.entry < USER_SPACE_END
    && exists i :: 0 <= i < |img.segments| && Contains(img.segments[i], img.entry)
  }

  lemma LoadedHeaderOk(b: seq<Byte>, ph: nat)
    requires ph + PHENT_SIZE <= |b| && Loads(b, ph) && PhOk(b, ph)
    ensures SegmentOk(SegmentAt(b, ph), |b|)
  {
  }

  lemma {:induction false} LoadSegmentsOk(b: seq<Byte>, n: nat)
    requires TableFits(b, n) && forall i :: 0 <= i < n ==> PhOk(b, Ph(b, i))
    ensures |LoadSegments(b, n)| <= n
    ensures forall i :: 0 <= i < |LoadSegments(b, n)| ==> SegmentOk(LoadSegments(b, n)[i], |b|)
  {
    if n > 0 {
      LoadSegmentsOk(b, n - 1);
      var ph := Ph(b, n - 1);
      assert PhOk(b, ph);
      if Loads(b, ph) {
        LoadedHeaderOk(b, ph);
        assert LoadSegments(b, n) == LoadSegments(b, n - 1) + [SegmentAt(b, ph)];
      } else {
        assert LoadSegments(b, n) == LoadSegments(b, n - 1);
      }
    }
  }

  lemma AcceptedImageOk(b: seq<Byte>)
    requires Accepts(b)
    ensures ImageOk(Image(Le(b, 24, 8), LoadSegments(b, Le(b, 56, 2))), |b|)
  {
    var n := Le(b, 56, 2);
    LoadSegmentsOk(b, n);
    var s :| s in LoadSegments(b, n) && Contains(s, Le(b, 24, 8));
    var i :| 0 <= i < |LoadSegments(b, n)| && LoadSegments(b, n)[i] == s;
    assert SegmentOk(LoadSegments(b, n)[i], |b|);
  }
}
