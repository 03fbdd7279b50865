/** UTF-8 decoding and character boundaries (kernel/src/video/unicode.rs:23-103), against the encoding of
    sections 3 and 4 of RFC 3629. The bit tests on a byte are written as the ranges they select. */
module Utf8 {
  import opened Wrappers

  const REPLACEMENT: nat := 0xFFFD

  /** The bit tests of the decoder select these ranges and offsets. */
  lemma BitTests(b: bv8)
    ensures b & 0xE0 == 0xC0 <==> 0xC0 <= b < 0xE0
    ensures b & 0xF0 == 0xE0 <==> 0xE0 <= b < 0xF0
    ensures b & 0xF8 == 0xF0 <==> 0xF0 <= b < 0xF8
    ensures b & 0xC0 == 0x80 <==> 0x80 <= b < 0xC0
    ensures 0xC0 <= b < 0xE0 ==> b & 0x1F == b - 0xC0
    ensures 0xE0 <= b < 0xF0 ==> b & 0x0F == b - 0xE0
    ensures 0xF0 <= b < 0xF8 ==> b & 0x07 == b - 0xF0
    ensures 0x80 <= b < 0xC0 ==> b & 0x3F == b - 0x80
  {
  }

  predicate Scalar(cp: nat) { cp <= 0x10_FFFF && !(0xD800 <= cp <= 0xDFFF) }

  predicate Continuation(b: Byte) { 0x80 <= b < 0xC0 }

  /** RFC 3629 section 3. */
  function Encode(cp: nat): (s: seq<Byte>)
    requires Scalar(cp)
    ensures 1 <= |s| <= 4 && !Continuation(s[0]) && forall k :: 1 <= k < |s| ==> Continuation(s[k])
  {
    if cp < 0x80 then [cp]
    else if cp < 0x800 then [0xC0 + cp / 0x40, 0x80 + cp % 0x40]
    else if cp < 0x1_0000 then [0xE0 + cp / 0x40 / 0x40, 0x80 + cp / 0x40 % 0x40, 0x80 + cp % 0x40]
    else [0xF0 + cp / 0x40 / 0x40 / 0x40, 0x80 + cp / 0x40 / 0x40 % 0x40, 0x80 + cp / 0x40 % 0x40, 0x80 + cp % 0x40]
  }

  /** Continuation bytes announced by the first byte, and its payload; None for a byte that starts nothing. */
  function Lead(b: Byte): (r: Option<(nat, nat)>) {
    if 0xC0 <= b < 0xE0 then Some((1, b - 0xC0))
    else if 0xE0 <= b < 0xF0 then Some((2, b - 0xE0))
    else if 0xF0 <= b < 0xF8 then Some((3, b - 0xF0))
    else None
  }

  /** Fold in continuation bytes k..need; None at the first byte that is none. */
  function Gather(bytes: seq<Byte>, i: nat, k: nat, need: nat, cp: nat): (r: Option<nat>)
    requires 1 <= k <= need + 1 && i + need < |bytes|
    decreases need + 1 - k
  {
    if k == need + 1 then Some(cp)
    else if !Continuation(bytes[i + k]) then None
    else Gather(bytes, i, k + 1, need, cp * 0x40 + (bytes[i + k] - 0x80))
  }

  function Shortest(need: nat): (min: nat) { if need == 1 then 0x80 else if need == 2 then 0x800 else 0x1_0000 }

  /** Code point and length at i; anything malformed is U+FFFD of length 1. */
  function Decode(bytes: seq<Byte>, i: nat): (r: (nat, nat))
    requires i < |bytes|
    ensures r.1 >= 1 && i + r.1 <= |bytes|
  {
    if bytes[i] < 0x80 then (bytes[i], 1)
    else match Lead(bytes[i])
      case None => (REPLACEMENT, 1)
      case Some((need, start)) =>
        if i + need >= |bytes| then (REPLACEMENT, 1)
        else match Gather(bytes, i, 1, need, start)
          case None => (REPLACEMENT, 1)
          case Some(cp) => if cp < Shortest(need) || !Scalar(cp) then (REPLACEMENT, 1) else (cp, need + 1)
  }

  method DecodeAt(bytes: seq<Byte>, i: nat) returns (cp: nat, n: nat)
    requires i < |bytes|
    ensures (cp, n) == Decode(bytes, i)
  {
    var b0 := bytes[i];
    if b0 < 0x80 { return b0, 1; }
    var need := 0;
    if 0xC0 <= b0 < 0xE0 { need, cp := 1, b0 - 0xC0; }
    else if 0xE0 <= b0 < 0xF0 { need, cp := 2, b0 - 0xE0; }
    else if 0xF0 <= b0 < 0xF8 { need, cp := 3, b0 - 0xF0; }
    else { return REPLACEMENT, 1; }
    if i + need >= |bytes| { return REPLACEMENT, 1; }
    ghost var start := cp;
    for k := 1 to need + 1
      invariant Gather(bytes, i, 1, need, start) == Gather(bytes, i, k, need, cp)
    {
      var b := bytes[i + k];
      if !(0x80 <= b < 0xC0) { return REPLACEMENT, 1; }
      cp := cp * 0x40 + (b - 0x80);
    }
    var min := if need == 1 then 0x80 else if need == 2 then 0x800 else 0x1_0000;
    if cp < min || 0xD800 <= cp <= 0xDFFF || cp > 0x10_FFFF { return REPLACEMENT, 1; }
    return cp, need + 1;
  }

  // ---- decoding inverts encoding ----

  /** The bytes from i start with the encoding of cp. */
  predicate EncodedAt(bytes: seq<Byte>, i: nat, cp: nat) {
    Scalar(cp) && i + |Encode(cp)| <= |bytes| && bytes[i..i + |Encode(cp)|] == Encode(cp)
  }

  lemma EncodedBytes(bytes: seq<Byte>, i: nat, cp: nat)
    requires EncodedAt(bytes, i, cp)
    ensures forall k :: 0 <= k < |Encode(cp)| ==> bytes[i + k] == Encode(cp)[k]
  {
    var slice := bytes[i..i + |Encode(cp)|];
    assert forall k :: 0 <= k < |slice| ==> slice[k] == bytes[i + k];
  }

  /** Decoding gives back every encoded scalar value, wherever it stands. */
  lemma DecodeInverts(bytes: seq<Byte>, i: nat, cp: nat)
    requires EncodedAt(bytes, i, cp)
    ensures Decode(bytes, i) == (cp, |Encode(cp)|)
  {
    EncodedBytes(bytes, i, cp);
    var s := Encode(cp);
    if cp >= 0x80 {
      var need := |s| - 1;
      LeadOf(cp);
      assert bytes[i + 0] == s[0];
      forall j | i < j <= i + need ensures bytes[j] == s[j - i] { assert bytes[i + (j - i)] == s[j - i]; }
      Gathered(bytes, i, 1, need, Lead(s[0]).value.1);
      ValueOf(bytes, i, cp);
    }
  }

  /** The first byte of an encoding announces the rest and carries the top bits. */
  lemma LeadOf(cp: nat)
    requires Scalar(cp) && cp >= 0x80
    ensures var need := |Encode(cp)| - 1;
            && 1 <= need <= 3 && Lead(Encode(cp)[0]) == Some((need, Top(cp, need))) && cp >= Shortest(need)
  {
  }

  /** What is left of cp above `need` groups of six bits. */
  function Top(cp: nat, need: nat): (t: nat) {
    if need == 1 then cp / 0x40 else if need == 2 then cp / 0x40 / 0x40 else cp / 0x40 / 0x40 / 0x40
  }

  lemma ValueOf(bytes: seq<Byte>, i: nat, cp: nat)
    requires Scalar(cp) && cp >= 0x80 && i + |Encode(cp)| <= |bytes|
    requires forall j :: i < j < i + |Encode(cp)| ==> bytes[j] == Encode(cp)[j - i]
    ensures var need := |Encode(cp)| - 1; Value(bytes, i, need, Top(cp, need)) == cp
  {
    var need := |Encode(cp)| - 1;
    var start := Top(cp, need);
    var v1 := Value(bytes, i, 1, start);
    assert Value(bytes, i, 0, start) == start;
    if need == 1 {
      Digit(cp);
    } else if need == 2 {
      Digit(cp / 0x40);
      Digit(cp);
      assert v1 == cp / 0x40;
    } else {
      Digit(cp / 0x40 / 0x40);
      Digit(cp / 0x40);
      Digit(cp);
      assert v1 == cp / 0x40 / 0x40;
      assert Value(bytes, i, 2, start) == cp / 0x40;
    }
  }

  lemma Digit(x: nat)
    ensures x / 0x40 * 0x40 + x % 0x40 == x && x % 0x40 < 0x40
  {
  }

  /** Low six bits of a continuation byte. */
  function Six(b: Byte): (v: nat) { if b >= 0x80 then b - 0x80 else 0 }

  /** The value of `need` continuation bytes after the payload `start`. */
  function Value(bytes: seq<Byte>, i: nat, need: nat, start: nat): (cp: nat)
    requires i + need < |bytes|
  {
    if need == 0 then start else Value(bytes, i, need - 1, start) * 0x40 + Six(bytes[i + need])
  }

  predicate AllContinue(bytes: seq<Byte>, i: nat, need: nat)
    requires i + need < |bytes|
  {
    forall j :: i < j <= i + need ==> Continuation(bytes[j])
  }

  lemma {:induction false} Gathered(bytes: seq<Byte>, i: nat, k: nat, need: nat, start: nat)
    requires 1 <= k <= need + 1 && i + need < |bytes| && AllContinue(bytes, i, k - 1)
    ensures var r := Gather(bytes, i, k, need, Value(bytes, i, k - 1, start));
            (r.Some? <==> AllContinue(bytes, i, need)) && (r.Some? ==> r.value == Value(bytes, i, need, start))
    decreases need + 1 - k
  {
    if k <= need && Continuation(bytes[i + k]) { Gathered(bytes, i, k + 1, need, start); }
  }

  /** What is accepted as more than one byte is the encoding of the value returned: decoding accepts a
      multi-byte sequence exactly when it is well formed. */
  lemma DecodeAccepts(bytes: seq<Byte>, i: nat)
    requires i < |bytes|
    ensures var (cp, n) := Decode(bytes, i);
            && (n > 1 <==> exists c :: c >= 0x80 && EncodedAt(bytes, i, c))
            && (n > 1 || bytes[i] < 0x80 ==> EncodedAt(bytes, i, cp) && n == |Encode(cp)|)
            && (n == 1 && bytes[i] >= 0x80 ==> cp == REPLACEMENT)
  {
    var (cp, n) := Decode(bytes, i);
    if n > 1 {
      var (need, start) := Lead(bytes[i]).value;
      Gathered(bytes, i, 1, need, start);
      AcceptedIsEncoding(bytes, i, need, start);
      assert cp >= 0x80 && EncodedAt(bytes, i, cp);
    } else if bytes[i] < 0x80 {
      assert bytes[i..i + 1] == Encode(cp);
    }
    if c :| c >= 0x80 && EncodedAt(bytes, i, c) { DecodeInverts(bytes, i, c); }
  }

  lemma AcceptedIsEncoding(bytes: seq<Byte>, i: nat, need: nat, start: nat)
    requires i < |bytes| && Lead(bytes[i]) == Some((need, start)) && i + need < |bytes| && AllContinue(bytes, i, need)
    requires Scalar(Value(bytes, i, need, start)) && Value(bytes, i, need, start) >= Shortest(need)
    ensures var cp := Value(bytes, i, need, start); EncodedAt(bytes, i, cp) && |Encode(cp)| == need + 1
  {
    var cp := Value(bytes, i, need, start);
    assert Encode(cp) == bytes[i..i + need + 1] by {
      if need == 1 {
        AcceptTwo(bytes, i, start);
      } else if need == 2 {
        AcceptThree(bytes, i, start);
      } else {
        AcceptFour(bytes, i, start);
      }
    }
  }

  lemma AcceptTwo(bytes: seq<Byte>, i: nat, a: nat)
    requires i + 1 < |bytes| && bytes[i] == 0xC0 + a && a < 0x20 && Continuation(bytes[i + 1])
    requires Scalar(Value(bytes, i, 1, a)) && Value(bytes, i, 1, a) >= 0x80
    ensures Encode(Value(bytes, i, 1, a)) == bytes[i..i + 2]
  {
    assert Value(bytes, i, 0, a) == a;
    Encode2(a, Six(bytes[i + 1]));
  }

  lemma AcceptThree(bytes: seq<Byte>, i: nat, a: nat)
    requires i + 2 < |bytes| && bytes[i] == 0xE0 + a && a < 0x10 && Continuation(bytes[i + 1])
    requires Continuation(bytes[i + 2])
    requires Scalar(Value(bytes, i, 2, a)) && Value(bytes, i, 2, a) >= 0x800
    ensures Encode(Value(bytes, i, 2, a)) == bytes[i..i + 3]
  {
    assert Value(bytes, i, 0, a) == a;
    assert Value(bytes, i, 1, a) == a * 0x40 + Six(bytes[i + 1]);
    Encode3(a, Six(bytes[i + 1]), Six(bytes[i + 2]));
  }

  lemma AcceptFour(bytes: seq<Byte>, i: nat, a: nat)
    requires i + 3 < |bytes| && bytes[i] == 0xF0 + a && a < 8
    requires Continuation(bytes[i + 1]) && Continuation(bytes[i + 2]) && Continuation(bytes[i + 3])
    requires Scalar(Value(bytes, i, 3, a)) && Value(bytes, i, 3, a) >= 0x1_0000
    ensures Encode(Value(bytes, i, 3, a)) == bytes[i..i + 4]
  {
    assert Value(bytes, i, 0, a) == a;
    var v1 := Value(bytes, i, 1, a);
    assert v1 == a * 0x40 + Six(bytes[i + 1]);
    assert Value(bytes, i, 2, a) == v1 * 0x40 + Six(bytes[i + 2]);
    Encode4(a, Six(bytes[i + 1]), Six(bytes[i + 2]), Six(bytes[i + 3]));
  }

  lemma Encode2(a: nat, c: nat)
    requires a < 0x20 && c < 0x40 && Scalar(a * 0x40 + c) && a * 0x40 + c >= 0x80
    ensures Encode(a * 0x40 + c) == [0xC0 + a, 0x80 + c]
  {
    Undigit(a, c);
  }

  lemma Encode3(a: nat, b: nat, c: nat)
    requires a < 0x10 && b < 0x40 && c < 0x40 && Scalar((a * 0x40 + b) * 0x40 + c) && (a * 0x40 + b) * 0x40 + c >= 0x800
    ensures Encode((a * 0x40 + b) * 0x40 + c) == [0xE0 + a, 0x80 + b, 0x80 + c]
  {
    Undigit(a * 0x40 + b, c);
    Undigit(a, b);
  }

  lemma Encode4(a: nat, b: nat, c: nat, d: nat)
    requires a < 8 && b < 0x40 && c < 0x40 && d < 0x40
    requires var cp := ((a * 0x40 + b) * 0x40 + c) * 0x40 + d; Scalar(cp) && cp >= 0x1_0000
    ensures Encode(((a * 0x40 + b) * 0x40 + c) * 0x40 + d) == [0xF0 + a, 0x80 + b, 0x80 + c, 0x80 + d]
  {
    Undigit((a * 0x40 + b) * 0x40 + c, d);
    Undigit(a * 0x40 + b, c);
    Undigit(a, b);
  }

  lemma Undigit(x: nat, d: nat)
    requires d < 0x40
    ensures (x * 0x40 + d) / 0x40 == x && (x * 0x40 + d) % 0x40 == d
  {
  }

  // ---- text ----

  predicate Scalars(cps: seq<nat>) { forall k :: 0 <= k < |cps| ==> Scalar(cps[k]) }

  function EncodeAll(cps: seq<nat>): (s: seq<Byte>)
    requires Scalars(cps)
  {
    if cps == [] then [] else EncodeAll(cps[..|cps| - 1]) + Encode(cps[|cps| - 1])
  }

  /** Byte offset of character k. */
  function Offset(cps: seq<nat>, k: nat): (o: nat)
    requires Scalars(cps) && k <= |cps|
  {
    |EncodeAll(cps[..k])|
  }

  /** Every character's bytes stand at its offset. */
  lemma CharAt(cps: seq<nat>, k: nat)
    requires Scalars(cps) && k < |cps|
    ensures EncodedAt(EncodeAll(cps), Offset(cps, k), cps[k])
    ensures Offset(cps, k + 1) == Offset(cps, k) + |Encode(cps[k])| <= |EncodeAll(cps)|
  {
    OffsetNext(cps, k);
    PrefixText(cps, k + 1);
    var text, o := EncodeAll(cps), Offset(cps, k);
    assert cps[..k + 1][..k] == cps[..k];
    assert EncodeAll(cps[..k + 1]) == EncodeAll(cps[..k]) + Encode(cps[k]);
    SliceOf(text, EncodeAll(cps[..k]), Encode(cps[k]));
  }

  lemma SliceOf(text: seq<Byte>, a: seq<Byte>, b: seq<Byte>)
    requires |a + b| <= |text| && text[..|a + b|] == a + b
    ensures text[|a|..|a| + |b|] == b
  {
    assert text[|a|..|a| + |b|] == text[..|a + b|][|a|..];
  }

  /** The text of the first k characters is a prefix of the whole. */
  lemma {:induction false} PrefixText(cps: seq<nat>, k: nat)
    requires Scalars(cps) && k <= |cps|
    ensures |EncodeAll(cps[..k])| <= |EncodeAll(cps)| && EncodeAll(cps)[..|EncodeAll(cps[..k])|] == EncodeAll(cps[..k])
    decreases |cps|
  {
    if k == |cps| {
      assert cps[..k] == cps;
    } else {
      var n := |cps| - 1;
      PrefixText(cps[..n], k);
      assert cps[..n][..k] == cps[..k];
      InPrefix(EncodeAll(cps[..n]), Encode(cps[n]), 0, Offset(cps, k));
    }
  }

  lemma OffsetNext(cps: seq<nat>, k: nat)
    requires Scalars(cps) && k < |cps|
    ensures Offset(cps, k + 1) == Offset(cps, k) + |Encode(cps[k])|
  {
    assert cps[..k + 1][..k] == cps[..k];
  }

  lemma InPrefix(a: seq<Byte>, b: seq<Byte>, i: nat, j: nat)
    requires i <= j <= |a|
    ensures (a + b)[i..j] == a[i..j]
  {
  }

  function NextIndex(bytes: seq<Byte>, i: nat): (j: nat)
    requires i < |bytes|
  {
    i + Decode(bytes, i).1
  }

  method PrevIndex(bytes: seq<Byte>, i: nat) returns (j: nat)
    requires i <= |bytes| && bytes != []
    ensures j == PrevFrom(bytes, if i == 0 then 0 else i - 1)
  {
    j := if i == 0 then 0 else i - 1;
    ghost var first := j;
    while j > 0 && 0x80 <= bytes[j] < 0xC0
      invariant j < |bytes| && PrevFrom(bytes, j) == PrevFrom(bytes, first)
    {
      j := j - 1;
    }
  }

  /** The nearest byte at or before j that is no continuation byte, or 0. */
  function PrevFrom(bytes: seq<Byte>, j: nat): (r: nat)
    requires j < |bytes|
    ensures r <= j && (r > 0 ==> !Continuation(bytes[r])) && forall k :: r < k <= j ==> Continuation(bytes[k])
  {
    if j == 0 || !Continuation(bytes[j]) then j else PrevFrom(bytes, j - 1)
  }

  /** On well-formed text, stepping forward goes to the next character and stepping back undoes it. */
  lemma StepsInvert(cps: seq<nat>, k: nat)
    requires Scalars(cps) && k < |cps|
    ensures var text := EncodeAll(cps);
            && Offset(cps, k) < Offset(cps, k + 1) <= |text|
            && NextIndex(text, Offset(cps, k)) == Offset(cps, k + 1)
            && PrevFrom(text, Offset(cps, k + 1) - 1) == Offset(cps, k)
  {
    var text, o := EncodeAll(cps), Offset(cps, k);
    CharAt(cps, k);
    DecodeInverts(text, o, cps[k]);
    EncodedBytes(text, o, cps[k]);
    var s := Encode(cps[k]);
    assert text[o + 0] == s[0];
    forall j | o < j < o + |s| ensures Continuation(text[j]) { assert text[o + (j - o)] == s[j - o]; }
  }

  // ---- width ----

  predicate Wide(cp: nat) {
    0x1100 <= cp <= 0x115F || 0x2E80 <= cp <= 0x303E || 0x3041 <= cp <= 0x33FF || 0x3400 <= cp <= 0x4DBF
    || 0x4E00 <= cp <= 0x9FFF || 0xA000 <= cp <= 0xA4CF || 0xA960 <= cp <= 0xA97F || 0xAC00 <= cp <= 0xD7A3
    || 0xF900 <= cp <= 0xFAFF || 0xFE10 <= cp <= 0xFE19 || 0xFE30 <= cp <= 0xFE6F || 0xFF00 <= cp <= 0xFF60
    || 0xFFE0 <= cp <= 0xFFE6 || 0x1F300 <= cp <= 0x1F64F || 0x1F900 <= cp <= 0x1F9FF || 0x20000 <= cp <= 0x3FFFD
  }

  /** Columns of a character: 0 for control characters, 2 for wide ones. */
  function Width(cp: nat): (w: nat)
    ensures w <= 2
  {
    if 0x20 <= cp <= 0x7E then 1 else if cp < 0x20 || cp == 0x7F then 0 else if Wide(cp) then 2 else 1
  }

  function Columns(cps: seq<nat>): (n: nat) {
    if cps == [] then 0 else Columns(cps[..|cps| - 1]) + Width(cps[|cps| - 1])
  }

  /** `str_width` from byte i on. */
  function WidthFrom(bytes: seq<Byte>, i: nat): (n: nat)
    requires i <= |bytes|
    decreases |bytes| - i
  {
    if i == |bytes| then 0 else Width(Decode(bytes, i).0) + WidthFrom(bytes, i + Decode(bytes, i).1)
  }

  method StrWidth(bytes: seq<Byte>) returns (w: nat)
    ensures w == WidthFrom(bytes, 0)
  {
    w := 0;
    var i := 0;
    while i < |bytes|
      invariant i <= |bytes| && w + WidthFrom(bytes, i) == WidthFrom(bytes, 0)
    {
      var cp, n := DecodeAt(bytes, i);
      w := w + Width(cp);
      i := i + n;
    }
  }

  /** On well-formed text the byte loop counts the columns of the characters. */
  lemma WidthIsColumns(cps: seq<nat>)
    requires Scalars(cps)
    ensures WidthFrom(EncodeAll(cps), 0) == Columns(cps)
  {
    assert cps[..0] == [] && cps[..|cps|] == cps;
    WidthFromOffset(cps, 0);
  }

  lemma {:induction false} WidthFromOffset(cps: seq<nat>, k: nat)
    requires Scalars(cps) && k <= |cps|
    ensures Offset(cps, k) <= |EncodeAll(cps)|
      && Columns(cps[..k]) + WidthFrom(EncodeAll(cps), Offset(cps, k)) == Columns(cps)
    decreases |cps| - k
  {
    if k < |cps| {
      CharAt(cps, k);
      DecodeInverts(EncodeAll(cps), Offset(cps, k), cps[k]);
      WidthFromOffset(cps, k + 1);
      assert cps[..k + 1][..k] == cps[..k];
    } else {
      assert cps[..k] == cps;
    }
  }
}
