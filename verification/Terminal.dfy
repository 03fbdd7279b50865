/** The kernel terminal's line buffer and history ring (kernel/src/video/mod.rs:299-323, 608-666), on
    characters and as the kernel runs them on bytes. */
module Terminal {
  import opened Wrappers
  import opened Ring
  import opened Utf8

  const LINE_BYTES: nat := 200
  const NEWLINE: nat := 10
  const BACKSPACE: nat := 8

  // ---- on characters ----

  /** Committed lines, oldest first, and the line being written. */
  datatype Term = Term(lines: seq<seq<nat>>, line: seq<nat>)

  function Commit(t: Term): (r: Term) { Term(t.lines + [t.line], []) }

  /** Control characters are dropped; a character that does not fit starts a new line. */
  function Append(t: Term, cp: nat, maxCols: nat): (r: Term)
    requires Scalars(t.line)
  {
    if Width(cp) == 0 || !Scalar(cp) then t
    else if |EncodeAll(t.line)| + |Encode(cp)| > LINE_BYTES || Columns(t.line) + Width(cp) > maxCols
    then Term(t.lines + [t.line], [cp])
    else t.(line := t.line + [cp])
  }

  function Backspace(t: Term): (r: Term) { if t.line == [] then t else t.(line := t.line[..|t.line| - 1]) }

  function Put(t: Term, c: nat, maxCols: nat): (r: Term)
    requires Scalars(t.line)
    ensures Scalars(r.line)
  {
    if c == NEWLINE then Commit(t) else if c == BACKSPACE then Backspace(t) else Append(t, c, maxCols)
  }

  function Print(t: Term, text: seq<nat>, maxCols: nat): (r: Term)
    requires Scalars(t.line)
    ensures Scalars(r.line)
    decreases |text|
  {
    if text == [] then t else Print(Put(t, text[0], maxCols), text[1..], maxCols)
  }

  /** Well-formed visible characters within the byte and column limits. */
  ghost predicate LineOk(line: seq<nat>, maxCols: nat) {
    && Scalars(line) && (forall k :: 0 <= k < |line| ==> Width(line[k]) > 0)
    && |EncodeAll(line)| <= LINE_BYTES && Columns(line) <= maxCols
  }

  ghost predicate TermOk(t: Term, maxCols: nat) {
    LineOk(t.line, maxCols) && forall i :: 0 <= i < |t.lines| ==> LineOk(t.lines[i], maxCols)
  }

  lemma OneMore(line: seq<nat>, cp: nat)
    requires Scalars(line) && Scalar(cp)
    ensures EncodeAll(line + [cp]) == EncodeAll(line) + Encode(cp) && Columns(line + [cp]) == Columns(line) + Width(cp)
  {
    assert (line + [cp])[..|line|] == line;
  }

  /** A line of one visible character is fine exactly when the character is no wider than the screen. */
  lemma SingleFits(cp: nat, maxCols: nat)
    requires Scalar(cp) && Width(cp) > 0
    ensures LineOk([cp], maxCols) <==> Width(cp) <= maxCols
  {
    OneMore([], cp);
    assert [] + [cp] == [cp];
  }

  lemma LongerFits(line: seq<nat>, cp: nat, maxCols: nat)
    requires LineOk(line, maxCols) && Scalar(cp) && Width(cp) > 0
    requires |EncodeAll(line)| + |Encode(cp)| <= LINE_BYTES && Columns(line) + Width(cp) <= maxCols
    ensures LineOk(line + [cp], maxCols)
  {
    OneMore(line, cp);
  }

  /** A visible character keeps the line within its limits exactly when it is no wider than the screen. */
  lemma AppendFits(t: Term, cp: nat, maxCols: nat)
    requires TermOk(t, maxCols) && Scalar(cp) && Width(cp) > 0
    ensures TermOk(Append(t, cp, maxCols), maxCols) <==> Width(cp) <= maxCols
  {
    if |EncodeAll(t.line)| + |Encode(cp)| > LINE_BYTES || Columns(t.line) + Width(cp) > maxCols {
      SingleFits(cp, maxCols);
      var lines := t.lines + [t.line];
      assert forall i :: 0 <= i < |lines| ==> LineOk(lines[i], maxCols);
    } else {
      LongerFits(t.line, cp, maxCols);
    }
  }

  /** With at least two columns, every line of every print stays within its limits. */
  lemma {:induction false} PrintOk(t: Term, text: seq<nat>, maxCols: nat)
    requires TermOk(t, maxCols) && maxCols >= 2
    ensures TermOk(Print(t, text, maxCols), maxCols)
    decreases |text|
  {
    if text != [] {
      PutOk(t, text[0], maxCols);
      PrintOk(Put(t, text[0], maxCols), text[1..], maxCols);
    }
  }

  lemma PutOk(t: Term, c: nat, maxCols: nat)
    requires TermOk(t, maxCols) && maxCols >= 2
    ensures TermOk(Put(t, c, maxCols), maxCols)
  {
    if c == BACKSPACE {
      if t.line != [] {
        var n := |t.line| - 1;
        assert t.line == t.line[..n] + [t.line[n]];
        OneMore(t.line[..n], t.line[n]);
      }
    } else if c != NEWLINE && Scalar(c) && Width(c) > 0 {
      AppendFits(t, c, maxCols);
    }
  }

  /** One column is not enough: a wide character overflows the line. */
  lemma OneColumnOverflows(t: Term)
    requires TermOk(t, 1)
    ensures !TermOk(Print(t, [0x4E00], 1), 1)
  {
    AppendFits(t, 0x4E00, 1);
    assert Print(t, [0x4E00], 1) == Print(Put(t, 0x4E00, 1), [], 1);
  }

  /** Backspace removes exactly the character just written. */
  lemma BackspaceUndoes(t: Term, cp: nat, maxCols: nat)
    requires Scalars(t.line) && Scalar(cp) && Width(cp) > 0
    ensures var r := Append(t, cp, maxCols); Backspace(r) == if |r.lines| == |t.lines| then t else Commit(t)
  {
    var r := Append(t, cp, maxCols);
    assert r.line[..|r.line| - 1] == if |r.lines| == |t.lines| then t.line else [];
  }

  /** The last character of a text starts where the text without it ends. */
  lemma LastChar(cps: seq<nat>)
    requires Scalars(cps) && EncodeAll(cps) != []
    ensures var text, shorter := EncodeAll(cps), EncodeAll(cps[..|cps| - 1]);
            PrevFrom(text, |text| - 1) == |shorter| && |shorter| <= |text| && text[..|shorter|] == shorter
  {
    var n := |cps| - 1;
    assert cps[..n + 1] == cps;
    StepsInvert(cps, n);
  }

  // ---- as the kernel runs it ----

  class Terminal {
    const line: array<Byte>
    var lineLen: nat
    /** Row i holds the bytes of one committed line. */
    const history: array<seq<Byte>>
    var start: nat
    var count: nat
    const maxCols: nat
    /** The characters the buffers stand for, with every line ever committed. */
    ghost var term: Term

    ghost predicate Valid()
      reads this, line, history
    {
      && line as object != history as object
      && line.Length == LINE_BYTES && lineLen <= LINE_BYTES && Scalars(term.line)
        && line[..lineLen] == EncodeAll(term.line)
      && RingOk(history[..], start, count, term.lines)
    }

    constructor (historyLines: nat, maxCols: nat)
      requires historyLines > 0
      ensures Valid() && fresh(line) && fresh(history) && history.Length == historyLines && this.maxCols == maxCols
      ensures term == Term([], [])
    {
      line := new Byte[LINE_BYTES](i => 0);
      history := new seq<Byte>[historyLines](i => []);
      lineLen, start, count := 0, 0, 0;
      this.maxCols := maxCols;
      term := Term([], []);
    }

    /** Push a line, overwriting the oldest one when the ring is full. */
    method HistoryPush(bytes: seq<Byte>, ghost cps: seq<nat>)
      requires history.Length > 0 && RingOk(history[..], start, count, term.lines)
      requires Scalars(cps) && bytes == EncodeAll(cps) && |bytes| <= LINE_BYTES
      modifies this`start, this`count, this`term, history
      ensures RingOk(history[..], start, count, term.lines)
      ensures term == old(term).(lines := old(term).lines + [cps])
    {
      ghost var before, lines := history[..], term.lines;
      RingPush(before, start, count, lines, cps);
      var idx := RingSlot();
      var n := if |bytes| > LINE_BYTES then LINE_BYTES else |bytes|;
      assert bytes[..n] == bytes;
      history[idx] := bytes[..n];
      term := term.(lines := lines + [cps]);
      assert history[..] == before[idx := EncodeAll(cps)];
    }

    /** The slot of the next line; the oldest one gives way when the ring is full. */
    method RingSlot() returns (idx: nat)
      requires start < history.Length && count <= history.Length
      modifies this`start, this`count
      ensures idx == Wrap(old(start) + old(count), history.Length) && idx < history.Length
      ensures count == if old(count) == history.Length then old(count) else old(count) + 1
      ensures start == if old(count) == history.Length then Wrap(old(start) + 1, history.Length) else old(start)
    {
      idx := (start + count) % history.Length;
      WrapIsMod(start + count, history.Length);
      if count < history.Length {
        count := count + 1;
      } else {
        WrapIsMod(start + 1, history.Length);
        start := (start + 1) % history.Length;
      }
    }

    method CommitLine()
      requires Valid()
      modifies this, history
      ensures Valid() && term == Commit(old(term))
    {
      HistoryPush(line[..lineLen], term.line);
      lineLen := 0;
      term := term.(line := []);
    }

    method AppendCp(cp: nat)
      requires Valid()
      modifies this, line, history
      ensures Valid() && term == Append(old(term), cp, maxCols)
    {
      var w := Width(cp);
      if w == 0 { return; }
      if !Scalar(cp) { return; }
      var buf := Encode(cp);
      var n := |buf|;
      WidthIsColumns(term.line);
      var cols := StrWidth(line[..lineLen]);
      if lineLen + n > LINE_BYTES || cols + w > maxCols { CommitLine(); }
      if lineLen + n <= LINE_BYTES { AppendBytes(buf, cp); }
    }

    method AppendBytes(buf: seq<Byte>, ghost cp: nat)
      requires Valid() && Scalar(cp) && buf == Encode(cp) && lineLen + |buf| <= LINE_BYTES
      modifies this`lineLen, this`term, line
      ensures Valid() && term == old(term).(line := old(term).line + [cp])
    {
      WriteBytes(buf);
      assert history[..] == old(history[..]);
      OneMore(term.line, cp);
      lineLen := lineLen + |buf|;
      term := term.(line := term.line + [cp]);
    }

    /** Copy the bytes behind the line's end. */
    method WriteBytes(buf: seq<Byte>)
      requires lineLen + |buf| <= line.Length
      modifies line
      ensures line[..lineLen + |buf|] == old(line[..lineLen]) + buf
    {
      for k := 0 to |buf|
        invariant line[..lineLen + k] == old(line[..lineLen]) + buf[..k]
      {
        line[lineLen + k] := buf[k];
      }
    }

    /** Cut the line back to the first byte of its last character. */
    method LineBackspace()
      requires Valid()
      modifies this`lineLen, this`term
      ensures Valid() && term == Backspace(old(term))
    {
      if lineLen == 0 { return; }
      CutLastChar(term.line);
      term := term.(line := term.line[..|term.line| - 1]);
    }

    method CutLastChar(ghost cps: seq<nat>)
      requires 0 < lineLen <= line.Length && Scalars(cps) && line[..lineLen] == EncodeAll(cps)
      modifies this`lineLen
      ensures cps != [] && Scalars(cps[..|cps| - 1]) && lineLen <= old(lineLen)
        && line[..lineLen] == EncodeAll(cps[..|cps| - 1])
    {
      var first := LastCharStart();
      LastChar(cps);
      assert line[..first] == line[..lineLen][..first];
      lineLen := first;
    }

    method LastCharStart() returns (first: nat)
      requires 0 < lineLen <= line.Length
      ensures first == PrevFrom(line[..lineLen], lineLen - 1)
    {
      ghost var text := line[..lineLen];
      first := lineLen - 1;
      while first > 0 && 0x80 <= line[first] < 0xC0
        invariant 0 <= first < lineLen && PrevFrom(text, first) == PrevFrom(text, lineLen - 1)
      {
        first := first - 1;
      }
    }

    method AppendText(text: seq<nat>)
      requires Valid()
      modifies this, line, history
      ensures Valid() && term == Print(old(term), text, maxCols)
    {
      for i := 0 to |text|
        invariant Valid() && Print(term, text[i..], maxCols) == Print(old(term), text, maxCols)
      {
        assert text[i..][0] == text[i] && text[i..][1..] == text[i + 1..];
        if text[i] == NEWLINE { CommitLine(); }
        else if text[i] == BACKSPACE { LineBackspace(); }
        else { AppendCp(text[i]); }
      }
    }
  }

  /** The ring holds the last `count` lines, oldest at `start`; it is full once that many were committed. */
  ghost predicate RingOk(rows: seq<seq<Byte>>, start: nat, count: nat, lines: seq<seq<nat>>) {
    && |rows| > 0 && start < |rows| && count == (if |lines| < |rows| then |lines| else |rows|)
    && (forall i :: 0 <= i < |lines| ==> Scalars(lines[i]))
    && forall k: nat :: k < count ==> RowHolds(rows, start, count, lines, k)
  }

  /** Place k of the ring holds the k-th of the last `count` lines. */
  ghost predicate RowHolds(rows: seq<seq<Byte>>, start: nat, count: nat, lines: seq<seq<nat>>, k: nat)
    requires start < |rows| && k < count <= |rows| && count <= |lines|
  {
    var line := lines[|lines| - count + k];
    Scalars(line) && rows[Wrap(start + k, |rows|)] == EncodeAll(line)
  }

  /** Overwriting the slot after the newest line, and moving the start if the ring was full, appends a line. */
  lemma RingPush(rows: seq<seq<Byte>>, start: nat, count: nat, lines: seq<seq<nat>>, cps: seq<nat>)
    requires RingOk(rows, start, count, lines) && Scalars(cps)
    ensures var idx := Wrap(start + count, |rows|);
            var full := count == |rows|;
            RingOk(rows[idx := EncodeAll(cps)], if full then Wrap(start + 1, |rows|) else start, if full then count
              else count + 1, lines + [cps])
  {
    if count == |rows| { PushFull(rows, start, lines, cps); } else { PushRoom(rows, start, count, lines, cps); }
  }

  lemma PushRoom(rows: seq<seq<Byte>>, start: nat, count: nat, lines: seq<seq<nat>>, cps: seq<nat>)
    requires RingOk(rows, start, count, lines) && Scalars(cps) && count < |rows|
    ensures RingOk(rows[Wrap(start + count, |rows|) := EncodeAll(cps)], start, count + 1, lines + [cps])
  {
    var rows', lines', more := rows[Wrap(start + count, |rows|) := EncodeAll(cps)], lines + [cps], count + 1;
    forall k: nat | k < more ensures RowHolds(rows', start, more, lines', k) {
      if k < count { assert RowHolds(rows, start, count, lines, k); }
    }
  }

  lemma PushFull(rows: seq<seq<Byte>>, start: nat, lines: seq<seq<nat>>, cps: seq<nat>)
    requires RingOk(rows, start, |rows|, lines) && Scalars(cps)
    ensures RingOk(rows[Wrap(start + |rows|, |rows|) := EncodeAll(cps)], Wrap(start + 1, |rows|), |rows|, lines + [cps])
  {
    var n := |rows|;
    var rows', lines', start' := rows[start := EncodeAll(cps)], lines + [cps], Wrap(start + 1, n);
    forall k: nat | k < n ensures RowHolds(rows', start', n, lines', k) {
      if k < n - 1 {
        assert RowHolds(rows, start, n, lines, k + 1);
        assert Wrap(start' + k, n) == Wrap(start + (k + 1), n) != start;
      } else {
        assert Wrap(start' + k, n) == start;
      }
    }
  }
}
