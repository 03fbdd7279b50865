/** Handle rows (kernel/src/cap.rs:184-241, 311-350): opaque objects are issued, dropped and moved, and
    never copied or lost. */
module Handles {
  import opened Wrappers
  import opened Slots

  const HANDLE_SLOTS: nat := 32

  // ---- operations ----

  /** `handle_issue`; None is the failure code. */
  function Issue(t: Table<nat>, d: nat, obj: nat): (r: (Table<nat>, Option<nat>)) {
    if HasRoom(t, d) then (Put(t, d, obj), Some(FirstEmpty(t[d]))) else (t, None)
  }

  function Drop(t: Table<nat>, d: nat, h: nat): (r: (Table<nat>, bool)) {
    if Cell(t, d, h).Some? then (SetCell(t, d, h, None), true) else (t, false)
  }

  /** `handle_move`: take the object out, put it into the target's first empty slot, or put it back. */
  function Move(t: Table<nat>, from: nat, to: nat, h: nat): (r: (Table<nat>, Option<nat>)) {
    match Cell(t, from, h)
    case None => (t, None)
    case Some(obj) =>
      var taken := SetCell(t, from, h, None);
      if HasRoom(taken, to) then (Put(taken, to, obj), Some(FirstEmpty(taken[to])))
        else (SetCell(taken, from, h, Some(obj)), None)
  }

  /** A domain's row emptied, the table padded with empty rows up to it. */
  function Clear(t: Table<nat>, d: nat): (r: Table<nat>) { SetRow(t, d, EmptyRow(HANDLE_SLOTS)) }

  // ---- the live objects ----

  ghost function RowObjects(row: Row<nat>): (s: multiset<nat>) {
    if row == [] then multiset{} else CellObjects(row[0]) + RowObjects(row[1..])
  }

  ghost function CellObjects(c: Option<nat>): (s: multiset<nat>) {
    match c case None => multiset{} case Some(x) => multiset{x}
  }

  /** Every object some domain holds, with multiplicity. */
  ghost function Objects(t: Table<nat>): (s: multiset<nat>) {
    if t == [] then multiset{} else RowObjects(t[0]) + Objects(t[1..])
  }

  lemma {:induction false} RowUpdate(row: Row<nat>, i: nat, c: Option<nat>, x: nat)
    requires i < |row|
    ensures RowObjects(row[i := c])[x] + CellObjects(row[i])[x] == RowObjects(row)[x] + CellObjects(c)[x]
    decreases |row|
  {
    if i > 0 {
      assert row[i := c][1..] == row[1..][i - 1 := c];
      RowUpdate(row[1..], i - 1, c, x);
    } else {
      assert row[0 := c][1..] == row[1..];
    }
  }

  lemma {:induction false} TableUpdate(t: Table<nat>, d: nat, row: Row<nat>, x: nat)
    requires d < |t|
    ensures Objects(t[d := row])[x] + RowObjects(t[d])[x] == Objects(t)[x] + RowObjects(row)[x]
    decreases |t|
  {
    if d > 0 {
      assert t[d := row][1..] == t[1..][d - 1 := row];
      TableUpdate(t[1..], d - 1, row, x);
    } else {
      assert t[0 := row][1..] == t[1..];
    }
  }

  /** Overwriting one slot exchanges its object. */
  lemma CellUpdate(t: Table<nat>, d: nat, i: nat, c: Option<nat>)
    requires d < |t| && i < |t[d]|
    ensures forall x :: Objects(t[d := t[d][i := c]])[x] + CellObjects(t[d][i])[x] == Objects(t)[x] + CellObjects(c)[x]
  {
    forall x ensures Objects(t[d := t[d][i := c]])[x] + CellObjects(t[d][i])[x] == Objects(t)[x] + CellObjects(c)[x] {
      RowUpdate(t[d], i, c, x);
      TableUpdate(t, d, t[d][i := c], x);
    }
  }

  /** Issuing adds exactly the object; a failed issue changes nothing. */
  lemma IssueConserves(t: Table<nat>, d: nat, obj: nat)
    ensures var (t', h) := Issue(t, d, obj);
            if h.Some? then Objects(t') == Objects(t) + multiset{obj} && Cell(t', d, h.value) == Some(obj) else t' == t
  {
    if HasRoom(t, d) { CellUpdate(t, d, FirstEmpty(t[d]), Some(obj)); }
  }

  /** Dropping removes exactly the object. */
  lemma DropConserves(t: Table<nat>, d: nat, h: nat)
    ensures var (t', ok) := Drop(t, d, h);
            && ok == Cell(t, d, h).Some?
            && if ok then Objects(t) == Objects(t') + multiset{Cell(t, d, h).value} else t' == t
  {
    if Cell(t, d, h).Some? { CellUpdate(t, d, h, None); }
  }

  /** Moving changes no multiplicity. */
  lemma MoveConserves(t: Table<nat>, from: nat, to: nat, h: nat)
    ensures Objects(Move(t, from, to, h).0) == Objects(t)
  {
    if Cell(t, from, h).Some? {
      var obj := Cell(t, from, h).value;
      var taken := SetCell(t, from, h, None);
      CellUpdate(t, from, h, None);
      if HasRoom(taken, to) {
        CellUpdate(taken, to, FirstEmpty(taken[to]), Some(obj));
      } else {
        PutBack(t, from, h, obj);
      }
    }
  }

  lemma {:induction false} NoObjects(row: Row<nat>)
    requires forall i :: 0 <= i < |row| ==> row[i].None?
    ensures RowObjects(row) == multiset{}
    decreases |row|
  {
    if row != [] { NoObjects(row[1..]); }
  }

  lemma {:induction false} PadObjects(t: Table<nat>, pad: Table<nat>)
    requires forall i :: 0 <= i < |pad| ==> RowObjects(pad[i]) == multiset{}
    ensures Objects(t + pad) == Objects(t)
    decreases |t| + |pad|
  {
    if t != [] {
      assert (t + pad)[1..] == t[1..] + pad;
      PadObjects(t[1..], pad);
    } else {
      assert t + pad == pad;
      if pad != [] {
        PadObjects([], pad[1..]);
        assert [] + pad[1..] == pad[1..];
      }
    }
  }

  lemma ReplaceRow(t: Table<nat>, d: nat, row: Row<nat>)
    requires d < |t| && RowObjects(row) == multiset{}
    ensures Objects(t) == Objects(t[d := row]) + RowObjects(t[d])
  {
    forall x ensures Objects(t)[x] == Objects(t[d := row])[x] + RowObjects(t[d])[x] { TableUpdate(t, d, row, x); }
  }

  /** Clearing a row removes exactly the objects in it. */
  lemma ClearConserves(t: Table<nat>, d: nat)
    ensures Objects(t) == Objects(Clear(t, d)) + if d < |t| then RowObjects(t[d]) else multiset{}
  {
    if d < |t| {
      NoObjects(EmptyRow(HANDLE_SLOTS));
      ReplaceRow(t, d, EmptyRow(HANDLE_SLOTS));
    } else {
      ClearPads(t, d);
      PadObjects(t, Clear(t, d)[|t|..]);
    }
  }

  lemma ClearPads(t: Table<nat>, d: nat)
    requires d >= |t|
    ensures |t| <= |Clear(t, d)| && Clear(t, d) == t + Clear(t, d)[|t|..]
    ensures forall i :: 0 <= i < |Clear(t, d)[|t|..]| ==> RowObjects(Clear(t, d)[|t|..][i]) == multiset{}
  {
    var pad := Clear(t, d)[|t|..];
    forall i | 0 <= i < |pad| ensures RowObjects(pad[i]) == multiset{} {
      assert pad[i] == EmptyRow(HANDLE_SLOTS);
      NoObjects(pad[i]);
    }
  }

  lemma PutBack(t: Table<nat>, d: nat, h: nat, obj: nat)
    requires Cell(t, d, h) == Some(obj)
    ensures SetCell(SetCell(t, d, h, None), d, h, Some(obj)) == t
  {
    assert t[d][h := None][h := Some(obj)] == t[d];
    assert SetCell(t, d, h, None)[d := t[d]] == t;
  }

  /** A failed move leaves every slot as it was; a successful one puts the object in the target and empties
      the source. It fails exactly when the source slot is empty or the target, another domain, is missing or full. */
  lemma MoveSlots(t: Table<nat>, from: nat, to: nat, h: nat)
    ensures var (t', h') := Move(t, from, to, h);
            && (h'.None? ==> t' == t)
            && (h'.Some? ==> Cell(t, from, h).Some? && Cell(t', to, h'.value) == Cell(t, from, h))
            && (h'.Some? && (from != to || h'.value != h) ==> Cell(t', from, h).None?)
            && (h'.Some? <==> Cell(t, from, h).Some? && (to == from || HasRoom(t, to)))
  {
    if Cell(t, from, h).Some? {
      var taken := SetCell(t, from, h, None);
      assert Cell(taken, from, h) == None;
      if to == from { assert FirstEmpty(taken[to]) <= h; }
      if !HasRoom(taken, to) { PutBack(t, from, h, Cell(t, from, h).value); }
    }
  }

  // ---- runs ----

  /** `OpClear`: the row of a domain that is created or destroyed. */
  datatype HandleOp =
    | OpIssue(d: nat, obj: nat)
    | OpDrop(d: nat, h: nat)
    | OpMove(from: nat, to: nat, h: nat)
    | OpClear(d: nat)

  function Step(t: Table<nat>, op: HandleOp): (r: Table<nat>) {
    match op
    case OpIssue(d, obj) => Issue(t, d, obj).0
    case OpDrop(d, h) => Drop(t, d, h).0
    case OpMove(from, to, h) => Move(t, from, to, h).0
    case OpClear(d) => Clear(t, d)
  }

  function Run(t: Table<nat>, ops: seq<HandleOp>): (r: Table<nat>)
    decreases |ops|
  {
    if ops == [] then t else Run(Step(t, ops[0]), ops[1..])
  }

  function Issues(ops: seq<HandleOp>, obj: nat): (n: nat) {
    if ops == [] then 0 else (if ops[0].OpIssue? && ops[0].obj == obj then 1 else 0) + Issues(ops[1..], obj)
  }

  /** Over any run, an object is held at most as often as it was held before plus the times it was issued. */
  lemma {:induction false} RunBounded(t: Table<nat>, ops: seq<HandleOp>, obj: nat)
    ensures Objects(Run(t, ops))[obj] <= Objects(t)[obj] + Issues(ops, obj)
    decreases |ops|
  {
    if ops != [] {
      match ops[0] {
        case OpIssue(d, o) => IssueConserves(t, d, o);
        case OpDrop(d, h) => DropConserves(t, d, h);
        case OpMove(from, to, h) => MoveConserves(t, from, to, h);
        case OpClear(d) => ClearConserves(t, d);
      }
      RunBounded(Step(t, ops[0]), ops[1..], obj);
    }
  }

  lemma TwoSlots(t: Table<nat>, obj: nat, d: nat, i: nat, d': nat, i': nat)
    requires Cell(t, d, i) == Some(obj) && Cell(t, d', i') == Some(obj) && !(d == d' && i == i')
    ensures Objects(t)[obj] >= 2
  {
    CellUpdate(t, d, i, None);
    var t1 := t[d := t[d][i := None]];
    assert t1[d'][i'] == Some(obj);
    CellUpdate(t1, d', i', None);
  }

  /** An object issued once is never in two slots. */
  lemma NeverTwice(t: Table<nat>, ops: seq<HandleOp>, obj: nat, d: nat, i: nat, d': nat, i': nat)
    requires Objects(t)[obj] == 0 && Issues(ops, obj) <= 1
    requires Cell(Run(t, ops), d, i) == Some(obj) && Cell(Run(t, ops), d', i') == Some(obj)
    ensures d == d' && i == i'
  {
    RunBounded(t, ops, obj);
    var r := Run(t, ops);
    if !(d == d' && i == i') {
      TwoSlots(r, obj, d, i, d', i');
      assert false;
    }
  }
}
