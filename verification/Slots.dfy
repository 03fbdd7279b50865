/** Tables of slot rows, one row per domain, as capabilities and handles are kept (kernel/src/cap.rs:129-180). */
module Slots {
  import opened Wrappers

  type Row<T> = seq<Option<T>>
  type Table<T> = seq<Row<T>>

  /** First empty slot of a row, or its length. */
  function FirstEmpty<T(==)>(row: Row<T>): (i: nat)
    ensures i <= |row| && (i < |row| ==> row[i].None?)
    ensures forall j :: 0 <= j < i ==> row[j].Some?
  {
    if row == [] || row[0].None? then 0 else 1 + FirstEmpty(row[1..])
  }

  predicate HasRoom<T(==)>(t: Table<T>, d: nat) { d < |t| && FirstEmpty(t[d]) < |t[d]| }

  /** x in the first empty slot of row d. */
  function Put<T(==)>(t: Table<T>, d: nat, x: T): (r: Table<T>)
    requires HasRoom(t, d)
  {
    t[d := t[d][FirstEmpty(t[d]) := Some(x)]]
  }

  function Cell<T>(t: Table<T>, d: nat, i: nat): (c: Option<T>) {
    if d < |t| && i < |t[d]| then t[d][i] else None
  }

  function SetCell<T>(t: Table<T>, d: nat, i: nat, c: Option<T>): (r: Table<T>) {
    if d < |t| && i < |t[d]| then t[d := t[d][i := c]] else t
  }

  /** `set_row`: row `id` replaced, the table padded with the same row up to it. */
  function SetRow<T>(t: Table<T>, id: nat, row: Row<T>): (r: Table<T>)
    ensures |r| == if id < |t| then |t| else id + 1
    ensures forall d :: 0 <= d < |r| ==> r[d] == if d < |t| && d != id then t[d] else row
  {
    if id < |t| then t[id := row] else t + seq(id + 1 - |t|, i => row)
  }

  function EmptyRow<T>(n: nat): (r: Row<T>) { seq(n, i => None) }
}
