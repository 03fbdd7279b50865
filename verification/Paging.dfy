/** Physical memory as frames that hold data or 512-entry page tables, and the four-level walk
    (kernel/src/memory/paging.rs). A user page is named by its path of table indices
    [p4, p3, p2, p1]; the prefixes of that path name the tables above it. */
module Paging {
  import opened Wrappers
  import opened Frames

  const TABLE_LEN: nat := 512
  /** P4 index of user space; every other P4 entry is a kernel mapping shared by all domains. */
  const USER_P4: nat := 1
  const USER_SPACE_BASE: nat := 0x80_0000_0000
  const USER_SPACE_END: nat := 0x100_0000_0000
  const USER_STACK_TOP: nat := USER_SPACE_BASE + 0x40_1000
  const USER_STACK_PAGES: nat := 8

  /** The flag bits the model needs; PRESENT and USER_ACCESSIBLE are set on every entry. */
  datatype Flags = Flags(writable: bool, noExecute: bool, noCache: bool, huge: bool)
  datatype Entry = Unused | Entry(frame: nat, flags: Flags)
  datatype Cell = Table(entries: seq<Entry>) | Data(bytes: seq<Byte>)
  type Phys = map<nat, Cell>

  datatype UserPagePerm = ReadOnly | ReadWrite | ReadExecute

  const TABLE_FLAGS := Flags(true, false, false, false)
  const MMIO_FLAGS := Flags(true, true, true, false)

  function FlagsFor(perm: UserPagePerm): (f: Flags)
    ensures !(f.writable && !f.noExecute) && !f.noCache && !f.huge
  {
    match perm
    case ReadExecute => Flags(false, false, false, false)
    case ReadWrite => Flags(true, true, false, false)
    case ReadOnly => Flags(false, true, false, false)
  }

  function ZeroTable(): (c: Cell) { Table(seq(TABLE_LEN, i => Unused)) }

  function Slot(phys: Phys, f: nat, i: nat): (e: Entry) {
    if f in phys && phys[f].Table? && i < |phys[f].entries| then phys[f].entries[i] else Unused
  }

  function SetSlot(phys: Phys, f: nat, i: nat, e: Entry): (r: Phys) {
    if f in phys && phys[f].Table? && i < |phys[f].entries| then phys[f := Table(phys[f].entries[i := e])] else phys
  }

  /** Kernel-wide memory: allocator, frame contents, PML4 frame of every live domain, and the
      managed frames that belong to devices (their bitmap bit is set from boot on). */
  datatype Mem = Mem(alloc: Alloc, phys: Phys, domains: seq<Option<nat>>, device: set<nat>)

  // ---- addresses ----

  /** Table indices of a virtual address: bits 39-47, 30-38, 21-29 and 12-20. */
  function Path(va: nat): (p: seq<nat>)
    ensures |p| == 4 && forall i :: 0 <= i < 4 ==> p[i] < TABLE_LEN
  {
    [va / 0x80_0000_0000 % 512, va / 0x4000_0000 % 512, va / 0x20_0000 % 512, va / 0x1000 % 512]
  }

  predicate IsUserAddress(va: nat) { Path(va)[0] == USER_P4 }

  /** A lower-half address `VirtAddr::new` accepts; it panics on the others that pass `IsUserAddress`. */
  predicate Canonical(va: nat) { va < 0x8000_0000_0000 }

  /** Any address `VirtAddr::new` accepts, in either half. */
  predicate Addressable(va: nat) { Canonical(va) || 0xFFFF_8000_0000_0000 <= va < 0x1_0000_0000_0000_0000 }

  /** User addresses that are accepted lie in the lower half. */
  lemma UserCanonical(va: nat)
    ensures IsUserAddress(va) && Addressable(va) ==> Canonical(va)
  {
    var n := va / 0x80_0000_0000;
    if 0xFFFF_8000_0000_0000 <= va < 0x1_0000_0000_0000_0000 {
      assert 0x1FF_FF00 <= n < 0x200_0000;
      assert n % 512 >= 256;
    }
  }

  /** The indices are the base-512 digits of the page number. */
  lemma PathDigits(va: nat)
    ensures var p, n := Path(va), va / FRAME_SIZE;
            p[3] == n % 512 && p[2] == n / 512 % 512 && p[1] == n / 512 / 512 % 512 && p[0] == n / 512 / 512 / 512 % 512
  {
    assert va / 0x20_0000 == va / 0x1000 / 512;
    assert va / 0x4000_0000 == va / 0x20_0000 / 512;
    assert va / 0x80_0000_0000 == va / 0x4000_0000 / 512;
  }

  lemma DigitsDetermine(n: nat)
    ensures n == 512 * (512 * (512 * (n / 512 / 512 / 512) + n / 512 / 512 % 512) + n / 512 % 512) + n % 512
  {
  }

  /** In user space two addresses have the same path exactly when they are on the same page. */
  lemma PathInjective(v: nat, w: nat)
    requires IsUserAddress(v) && IsUserAddress(w) && Canonical(v) && Canonical(w)
    ensures Path(v) == Path(w) <==> v / FRAME_SIZE == w / FRAME_SIZE
    ensures USER_SPACE_BASE <= v < USER_SPACE_END
  {
    PathDigits(v);
    PathDigits(w);
    DigitsDetermine(v / FRAME_SIZE);
    DigitsDetermine(w / FRAME_SIZE);
    UserTop(v);
    UserTop(w);
  }

  lemma UserTop(v: nat)
    requires IsUserAddress(v) && Canonical(v)
    ensures v / FRAME_SIZE / 512 / 512 / 512 == 1 && USER_SPACE_BASE <= v < USER_SPACE_END
  {
    PathDigits(v);
    assert v / 0x80_0000_0000 < 256;
    assert v / 0x80_0000_0000 == 1;
  }

  // ---- the walk ----

  /** Frame the walk reaches from `root` along `path`. */
  ghost function Node(phys: Phys, root: nat, path: seq<nat>): (r: Option<nat>)
    decreases |path|
  {
    if path == [] then Some(root)
    else
      var e := EntryOn(phys, root, path);
      if e.Entry? then Some(e.frame) else None
  }

  /** Entry the walk reads last on `path`. */
  ghost function EntryOn(phys: Phys, root: nat, path: seq<nat>): (e: Entry)
    requires path != []
    decreases |path|, 0
  {
    var n := |path| - 1;
    var up := Node(phys, root, path[..n]);
    if up.None? then Unused else Slot(phys, up.value, path[n])
  }

  /** `resolve_user_page`, including its 2 MiB branch. */
  function Resolve(phys: Phys, root: nat, va: nat): (r: Option<nat>) {
    var p := Path(va);
    var e4 := Slot(phys, root, p[0]);
    if e4.Unused? then None else
    var e3 := Slot(phys, e4.frame, p[1]);
    if e3.Unused? then None else
    var e2 := Slot(phys, e3.frame, p[2]);
    if e2.Unused? then None else
    if e2.flags.huge then Some(Addr(e2.frame) + va % 0x20_0000) else
    var e1 := Slot(phys, e2.frame, p[3]);
    if e1.Unused? then None else Some(Addr(e1.frame) + va % FRAME_SIZE)
  }

  lemma WalkUnrolled(phys: Phys, root: nat, p: seq<nat>)
    requires |p| == 4
    ensures Node(phys, root, p[..0]) == Some(root)
    ensures forall k :: 0 <= k < 4 ==>
      EntryOn(phys, root, p[..k + 1]) ==
      (if Node(phys, root, p[..k]).None? then Unused else Slot(phys, Node(phys, root, p[..k]).value, p[k]))
  {
    forall k | 0 <= k < 4 ensures EntryOn(phys, root, p[..k + 1]) ==
      (if Node(phys, root, p[..k]).None? then Unused else Slot(phys, Node(phys, root, p[..k]).value, p[k]))
    {
      assert p[..k + 1][..k] == p[..k];
    }
  }

  /** Without a 2 MiB entry on the way, `Resolve` is the frame at the end of the walk plus the page offset. */
  lemma ResolveIsWalk(phys: Phys, root: nat, va: nat)
    requires EntryOn(phys, root, Path(va)[..3]).Entry? ==> !EntryOn(phys, root, Path(va)[..3]).flags.huge
    ensures Resolve(phys, root, va) ==
      match Node(phys, root, Path(va)) case None => None case Some(f) => Some(Addr(f) + va % FRAME_SIZE)
  {
    var p := Path(va);
    WalkUnrolled(phys, root, p);
    assert p[..0 + 1] == p[..1] && p[..1 + 1] == p[..2] && p[..2 + 1] == p[..3] && p[..3 + 1] == p;
  }

  /** With a 2 MiB entry it is the frame that the last index selects among the entry's 512. */
  lemma ResolveHuge(phys: Phys, root: nat, va: nat)
    requires var e := EntryOn(phys, root, Path(va)[..3]); e.Entry? && e.flags.huge
    ensures Resolve(phys, root, va) ==
      Some(Addr(EntryOn(phys, root, Path(va)[..3]).frame + Path(va)[3]) + va % FRAME_SIZE)
  {
    var p := Path(va);
    WalkUnrolled(phys, root, p);
    assert p[..0 + 1] == p[..1] && p[..1 + 1] == p[..2] && p[..2 + 1] == p[..3];
    HugeOffset(va);
  }

  lemma HugeOffset(va: nat)
    ensures va % 0x20_0000 == Path(va)[3] * FRAME_SIZE + va % FRAME_SIZE
  {
    assert va / 0x20_0000 == va / 0x1000 / 512;
  }

  /** A walk reads only the slots on its path: if those agree, so do the results. */
  lemma {:induction false} SameWalk(phys: Phys, phys': Phys, root: nat, path: seq<nat>)
    requires forall k :: 0 <= k < |path| && Node(phys, root, path[..k]).Some? ==>
      Slot(phys', Node(phys, root, path[..k]).value, path[k]) == Slot(phys, Node(phys, root, path[..k]).value, path[k])
    ensures Node(phys', root, path) == Node(phys, root, path)
    ensures path != [] ==> EntryOn(phys', root, path) == EntryOn(phys, root, path)
    decreases |path|
  {
    if path != [] {
      var n := |path| - 1;
      forall k | 0 <= k < n ensures path[..n][..k] == path[..k] { }
      SameWalk(phys, phys', root, path[..n]);
    }
  }

  // ---- the structure the page tables keep ----

  predicate UserPath(p: seq<nat>) {
    1 <= |p| <= 4 && p[0] == USER_P4 && forall i :: 0 <= i < |p| ==> p[i] < TABLE_LEN
  }
  /** Paths of tables: the PML4 itself, or a user PDPT, PD or PT. */
  predicate TablePath(p: seq<nat>) { p == [] || (UserPath(p) && |p| <= 3) }
  predicate LeafPath(p: seq<nat>) { UserPath(p) && |p| == 4 }

  predicate Live(m: Mem, d: nat) { d < |m.domains| && m.domains[d].Some? }

  /** Frame at the end of `p` in domain d's tables. */
  ghost function At(m: Mem, d: nat, p: seq<nat>): (r: Option<nat>) {
    if Live(m, d) then Node(m.phys, m.domains[d].value, p) else None
  }

  ghost function EntryAt(m: Mem, d: nat, p: seq<nat>): (e: Entry)
    requires p != []
  {
    if Live(m, d) then EntryOn(m.phys, m.domains[d].value, p) else Unused
  }

  ghost predicate IsTable(m: Mem, f: nat) { exists d, p :: TablePath(p) && At(m, d, p) == Some(f) }
  ghost predicate IsLeaf(m: Mem, f: nat) { exists d, p :: LeafPath(p) && At(m, d, p) == Some(f) }

  /** What a frame that serves as a page table satisfies. */
  predicate TableFrame(m: Mem, f: nat) {
    && f in m.phys && m.phys[f].Table? && |m.phys[f].entries| == TABLE_LEN
    && f < |m.alloc.used| && m.alloc.used[f] && !Pinned(m.alloc, Addr(f)) && Addr(f) !in m.alloc.counts
      && f !in m.device
  }

  /** Every table has one place in one domain, is in use and is no leaf; user space has no 2 MiB entries. */
  ghost predicate TreeOk(m: Mem) {
    && (forall d, p :: TablePath(p) && At(m, d, p).Some? ==> TableFrame(m, At(m, d, p).value))
    && (forall d, p, d', p' :: TablePath(p) && TablePath(p') && At(m, d, p).Some? && At(m, d, p) == At(m, d', p')
          ==> d == d' && p == p')
    && (forall d, p :: LeafPath(p) && At(m, d, p).Some? ==> !IsTable(m, At(m, d, p).value))
    && (forall d, p :: UserPath(p) && EntryAt(m, d, p).Entry? ==> !EntryAt(m, d, p).flags.huge)
    && (forall d, p :: UserPath(p) && At(m, d, p).Some? ==> !IsFree(m.alloc, At(m, d, p).value))
  }

  /** Free frames are neither pinned nor counted nor device memory. */
  ghost predicate FreeOk(m: Mem) {
    forall f :: IsFree(m.alloc, f) ==> !Pinned(m.alloc, Addr(f)) && Addr(f) !in m.alloc.counts && f !in m.device
  }

  // ---- map_to and unmap ----

  /** `create_next_table` of the page-table library: follow slot i of table f, creating the next
      table if the slot is empty. None is a kernel panic: out of frames, or a 2 MiB entry. */
  function NextTable(m: Mem, f: nat, i: nat): (r: Option<(Mem, nat)>) {
    match Slot(m.phys, f, i)
    case Entry(g, flags) => if flags.huge then None else Some((m, g))
    case Unused =>
      match LowestFree(m.alloc.used, 0)
      case None => None
      case Some(g) =>
        var phys := SetSlot(m.phys, f, i, Entry(g, TABLE_FLAGS));
        Some((m.(alloc := Take(m.alloc, g), phys := phys[g := ZeroTable()]), g))
  }

  /** The first k levels of `map_to` from the PML4 `root`: the table reached, created where missing. */
  function Descend(m: Mem, root: nat, p: seq<nat>, k: nat): (r: Option<(Mem, nat)>)
    requires k <= |p|
  {
    if k == 0 then Some((m, root))
    else match Descend(m, root, p, k - 1)
      case None => None
      case Some((m', f)) => NextTable(m', f, p[k - 1])
  }

  /** `map_to`. None is a kernel panic: no frame for a table, or page already mapped. */
  function MapTo(m: Mem, root: nat, p: seq<nat>, f: nat, flags: Flags): (r: Option<Mem>)
    requires |p| == 4
  {
    match Descend(m, root, p, 3)
    case None => None
    case Some((m', pt)) =>
      if Slot(m'.phys, pt, p[3]).Entry? then None
      else Some(m'.(phys := SetSlot(m'.phys, pt, p[3], Entry(f, flags))))
  }

  /** m2 differs from m1 at most in the entry at (d, q). */
  ghost predicate SameElsewhere(m1: Mem, m2: Mem, d: nat, q: seq<nat>) {
    && m2.domains == m1.domains
    && (forall d', p :: (TablePath(p) || UserPath(p)) && !(d' == d && p == q) ==> At(m2, d', p) == At(m1, d', p))
    && (forall d', p :: UserPath(p) && !(d' == d && p == q) ==> EntryAt(m2, d', p) == EntryAt(m1, d', p))
  }

  lemma PrefixPath(p: seq<nat>, k: nat)
    requires TablePath(p) || UserPath(p)
    requires k < |p|
    ensures TablePath(p[..k])
  {
  }

  /** m' differs from m, in what the walks read, at most in slot i of the table at (d, p); a new entry there leads
      to an empty table. */
  ghost predicate WritesSlot(m: Mem, m': Mem, d: nat, p: seq<nat>, i: nat) {
    && TablePath(p) && |p| <= 3 && UserPath(p + [i]) && At(m, d, p).Some? && m'.domains == m.domains
    && (forall f: nat, j: nat :: IsTable(m, f) && j < TABLE_LEN && !(f == At(m, d, p).value && j == i) ==>
          Slot(m'.phys, f, j) == Slot(m.phys, f, j))
    && (|p| < 3 ==> At(m, d, p + [i]).None?)
    && (|p| < 3 && Slot(m'.phys, At(m, d, p).value, i).Entry? ==>
          forall j: nat :: j < TABLE_LEN ==> Slot(m'.phys, Slot(m'.phys, At(m, d, p).value, i).frame, j).Unused?)
  }

  /** Writing slot i of the table at (d, p), and nothing else the walks read, changes only (d, p + [i]). */
  lemma WriteSlot(m: Mem, m': Mem, d: nat, p: seq<nat>, i: nat)
    requires TreeOk(m) && WritesSlot(m, m', d, p, i)
    ensures SameElsewhere(m, m', d, p + [i])
    ensures EntryAt(m', d, p + [i]) == Slot(m'.phys, At(m, d, p).value, i)
  {
    forall d', q | (TablePath(q) || UserPath(q)) && !(d' == d && q == p + [i])
      ensures At(m', d', q) == At(m, d', q)
      ensures UserPath(q) ==> EntryAt(m', d', q) == EntryAt(m, d', q)
    {
      WriteSlotWalk(m, m', d, p, i, d', q);
    }
    WriteSlotWalk(m, m', d, p, i, d, p);
    assert (p + [i])[..|p|] == p;
  }

  /** The walk to (d', q) either does not read slot i of (d, p), or ends below the new entry. */
  lemma {:induction false} WriteSlotWalk(m: Mem, m': Mem, d: nat, p: seq<nat>, i: nat, d': nat, q: seq<nat>)
    requires TreeOk(m) && WritesSlot(m, m', d, p, i)
    requires TablePath(q) || UserPath(q)
    requires !(d' == d && q == p + [i])
    ensures At(m', d', q) == At(m, d', q)
    ensures q != [] ==> EntryAt(m', d', q) == EntryAt(m, d', q)
    decreases |q|
  {
    if q != [] && Live(m, d') {
      var n := |q| - 1;
      var up := q[..n];
      PrefixPath(q, n);
      if d' == d && up == p + [i] {
        WriteSlotWalk(m, m', d, p, i, d, p);
        BelowNewEntry(m, m', d, p, i, q);
      } else {
        WriteSlotWalk(m, m', d, p, i, d', up);
        if At(m, d', up).Some? { OtherSlot(m, m', d, p, i, d', q); }
      }
      assert EntryAt(m', d', q) == EntryAt(m, d', q);
    }
  }

  lemma BelowNewEntry(m: Mem, m': Mem, d: nat, p: seq<nat>, i: nat, q: seq<nat>)
    requires WritesSlot(m, m', d, p, i) && At(m', d, p) == At(m, d, p) && Live(m, d)
    requires UserPath(q) && q[..|q| - 1] == p + [i]
    ensures EntryAt(m', d, q).Unused? && EntryAt(m, d, q).Unused?
  {
    assert (p + [i])[..|p|] == p;
    var e := Slot(m'.phys, At(m, d, p).value, i);
    assert EntryAt(m', d, p + [i]) == e;
    assert At(m', d, p + [i]) == if e.Entry? then Some(e.frame) else None;
    assert e.Entry? ==> Slot(m'.phys, e.frame, q[|q| - 1]).Unused?;
  }

  lemma OtherSlot(m: Mem, m': Mem, d: nat, p: seq<nat>, i: nat, d': nat, q: seq<nat>)
    requires TreeOk(m) && WritesSlot(m, m', d, p, i) && UserPath(q) && !(d' == d && q == p + [i])
    requires TablePath(q[..|q| - 1]) && At(m, d', q[..|q| - 1]).Some?
    ensures var f := At(m, d', q[..|q| - 1]).value; Slot(m'.phys, f, q[|q| - 1]) == Slot(m.phys, f, q[|q| - 1])
  {
    var n := |q| - 1;
    assert IsTable(m, At(m, d', q[..n]).value);
    if At(m, d', q[..n]) == At(m, d, p) { assert q[..n] == p && q == p + [q[n]]; }
  }

  /** m2's tables extend m1's: frames were only taken, and no other frame's contents changed. */
  ghost predicate Grew(m1: Mem, m2: Mem) {
    && m2.domains == m1.domains && m2.device == m1.device
    && m2.alloc.counts == m1.alloc.counts && m2.alloc.slots == m1.alloc.slots && m2.alloc.pinned == m1.alloc.pinned
    && |m2.alloc.used| == |m1.alloc.used|
    && (forall f :: 0 <= f < |m1.alloc.used| && m1.alloc.used[f] ==> m2.alloc.used[f])
    && (forall f :: 0 <= f < |m1.alloc.used| && m2.alloc.used[f] && !m1.alloc.used[f] ==> IsTable(m2, f))
    && (forall f :: IsTable(m2, f) ==> IsTable(m1, f) || IsFree(m1.alloc, f))
    && (forall d, p :: TablePath(p) && At(m1, d, p).Some? ==> At(m2, d, p) == At(m1, d, p))
    && (forall f :: f in m1.phys && !IsTable(m2, f) ==> f in m2.phys && m2.phys[f] == m1.phys[f])
  }

  lemma TableStays(m1: Mem, m2: Mem, f: nat)
    requires Grew(m1, m2) && IsTable(m1, f)
    ensures IsTable(m2, f)
  {
    var d, p :| TablePath(p) && At(m1, d, p) == Some(f);
    assert At(m2, d, p) == Some(f);
  }

  lemma GrewTwice(m1: Mem, m2: Mem, m3: Mem)
    requires Grew(m1, m2) && Grew(m2, m3)
    ensures Grew(m1, m3)
  {
    forall f | IsTable(m2, f) ensures IsTable(m3, f) { TableStays(m2, m3, f); }
  }

  /** One creation step keeps the structure and adds at most the table at (d, p + [i]). */
  lemma NextTableOk(m: Mem, d: nat, p: seq<nat>, i: nat)
    requires TreeOk(m) && TablePath(p) && |p| <= 2 && UserPath(p + [i]) && At(m, d, p).Some?
    requires FreeOk(m)
    requires NextTable(m, At(m, d, p).value, i).Some?
    ensures var (m', g) := NextTable(m, At(m, d, p).value, i).value;
            TreeOk(m') && SameElsewhere(m, m', d, p + [i]) && At(m', d, p + [i]) == Some(g) && Grew(m, m')
  {
    var f := At(m, d, p).value;
    var (m', g) := NextTable(m, f, i).value;
    assert (p + [i])[..|p|] == p;
    assert IsTable(m, f);
    assert EntryAt(m, d, p + [i]) == Slot(m.phys, f, i);
    if Slot(m.phys, f, i).Unused? {
      forall x: nat, j: nat | IsTable(m, x) && j < TABLE_LEN && !(x == f && j == i)
        ensures Slot(m'.phys, x, j) == Slot(m.phys, x, j) && x != g
      {
        var dx, px :| TablePath(px) && At(m, dx, px) == Some(x);
      }
      assert f != g;
      assert At(m, d, p + [i]).None?;
      WriteSlot(m, m', d, p, i);
      assert EntryAt(m', d, p + [i]) == Entry(g, TABLE_FLAGS);
      NewTableOk(m, m', d, p + [i], g);
    }
  }

  /** Adding one fresh table keeps the structure. */
  lemma NewTableOk(m: Mem, m': Mem, d: nat, q: seq<nat>, g: nat)
    requires TreeOk(m) && IsFree(m.alloc, g) && m'.alloc == Take(m.alloc, g) && m'.device == m.device
    requires UserPath(q) && TablePath(q) && SameElsewhere(m, m', d, q)
    requires At(m, d, q).None? && EntryAt(m', d, q) == Entry(g, TABLE_FLAGS) && At(m', d, q) == Some(g)
    requires TableFrame(m', g)
    requires forall x :: IsTable(m, x) && x in m.phys && m.phys[x].Table? ==>
      x in m'.phys && m'.phys[x].Table? && |m'.phys[x].entries| == |m.phys[x].entries|
    requires forall x :: x in m.phys && !IsTable(m, x) && x != g ==> x in m'.phys && m'.phys[x] == m.phys[x]
    ensures TreeOk(m') && Grew(m, m')
  {
    forall x | IsTable(m, x) ensures IsTable(m', x) && x != g {
      var dx, px :| TablePath(px) && At(m, dx, px) == Some(x);
      assert At(m', dx, px) == Some(x);
    }
    forall x | IsTable(m', x) ensures x == g || IsTable(m, x) {
      var dx, px :| TablePath(px) && At(m', dx, px) == Some(x);
      assert !(dx == d && px == q) ==> At(m, dx, px) == Some(x);
    }
    assert IsTable(m', g);
    forall dx, px | TablePath(px) && At(m', dx, px).Some? ensures TableFrame(m', At(m', dx, px).value) {
      if !(dx == d && px == q) { assert IsTable(m, At(m, dx, px).value); }
    }
    forall dx, px | LeafPath(px) && At(m', dx, px).Some? ensures !IsTable(m', At(m', dx, px).value) {
      assert At(m', dx, px) == At(m, dx, px);
      assert !IsFree(m.alloc, At(m, dx, px).value);
    }
  }

  /** Leaf entries other than (d, p)'s are as they were, in every domain. */
  ghost predicate SameLeaves(m1: Mem, m2: Mem, d: nat, p: seq<nat>) {
    forall d', q :: LeafPath(q) && !(d' == d && q == p) ==> EntryAt(m2, d', q) == EntryAt(m1, d', q)
  }

  /** The tables of the domains other than d are where they were. */
  ghost predicate OtherTables(m1: Mem, m2: Mem, d: nat) {
    forall d', p :: d' != d && TablePath(p) ==> At(m2, d', p) == At(m1, d', p)
  }

  /** `NextTable` takes a frame exactly when the slot is empty, and panics exactly on a 2 MiB entry or when it
      needs a frame and none is free. */
  lemma FreeLeft(m: Mem, f: nat, i: nat)
    ensures match NextTable(m, f, i)
            case None => (Slot(m.phys, f, i).Entry? && Slot(m.phys, f, i).flags.huge)
                         || (Slot(m.phys, f, i).Unused? && CountFree(m.alloc.used, |m.alloc.used|) == 0)
            case Some((m', g)) =>
              && |m'.alloc.used| == |m.alloc.used|
              && CountFree(m'.alloc.used, |m.alloc.used|) + (if Slot(m.phys, f, i).Unused? then 1 else 0)
                 == CountFree(m.alloc.used, |m.alloc.used|)
  {
    AllUsed(m.alloc.used, |m.alloc.used|);
    var g := LowestFree(m.alloc.used, 0);
    if g.Some? { CountFreeUpdate(m.alloc.used, |m.alloc.used|, g.value, true); }
  }

  /** Writing leaf slot (d, p) changes that leaf only. */
  lemma SetLeafOk(m: Mem, d: nat, p: seq<nat>, e: Entry)
    requires TreeOk(m) && FreeOk(m) && LeafPath(p) && At(m, d, p[..3]).Some?
    requires e.Entry? ==> !IsTable(m, e.frame) && !IsFree(m.alloc, e.frame) && !e.flags.huge
    ensures var m' := m.(phys := SetSlot(m.phys, At(m, d, p[..3]).value, p[3], e));
            TreeOk(m') && FreeOk(m') && Grew(m, m') && SameLeaves(m, m', d, p) && EntryAt(m', d, p) == e
            && (forall d', q :: TablePath(q) ==> At(m', d', q) == At(m, d', q))
            && (forall f :: IsTable(m', f) <==> IsTable(m, f))
  {
    var pt := At(m, d, p[..3]).value;
    var m' := m.(phys := SetSlot(m.phys, pt, p[3], e));
    assert p[..3] + [p[3]] == p;
    assert IsTable(m, pt);
    WriteSlot(m, m', d, p[..3], p[3]);
    forall f: nat ensures IsTable(m', f) <==> IsTable(m, f) {
      if IsTable(m, f) {
        var dx, px :| TablePath(px) && At(m, dx, px) == Some(f);
        assert At(m', dx, px) == Some(f);
      }
      if IsTable(m', f) {
        var dx, px :| TablePath(px) && At(m', dx, px) == Some(f);
        assert At(m, dx, px) == Some(f);
      }
    }
    forall dx, q | LeafPath(q) && At(m', dx, q).Some? ensures !IsTable(m', At(m', dx, q).value) {
      assert (dx == d && q == p) || At(m', dx, q) == At(m, dx, q);
      assert EntryAt(m', d, p) == e;
    }
  }

  /** How many of the tables on the first k levels of the way to page p are missing. */
  ghost function Missing(m: Mem, d: nat, p: seq<nat>, k: nat): (n: nat)
    requires k <= |p|
    ensures n <= k
  {
    if k == 0 then 0 else Missing(m, d, p, k - 1) + if At(m, d, p[..k]).None? then 1 else 0
  }

  /** Below level k domain d's tables and pages are where they were. */
  ghost predicate SameBelow(m1: Mem, m2: Mem, d: nat, k: nat) {
    forall q :: UserPath(q) && |q| > k ==> At(m2, d, q) == At(m1, d, q)
  }

  predicate OnPath(q: seq<nat>, p: seq<nat>) { |q| <= |p| && q == p[..|q|] }

  /** Domain d's tables off the way to page p are where they were. */
  ghost predicate SameOffPath(m1: Mem, m2: Mem, d: nat, p: seq<nat>) {
    forall q :: TablePath(q) && !OnPath(q, p) ==> At(m2, d, q) == At(m1, d, q)
  }

  /** One level of the creating walk towards page p. */
  lemma NextLevelOk(m: Mem, d: nat, p: seq<nat>, k: nat)
    requires TreeOk(m) && FreeOk(m) && LeafPath(p) && k < 3 && At(m, d, p[..k]).Some?
    ensures var n := |m.alloc.used|;
            match NextTable(m, At(m, d, p[..k]).value, p[k])
            case None => At(m, d, p[..k + 1]).None? && CountFree(m.alloc.used, n) == 0
            case Some((m', g)) =>
              && TreeOk(m') && FreeOk(m') && Grew(m, m') && OtherTables(m, m', d) && At(m', d, p[..k + 1]) == Some(g)
              && SameBelow(m, m', d, k + 1) && SameOffPath(m, m', d, p)
              && CountFree(m'.alloc.used, n) + (if At(m, d, p[..k + 1]).None? then 1 else 0) ==
                CountFree(m.alloc.used, n)
              && forall d', q :: LeafPath(q) ==> EntryAt(m', d', q) == EntryAt(m, d', q)
  {
    var f := At(m, d, p[..k]).value;
    assert p[..k] + [p[k]] == p[..k + 1] && p[..k + 1][..k] == p[..k];
    assert EntryAt(m, d, p[..k + 1]) == Slot(m.phys, f, p[k]);
    FreeLeft(m, f, p[k]);
    if NextTable(m, f, p[k]).Some? { NextTableOk(m, d, p[..k], p[k]); }
  }

  /** m' is m with the missing ones of the first k tables on the way to page p added; g is the last of them. */
  ghost predicate Reached(m: Mem, m': Mem, d: nat, p: seq<nat>, k: nat, g: nat)
    requires k <= |p|
  {
    && Grew(m, m') && OtherTables(m, m', d) && At(m', d, p[..k]) == Some(g) && SameBelow(m, m', d, k)
    && SameOffPath(m, m', d, p)
    && CountFree(m'.alloc.used, |m'.alloc.used|) + Missing(m, d, p, k) == CountFree(m.alloc.used, |m.alloc.used|)
    && forall d', q :: LeafPath(q) ==> EntryAt(m', d', q) == EntryAt(m, d', q)
  }

  lemma {:induction false} DescendOk(m: Mem, d: nat, p: seq<nat>, k: nat)
    requires TreeOk(m) && FreeOk(m) && Live(m, d) && LeafPath(p) && k <= 3
    ensures match Descend(m, m.domains[d].value, p, k)
            case None => CountFree(m.alloc.used, |m.alloc.used|) < Missing(m, d, p, k)
            case Some((m', g)) => TreeOk(m') && FreeOk(m') && Reached(m, m', d, p, k, g)
  {
    var root := m.domains[d].value;
    if k == 0 {
      ReachedStart(m, d, p);
    } else {
      DescendOk(m, d, p, k - 1);
      if Descend(m, root, p, k - 1).Some? {
        var (m1, f) := Descend(m, root, p, k - 1).value;
        DescendNext(m, m1, d, p, k, f);
      }
    }
  }

  lemma ReachedStart(m: Mem, d: nat, p: seq<nat>)
    requires Live(m, d) && LeafPath(p)
    ensures Reached(m, m, d, p, 0, m.domains[d].value)
  {
    assert p[..0] == [];
  }

  lemma DescendNext(m: Mem, m1: Mem, d: nat, p: seq<nat>, k: nat, f: nat)
    requires TreeOk(m1) && FreeOk(m1) && LeafPath(p) && 1 <= k <= 3 && Reached(m, m1, d, p, k - 1, f)
    ensures match NextTable(m1, f, p[k - 1])
            case None => CountFree(m.alloc.used, |m.alloc.used|) < Missing(m, d, p, k)
            case Some((m2, g)) => TreeOk(m2) && FreeOk(m2) && Reached(m, m2, d, p, k, g)
  {
    assert UserPath(p[..k]) && At(m1, d, p[..k]) == At(m, d, p[..k]);
    NextLevelOk(m1, d, p, k - 1);
    if NextTable(m1, f, p[k - 1]).Some? {
      var (m2, g) := NextTable(m1, f, p[k - 1]).value;
      ReachedNext(m, m1, m2, d, p, k, f, g);
    }
  }

  lemma ReachedNext(m: Mem, m1: Mem, m2: Mem, d: nat, p: seq<nat>, k: nat, f: nat, g: nat)
    requires LeafPath(p) && 1 <= k <= 3 && Reached(m, m1, d, p, k - 1, f)
    requires Grew(m1, m2) && OtherTables(m1, m2, d) && At(m2, d, p[..k]) == Some(g) && SameBelow(m1, m2, d, k)
    requires SameOffPath(m1, m2, d, p)
    requires CountFree(m2.alloc.used, |m2.alloc.used|) + (if At(m1, d, p[..k]).None? then 1 else 0)
             == CountFree(m1.alloc.used, |m1.alloc.used|)
    requires forall d', q :: LeafPath(q) ==> EntryAt(m2, d', q) == EntryAt(m1, d', q)
    ensures Reached(m, m2, d, p, k, g)
  {
    GrewTwice(m, m1, m2);
    assert UserPath(p[..k]) && At(m1, d, p[..k]) == At(m, d, p[..k]);
  }

  /** The slot `map_to` ends at holds page p's entry. */
  lemma LeafSlot(m: Mem, d: nat, p: seq<nat>, pt: nat)
    requires LeafPath(p) && At(m, d, p[..3]) == Some(pt)
    ensures Slot(m.phys, pt, p[3]) == EntryAt(m, d, p) && IsTable(m, pt)
  {
    assert p[..3] + [p[3]] == p && TablePath(p[..3]);
  }

  /** Whatever entry is written there, the page reads it and every other page reads as before. */
  lemma LeafEntry(m: Mem, d: nat, p: seq<nat>, pt: nat, e: Entry)
    requires TreeOk(m) && LeafPath(p) && At(m, d, p[..3]) == Some(pt)
    ensures var m' := m.(phys := SetSlot(m.phys, pt, p[3], e)); EntryAt(m', d, p) == e && SameLeaves(m, m', d, p)
  {
    LeafSlot(m, d, p, pt);
    assert p[..3] + [p[3]] == p;
    WriteSlot(m, m.(phys := SetSlot(m.phys, pt, p[3], e)), d, p[..3], p[3]);
  }

  /** Whatever frame is mapped, the page reads its entry and every other page reads as before. */
  lemma MapToEntry(m: Mem, d: nat, p: seq<nat>, f: nat, flags: Flags)
    requires TreeOk(m) && FreeOk(m) && Live(m, d) && LeafPath(p)
    ensures match MapTo(m, m.domains[d].value, p, f, flags)
            case None => true
            case Some(m') =>
              && EntryAt(m, d, p).Unused? && EntryAt(m', d, p) == Entry(f, flags) && SameLeaves(m, m', d, p)
              && m'.domains == m.domains && m'.device == m.device && |m'.alloc.used| == |m.alloc.used|
              && m'.alloc.counts == m.alloc.counts && m'.alloc.slots == m.alloc.slots
                && m'.alloc.pinned == m.alloc.pinned
  {
    DescendOk(m, d, p, 3);
    if MapTo(m, m.domains[d].value, p, f, flags).Some? {
      var (m1, pt) := Descend(m, m.domains[d].value, p, 3).value;
      LeafSlot(m1, d, p, pt);
      LeafEntry(m1, d, p, pt, Entry(f, flags));
    }
  }

  /** Mapping a page refines the flat map: the page now reads `Entry(f, flags)`, every other page of
      every domain reads as before, and the tables keep their structure. It takes one frame for each missing
      table, and panics exactly when the page is mapped already or there are fewer free frames than that. */
  lemma MapToOk(m: Mem, d: nat, p: seq<nat>, f: nat, flags: Flags)
    requires TreeOk(m) && FreeOk(m) && Live(m, d) && LeafPath(p)
    requires !IsTable(m, f) && !IsFree(m.alloc, f) && !flags.huge
    ensures MapTo(m, m.domains[d].value, p, f, flags).Some? <==>
              At(m, d, p).None? && CountFree(m.alloc.used, |m.alloc.used|) >= Missing(m, d, p, 3)
    ensures match MapTo(m, m.domains[d].value, p, f, flags)
            case None => true
            case Some(m') => TreeOk(m') && FreeOk(m') && Grew(m, m') && SameLeaves(m, m', d, p)
                             && OtherTables(m, m', d) && SameOffPath(m, m', d, p)
                             && EntryAt(m', d, p) == Entry(f, flags) && !IsTable(m', f)
                             && CountFree(m'.alloc.used, |m.alloc.used|) + Missing(m, d, p, 3) ==
                               CountFree(m.alloc.used, |m.alloc.used|)
  {
    var root := m.domains[d].value;
    DescendOk(m, d, p, 3);
    if Descend(m, root, p, 3).Some? {
      var (m1, pt) := Descend(m, root, p, 3).value;
      LeafSlot(m1, d, p, pt);
      if Slot(m1.phys, pt, p[3]).Unused? { MapLeafOk(m, m1, d, p, pt, Entry(f, flags)); }
    }
  }

  lemma MapLeafOk(m: Mem, m1: Mem, d: nat, p: seq<nat>, pt: nat, e: Entry)
    requires TreeOk(m1) && FreeOk(m1) && LeafPath(p) && Reached(m, m1, d, p, 3, pt) && e.Entry?
    requires !IsTable(m, e.frame) && !IsFree(m.alloc, e.frame) && !e.flags.huge
    ensures var m' := m1.(phys := SetSlot(m1.phys, pt, p[3], e));
            && TreeOk(m') && FreeOk(m') && Grew(m, m') && SameLeaves(m, m', d, p) && OtherTables(m, m', d)
            && SameOffPath(m, m', d, p) && EntryAt(m', d, p) == e && !IsTable(m', e.frame)
  {
    assert !IsTable(m1, e.frame);
    SetLeafOk(m1, d, p, e);
    GrewTwice(m, m1, m1.(phys := SetSlot(m1.phys, pt, p[3], e)));
  }

  // ---- unmap ----

  /** The first k levels of the walk; None at an empty or 2 MiB entry. */
  function Walk(phys: Phys, root: nat, p: seq<nat>, k: nat): (r: Option<nat>)
    requires k <= |p|
  {
    if k == 0 then Some(root)
    else match Walk(phys, root, p, k - 1)
      case None => None
      case Some(f) =>
        var e := Slot(phys, f, p[k - 1]);
        if e.Unused? || e.flags.huge then None else Some(e.frame)
  }

  /** `unmap`: the frame that was mapped and the memory without that entry. */
  function Unmap(m: Mem, root: nat, p: seq<nat>): (r: Option<(Mem, nat)>)
    requires |p| == 4
  {
    match Walk(m.phys, root, p, 3)
    case None => None
    case Some(pt) =>
      match Slot(m.phys, pt, p[3])
      case Unused => None
      case Entry(f, flags) => if flags.huge then None else Some((m.(phys := SetSlot(m.phys, pt, p[3], Unused)), f))
  }

  lemma {:induction false} WalkIsNode(m: Mem, d: nat, p: seq<nat>, k: nat)
    requires TreeOk(m) && Live(m, d) && LeafPath(p) && k <= 3
    ensures Walk(m.phys, m.domains[d].value, p, k) == At(m, d, p[..k])
  {
    if k == 0 {
      assert p[..0] == [];
    } else {
      WalkIsNode(m, d, p, k - 1);
      assert p[..k][..k - 1] == p[..k - 1];
      assert UserPath(p[..k]);
      assert EntryAt(m, d, p[..k]).Entry? ==> !EntryAt(m, d, p[..k]).flags.huge;
    }
  }

  /** Unmapping empties exactly that page; it fails exactly when the page is not mapped. */
  lemma UnmapOk(m: Mem, d: nat, p: seq<nat>)
    requires TreeOk(m) && FreeOk(m) && Live(m, d) && LeafPath(p)
    ensures match Unmap(m, m.domains[d].value, p)
            case None => EntryAt(m, d, p).Unused?
            case Some((m', f)) =>
              && EntryAt(m, d, p).Entry? && EntryAt(m, d, p).frame == f && EntryAt(m', d, p).Unused?
              && TreeOk(m') && FreeOk(m') && Grew(m, m') && SameLeaves(m, m', d, p) && m'.alloc == m.alloc
              && (forall x :: IsTable(m', x) <==> IsTable(m, x))
  {
    WalkIsNode(m, d, p, 3);
    assert p[..3] + [p[3]] == p;
    assert UserPath(p[..3]);
    if At(m, d, p[..3]).Some? {
      assert EntryAt(m, d, p) == Slot(m.phys, At(m, d, p[..3]).value, p[3]);
      SetLeafOk(m, d, p, Unused);
    }
  }
}
