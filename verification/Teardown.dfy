/** Tearing down a user address space (`free_user_space`, kernel/src/memory/paging.rs:442-498): the
    three nested loops as one function of the table level, and what they free in total. */
module Teardown {
  import opened Wrappers
  import opened Frames
  import opened Paging

  function ClearSlot(m: Mem, f: nat, i: nat): (r: Mem) { m.(phys := SetSlot(m.phys, f, i, Unused)) }

  function ReleaseFrames(m: Mem, f: nat, n: nat): (r: Mem) {
    if n == 0 then m
    else
      var m' := ReleaseFrames(m, f, n - 1);
      m'.(alloc := ReleaseUserFrame(m'.alloc, Addr(f + n - 1)))
  }

  /** Empty slots i.. of table f. Level 1 is a PT (its entries are pages), 2 a PD, 3 a PDPT. */
  function FreeTable(m: Mem, f: nat, level: nat, i: nat): (r: Mem)
    requires 1 <= level <= 3 && i <= TABLE_LEN
    decreases level, TABLE_LEN - i
  {
    if i == TABLE_LEN then m
    else match Slot(m.phys, f, i)
      case Unused => FreeTable(m, f, level, i + 1)
      case Entry(g, flags) =>
        var m' :=
          if level == 1 then m.(alloc := ReleaseUserFrame(m.alloc, Addr(g)))
          else if level == 2 && flags.huge then ReleaseFrames(m, g, 512)
          else
            var below := FreeTable(m, g, level - 1, 0);
            below.(alloc := FreeFrame(below.alloc, Addr(g)));
        FreeTable(ClearSlot(m', f, i), f, level, i + 1)
  }

  function FreeUserSpace(m: Mem, root: nat): (r: Mem) {
    match Slot(m.phys, root, USER_P4)
    case Unused => m
    case Entry(pdpt, _) =>
      var m' := FreeTable(m, pdpt, 3, 0);
      ClearSlot(m'.(alloc := FreeFrame(m'.alloc, Addr(pdpt))), root, USER_P4)
  }

  /** The n frames from f on. */
  function Span(f: nat, n: nat): (s: set<nat>)
    ensures forall x :: x in s <==> f <= x < f + n
  {
    if n == 0 then {} else Span(f, n - 1) + {f + n - 1}
  }

  lemma ReleaseOneMore(a: Alloc, span: set<nat>, x: nat)
    requires CountsPositive(a) && x !in span
    ensures ReleaseUserFrame(Drop(a, span, {}), Addr(x)) == Drop(a, span + {x}, {})
  {
    var none: set<nat> := {};
    DropTwice(a, span, none, {x}, none);
    assert none + none == none;
    ReleaseIsDrop(Drop(a, span, {}), x);
  }

  lemma {:induction false} ReleaseFramesExact(m: Mem, f: nat, n: nat)
    requires CountsPositive(m.alloc)
    ensures ReleaseFrames(m, f, n) == m.(alloc := Drop(m.alloc, Span(f, n), {}))
  {
    if n == 0 {
      DropNothing(m.alloc);
    } else {
      ReleaseFramesExact(m, f, n - 1);
      ReleaseOneMore(m.alloc, Span(f, n - 1), f + n - 1);
    }
  }

  /** A 2 MiB entry gives back each of its 512 frames once, and is empty then. */
  lemma HugeFreed(m: Mem, f: nat, i: nat)
    requires CountsPositive(m.alloc) && i < TABLE_LEN && Slot(m.phys, f, i).Entry? && Slot(m.phys, f, i).flags.huge
    ensures var g := Slot(m.phys, f, i).frame;
            var m' := m.(alloc := Drop(m.alloc, Span(g, 512), {}), phys := SetSlot(m.phys, f, i, Unused));
            FreeTable(m, f, 2, i) == FreeTable(m', f, 2, i + 1)
  {
    ReleaseFramesExact(m, Slot(m.phys, f, i).frame, 512);
  }

  // ---- the frames a subtree holds ----

  /** Page frames below slots i.. of table f. */
  ghost function Leaves(phys: Phys, f: nat, level: nat, i: nat): (s: set<nat>)
    requires 1 <= level <= 3 && i <= TABLE_LEN
    decreases level, TABLE_LEN - i
  {
    if i == TABLE_LEN then {}
    else
      var e, rest := Slot(phys, f, i), Leaves(phys, f, level, i + 1);
      if e.Unused? then rest else if level == 1 then {e.frame} + rest else Leaves(phys, e.frame, level - 1, 0) + rest
  }

  /** Table frames below slots i.. of table f. */
  ghost function Tables(phys: Phys, f: nat, level: nat, i: nat): (s: set<nat>)
    requires 1 <= level <= 3 && i <= TABLE_LEN
    decreases level, TABLE_LEN - i
  {
    if i == TABLE_LEN then {}
    else
      var e, rest := Slot(phys, f, i), Tables(phys, f, level, i + 1);
      if e.Unused? || level == 1 then rest else {e.frame} + Tables(phys, e.frame, level - 1, 0) + rest
  }

  predicate IsFull(phys: Phys, f: nat) { f in phys && phys[f].Table? && |phys[f].entries| == TABLE_LEN }

  /** The subtree below slots i.. of f is a tree: tables occur once, and only uncounted page frames repeat. */
  ghost predicate Disjoint(a: Alloc, phys: Phys, f: nat, level: nat, i: nat)
    requires 1 <= level <= 3 && i <= TABLE_LEN
    decreases level, TABLE_LEN - i
  {
    if i == TABLE_LEN then true
    else
      && Disjoint(a, phys, f, level, i + 1)
      && var e := Slot(phys, f, i);
         e.Entry? ==>
           if level == 1 then e.frame in Leaves(phys, f, 1, i + 1) ==> Uncounted(a, e.frame)
           else
             var l, t := Leaves(phys, e.frame, level - 1, 0), Tables(phys, e.frame, level - 1, 0);
             var l', t' := Leaves(phys, f, level, i + 1), Tables(phys, f, level, i + 1);
             && !e.flags.huge && IsFull(phys, e.frame) && Disjoint(a, phys, e.frame, level - 1, 0)
             && e.frame !in l + t && f !in {e.frame} + t && f !in t'
             && ({e.frame} + t) !! (l' + t') && l !! t'
             && (forall x :: x in l && x in l' ==> Uncounted(a, x))
  }

  function ClearFrom(entries: seq<Entry>, i: nat): (r: seq<Entry>) {
    seq(|entries|, k requires 0 <= k < |entries| => if k >= i then Unused else entries[k])
  }

  /** The tables t emptied. */
  function Wipe(phys: Phys, t: set<nat>): (r: Phys) {
    map x | x in phys :: if x in t then ZeroTable() else phys[x]
  }

  // ---- the sets depend on the subtree only ----

  /** phys2 has the same contents as phys1 below slots i.. of f. */
  ghost predicate SameBelow(phys1: Phys, phys2: Phys, f: nat, level: nat, i: nat)
    requires 1 <= level <= 3 && i <= TABLE_LEN
  {
    && (forall k :: i <= k < TABLE_LEN ==> Slot(phys2, f, k) == Slot(phys1, f, k))
    && (forall x :: x in Tables(phys1, f, level, i) && x in phys1 ==> x in phys2 && phys2[x] == phys1[x])
  }

  ghost predicate UncountedMore(a1: Alloc, a2: Alloc) { forall x :: Uncounted(a1, x) ==> Uncounted(a2, x) }

  lemma {:induction false} SubtreeFrame(a1: Alloc, a2: Alloc, phys1: Phys, phys2: Phys, f: nat, level: nat, i: nat)
    requires 1 <= level <= 3 && i <= TABLE_LEN
    requires SameBelow(phys1, phys2, f, level, i) && Disjoint(a1, phys1, f, level, i) && UncountedMore(a1, a2)
    ensures Leaves(phys2, f, level, i) == Leaves(phys1, f, level, i)
    ensures Tables(phys2, f, level, i) == Tables(phys1, f, level, i)
    ensures Disjoint(a2, phys2, f, level, i)
    decreases level, TABLE_LEN - i
  {
    if i < TABLE_LEN {
      var e := Slot(phys1, f, i);
      assert Slot(phys2, f, i) == e;
      SubtreeFrame(a1, a2, phys1, phys2, f, level, i + 1);
      if e.Entry? && level > 1 {
        assert e.frame in Tables(phys1, f, level, i);
        SubtreeFrame(a1, a2, phys1, phys2, e.frame, level - 1, 0);
      }
    }
  }

  // ---- what the loops free ----

  lemma DropUncounted(a: Alloc, l: set<nat>, t: set<nat>)
    requires CountsPositive(a)
    ensures UncountedMore(a, Drop(a, l, t)) && CountsPositive(Drop(a, l, t))
  {
  }

  /** Everything below slots i.. of f is released once, and every table below is emptied. */
  ghost function Freed(m: Mem, f: nat, level: nat, i: nat): (r: Mem)
    requires 1 <= level <= 3 && i <= TABLE_LEN && IsFull(m.phys, f)
  {
    m.(alloc := Drop(m.alloc, Leaves(m.phys, f, level, i), Tables(m.phys, f, level, i)),
       phys := Wipe(m.phys, Tables(m.phys, f, level, i))[f := Table(ClearFrom(m.phys[f].entries, i))])
  }

  lemma {:induction false} FreeTableEffect(m: Mem, f: nat, level: nat, i: nat)
    requires 1 <= level <= 3 && i <= TABLE_LEN && IsFull(m.phys, f)
    requires CountsPositive(m.alloc) && Disjoint(m.alloc, m.phys, f, level, i)
    ensures FreeTable(m, f, level, i) == Freed(m, f, level, i)
    decreases level, TABLE_LEN - i
  {
    if i == TABLE_LEN {
      DropNothing(m.alloc);
      assert Wipe(m.phys, {}) == m.phys;
      assert ClearFrom(m.phys[f].entries, i) == m.phys[f].entries;
      assert m.phys[f := m.phys[f]] == m.phys;
    } else {
      match Slot(m.phys, f, i) {
        case Unused =>
          FreeTableEffect(m, f, level, i + 1);
          assert ClearFrom(m.phys[f].entries, i) == ClearFrom(m.phys[f].entries, i + 1);
        case Entry(g, flags) =>
          if level == 1 { FreeLeafSlot(m, f, i); } else { FreeTableSlot(m, f, level, i); }
      }
    }
  }

  lemma {:induction false} FreeLeafSlot(m: Mem, f: nat, i: nat)
    requires i < TABLE_LEN && IsFull(m.phys, f) && Slot(m.phys, f, i).Entry?
    requires CountsPositive(m.alloc) && Disjoint(m.alloc, m.phys, f, 1, i)
    ensures FreeTable(m, f, 1, i) == Freed(m, f, 1, i)
    decreases 1, TABLE_LEN - i, 0
  {
    var g := Slot(m.phys, f, i).frame;
    ReleaseIsDrop(m.alloc, g);
    var m1 := ClearSlot(m.(alloc := ReleaseUserFrame(m.alloc, Addr(g))), f, i);
    DropUncounted(m.alloc, {g}, {});
    NoTablesBelow(m.phys, f, i + 1);
    SubtreeFrame(m.alloc, m1.alloc, m.phys, m1.phys, f, 1, i + 1);
    FreeTableEffect(m1, f, 1, i + 1);
    var l := Leaves(m.phys, f, 1, i + 1);
    DropTwice(m.alloc, {g}, {}, l, {});
    assert forall e: set<nat> :: {} + e == e;
    NoTablesBelow(m.phys, f, i);
    assert Drop(m1.alloc, l, {}) == Drop(m.alloc, {g} + l, {});
    assert ClearFrom(m1.phys[f].entries, i + 1) == ClearFrom(m.phys[f].entries, i);
    assert Freed(m1, f, 1, i + 1).phys == Freed(m, f, 1, i).phys;
  }

  lemma NoTablesBelow(phys: Phys, f: nat, i: nat)
    requires i <= TABLE_LEN
    ensures Tables(phys, f, 1, i) == {}
    decreases TABLE_LEN - i
  {
  }

  lemma {:induction false} FreeTableSlot(m: Mem, f: nat, level: nat, i: nat)
    requires 2 <= level <= 3 && i < TABLE_LEN && IsFull(m.phys, f) && Slot(m.phys, f, i).Entry?
    requires CountsPositive(m.alloc) && Disjoint(m.alloc, m.phys, f, level, i)
    ensures FreeTable(m, f, level, i) == Freed(m, f, level, i)
    decreases level, TABLE_LEN - i, 1
  {
    var g := Slot(m.phys, f, i).frame;
    var l, t := Leaves(m.phys, g, level - 1, 0), Tables(m.phys, g, level - 1, 0);
    var l', t' := Leaves(m.phys, f, level, i + 1), Tables(m.phys, f, level, i + 1);
    FreeTableEffect(m, g, level - 1, 0);
    var m1 := FreeTable(m, g, level - 1, 0);
    var m2 := m1.(alloc := FreeFrame(m1.alloc, Addr(g)));
    FreeIsDrop(m1.alloc, g);
    DropTwice(m.alloc, l, t, {}, {g});
    assert l + {} == l;
    assert m2.alloc == Drop(m.alloc, l, t + {g});
    WipeChild(m.phys, g, t);
    assert m2.phys == Wipe(m.phys, t + {g});
    FreeTableRest(m, m2, f, level, i, l, t + {g});
    assert (t + {g}) + t' == Tables(m.phys, f, level, i);
    assert l + l' == Leaves(m.phys, f, level, i);
  }

  lemma WipeChild(phys: Phys, g: nat, t: set<nat>)
    requires IsFull(phys, g)
    ensures Wipe(phys, t)[g := Table(ClearFrom(phys[g].entries, 0))] == Wipe(phys, t + {g})
  {
    assert ClearFrom(phys[g].entries, 0) == seq(TABLE_LEN, i => Unused);
  }

  /** After child i of f, with pages l and tables t, has been freed: clear the slot and go on. */
  lemma {:induction false} FreeTableRest(m: Mem, m2: Mem, f: nat, level: nat, i: nat, l: set<nat>, t: set<nat>)
    requires 2 <= level <= 3 && i < TABLE_LEN && IsFull(m.phys, f)
    requires CountsPositive(m.alloc) && Disjoint(m.alloc, m.phys, f, level, i + 1)
    requires m2 == m.(alloc := Drop(m.alloc, l, t), phys := Wipe(m.phys, t))
    requires f !in t && f !in Tables(m.phys, f, level, i + 1)
    requires (l + t) !! Tables(m.phys, f, level, i + 1) && t !! Leaves(m.phys, f, level, i + 1)
    requires forall x :: x in l && x in Leaves(m.phys, f, level, i + 1) ==> Uncounted(m.alloc, x)
    ensures FreeTable(ClearSlot(m2, f, i), f, level, i + 1) ==
            m.(alloc := Drop(m.alloc, l + Leaves(m.phys, f, level, i + 1), t + Tables(m.phys, f, level, i + 1)),
               phys := Wipe(m.phys, t + Tables(m.phys, f, level, i + 1))[f := Table(ClearFrom(m.phys[f].entries, i))])
    decreases level, TABLE_LEN - i, 0
  {
    var l', t' := Leaves(m.phys, f, level, i + 1), Tables(m.phys, f, level, i + 1);
    var m3 := ClearSlot(m2, f, i);
    assert m3.phys == Wipe(m.phys, t)[f := Table(m.phys[f].entries[i := Unused])];
    DropUncounted(m.alloc, l, t);
    SubtreeFrame(m.alloc, m3.alloc, m.phys, m3.phys, f, level, i + 1);
    FreeTableEffect(m3, f, level, i + 1);
    DropTwice(m.alloc, l, t, l', t');
    WipeRest(m.phys, f, i, t, t');
  }

  lemma WipeRest(phys: Phys, f: nat, i: nat, t: set<nat>, t': set<nat>)
    requires IsFull(phys, f) && i < TABLE_LEN && f !in t && f !in t'
    ensures var mid := Wipe(phys, t)[f := Table(phys[f].entries[i := Unused])];
            Wipe(mid, t')[f := Table(ClearFrom(mid[f].entries, i + 1))]
            == Wipe(phys, t + t')[f := Table(ClearFrom(phys[f].entries, i))]
  {
    assert ClearFrom(phys[f].entries[i := Unused], i + 1) == ClearFrom(phys[f].entries, i);
  }

  // ---- the subtree of a domain ----

  /** The page at (d, q) lies below slots i.. of the table at path p. */
  predicate Below(p: seq<nat>, i: nat, q: seq<nat>) { |q| > |p| && q[..|p|] == p && q[|p|] >= i }

  lemma ChildEntry(m: Mem, d: nat, p: seq<nat>, i: nat)
    requires Live(m, d) && At(m, d, p).Some?
    ensures EntryAt(m, d, p + [i]) == Slot(m.phys, At(m, d, p).value, i)
    ensures At(m, d, p + [i]) == match Slot(m.phys, At(m, d, p).value, i) case Unused => None case Entry(g, _) =>
      Some(g)
  {
    assert (p + [i])[..|p|] == p;
  }

  /** Every page frame of the subtree is at the end of a path below it. */
  lemma {:induction false} LeafWitness(m: Mem, d: nat, p: seq<nat>, i: nat, x: nat) returns (q: seq<nat>)
    requires UserPath(p) && |p| <= 3 && i <= TABLE_LEN && Live(m, d) && At(m, d, p).Some?
    requires x in Leaves(m.phys, At(m, d, p).value, 4 - |p|, i)
    ensures LeafPath(q) && Below(p, i, q) && At(m, d, q) == Some(x)
    decreases 4 - |p|, TABLE_LEN - i
  {
    var f := At(m, d, p).value;
    ChildEntry(m, d, p, i);
    if x in Leaves(m.phys, f, 4 - |p|, i + 1) {
      q := LeafWitness(m, d, p, i + 1, x);
    } else if |p| == 3 {
      q := p + [i];
    } else {
      q := LeafWitness(m, d, p + [i], 0, x);
      assert q[..|p|] == p;
    }
  }

  lemma {:induction false} TableWitness(m: Mem, d: nat, p: seq<nat>, i: nat, x: nat) returns (q: seq<nat>)
    requires UserPath(p) && |p| <= 3 && i <= TABLE_LEN && Live(m, d) && At(m, d, p).Some?
    requires x in Tables(m.phys, At(m, d, p).value, 4 - |p|, i)
    ensures TablePath(q) && Below(p, i, q) && At(m, d, q) == Some(x)
    decreases 4 - |p|, TABLE_LEN - i
  {
    var f := At(m, d, p).value;
    ChildEntry(m, d, p, i);
    if x in Tables(m.phys, f, 4 - |p|, i + 1) {
      q := TableWitness(m, d, p, i + 1, x);
    } else if Slot(m.phys, f, i).frame == x {
      q := p + [i];
    } else {
      q := TableWitness(m, d, p + [i], 0, x);
      assert q[..|p|] == p;
    }
  }

  /** Every path below the table ends in the subtree's frames. */
  lemma {:induction false} PathMember(m: Mem, d: nat, p: seq<nat>, i: nat, q: seq<nat>)
    requires UserPath(p) && |p| <= 3 && i <= TABLE_LEN && Live(m, d) && At(m, d, p).Some?
    requires UserPath(q) && Below(p, i, q) && At(m, d, q).Some?
    ensures |q| == 4 ==> At(m, d, q).value in Leaves(m.phys, At(m, d, p).value, 4 - |p|, i)
    ensures |q| <= 3 ==> At(m, d, q).value in Tables(m.phys, At(m, d, p).value, 4 - |p|, i)
    decreases 4 - |p|, TABLE_LEN - i
  {
    ChildEntry(m, d, p, i);
    if q[|p|] > i {
      PathMember(m, d, p, i + 1, q);
    } else {
      PrefixSome(m, d, q, |p| + 1);
      assert q[..|p| + 1] == p + [i];
      if |q| > |p| + 1 {
        PathMember(m, d, p + [i], 0, q);
      } else {
        assert q == p + [i];
      }
    }
  }

  lemma {:induction false} PrefixSome(m: Mem, d: nat, q: seq<nat>, k: nat)
    requires k <= |q| && At(m, d, q).Some?
    ensures At(m, d, q[..k]).Some?
    decreases |q|
  {
    if k < |q| {
      var n := |q| - 1;
      assert q[..n][..k] == q[..k];
      assert EntryAt(m, d, q).Entry? && At(m, d, q[..n]).Some?;
      PrefixSome(m, d, q[..n], k);
    } else {
      assert q[..k] == q;
    }
  }

  /** In a domain's tables every subtree is a tree. */
  lemma {:induction false} SubtreeDisjoint(m: Mem, d: nat, p: seq<nat>, i: nat)
    requires TreeOk(m) && UserPath(p) && |p| <= 3 && i <= TABLE_LEN && Live(m, d) && At(m, d, p).Some?
    requires PagesOnce(m, d)
    ensures Disjoint(m.alloc, m.phys, At(m, d, p).value, 4 - |p|, i)
    decreases 4 - |p|, TABLE_LEN - i
  {
    if i < TABLE_LEN {
      var f := At(m, d, p).value;
      SubtreeDisjoint(m, d, p, i + 1);
      ChildEntry(m, d, p, i);
      if Slot(m.phys, f, i).Entry? {
        if |p| == 3 {
          LeafRepeats(m, d, p, i);
        } else {
          SubtreeDisjoint(m, d, p + [i], 0);
          ChildDisjoint(m, d, p, i);
        }
      }
    }
  }

  /** Within domain d only uncounted frames may be mapped at two pages. */
  ghost predicate PagesOnce(m: Mem, d: nat) {
    forall q, q' :: LeafPath(q) && LeafPath(q') && At(m, d, q).Some? && At(m, d, q) == At(m, d, q') && q != q' ==>
      Uncounted(m.alloc, At(m, d, q).value)
  }

  lemma LeafRepeats(m: Mem, d: nat, p: seq<nat>, i: nat)
    requires UserPath(p) && |p| == 3 && i < TABLE_LEN && Live(m, d) && At(m, d, p).Some? && PagesOnce(m, d)
    requires Slot(m.phys, At(m, d, p).value, i).Entry?
    ensures var g := Slot(m.phys, At(m, d, p).value, i).frame;
            g in Leaves(m.phys, At(m, d, p).value, 1, i + 1) ==> Uncounted(m.alloc, g)
  {
    var g := Slot(m.phys, At(m, d, p).value, i).frame;
    ChildEntry(m, d, p, i);
    if g in Leaves(m.phys, At(m, d, p).value, 1, i + 1) {
      var q := LeafWitness(m, d, p, i + 1, g);
      assert LeafPath(p + [i]) && At(m, d, p + [i]) == At(m, d, q);
    }
  }

  lemma ChildDisjoint(m: Mem, d: nat, p: seq<nat>, i: nat)
    requires TreeOk(m) && UserPath(p) && |p| <= 2 && i < TABLE_LEN && Live(m, d) && At(m, d, p).Some?
    requires PagesOnce(m, d) && Slot(m.phys, At(m, d, p).value, i).Entry?
    ensures var f, level := At(m, d, p).value, 4 - |p|;
            var g := Slot(m.phys, f, i).frame;
            var l, t := Leaves(m.phys, g, level - 1, 0), Tables(m.phys, g, level - 1, 0);
            var l', t' := Leaves(m.phys, f, level, i + 1), Tables(m.phys, f, level, i + 1);
            && !Slot(m.phys, f, i).flags.huge && IsFull(m.phys, g)
            && g !in l + t && f !in {g} + t && f !in t'
            && ({g} + t) !! (l' + t') && l !! t'
            && (forall x :: x in l && x in l' ==> Uncounted(m.alloc, x))
  {
    var f, level := At(m, d, p).value, 4 - |p|;
    var g := Slot(m.phys, f, i).frame;
    var l, t := Leaves(m.phys, g, level - 1, 0), Tables(m.phys, g, level - 1, 0);
    var l', t' := Leaves(m.phys, f, level, i + 1), Tables(m.phys, f, level, i + 1);
    ChildEntry(m, d, p, i);
    assert UserPath(p + [i]) && TablePath(p + [i]) && IsTable(m, g) && IsTable(m, f);
    forall x | x in t ensures x != g && x != f && x !in l && x !in l' && x !in t' {
      var q := TableWitness(m, d, p + [i], 0, x);
      NotAmong(m, d, p, i, x, q);
    }
    forall x | x in t' ensures x != f && x != g && x !in l {
      var q := TableWitness(m, d, p, i + 1, x);
      NotLeaf(m, d, p + [i], 0, x);
      assert q != p + [i];
    }
    NotLeaf(m, d, p + [i], 0, g);
    NotLeaf(m, d, p, i + 1, g);
    ChildPagesOnce(m, d, p, i);
  }

  /** Only uncounted pages occur below child i and below a later child. */
  lemma ChildPagesOnce(m: Mem, d: nat, p: seq<nat>, i: nat)
    requires UserPath(p) && |p| <= 2 && i < TABLE_LEN && Live(m, d) && At(m, d, p).Some? && PagesOnce(m, d)
    requires Slot(m.phys, At(m, d, p).value, i).Entry?
    ensures var f, level := At(m, d, p).value, 4 - |p|;
            forall x ::
              x in Leaves(m.phys, Slot(m.phys, f, i).frame, level - 1, 0) && x in Leaves(m.phys, f, level, i + 1) ==>
              Uncounted(m.alloc, x)
  {
    var f, level := At(m, d, p).value, 4 - |p|;
    ChildEntry(m, d, p, i);
    assert UserPath(p + [i]);
    forall x | x in Leaves(m.phys, Slot(m.phys, f, i).frame, level - 1, 0) && x in Leaves(m.phys, f, level, i + 1)
      ensures Uncounted(m.alloc, x)
    {
      var q := LeafWitness(m, d, p + [i], 0, x);
      var q' := LeafWitness(m, d, p, i + 1, x);
      assert q[|p|] == i by { assert q[..|p| + 1][|p|] == i; }
    }
  }

  /** A table frame is no page frame of the subtree. */
  lemma NotLeaf(m: Mem, d: nat, p: seq<nat>, i: nat, x: nat)
    requires TreeOk(m) && UserPath(p) && |p| <= 3 && i <= TABLE_LEN && Live(m, d) && At(m, d, p).Some? && IsTable(m, x)
    ensures x !in Leaves(m.phys, At(m, d, p).value, 4 - |p|, i)
  {
    if x in Leaves(m.phys, At(m, d, p).value, 4 - |p|, i) {
      var q := LeafWitness(m, d, p, i, x);
      assert false;
    }
  }

  /** The table x at (d, q) below child i of p is neither that child nor in the rest of p's subtree. */
  lemma NotAmong(m: Mem, d: nat, p: seq<nat>, i: nat, x: nat, q: seq<nat>)
    requires TreeOk(m) && UserPath(p) && |p| <= 2 && i < TABLE_LEN && Live(m, d) && At(m, d, p).Some?
    requires At(m, d, p + [i]).Some? && TablePath(q) && Below(p + [i], 0, q) && At(m, d, q) == Some(x)
    ensures x != At(m, d, p + [i]).value && x != At(m, d, p).value
    ensures x !in Leaves(m.phys, At(m, d, p + [i]).value, 3 - |p|, 0)
    ensures x !in Leaves(m.phys, At(m, d, p).value, 4 - |p|, i + 1)
    ensures x !in Tables(m.phys, At(m, d, p).value, 4 - |p|, i + 1)
  {
    assert IsTable(m, x);
    NotLeaf(m, d, p + [i], 0, x);
    NotLeaf(m, d, p, i + 1, x);
    assert |q| > |p| + 1;
    assert q[..|p| + 1][|p|] == i;
    NotInRest(m, d, p, i, x, q);
  }

  lemma NotInRest(m: Mem, d: nat, p: seq<nat>, i: nat, x: nat, q: seq<nat>)
    requires TreeOk(m) && UserPath(p) && |p| <= 2 && i < TABLE_LEN && Live(m, d) && At(m, d, p).Some?
    requires TablePath(q) && |q| > |p| && q[|p|] == i && At(m, d, q) == Some(x)
    ensures x !in Tables(m.phys, At(m, d, p).value, 4 - |p|, i + 1)
  {
    if x in Tables(m.phys, At(m, d, p).value, 4 - |p|, i + 1) {
      var q' := TableWitness(m, d, p, i + 1, x);
      assert false;
    }
  }
}
