/** How many frames a list of pages needs, page tables included, and what becomes of a load that has so many frames:
    counted on index paths alone, without memory. */
module FrameNeeds {
  import opened Paging

  type Paths = seq<seq<nat>>

  /** Some page of `done` lies at or below q. */
  ghost predicate Below(done: Paths, q: seq<nat>) { exists i :: 0 <= i < |done| && OnPath(q, done[i]) }

  /** How many of the first k levels on the way to page p have no page of `done` below them. */
  ghost function Fresh(done: Paths, p: seq<nat>, k: nat): (n: nat)
    requires k <= |p|
    ensures n <= k
  {
    if k == 0 then 0 else Fresh(done, p, k - 1) + if Below(done, p[..k]) then 0 else 1
  }

  predicate Full(pages: Paths) { forall i :: 0 <= i < |pages| ==> |pages[i]| == 4 }

  /** Frames for page p and its missing tables when the pages `done` are there; none when p is one of them. */
  ghost function Cost(done: Paths, p: seq<nat>): (n: nat)
    requires |p| == 4
  {
    Fresh(done, p, 4)
  }

  lemma {:induction false} FreshZero(done: Paths, p: seq<nat>, k: nat)
    requires k <= |p|
    ensures Fresh(done, p, k) == 0 <==> forall j :: 1 <= j <= k ==> Below(done, p[..j])
  {
    if k > 0 { FreshZero(done, p, k - 1); }
  }

  lemma CostZero(done: Paths, p: seq<nat>)
    requires |p| == 4 && Full(done)
    ensures Cost(done, p) == 0 <==> p in done
  {
    FreshZero(done, p, 4);
    assert p[..4] == p;
    if Below(done, p) {
      var i :| 0 <= i < |done| && OnPath(p, done[i]);
      assert done[i][..4] == done[i];
    }
    if p in done {
      var i :| 0 <= i < |done| && done[i] == p;
      forall k | 1 <= k <= 4 ensures Below(done, p[..k]) { assert OnPath(p[..k], done[i]); }
    }
  }

  /** Frames for the pages in order. */
  ghost function Need(done: Paths, pages: Paths): (n: nat)
    requires Full(pages)
    decreases |pages|
  {
    if pages == [] then 0 else Cost(done, pages[0]) + Need(done + [pages[0]], pages[1..])
  }

  // ---- the need is the number of distinct pages and tables ----

  /** The pages and every user table above them. */
  ghost function Nodes(pages: Paths): (s: set<seq<nat>>)
    requires Full(pages)
  {
    set i, k | 0 <= i < |pages| && 1 <= k <= 4 :: pages[i][..k]
  }

  ghost function Prefixes(p: seq<nat>, n: nat): (s: set<seq<nat>>)
    requires n <= |p|
  {
    set k | 1 <= k <= n :: p[..k]
  }

  lemma AddOne(s: set<seq<nat>>, x: seq<nat>)
    ensures |s + {x}| == |s| + if x in s then 0 else 1
  {
    if x in s { assert s + {x} == s; }
  }

  lemma {:induction false} FreshCounts(done: Paths, p: seq<nat>, n: nat)
    requires Full(done) && |p| == 4 && n <= 4
    ensures |Nodes(done) + Prefixes(p, n)| == |Nodes(done)| + Fresh(done, p, n)
  {
    if n == 0 {
      assert Nodes(done) + Prefixes(p, 0) == Nodes(done);
    } else {
      FreshCounts(done, p, n - 1);
      var s := Nodes(done) + Prefixes(p, n - 1);
      assert Nodes(done) + Prefixes(p, n) == s + {p[..n]} by { PrefixesNext(p, n); }
      assert p[..n] in s <==> Below(done, p[..n]) by {
        PrefixesNext(p, n);
        NodeBelow(done, p[..n]);
      }
      AddOne(s, p[..n]);
    }
  }

  lemma PrefixesNext(p: seq<nat>, n: nat)
    requires 1 <= n <= |p|
    ensures Prefixes(p, n) == Prefixes(p, n - 1) + {p[..n]} && p[..n] !in Prefixes(p, n - 1)
  {
    forall q ensures q in Prefixes(p, n) <==> q in Prefixes(p, n - 1) || q == p[..n] {
      if q in Prefixes(p, n) { var k :| 1 <= k <= n && q == p[..k]; }
    }
  }

  lemma NodeBelow(done: Paths, q: seq<nat>)
    requires Full(done) && 1 <= |q| <= 4
    ensures q in Nodes(done) <==> Below(done, q)
  {
    if q in Nodes(done) {
      var i, k :| 0 <= i < |done| && 1 <= k <= 4 && q == done[i][..k];
      assert OnPath(q, done[i]);
    }
    if Below(done, q) {
      var i :| 0 <= i < |done| && OnPath(q, done[i]);
      assert q == done[i][..|q|];
    }
  }

  /** The frames needed are one for each distinct page and one for each distinct table, whatever the order. */
  lemma {:induction false} NeedCounts(done: Paths, pages: Paths)
    requires Full(done) && Full(pages)
    ensures |Nodes(done)| + Need(done, pages) == |Nodes(done + pages)|
    decreases |pages|
  {
    if pages == [] {
      assert done + pages == done;
    } else {
      var p := pages[0];
      FreshCounts(done, p, 4);
      NodesAppend(done, p);
      NeedCounts(done + [p], pages[1..]);
      assert (done + [p]) + pages[1..] == done + pages;
    }
  }

  lemma NodesAppend(done: Paths, p: seq<nat>)
    requires Full(done) && |p| == 4
    ensures Nodes(done + [p]) == Nodes(done) + Prefixes(p, 4)
  {
    var all := done + [p];
    assert all[|done|] == p;
    forall q ensures q in Nodes(all) <==> q in Nodes(done) || q in Prefixes(p, 4) {
      if q in Nodes(done) {
        var i, k :| 0 <= i < |done| && 1 <= k <= 4 && q == done[i][..k];
        assert q == all[i][..k];
      }
      if q in Prefixes(p, 4) {
        var k :| 1 <= k <= 4 && q == p[..k];
        assert q == all[|done|][..k];
      }
    }
  }

  // ---- what becomes of a load ----

  /** A page the loader visits: one of a segment, which is mapped unless it is there, or refused if it has no
      permission; or one of the stack, which is mapped without looking. */
  datatype Visit = Segmented(path: seq<nat>, allowed: bool) | Stack(path: seq<nat>)

  datatype Fate = Fits(left: nat) | Short | Dies

  predicate FullVisits(vs: seq<Visit>) { forall i :: 0 <= i < |vs| ==> |vs[i].path| == 4 }

  function PathsOf(vs: seq<Visit>): (r: Paths)
    ensures |r| == |vs| && forall i :: 0 <= i < |r| ==> r[i] == vs[i].path
  {
    seq(|vs|, i requires 0 <= i < |vs| => vs[i].path)
  }

  /** The loops with `free` frames: no frame for the page is a refusal, none for a table a panic. */
  ghost function LoadFate(free: nat, done: Paths, vs: seq<Visit>): (f: Fate)
    requires FullVisits(vs)
    decreases |vs|
  {
    if vs == [] then Fits(free)
    else
      var v := vs[0];
      if v.Segmented? && v.path in done then LoadFate(free, done + [v.path], vs[1..])
      else if (v.Segmented? && !v.allowed) || free == 0 then Short
      else if v.path in done || free < Cost(done, v.path) then Dies
      else LoadFate(free - Cost(done, v.path), done + [v.path], vs[1..])
  }

  /** Visit i is the first one to its page, which has no permission. */
  ghost predicate Forbidden(done: Paths, vs: seq<Visit>, i: nat) {
    i < |vs| && vs[i].Segmented? && !vs[i].allowed && vs[i].path !in done && vs[i].path !in PathsOf(vs[..i])
  }

  /** Visit i is to a stack page that is there already. */
  ghost predicate Clash(done: Paths, vs: seq<Visit>, i: nat) {
    i < |vs| && vs[i].Stack? && (vs[i].path in done || vs[i].path in PathsOf(vs[..i]))
  }

  /** Frames needed before visit i. */
  ghost function Before(done: Paths, vs: seq<Visit>, i: nat): (n: nat)
    requires FullVisits(vs) && i <= |vs|
  {
    Need(done, PathsOf(vs[..i]))
  }

  /** Visit i is reached with a frame left for the page, which is there already or needs more than is left. */
  ghost predicate DiesAt(free: nat, done: Paths, vs: seq<Visit>, i: nat)
    requires FullVisits(vs)
  {
    && i < |vs| && (forall j :: 0 <= j <= i ==> !Forbidden(done, vs, j)) && Before(done, vs, i) < free
    && (Clash(done, vs, i) || free < Before(done, vs, i + 1))
  }

  lemma ShiftPaths(vs: seq<Visit>, i: nat)
    requires 0 < i <= |vs|
    ensures PathsOf(vs[..i]) == [vs[0].path] + PathsOf(vs[1..][..i - 1])
  {
    assert vs[..i][0] == vs[0];
    assert forall j :: 1 <= j < i ==> vs[..i][j] == vs[1..][..i - 1][j - 1];
  }

  lemma ShiftBefore(done: Paths, vs: seq<Visit>, i: nat)
    requires FullVisits(vs) && 0 < i <= |vs|
    ensures Before(done, vs, i) == Cost(done, vs[0].path) + Before(done + [vs[0].path], vs[1..], i - 1)
  {
    ShiftPaths(vs, i);
    assert PathsOf(vs[..i])[1..] == PathsOf(vs[1..][..i - 1]);
  }

  lemma ShiftMarks(done: Paths, vs: seq<Visit>, i: nat)
    requires 0 < i <= |vs|
    ensures Forbidden(done, vs, i) <==> Forbidden(done + [vs[0].path], vs[1..], i - 1)
    ensures Clash(done, vs, i) <==> Clash(done + [vs[0].path], vs[1..], i - 1)
  {
    ShiftPaths(vs, i);
    if i < |vs| { assert vs[1..][i - 1] == vs[i]; }
  }

  lemma FirstMarks(done: Paths, vs: seq<Visit>)
    requires vs != []
    ensures Forbidden(done, vs, 0) <==> vs[0].Segmented? && !vs[0].allowed && vs[0].path !in done
    ensures Clash(done, vs, 0) <==> vs[0].Stack? && vs[0].path in done
  {
    assert PathsOf(vs[..0]) == [];
  }

  /** No visit is forbidden or clashes. */
  ghost predicate Clean(done: Paths, vs: seq<Visit>) {
    forall i :: 0 <= i < |vs| ==> !Forbidden(done, vs, i) && !Clash(done, vs, i)
  }

  lemma ShiftClean(done: Paths, vs: seq<Visit>)
    requires vs != []
    ensures Clean(done, vs) <==>
      !Forbidden(done, vs, 0) && !Clash(done, vs, 0) && Clean(done + [vs[0].path], vs[1..])
  {
    var p, rest := vs[0].path, vs[1..];
    if Clean(done, vs) {
      forall i | 0 <= i < |rest| ensures !Forbidden(done + [p], rest, i) && !Clash(done + [p], rest, i) {
        ShiftMarks(done, vs, i + 1);
      }
    }
    if !Forbidden(done, vs, 0) && !Clash(done, vs, 0) && Clean(done + [p], rest) {
      forall i | 0 <= i < |vs| ensures !Forbidden(done, vs, i) && !Clash(done, vs, i) {
        if i > 0 { ShiftMarks(done, vs, i); }
      }
    }
  }

  /** The load goes through exactly when nothing is forbidden, no stack page is taken and the frames are enough. */
  lemma {:induction false} FitsExact(free: nat, done: Paths, vs: seq<Visit>)
    requires FullVisits(vs) && Full(done)
    ensures LoadFate(free, done, vs).Fits? <==> Clean(done, vs) && Need(done, PathsOf(vs)) <= free
    decreases |vs|
  {
    if vs != [] {
      var p, rest := vs[0].path, vs[1..];
      CostZero(done, p);
      FirstMarks(done, vs);
      ShiftClean(done, vs);
      assert vs[..|vs|] == vs && rest[..|rest|] == rest;
      ShiftBefore(done, vs, |vs|);
      if free >= Cost(done, p) { FitsExact(free - Cost(done, p), done + [p], rest); }
    }
  }

  lemma ShiftDies(free: nat, done: Paths, vs: seq<Visit>, i: nat)
    requires FullVisits(vs) && vs != [] && 0 < i <= |vs|
    ensures DiesAt(free, done, vs, i) <==>
      !Forbidden(done, vs, 0) && free >= Cost(done, vs[0].path)
      && DiesAt(free - Cost(done, vs[0].path), done + [vs[0].path], vs[1..], i - 1)
  {
    var p, rest := vs[0].path, vs[1..];
    if i < |vs| {
      ShiftBefore(done, vs, i);
      ShiftBefore(done, vs, i + 1);
      ShiftMarks(done, vs, i);
      ShiftAllowed(done, vs, i);
    }
  }

  lemma ShiftAllowed(done: Paths, vs: seq<Visit>, i: nat)
    requires 0 < i < |vs|
    ensures (forall j :: 0 <= j <= i ==> !Forbidden(done, vs, j)) <==>
      !Forbidden(done, vs, 0) && forall j :: 0 <= j <= i - 1 ==> !Forbidden(done + [vs[0].path], vs[1..], j)
  {
    var p, rest := vs[0].path, vs[1..];
    forall j | 1 <= j <= i ensures Forbidden(done, vs, j) <==> Forbidden(done + [p], rest, j - 1) {
      ShiftMarks(done, vs, j);
    }
    if !Forbidden(done, vs, 0) && forall j :: 0 <= j <= i - 1 ==> !Forbidden(done + [p], rest, j) {
      forall j | 0 <= j <= i ensures !Forbidden(done, vs, j) {
        if j > 0 { assert !Forbidden(done + [p], rest, j - 1); }
      }
    }
    if forall j :: 0 <= j <= i ==> !Forbidden(done, vs, j) {
      forall j | 0 <= j <= i - 1 ensures !Forbidden(done + [p], rest, j) { assert !Forbidden(done, vs, j + 1); }
    }
  }

  /** The kernel panics exactly when the frames run out within some page's needs, or a stack page is taken while a
      frame is left, before anything is refused. */
  lemma {:induction false} DiesExact(free: nat, done: Paths, vs: seq<Visit>)
    requires FullVisits(vs) && Full(done)
    ensures LoadFate(free, done, vs).Dies? <==> exists i :: 0 <= i < |vs| && DiesAt(free, done, vs, i)
    decreases |vs|
  {
    if vs != [] {
      var p, rest := vs[0].path, vs[1..];
      var c := Cost(done, p);
      CostZero(done, p);
      FirstDies(free, done, vs);
      if DiesAt(free, done, vs, 0) {
        assert LoadFate(free, done, vs).Dies?;
      } else {
        if free >= c { DiesExact(free - c, done + [p], rest); }
        if LoadFate(free, done, vs).Dies? {
          var i :| 0 <= i < |rest| && DiesAt(free - c, done + [p], rest, i);
          ShiftDies(free, done, vs, i + 1);
        }
        if i :| 0 <= i < |vs| && DiesAt(free, done, vs, i) {
          ShiftDies(free, done, vs, i);
          DiesEarlier(free, done, vs, i);
        }
      }
    }
  }

  lemma FirstDies(free: nat, done: Paths, vs: seq<Visit>)
    requires FullVisits(vs) && Full(done) && vs != []
    ensures DiesAt(free, done, vs, 0) <==>
      !(vs[0].Segmented? && !vs[0].allowed && vs[0].path !in done) && free > 0
      && ((vs[0].Stack? && vs[0].path in done) || free < Cost(done, vs[0].path))
  {
    FirstMarks(done, vs);
    assert PathsOf(vs[..0]) == [];
    ShiftBefore(done, vs, 1);
    assert PathsOf(vs[1..][..0]) == [];
  }

  /** A later panic means the first visit went through. */
  lemma DiesEarlier(free: nat, done: Paths, vs: seq<Visit>, i: nat)
    requires FullVisits(vs) && Full(done) && 0 < i < |vs| && DiesAt(free, done, vs, i) && !DiesAt(free, done, vs, 0)
    ensures var c := Cost(done, vs[0].path);
            free >= c && LoadFate(free, done, vs) == LoadFate(free - c, done + [vs[0].path], vs[1..])
  {
    ShiftDies(free, done, vs, i);
    FirstDies(free, done, vs);
    FirstMarks(done, vs);
    CostZero(done, vs[0].path);
  }
}
