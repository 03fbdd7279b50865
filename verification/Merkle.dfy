/** The boot image's Merkle root (boot/src/security/hash.rs:95-121) over an arbitrary hash function: the
    level loop is the recursive tree, and exactly when two images with the same root give a collision. */
module Merkle {
  import opened Wrappers

  datatype Hash = Hash(bytes: seq<Byte>)
  /** A digest of 32 bytes. */
  type Digest = h: Hash | |h.bytes| == 32 witness Hash(seq(32, i => 0))
  type HashFn = seq<Byte> -> Digest

  /** The 64 bytes a parent is the hash of. */
  function Join(a: Digest, b: Digest): (r: seq<Byte>) { a.bytes + b.bytes }

  /** Data cut into pieces of `cs` bytes, the last one possibly shorter. */
  function Chunks(data: seq<Byte>, cs: nat): (r: seq<seq<Byte>>)
    requires cs > 0
    ensures data != [] ==> r != []
    decreases |data|
  {
    if data == [] then [] else if |data| <= cs then [data] else [data[..cs]] + Chunks(data[cs..], cs)
  }

  function HashAll(H: HashFn, pieces: seq<seq<Byte>>): (r: seq<Digest>)
    ensures |r| == |pieces| && forall i :: 0 <= i < |r| ==> r[i] == H(pieces[i])
  {
    seq(|pieces|, i requires 0 <= i < |pieces| => H(pieces[i]))
  }

  /** One level up: neighbours are hashed together, an odd last node moves up unchanged. */
  function Parents(H: HashFn, level: seq<Digest>): (r: seq<Digest>)
    ensures |r| == (|level| + 1) / 2
  {
    if |level| <= 1 then level else [H(Join(level[0], level[1]))] + Parents(H, level[2..])
  }

  function Top(H: HashFn, level: seq<Digest>): (r: Digest)
    requires level != []
    decreases |level|
  {
    if |level| == 1 then level[0] else Top(H, Parents(H, level))
  }

  function ChunkSize(data: seq<Byte>, chunkSize: nat): (cs: nat)
    requires data != []
    ensures cs > 0
  {
    if chunkSize == 0 then |data| else chunkSize
  }

  function Root(H: HashFn, data: seq<Byte>, chunkSize: nat): (r: Digest) {
    if data == [] then H([]) else Top(H, HashAll(H, Chunks(data, ChunkSize(data, chunkSize))))
  }

  method MerkleRoot(H: HashFn, data: seq<Byte>, chunkSize: nat) returns (r: Digest)
    ensures r == Root(H, data, chunkSize)
  {
    if data == [] { return H([]); }
    var cs := if chunkSize == 0 then |data| else chunkSize;
    var level: seq<Digest> := [];
    var rest := data;
    while rest != []
      invariant level + HashAll(H, Chunks(rest, cs)) == HashAll(H, Chunks(data, cs))
      decreases |rest|
    {
      var n := if |rest| < cs then |rest| else cs;
      NextLeaf(H, rest, cs, n);
      level := level + [H(rest[..n])];
      rest := rest[n..];
    }
    assert level == HashAll(H, Chunks(data, cs));
    r := RootOf(H, level);
  }

  lemma NextLeaf(H: HashFn, rest: seq<Byte>, cs: nat, n: nat)
    requires cs > 0 && rest != [] && n == if |rest| < cs then |rest| else cs
    ensures HashAll(H, Chunks(rest, cs)) == [H(rest[..n])] + HashAll(H, Chunks(rest[n..], cs))
  {
    if |rest| <= cs { assert rest[..n] == rest; }
  }

  method RootOf(H: HashFn, leaves: seq<Digest>) returns (r: Digest)
    requires leaves != []
    ensures r == Top(H, leaves)
  {
    var level := leaves;
    while |level| > 1
      invariant level != [] && Top(H, level) == Top(H, leaves)
      decreases |level|
    {
      level := NextLevel(H, level);
    }
    r := level[0];
  }

  lemma ParentsNext(H: HashFn, level: seq<Digest>, i: nat)
    requires i + 1 < |level|
    ensures Parents(H, level[i..]) == [H(Join(level[i], level[i + 1]))] + Parents(H, level[i + 2..])
  {
    assert level[i..][2..] == level[i + 2..];
  }

  method NextLevel(H: HashFn, level: seq<Digest>) returns (next: seq<Digest>)
    ensures next == Parents(H, level)
  {
    next := [];
    var i := 0;
    while i + 1 < |level|
      invariant i <= |level| && next + Parents(H, level[i..]) == Parents(H, level)
    {
      var h := H(Join(level[i], level[i + 1]));
      assert next + Parents(H, level[i..]) == next + [h] + Parents(H, level[i + 2..]) by {
        ParentsNext(H, level, i);
        assert next + ([h] + Parents(H, level[i + 2..])) == next + [h] + Parents(H, level[i + 2..]);
      }
      next := next + [h];
      i := i + 2;
    }
    assert level[i..] == if i < |level| then [level[i]] else [];
    if i < |level| { next := next + [level[i]]; }
  }

  // ---- the loop is the recursive tree ----

  /** The largest power of two below n. */
  function Split(n: nat): (s: nat)
    requires n >= 2
    ensures 1 <= s < n <= 2 * s
    decreases n
  {
    if n == 2 then 1 else 2 * Split((n + 1) / 2)
  }

  /** The balanced tree: a full left half of `Split` leaves, the rest to the right. */
  function Tree(H: HashFn, leaves: seq<Digest>): (r: Digest)
    requires leaves != []
    decreases |leaves|
  {
    if |leaves| == 1 then leaves[0]
    else
      var s := Split(|leaves|);
      H(Join(Tree(H, leaves[..s]), Tree(H, leaves[s..])))
  }

  lemma Regroup<T>(a: seq<T>, b: seq<T>, c: seq<T>)
    ensures a + (b + c) == (a + b) + c
  {
  }

  lemma ParentsJoin(H: HashFn, level: seq<Digest>, front: seq<Digest>, ps: seq<Digest>, qs: seq<Digest>)
    requires |level| >= 2 && |front| >= 2 && level[0] == front[0] && level[1] == front[1]
    requires Parents(H, level[2..]) == ps + qs && Parents(H, front[2..]) == ps
    ensures Parents(H, level) == Parents(H, front) + qs
  {
    Regroup([H(Join(level[0], level[1]))], ps, qs);
  }

  lemma {:induction false} ParentsSplit(H: HashFn, level: seq<Digest>, s: nat)
    requires s <= |level| && s % 2 == 0
    ensures Parents(H, level) == Parents(H, level[..s]) + Parents(H, level[s..])
    decreases s
  {
    if s == 0 {
      assert level[..0] == [] && level[0..] == level;
    } else {
      var rest, front, back := level[2..], level[..s], level[s..];
      assert rest[..s - 2] == front[2..] && rest[s - 2..] == back;
      ParentsSplit(H, rest, s - 2);
      ParentsJoin(H, level, front, Parents(H, front[2..]), Parents(H, back));
    }
  }

  /** Hashing one level up does not change the tree's root. */
  lemma {:induction false} TreeOfParents(H: HashFn, level: seq<Digest>)
    requires level != []
    ensures Tree(H, Parents(H, level)) == Tree(H, level)
    decreases |level|
  {
    var n := |level|;
    if n == 2 {
      assert level[..1] == [level[0]] && level[1..] == [level[1]];
      assert Parents(H, level) == [H(Join(level[0], level[1]))];
    } else if n > 2 {
      var s := Split(n);
      var p := Parents(H, level);
      var h := Split((n + 1) / 2);
      assert s == 2 * h && |p| == (n + 1) / 2;
      ParentsSplit(H, level, s);
      TreeOfParents(H, level[..s]);
      TreeOfParents(H, level[s..]);
      assert p[..h] == Parents(H, level[..s]) && p[h..] == Parents(H, level[s..]);
    }
  }

  /** The level loop computes the tree. */
  lemma {:induction false} TopIsTree(H: HashFn, level: seq<Digest>)
    requires level != []
    ensures Top(H, level) == Tree(H, level)
    decreases |level|
  {
    if |level| > 1 {
      TopIsTree(H, Parents(H, level));
      TreeOfParents(H, level);
    }
  }

  // ---- equal roots give a collision ----

  /** a and b are different and have the same hash. */
  predicate Collide(H: HashFn, a: seq<Byte>, b: seq<Byte>) { a != b && H(a) == H(b) }

  /** The strings hashed into leaves; an empty image is hashed as one empty string. */
  function Pieces(data: seq<Byte>, chunkSize: nat): (r: seq<seq<Byte>>)
    ensures r != []
  {
    if data == [] then [[]] else Chunks(data, ChunkSize(data, chunkSize))
  }

  /** x was hashed while going up from `level`. */
  ghost predicate HashedAbove(H: HashFn, level: seq<Digest>, x: seq<Byte>)
    decreases |level|
  {
    |level| > 1 && (PairOf(level, x) || HashedAbove(H, Parents(H, level), x))
  }

  /** x is the join of two neighbours of `level`. */
  ghost predicate PairOf(level: seq<Digest>, x: seq<Byte>) {
    exists i :: 0 <= i && 2 * i + 1 < |level| && PairAt(level, i) == x
  }

  function PairAt(level: seq<Digest>, i: nat): (x: seq<Byte>)
    requires 2 * i + 1 < |level|
  {
    Join(level[2 * i], level[2 * i + 1])
  }

  /** x was hashed while computing the root of `data`. */
  ghost predicate Hashed(H: HashFn, data: seq<Byte>, chunkSize: nat, x: seq<Byte>) {
    x in Pieces(data, chunkSize) || HashedAbove(H, HashAll(H, Pieces(data, chunkSize)), x)
  }

  /** x was hashed in the tree over `leaves`. */
  ghost predicate HashedIn(H: HashFn, leaves: seq<Digest>, x: seq<Byte>)
    decreases |leaves|
  {
    |leaves| > 1 &&
    var s := Split(|leaves|);
    x == Join(Tree(H, leaves[..s]), Tree(H, leaves[s..])) || HashedIn(H, leaves[..s], x) || HashedIn(H, leaves[s..], x)
  }

  /** One level up the halves are where they were, with the same roots. */
  lemma HalvesUp(H: HashFn, level: seq<Digest>)
    requires |level| > 2
    ensures var s, h, p := Split(|level|), Split((|level| + 1) / 2), Parents(H, level);
            && s % 2 == 0 && |p| > 1 && h == Split(|p|)
            && p[..h] == Parents(H, level[..s]) && p[h..] == Parents(H, level[s..])
            && Tree(H, p[..h]) == Tree(H, level[..s]) && Tree(H, p[h..]) == Tree(H, level[s..])
  {
    var s := Split(|level|);
    ParentsSplit(H, level, s);
    TreeOfParents(H, level[..s]);
    TreeOfParents(H, level[s..]);
  }

  lemma HashedHere(H: HashFn, leaves: seq<Digest>, s: nat, x: seq<Byte>)
    requires |leaves| > 1 && s == Split(|leaves|)
    requires x == Join(Tree(H, leaves[..s]), Tree(H, leaves[s..])) || HashedIn(H, leaves[..s], x)
      || HashedIn(H, leaves[s..], x)
    ensures HashedIn(H, leaves, x)
  {
  }

  lemma UpFromHalves(H: HashFn, level: seq<Digest>, x: seq<Byte>)
    requires |level| > 2
    requires var s := Split(|level|);
             x == Join(Tree(H, level[..s]), Tree(H, level[s..]))
             || HashedIn(H, Parents(H, level[..s]), x) || HashedIn(H, Parents(H, level[s..]), x)
    ensures HashedIn(H, Parents(H, level), x)
  {
    HalvesUp(H, level);
    HashedHere(H, Parents(H, level), Split((|level| + 1) / 2), x);
  }

  /** What the tree hashes is a pair of the lowest level or is hashed in the tree over the next one. */
  lemma {:induction false} HashedOneUp(H: HashFn, level: seq<Digest>, x: seq<Byte>)
    requires HashedIn(H, level, x)
    ensures PairOf(level, x) || HashedIn(H, Parents(H, level), x)
    decreases |level|, 0
  {
    var n, s := |level|, Split(|level|);
    if n == 2 {
      BottomPair(H, level, x);
    } else {
      if HashedIn(H, level[..s], x) { HalfOneUp(H, level, 0, s, x); }
      else if HashedIn(H, level[s..], x) {
        assert s % 2 == 0 by { HalvesUp(H, level); }
        assert level[s..n] == level[s..];
        HalfOneUp(H, level, s, n, x);
      }
      if !PairOf(level, x) { UpFromHalves(H, level, x); }
    }
  }

  lemma BottomPair(H: HashFn, level: seq<Digest>, x: seq<Byte>)
    requires |level| == 2 && HashedIn(H, level, x)
    ensures PairOf(level, x)
  {
    assert Split(2) == 1 && level[..1] == [level[0]] && level[1..] == [level[1]];
    assert Tree(H, level[..1]) == level[0] && Tree(H, level[1..]) == level[1];
    assert !HashedIn(H, level[..1], x) && !HashedIn(H, level[1..], x);
    assert PairAt(level, 0) == x;
  }

  lemma {:induction false} HalfOneUp(H: HashFn, level: seq<Digest>, lo: nat, hi: nat, x: seq<Byte>)
    requires lo <= hi <= |level| && lo % 2 == 0 && hi - lo < |level| && HashedIn(H, level[lo..hi], x)
    ensures PairOf(level, x) || HashedIn(H, Parents(H, level[lo..hi]), x)
    decreases hi - lo, 1
  {
    HashedOneUp(H, level[lo..hi], x);
    if PairOf(level[lo..hi], x) { LiftPair(level, lo, hi, x); }
  }

  lemma LiftPair(level: seq<Digest>, lo: nat, hi: nat, x: seq<Byte>)
    requires lo <= hi <= |level| && lo % 2 == 0 && PairOf(level[lo..hi], x)
    ensures PairOf(level, x)
  {
    var part := level[lo..hi];
    var i: nat :| 2 * i + 1 < |part| && PairAt(part, i) == x;
    var j := lo / 2 + i;
    assert 2 * j == lo + 2 * i;
    assert part[2 * i] == level[2 * j] && part[2 * i + 1] == level[2 * j + 1];
    assert PairAt(level, j) == x;
  }

  /** What the tree hashes, the level loop hashes. */
  lemma {:induction false} TreeHashes(H: HashFn, level: seq<Digest>, x: seq<Byte>)
    requires HashedIn(H, level, x)
    ensures HashedAbove(H, level, x)
    decreases |level|
  {
    HashedOneUp(H, level, x);
    if !PairOf(level, x) { TreeHashes(H, Parents(H, level), x); }
  }

  lemma PairsDiffer(a: Digest, b: Digest, c: Digest, d: Digest)
    requires a != c || b != d
    ensures Join(a, b) != Join(c, d)
  {
    assert a.bytes == Join(a, b)[..32] && b.bytes == Join(a, b)[32..];
    assert c.bytes == Join(c, d)[..32] && d.bytes == Join(c, d)[32..];
  }

  /** No piece can be taken for the join of two digests. */
  ghost predicate NoneJoined(pieces: seq<seq<Byte>>) { forall i :: 0 <= i < |pieces| ==> |pieces[i]| != 64 }

  /** The two trees have the same shape, or no leaf of either can pass for an inner node. */
  ghost predicate Comparable(ps: seq<seq<Byte>>, qs: seq<seq<Byte>>) {
    |ps| == |qs| || (NoneJoined(ps) && NoneJoined(qs))
  }

  /** x is one of the pieces or hashed in the tree over them. */
  ghost predicate HashedFrom(H: HashFn, pieces: seq<seq<Byte>>, x: seq<Byte>) {
    x in pieces || HashedIn(H, HashAll(H, pieces), x)
  }

  lemma HashAllSplit(H: HashFn, ps: seq<seq<Byte>>, s: nat)
    requires s <= |ps|
    ensures HashAll(H, ps)[..s] == HashAll(H, ps[..s]) && HashAll(H, ps)[s..] == HashAll(H, ps[s..])
  {
  }

  lemma HalvesHash(H: HashFn, ps: seq<seq<Byte>>)
    requires |ps| > 1
    ensures Tree(H, HashAll(H, ps)) == H(Halves(H, ps)) && HashedFrom(H, ps, Halves(H, ps))
  {
    HashAllSplit(H, ps, Split(|ps|));
  }

  /** What is hashed for one half is hashed for the whole. */
  lemma HalfHashed(H: HashFn, ps: seq<seq<Byte>>, x: seq<Byte>)
    requires |ps| > 1 && (HashedFrom(H, ps[..Split(|ps|)], x) || HashedFrom(H, ps[Split(|ps|)..], x))
    ensures HashedFrom(H, ps, x)
  {
    HashAllSplit(H, ps, Split(|ps|));
  }

  /** The string the root over more than one piece is the hash of. */
  ghost function Halves(H: HashFn, ps: seq<seq<Byte>>): (x: seq<Byte>)
    requires |ps| > 1
    ensures |x| == 64
  {
    var s := Split(|ps|);
    Join(Tree(H, HashAll(H, ps[..s])), Tree(H, HashAll(H, ps[s..])))
  }

  /** Different pieces under comparable trees with one root: the two trees hash two different strings alike. */
  lemma {:induction false} TreeCollision(
    H: HashFn, ps: seq<seq<Byte>>, qs: seq<seq<Byte>>) returns (a: seq<Byte>, b: seq<Byte>)
    requires ps != [] && qs != [] && ps != qs && Comparable(ps, qs)
    requires Tree(H, HashAll(H, ps)) == Tree(H, HashAll(H, qs))
    ensures Collide(H, a, b) && HashedFrom(H, ps, a) && HashedFrom(H, qs, b)
    decreases |ps|
  {
    if |ps| > 1 { HalvesHash(H, ps); }
    if |qs| > 1 { HalvesHash(H, qs); }
    a := if |ps| == 1 then ps[0] else Halves(H, ps);
    b := if |qs| == 1 then qs[0] else Halves(H, qs);
    if a == b && |ps| > 1 && |qs| > 1 {
      a, b := HalfCollision(H, ps, qs);
    }
  }

  lemma ComparableHalves(ps: seq<seq<Byte>>, qs: seq<seq<Byte>>, s: nat, t: nat)
    requires Comparable(ps, qs) && s <= |ps| && t <= |qs| && (|ps| == |qs| ==> s == t)
    ensures Comparable(ps[..s], qs[..t]) && Comparable(ps[s..], qs[t..])
  {
  }

  lemma {:induction false} HalfCollision(
    H: HashFn, ps: seq<seq<Byte>>, qs: seq<seq<Byte>>) returns (a: seq<Byte>, b: seq<Byte>)
    requires |ps| > 1 && |qs| > 1 && ps != qs && Comparable(ps, qs) && Halves(H, ps) == Halves(H, qs)
    ensures Collide(H, a, b) && HashedFrom(H, ps, a) && HashedFrom(H, qs, b)
    decreases |ps|, 0
  {
    var s, t := Split(|ps|), Split(|qs|);
    ComparableHalves(ps, qs, s, t);
    if Tree(H, HashAll(H, ps[..s])) != Tree(H, HashAll(H, qs[..t]))
      || Tree(H, HashAll(H, ps[s..])) != Tree(H, HashAll(H, qs[t..]))
    {
      PairsDiffer(Tree(H, HashAll(H, ps[..s])), Tree(H, HashAll(H, ps[s..])), Tree(H, HashAll(H, qs[..t])),
        Tree(H, HashAll(H, qs[t..])));
    }
    if ps[..s] != qs[..t] {
      a, b := TreeCollision(H, ps[..s], qs[..t]);
    } else {
      assert ps == ps[..s] + ps[s..] && qs == qs[..t] + qs[t..];
      a, b := TreeCollision(H, ps[s..], qs[t..]);
    }
    HalfHashed(H, ps, a);
    HalfHashed(H, qs, b);
  }

  /** Chunking loses nothing. */
  lemma {:induction false} ChunksInjective(x: seq<Byte>, y: seq<Byte>, cs: nat)
    requires cs > 0 && Chunks(x, cs) == Chunks(y, cs)
    ensures x == y
    decreases |x|
  {
    if |x| > cs && |y| > cs {
      assert Chunks(x, cs)[0] == x[..cs] && Chunks(y, cs)[0] == y[..cs];
      assert Chunks(x, cs)[1..] == Chunks(x[cs..], cs) && Chunks(y, cs)[1..] == Chunks(y[cs..], cs);
      ChunksInjective(x[cs..], y[cs..], cs);
      assert x == x[..cs] + x[cs..] && y == y[..cs] + y[cs..];
    }
  }

  lemma {:induction false} ChunksSmall(x: seq<Byte>, cs: nat, i: nat)
    requires cs > 0 && i < |Chunks(x, cs)|
    ensures 0 < |Chunks(x, cs)[i]| <= cs
    decreases |x|
  {
    if |x| > cs && i > 0 { ChunksSmall(x[cs..], cs, i - 1); }
  }

  lemma PiecesInjective(x: seq<Byte>, y: seq<Byte>, chunkSize: nat)
    requires x != y
    ensures Pieces(x, chunkSize) != Pieces(y, chunkSize)
  {
    if x != [] && y != [] && chunkSize > 0 {
      if Chunks(x, chunkSize) == Chunks(y, chunkSize) { ChunksInjective(x, y, chunkSize); }
    } else {
      if x != [] { ChunksSmall(x, ChunkSize(x, chunkSize), 0); }
      if y != [] { ChunksSmall(y, ChunkSize(y, chunkSize), 0); }
    }
  }

  lemma RootIsTree(H: HashFn, data: seq<Byte>, chunkSize: nat)
    ensures Root(H, data, chunkSize) == Tree(H, HashAll(H, Pieces(data, chunkSize)))
  {
    TopIsTree(H, HashAll(H, Pieces(data, chunkSize)));
  }

  // ---- the root, from the bytes ----

  function Pow2(k: nat): (n: nat)
    ensures n >= 1
  {
    if k == 0 then 1 else 2 * Pow2(k - 1)
  }

  lemma {:induction false} SplitPow2(k: nat, r: nat)
    requires 1 <= r <= Pow2(k)
    ensures Split(Pow2(k) + r) == Pow2(k)
    decreases k
  {
    if k > 0 { SplitPow2(k - 1, (r + 1) / 2); }
  }

  lemma {:induction false} ChunksAppend(x: seq<Byte>, y: seq<Byte>, cs: nat, n: nat)
    requires cs > 0 && |x| == cs * n && y != []
    ensures Chunks(x + y, cs) == Chunks(x, cs) + Chunks(y, cs)
    decreases n
  {
    if n == 0 {
      assert x + y == y;
    } else {
      assert cs * n == cs + cs * (n - 1);
      ChunksAppend(x[cs..], y, cs, n - 1);
      FirstChunk(x, y, cs);
      Regroup([x[..cs]], Chunks(x[cs..], cs), Chunks(y, cs));
    }
  }

  lemma FirstChunk(x: seq<Byte>, y: seq<Byte>, cs: nat)
    requires 0 < cs <= |x| && y != []
    ensures Chunks(x, cs) == [x[..cs]] + Chunks(x[cs..], cs)
    ensures Chunks(x + y, cs) == [x[..cs]] + Chunks(x[cs..] + y, cs)
  {
    assert (x + y)[..cs] == x[..cs] && (x + y)[cs..] == x[cs..] + y;
    if |x| == cs { assert x[..cs] == x && x[cs..] == []; }
  }

  lemma {:induction false} ChunksCount(x: seq<Byte>, cs: nat, n: nat)
    requires cs > 0
    ensures |x| == cs * n ==> |Chunks(x, cs)| == n
    ensures |x| <= cs * n ==> |Chunks(x, cs)| <= n
    decreases n
  {
    if n > 0 && |x| <= cs * n {
      assert cs * n == cs + cs * (n - 1);
      if |x| > cs { ChunksCount(x[cs..], cs, n - 1); } else if n > 1 { assert cs * (n - 1) >= cs; }
    }
  }

  /** An image that fits in one chunk, the empty one too, is hashed as it is. */
  lemma RootOfSmall(H: HashFn, data: seq<Byte>, chunkSize: nat)
    requires chunkSize == 0 || |data| <= chunkSize
    ensures Root(H, data, chunkSize) == H(data)
  {
  }

  /** The root of an image is the hash of its two halves' roots, left before right, where the left half is the
      largest power of two of whole chunks that leaves something over. With `RootOfSmall` this gives the root of
      every image from its bytes. */
  lemma RootOfHalves(H: HashFn, x: seq<Byte>, y: seq<Byte>, cs: nat, k: nat)
    requires cs > 0 && |x| == cs * Pow2(k) && 0 < |y| <= |x|
    ensures Root(H, x + y, cs) == H(Root(H, x, cs).bytes + Root(H, y, cs).bytes)
  {
    var ps, qs := Chunks(x, cs), Chunks(y, cs);
    assert |ps| == Pow2(k) && 1 <= |qs| <= Pow2(k) by {
      ChunksCount(x, cs, Pow2(k));
      ChunksCount(y, cs, Pow2(k));
    }
    assert Chunks(x + y, cs) == ps + qs by { ChunksAppend(x, y, cs, Pow2(k)); }
    assert Split(|ps + qs|) == |ps| by { SplitPow2(k, |qs|); }
    RootIsTree(H, x + y, cs);
    RootIsTree(H, x, cs);
    RootIsTree(H, y, cs);
    TreeOfHalves(H, ps, qs);
  }

  lemma TreeOfHalves(H: HashFn, ps: seq<seq<Byte>>, qs: seq<seq<Byte>>)
    requires ps != [] && qs != [] && Split(|ps + qs|) == |ps|
    ensures Tree(H, HashAll(H, ps + qs)) == H(Tree(H, HashAll(H, ps)).bytes + Tree(H, HashAll(H, qs)).bytes)
  {
    HashAllSplit(H, ps + qs, |ps|);
    assert (ps + qs)[..|ps|] == ps && (ps + qs)[|ps|..] == qs;
  }

  /** Two different images with equal roots, cut into equally many pieces or into pieces none of which has the
      64 bytes of a parent: the two computations hashed two different strings to the same value, and here they are. */
  lemma RootCollision(H: HashFn, x: seq<Byte>, y: seq<Byte>, chunkSize: nat) returns (a: seq<Byte>, b: seq<Byte>)
    requires x != y && Root(H, x, chunkSize) == Root(H, y, chunkSize)
    requires Comparable(Pieces(x, chunkSize), Pieces(y, chunkSize))
    ensures Collide(H, a, b) && Hashed(H, x, chunkSize, a) && Hashed(H, y, chunkSize, b)
  {
    var ps, qs := Pieces(x, chunkSize), Pieces(y, chunkSize);
    RootIsTree(H, x, chunkSize);
    RootIsTree(H, y, chunkSize);
    PiecesInjective(x, y, chunkSize);
    a, b := TreeCollision(H, ps, qs);
    if a !in ps { TreeHashes(H, HashAll(H, ps), a); }
    if b !in qs { TreeHashes(H, HashAll(H, qs), b); }
  }

  // ---- exactly when ----

  /** Equal roots of the two images come with a collision. */
  ghost predicate Binding(H: HashFn, x: seq<Byte>, y: seq<Byte>, chunkSize: nat) {
    x != y && Root(H, x, chunkSize) == Root(H, y, chunkSize) ==>
      exists a, b :: Collide(H, a, b) && Hashed(H, x, chunkSize, a) && Hashed(H, y, chunkSize, b)
  }

  /** Below 64 bytes no piece has the size of a parent, and with chunk size 0 every image is one piece. */
  lemma SmallComparable(x: seq<Byte>, y: seq<Byte>, chunkSize: nat)
    requires chunkSize < 64
    ensures Comparable(Pieces(x, chunkSize), Pieces(y, chunkSize))
  {
    if chunkSize > 0 {
      forall data, i | 0 <= i < |Pieces(data, chunkSize)| ensures |Pieces(data, chunkSize)[i]| != 64 {
        if data != [] { ChunksSmall(data, chunkSize, i); }
      }
    }
  }

  /** Whatever the hash and the images, equal roots come with a collision exactly when chunks are below 64 bytes. */
  lemma ChunkSizeExact(chunkSize: nat)
    ensures (forall H: HashFn, x, y :: Binding(H, x, y, chunkSize)) <==> chunkSize < 64
  {
    if chunkSize < 64 {
      forall H: HashFn, x, y ensures Binding(H, x, y, chunkSize) {
        SmallComparable(x, y, chunkSize);
        if x != y && Root(H, x, chunkSize) == Root(H, y, chunkSize) { var a, b := RootCollision(H, x, y, chunkSize); }
      }
    } else {
      var H, x, y := SizeMatters(chunkSize);
      assert forall a :: Hashed(H, x, chunkSize, a) || Hashed(H, y, chunkSize, a) ==>
        HashedForEither(H, x, y, chunkSize, a);
      assert !Binding(H, x, y, chunkSize);
    }
  }

  ghost predicate HashedForEither(H: HashFn, x: seq<Byte>, y: seq<Byte>, chunkSize: nat, a: seq<Byte>) {
    Hashed(H, x, chunkSize, a) || Hashed(H, y, chunkSize, a)
  }

  function Fill(b: Byte): (d: Digest) { Hash(seq(32, i => b)) }

  /** A hash that tells the first chunk, the second chunk and everything else apart. */
  function Telling(c0: seq<Byte>, c1: seq<Byte>): (H: HashFn) {
    s => if s == c0 then Fill(0) else if s == c1 then Fill(1) else Fill(2)
  }

  /** From 64 bytes on: two different images, a hash under which they have the same root, and not even two of all
      the strings hashed for either of them collide. The second image is the two digests of the first. */
  lemma SizeMatters(chunkSize: nat) returns (H: HashFn, x: seq<Byte>, y: seq<Byte>)
    requires chunkSize >= 64
    ensures x != y && Root(H, x, chunkSize) == Root(H, y, chunkSize)
    ensures forall a, b :: HashedForEither(H, x, y, chunkSize, a) && HashedForEither(H, x, y, chunkSize, b) ==>
      !Collide(H, a, b)
  {
    var c0, c1: seq<Byte> := seq(chunkSize, i => 0), [1];
    H := Telling(c0, c1);
    x := c0 + c1;
    y := Join(Fill(0), Fill(1));
    assert c0[0] == 0 && y[32] == 1 && c0[32] == 0;
    TwoChunks(H, c0, c1);
    assert Fill(0).bytes[0] == 0 && Fill(1).bytes[0] == 1 && Fill(2).bytes[0] == 2;
  }

  lemma OneChunk(H: HashFn, c: seq<Byte>, chunkSize: nat)
    requires 0 < |c| <= chunkSize
    ensures Pieces(c, chunkSize) == [c] && Root(H, c, chunkSize) == H(c)
    ensures forall a :: Hashed(H, c, chunkSize, a) ==> a == c
  {
  }

  lemma CutInTwo(c0: seq<Byte>, c1: seq<Byte>)
    requires 0 < |c1| <= |c0|
    ensures Pieces(c0 + c1, |c0|) == [c0, c1]
  {
    var data := c0 + c1;
    assert data[..|c0|] == c0 && data[|c0|..] == c1;
    assert Chunks(c1, |c0|) == [c1] && [c0] + [c1] == [c0, c1];
  }

  /** The strings hashed for an image of two chunks and for the image made of their two digests. */
  lemma TwoChunks(H: HashFn, c0: seq<Byte>, c1: seq<Byte>)
    requires |c0| >= 64 && 0 < |c1| <= |c0|
    ensures var joined := Join(H(c0), H(c1));
            && Root(H, c0 + c1, |c0|) == H(joined) == Root(H, joined, |c0|)
            && (forall a :: Hashed(H, c0 + c1, |c0|, a) ==> a == c0 || a == c1 || a == joined)
            && (forall a :: Hashed(H, joined, |c0|, a) ==> a == joined)
  {
    var joined := Join(H(c0), H(c1));
    OneChunk(H, joined, |c0|);
    CutInTwo(c0, c1);
    var level := HashAll(H, [c0, c1]);
    assert level == [H(c0), H(c1)];
    assert Parents(H, level) == [H(joined)];
    assert Top(H, level) == Top(H, [H(joined)]) == H(joined);
    forall a | Hashed(H, c0 + c1, |c0|, a) ensures a == c0 || a == c1 || a == joined {
      if a !in [c0, c1] {
        assert HashedAbove(H, level, a) && !HashedAbove(H, [H(joined)], a);
        var i: nat :| 2 * i + 1 < |level| && PairAt(level, i) == a;
      }
    }
  }
}
