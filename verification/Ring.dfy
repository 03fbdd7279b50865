/** Indices of a ring of n slots, without division. */
module Ring {
  /** x reduced into a ring of n, for x below 2n. */
  function Wrap(x: nat, n: nat): (r: nat) { if x < n then x else x - n }

  lemma WrapIsMod(x: nat, n: nat)
    requires x < 2 * n
    ensures Wrap(x, n) == x % n
  {
    if x >= n { assert x == n + (x - n); assert (n + (x - n)) % n == (x - n) % n; }
  }
}
