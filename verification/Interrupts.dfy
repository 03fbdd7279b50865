/** Interrupt forwarding state (kernel/src/irq.rs): vector registrations, pending flags and the mask each
    domain waits with. A mask is the set of its one bits; bit i stands for vector `MSI_VECTOR_BASE + i`. */
module Interrupts {
  import opened Wrappers

  const MSI_VECTOR_BASE: nat := 0x50
  const MSI_VECTOR_COUNT: nat := 16
  const VECTOR_COUNT: nat := 256
  const PIC_LINES: nat := 16
  const ANY_MAX_DOMAINS: nat := 64

  datatype Irq = Irq(vectors: seq<Option<nat>>, pending: seq<bool>, anyMask: seq<set<nat>>, handlers: seq<Option<nat>>)

  predicate Sized(q: Irq) {
    |q.vectors| == |q.pending| == VECTOR_COUNT && |q.anyMask| == ANY_MAX_DOMAINS && |q.handlers| == PIC_LINES
  }

  /** Bit i of the mask is set, and its vector is pending and registered by the domain. */
  predicate Hits(q: Irq, mask: set<nat>, domain: nat, i: nat)
    requires Sized(q) && i < MSI_VECTOR_COUNT
  {
    i in mask && q.vectors[MSI_VECTOR_BASE + i] == Some(domain) && q.pending[MSI_VECTOR_BASE + i]
  }

  /** The lowest hit at or above i. */
  function FirstHit(q: Irq, mask: set<nat>, domain: nat, i: nat): (r: Option<nat>)
    requires Sized(q) && i <= MSI_VECTOR_COUNT
    ensures r.Some? ==> i <= r.value < MSI_VECTOR_COUNT && Hits(q, mask, domain, r.value)
                        && forall j :: i <= j < r.value ==> !Hits(q, mask, domain, j)
    ensures r.None? ==> forall j :: i <= j < MSI_VECTOR_COUNT ==> !Hits(q, mask, domain, j)
    decreases MSI_VECTOR_COUNT - i
  {
    if i == MSI_VECTOR_COUNT then None
    else if Hits(q, mask, domain, i) then Some(i)
    else FirstHit(q, mask, domain, i + 1)
  }

  /** `take_pending_any`: the vector, and the state with its flag cleared. */
  function TakePending(q: Irq, mask: set<nat>, domain: nat): (r: (Irq, Option<nat>))
    requires Sized(q)
    ensures Sized(r.0)
  {
    match FirstHit(q, mask, domain, 0)
    case None => (q, None)
    case Some(i) => (q.(pending := q.pending[MSI_VECTOR_BASE + i := false]), Some(MSI_VECTOR_BASE + i))
  }

  /** A vector taken was in the mask, the domain's own and pending; taking it consumes exactly that flag,
      so it is not returned again before the next interrupt. Nothing is taken exactly when nothing hits. */
  lemma TakeConsumes(q: Irq, mask: set<nat>, domain: nat)
    requires Sized(q)
    ensures var (q', v) := TakePending(q, mask, domain);
            match v
            case None => q' == q && forall i :: 0 <= i < MSI_VECTOR_COUNT ==> !Hits(q, mask, domain, i)
            case Some(w) =>
              && MSI_VECTOR_BASE <= w < MSI_VECTOR_BASE + MSI_VECTOR_COUNT && w - MSI_VECTOR_BASE in mask
              && q.vectors[w] == Some(domain) && q.pending[w] && !q'.pending[w]
              && (forall u :: 0 <= u < VECTOR_COUNT && u != w ==> q'.pending[u] == q.pending[u])
              && q' == q.(pending := q'.pending)
              && TakePending(q', mask, domain).1 != Some(w)
              && (forall i :: 0 <= i < w - MSI_VECTOR_BASE ==> !Hits(q, mask, domain, i))
  {
  }

  /** What is taken depends on flags and registrations alone. */
  lemma TakeIgnoresMasks(q: Irq, q': Irq, mask: set<nat>, domain: nat)
    requires Sized(q) && Sized(q') && q'.vectors == q.vectors && q'.pending == q.pending
    ensures TakePending(q', mask, domain).1 == TakePending(q, mask, domain).1
  {
    assert forall i :: 0 <= i < MSI_VECTOR_COUNT ==> (Hits(q', mask, domain, i) <==> Hits(q, mask, domain, i));
    var r, r' := FirstHit(q, mask, domain, 0), FirstHit(q', mask, domain, 0);
    if r.Some? { assert Hits(q', mask, domain, r.value); }
    if r'.Some? { assert Hits(q, mask, domain, r'.value); }
  }

  predicate InMsiRange(vector: nat) { MSI_VECTOR_BASE <= vector < MSI_VECTOR_BASE + MSI_VECTOR_COUNT }

  /** Drop every trace of the domain; pending flags are per vector and stay. */
  function RemoveDomain(q: Irq, d: nat): (r: Irq)
    requires Sized(q)
    ensures Sized(r)
    ensures d < ANY_MAX_DOMAINS ==> r.anyMask[d] == {}
    ensures forall v :: 0 <= v < VECTOR_COUNT ==> r.vectors[v] == if q.vectors[v] == Some(d) then None else q.vectors[v]
    ensures forall i :: 0 <= i < PIC_LINES ==> r.handlers[i] == if q.handlers[i] == Some(d) then None else q.handlers[i]
    ensures forall e :: 0 <= e < ANY_MAX_DOMAINS && e != d ==> r.anyMask[e] == q.anyMask[e]
  {
    Irq(seq(VECTOR_COUNT, v requires 0 <= v < VECTOR_COUNT => if q.vectors[v] == Some(d) then None else q.vectors[v]),
        q.pending,
        if d < ANY_MAX_DOMAINS then q.anyMask[d := {}] else q.anyMask,
        seq(PIC_LINES, i requires 0 <= i < PIC_LINES => if q.handlers[i] == Some(d) then None else q.handlers[i]))
  }
}
