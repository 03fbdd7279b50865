/** The interrupt tables as the kernel changes them (kernel/src/irq.rs), proved against `Interrupts`. */
module IrqTables {
  import opened Wrappers
  import I = Interrupts

  class IrqTables {
    const vectors: array<Option<nat>>
    const pending: array<bool>
    const anyMask: array<set<nat>>
    const handlers: array<Option<nat>>

    ghost predicate Valid() {
      && vectors.Length == pending.Length == I.VECTOR_COUNT && anyMask.Length == I.ANY_MAX_DOMAINS
        && handlers.Length == I.PIC_LINES
      && vectors != handlers && vectors as object != pending as object && vectors as object != anyMask as object
      && pending as object != anyMask as object && pending as object != handlers as object
        && anyMask as object != handlers as object
    }

    ghost function View(): (q: I.Irq)
      requires Valid()
      reads vectors, pending, anyMask, handlers
      ensures I.Sized(q)
    {
      I.Irq(vectors[..], pending[..], anyMask[..], handlers[..])
    }

    constructor ()
      ensures Valid() && fresh(vectors) && fresh(pending) && fresh(anyMask) && fresh(handlers)
      ensures forall v :: 0 <= v < I.VECTOR_COUNT ==> View().vectors[v] == None && !View().pending[v]
      ensures forall d :: 0 <= d < I.ANY_MAX_DOMAINS ==> View().anyMask[d] == {}
      ensures forall i :: 0 <= i < I.PIC_LINES ==> View().handlers[i] == None
    {
      vectors := new Option<nat>[I.VECTOR_COUNT](i => None);
      pending := new bool[I.VECTOR_COUNT](i => false);
      anyMask := new set<nat>[I.ANY_MAX_DOMAINS](i => {});
      handlers := new Option<nat>[I.PIC_LINES](i => None);
    }

    /** The lowest vector of the mask that the domain registered and that is pending; its flag is cleared. */
    method TakePendingAny(mask: set<nat>, domain: nat) returns (r: Option<nat>)
      requires Valid()
      modifies pending
      ensures (View(), r) == I.TakePending(old(View()), mask, domain)
    {
      for i := 0 to I.MSI_VECTOR_COUNT
        invariant pending[..] == old(pending[..])
        invariant I.FirstHit(View(), mask, domain, 0) == I.FirstHit(View(), mask, domain, i)
      {
        if i in mask {
          var vector := I.MSI_VECTOR_BASE + i;
          if vectors[vector] == Some(domain) && pending[vector] {
            pending[vector] := false;
            assert pending[..] == old(pending[..])[vector := false];
            return Some(vector);
          }
        }
      }
      return None;
    }

    method SetAnyMask(domain: nat, mask: set<nat>) returns (ok: bool)
      requires Valid()
      modifies anyMask
      ensures ok <==> domain < I.ANY_MAX_DOMAINS
      ensures View() == if ok then old(View()).(anyMask := old(View()).anyMask[domain := mask]) else old(View())
    {
      if domain >= I.ANY_MAX_DOMAINS { return false; }
      anyMask[domain] := mask;
      assert anyMask[..] == old(anyMask[..])[domain := mask];
      return true;
    }

    method ClearAnyMask(domain: nat)
      requires Valid()
      modifies anyMask
      ensures View() == if domain < I.ANY_MAX_DOMAINS then old(View()).(anyMask := old(View()).anyMask[domain := {}])
        else old(View())
    {
      if domain < I.ANY_MAX_DOMAINS {
        anyMask[domain] := {};
        assert anyMask[..] == old(anyMask[..])[domain := {}];
      }
    }

    method RegisterVector(vector: nat, domain: nat)
      requires Valid() && vector < I.VECTOR_COUNT
      modifies vectors
      ensures View() == old(View()).(vectors := old(View()).vectors[vector := Some(domain)])
    {
      vectors[vector] := Some(domain);
      assert vectors[..] == old(vectors[..])[vector := Some(domain)];
    }

    method Register(irq: nat, domain: nat)
      requires Valid() && irq < I.PIC_LINES
      modifies handlers
      ensures View() == old(View()).(handlers := old(View()).handlers[irq := Some(domain)])
    {
      handlers[irq] := Some(domain);
      assert handlers[..] == old(handlers[..])[irq := Some(domain)];
    }

    /** Forget the domain's mask, vectors and PIC lines. */
    method RemoveDomain(domain: nat)
      requires Valid()
      modifies vectors, anyMask, handlers
      ensures View() == I.RemoveDomain(old(View()), domain)
    {
      if domain < I.ANY_MAX_DOMAINS { anyMask[domain] := {}; }
      assert anyMask[..] == I.RemoveDomain(old(View()), domain).anyMask;
      for v := 0 to vectors.Length
        invariant forall j :: 0 <= j < vectors.Length ==>
          vectors[j] == if j < v && old(vectors[j]) == Some(domain) then None else old(vectors[j])
        invariant anyMask[..] == I.RemoveDomain(old(View()), domain).anyMask && handlers[..] == old(handlers[..])
      {
        if vectors[v] == Some(domain) { vectors[v] := None; }
      }
      assert vectors[..] == I.RemoveDomain(old(View()), domain).vectors;
      for i := 0 to handlers.Length
        invariant forall j :: 0 <= j < handlers.Length ==>
          handlers[j] == if j < i && old(handlers[j]) == Some(domain) then None else old(handlers[j])
        invariant anyMask[..] == I.RemoveDomain(old(View()), domain).anyMask
        invariant vectors[..] == I.RemoveDomain(old(View()), domain).vectors
      {
        if handlers[i] == Some(domain) { handlers[i] := None; }
      }
      assert handlers[..] == I.RemoveDomain(old(View()), domain).handlers;
    }
  }
}
