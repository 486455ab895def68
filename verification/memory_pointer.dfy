/**
 * MemoryPointer (MemoryPointer.hpp): an address that can be built from a
 * pointer or an integer and compared and combined as a uintptr_t. On x86 the
 * pointer and the integer members of the union are the same 32 bits, so the
 * model keeps one raw word. Every operator, the compound ones included, returns
 * a new value.
 */
module MemoryPointers {
  import opened Machine

  datatype MemoryPointer = MemoryPointer(raw: u32) {
    /** AsInt() and the explicit uintptr_t conversion. */
    function AsInt(): u32
    {
      raw
    }

    predicate Eq(rhs: MemoryPointer) { raw == rhs.raw }
    predicate Ne(rhs: MemoryPointer) { raw != rhs.raw }
    predicate Lt(rhs: MemoryPointer) { raw < rhs.raw }
    predicate Le(rhs: MemoryPointer) { raw <= rhs.raw }
    predicate Gt(rhs: MemoryPointer) { raw > rhs.raw }
    predicate Ge(rhs: MemoryPointer) { raw >= rhs.raw }

    /** operator+ and operator+=: moves forward by rhs round the address space. */
    function Plus(rhs: MemoryPointer): (r: MemoryPointer)
      ensures Offset(r.raw, raw) == rhs.raw
      ensures raw + rhs.raw < SPACE ==> r.raw == raw + rhs.raw
    {
      OffsetOfShift(raw, rhs.raw);
      MemoryPointer(Wrap(raw + rhs.raw))
    }

    /** operator- and operator-=: the address rhs bytes back, so adding rhs again returns here. */
    function Minus(rhs: MemoryPointer): (r: MemoryPointer)
      ensures Wrap(r.raw + rhs.raw) == raw
      ensures rhs.raw <= raw ==> r.raw == raw - rhs.raw
    {
      WrapAdd(raw - rhs.raw, rhs.raw);
      MemoryPointer(Wrap(raw - rhs.raw))
    }

    /** operator* and operator*=: the product modulo 2^32, exact when it fits. */
    function Times(rhs: MemoryPointer): (r: MemoryPointer)
      ensures raw * rhs.raw < SPACE ==> r.raw == raw * rhs.raw
      ensures rhs.raw == 1 ==> r == this
      ensures (raw * rhs.raw - r.raw) % SPACE == 0
    {
      WrapDifference(raw * rhs.raw);
      MemoryPointer(Wrap(raw * rhs.raw))
    }

    /** operator/ and operator/=: unsigned division; a zero divisor is undefined behaviour. */
    function Div(rhs: MemoryPointer): (r: MemoryPointer)
      requires rhs.raw != 0
      ensures r.raw * rhs.raw <= raw < (r.raw + 1) * rhs.raw
    {
      MemoryPointer(raw / rhs.raw)
    }

    /** IsNull() as written: it tests m_ptr != nullptr, so it is true for every non-null pointer. */
    predicate IsNull()
    {
      raw != 0
    }

    /** What IsNull is documented to return: whether the pointer is null. */
    predicate IsNullPointer()
    {
      raw == 0
    }

    /** The explicit bool conversion: true iff the pointer is non-null. */
    function ToBool(): (b: bool)
      ensures b <==> !IsNullPointer()
      ensures b == IsNull()
    {
      !IsNullPointer()
    }
  }

  /** The default and the nullptr constructors. */
  const Null: MemoryPointer := MemoryPointer(0)

  /** Construction from a uintptr_t x: AsInt() gives x back, and equal integers give equal pointers. */
  function FromInt(x: u32): (p: MemoryPointer)
    ensures p.AsInt() == x
    ensures forall q: MemoryPointer :: q.AsInt() == x ==> q == p
  {
    MemoryPointer(x)
  }

  /** The comparisons are a total order on the raw words, and consistent with one another. */
  lemma TotalOrder(p: MemoryPointer, q: MemoryPointer, r: MemoryPointer)
    ensures p.Eq(q) <==> p == q
    ensures p.Ne(q) <==> !p.Eq(q)
    ensures p.Lt(q) || p.Eq(q) || p.Gt(q)
    ensures !(p.Lt(q) && p.Gt(q))
    ensures p.Le(q) <==> p.Lt(q) || p.Eq(q)
    ensures p.Ge(q) <==> q.Le(p)
    ensures p.Gt(q) <==> q.Lt(p)
    ensures p.Le(q) && q.Le(r) ==> p.Le(r)
    ensures p.Le(q) && q.Le(p) ==> p == q
  {
  }

  /** Subtracting undoes adding, and adding undoes subtracting. */
  lemma PlusMinusInverse(p: MemoryPointer, q: MemoryPointer)
    ensures p.Plus(q).Minus(q) == p
    ensures p.Minus(q).Plus(q) == p
  {
    var pq, pmq := p.Plus(q), p.Minus(q);
    assert pq.raw == Wrap(p.raw + q.raw);
    assert pq.Minus(q).raw == Wrap(pq.raw - q.raw);
    WrapAdd(p.raw + q.raw, -(q.raw as int));
    assert pmq.raw == Wrap(p.raw - q.raw);
    assert pmq.Plus(q).raw == Wrap(pmq.raw + q.raw);
    WrapAdd(p.raw - q.raw, q.raw);
    WrapIdentity(p.raw);
  }

  /** Addition commutes and has null as its zero. */
  lemma PlusCommutes(p: MemoryPointer, q: MemoryPointer)
    ensures p.Plus(q) == q.Plus(p)
    ensures p.Plus(Null) == p
  {
    WrapIdentity(p.raw);
  }

  /** Addition wraps in the ring of 32-bit words, so it associates. */
  lemma PlusAssociates(p: MemoryPointer, q: MemoryPointer, r: MemoryPointer)
    ensures p.Plus(q).Plus(r) == p.Plus(q.Plus(r))
  {
    var pq, qr := p.Plus(q), q.Plus(r);
    assert pq.raw == Wrap(p.raw + q.raw);
    assert qr.raw == Wrap(q.raw + r.raw);
    WrapAssociates(p.raw, q.raw, r.raw);
  }

  /** IsNull is inverted: the null pointer is not "null" by it, and every other pointer is. */
  lemma IsNullInverted(p: MemoryPointer)
    ensures !Null.IsNull() && Null.IsNullPointer()
    ensures FromInt(1).IsNull() && !FromInt(1).IsNullPointer()
    ensures p.IsNull() <==> !p.IsNullPointer()
  {
  }
}
