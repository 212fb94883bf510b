/** The bytes that load-reserved and store-conditional access, and what comparing the ends of ranges says of them. */
module Spans {
  import opened Words
  import Numbers
  import opened Stages

  /** An access of four or eight bytes; addresses wrap around at 2^64. */
  datatype Span = Span(start: nat, size: nat) {
    predicate Valid() {
      start < TWO_64 && (size == 4 || size == 8)
    }

    function Byte(i: nat): nat {
      (start + i) % TWO_64
    }

    predicate Has(b: nat) {
      exists i :: 0 <= i < size && Byte(i) == b
    }

    /** Every byte of the other access is one of this access. */
    predicate Includes(other: Span) {
      forall i :: 0 <= i < other.size ==> Has(other.Byte(i))
    }

    /** Whether the access has bytes on both sides of 2^64. */
    predicate RunsPast() {
      start + size > TWO_64
    }

    /** Whether the last byte of the access is at address zero. */
    predicate EndsAtZero() {
      start + size == TWO_64 + 1
    }

    predicate Aligned() {
      size > 0 && start % size == 0
    }

    function Range(): AddressRange
      requires Valid()
    {
      AddressRange(start, Byte(size - 1))
    }

    /** The ends of an access past 2^64 happen to lie between those of this one, which is not past it. */
    predicate TakenIn(other: Span) {
      !RunsPast() && other.RunsPast() && start <= other.start && other.start + other.size <= TWO_64 + start + size
    }

    /** This access runs past 2^64 and the other, of bytes all in this one, does not. */
    predicate Overlooks(other: Span) {
      && RunsPast() && !other.RunsPast()
      && (start <= other.start || other.start + other.size + TWO_64 <= start + size)
    }

    /** What comparing ends makes of the bytes. */
    predicate Grants(other: Span) {
      (RunsPast() == other.RunsPast() && Includes(other)) || TakenIn(other)
    }
  }

  function SpanAt(a: Word, wide: bool): (s: Span)
    ensures s.Valid() && s.Range() == RangeAt(a, wide)
  {
    Numbers.Bounded(a.bits);
    Span(Unsigned(a.bits), if wide then 8 else 4)
  }

  lemma ByteIs(s: Span, i: nat)
    requires s.Valid() && i < s.size
    ensures s.Byte(i) == if s.start + i < TWO_64 then s.start + i else s.start + i - TWO_64
  {
  }

  lemma HasIff(s: Span, b: nat)
    requires s.Valid() && b < TWO_64
    ensures s.Has(b) <==> s.start <= b < s.start + s.size || b + TWO_64 < s.start + s.size
  {
    hide Span.Byte;
    if s.start <= b < s.start + s.size {
      ByteIs(s, b - s.start);
    } else if b + TWO_64 < s.start + s.size {
      ByteIs(s, b + TWO_64 - s.start);
    } else if s.Has(b) {
      var i :| 0 <= i < s.size && s.Byte(i) == b;
      ByteIs(s, i);
    }
  }

  /** Inclusion of bytes, in terms of the ends. */
  lemma IncludesIff(r: Span, a: Span)
    requires r.Valid() && a.Valid()
    ensures r.Includes(a)
            <==> if a.RunsPast()
                 then r.RunsPast() && r.start <= a.start && a.start + a.size <= r.start + r.size
                 else if r.RunsPast() then r.Overlooks(a)
                 else r.start <= a.start && a.start + a.size <= r.start + r.size
  {
    hide Span.Byte, Span.Has;
    var last := a.size - 1;
    ByteIs(a, 0);
    ByteIs(a, last);
    HasIff(r, a.Byte(0));
    HasIff(r, a.Byte(last));
    forall i | 0 <= i < a.size
      ensures a.Byte(i) == if a.start + i < TWO_64 then a.start + i else a.start + i - TWO_64
      ensures r.Has(a.Byte(i)) <==> r.start <= a.Byte(i) < r.start + r.size || a.Byte(i) + TWO_64 < r.start + r.size
    {
      ByteIs(a, i);
      HasIff(r, a.Byte(i));
    }
  }

  /** Comparing ends is right for two accesses both within 2^64 or both past it; besides, it grants only `TakenIn`. */
  lemma ContainsIff(r: Span, a: Span)
    requires r.Valid() && a.Valid()
    ensures r.Range().Contains(a.Range()) <==> r.Grants(a)
  {
    hide Span.Byte, Span.Includes;
    IncludesIff(r, a);
    ByteIs(r, r.size - 1);
    ByteIs(a, a.size - 1);
  }

  /** Comparing ends agrees with the bytes exactly if it is neither taken in nor overlooks them. */
  lemma ContainsExactIff(r: Span, a: Span)
    requires r.Valid() && a.Valid()
    ensures (r.Range().Contains(a.Range()) <==> r.Includes(a)) <==> !r.TakenIn(a) && !r.Overlooks(a)
  {
    hide Span.Byte, Span.Includes;
    ContainsIff(r, a);
    IncludesIff(r, a);
  }

  /** Only an access whose last byte is at address zero lies in the empty reservation. */
  lemma EmptyContains(a: Span)
    requires a.Valid()
    ensures EMPTY_RANGE.Contains(a.Range()) <==> a.EndsAtZero()
  {
    hide Span.Byte;
    ByteIs(a, a.size - 1);
  }

  lemma AlignedStays(a: Span)
    requires a.Valid() && a.Aligned()
    ensures !a.RunsPast()
  {
  }
}
