/** Immediates scattered over an instruction word: fields of a 32-bit word, read and written bit by bit. */
module SplitFields {
  /** A 32-bit word, least significant bit first. */
  type Bits = w: seq<bool> | |w| == 32 witness seq(32, _ => false)

  function NoBits(): Bits {
    seq(32, _ => false)
  }

  function ShiftLeft(w: Bits, k: nat): Bits {
    seq(32, i requires 0 <= i < 32 => i >= k && w[i - k])
  }

  function ShiftRight(w: Bits, k: nat): Bits {
    seq(32, i requires 0 <= i < 32 => i + k < 32 && w[i + k])
  }

  function Or(v: Bits, w: Bits): Bits {
    seq(32, i requires 0 <= i < 32 => v[i] || w[i])
  }

  function Low(w: Bits, count: nat): Bits {
    seq(32, i requires 0 <= i < 32 => i < count && w[i])
  }

  /** `count` bits of the word from bit `offset` on. */
  datatype Part = Part(count: nat, offset: nat) {
    predicate Has(i: int) {
      offset <= i < offset + count
    }
  }

  function DecodePart(p: Part, w: Bits): Bits {
    Low(ShiftRight(w, p.offset), p.count)
  }

  function EncodePart(p: Part, w: Bits): Bits {
    ShiftLeft(Low(w, p.count), p.offset)
  }

  /** A value spread over the parts, lowest bits first, and shifted left by `shift`. */
  datatype Split = Split(parts: seq<Part>, shift: nat) {
    /** The parts are disjoint, lie in the word, and the value has no more than 32 bits. */
    ghost predicate Valid() {
      (forall p :: p in parts ==> p.offset + p.count <= 32) && Disjoint(parts) && Total(parts) + shift <= 32
    }
  }

  ghost predicate Disjoint(parts: seq<Part>) {
    forall j, k, i :: 0 <= j < k < |parts| ==> !(parts[j].Has(i) && parts[k].Has(i))
  }

  function Total(parts: seq<Part>): nat {
    if parts == [] then 0 else parts[0].count + Total(parts[1..])
  }

  /** Whether bit `i` of the word belongs to a part. */
  predicate Covers(parts: seq<Part>, i: int) {
    exists p :: p in parts && p.Has(i)
  }

  // ---------------------------------------------------------------- specification of the two loops

  function DecodeParts(parts: seq<Part>, w: Bits, offset: nat): Bits {
    if parts == [] then NoBits()
    else Or(ShiftLeft(DecodePart(parts[0], w), offset), DecodeParts(parts[1..], w, offset + parts[0].count))
  }

  function EncodeParts(parts: seq<Part>, v: Bits): Bits {
    if parts == [] then NoBits()
    else Or(EncodePart(parts[0], v), EncodeParts(parts[1..], ShiftRight(v, parts[0].count)))
  }

  function DecodeSplit(split: Split, w: Bits): Bits {
    ShiftLeft(DecodeParts(split.parts, w, 0), split.shift)
  }

  function EncodeSplit(split: Split, v: Bits): Bits {
    EncodeParts(split.parts, ShiftRight(v, split.shift))
  }

  lemma {:induction false} DecodeAppends(parts: seq<Part>, w: Bits, offset: nat, p: Part)
    ensures DecodeParts(parts + [p], w, offset)
            == Or(DecodeParts(parts, w, offset), ShiftLeft(DecodePart(p, w), offset + Total(parts)))
    decreases |parts|
  {
    var more := parts + [p];
    if parts == [] {
      assert more[1..] == [];
    } else {
      assert more[1..] == parts[1..] + [p];
      DecodeAppends(parts[1..], w, offset + parts[0].count, p);
    }
  }

  lemma {:induction false} EncodeAppends(parts: seq<Part>, v: Bits, p: Part)
    ensures EncodeParts(parts + [p], v) == Or(EncodeParts(parts, v), EncodePart(p, ShiftRight(v, Total(parts))))
    decreases |parts|
  {
    var more := parts + [p];
    if parts == [] {
      assert more[1..] == [];
      assert ShiftRight(v, 0) == v;
    } else {
      assert more[1..] == parts[1..] + [p];
      EncodeAppends(parts[1..], ShiftRight(v, parts[0].count), p);
      assert ShiftRight(ShiftRight(v, parts[0].count), Total(parts[1..])) == ShiftRight(v, Total(parts));
    }
  }

  lemma {:induction false} TotalAppends(parts: seq<Part>, p: Part)
    ensures Total(parts + [p]) == Total(parts) + p.count
    decreases |parts|
  {
    var more := parts + [p];
    if parts == [] {
      assert more[1..] == [];
    } else {
      assert more[1..] == parts[1..] + [p];
      TotalAppends(parts[1..], p);
    }
  }

  method Decode(split: Split, w: Bits) returns (value: Bits)
    ensures value == DecodeSplit(split, w)
  {
    var ret, offset, k := NoBits(), 0, 0;
    while k < |split.parts|
      invariant 0 <= k <= |split.parts| && offset == Total(split.parts[..k])
      invariant ret == DecodeParts(split.parts[..k], w, 0)
    {
      var field := split.parts[k];
      assert split.parts[..k + 1] == split.parts[..k] + [field];
      DecodeAppends(split.parts[..k], w, 0, field);
      TotalAppends(split.parts[..k], field);
      ret := Or(ret, ShiftLeft(DecodePart(field, w), offset));
      offset := offset + field.count;
      k := k + 1;
    }
    assert split.parts[..k] == split.parts;
    value := ShiftLeft(ret, split.shift);
  }

  method Encode(split: Split, value: Bits) returns (w: Bits)
    ensures w == EncodeSplit(split, value)
  {
    w := NoBits();
    var shifted := ShiftRight(value, split.shift);
    var v, k := shifted, 0;
    assert ShiftRight(shifted, 0) == shifted;
    while k < |split.parts|
      invariant 0 <= k <= |split.parts| && v == ShiftRight(shifted, Total(split.parts[..k]))
      invariant w == EncodeParts(split.parts[..k], shifted)
    {
      var field := split.parts[k];
      assert split.parts[..k + 1] == split.parts[..k] + [field];
      EncodeAppends(split.parts[..k], shifted, field);
      TotalAppends(split.parts[..k], field);
      w := Or(w, EncodePart(field, v));
      v := ShiftRight(v, field.count);
      k := k + 1;
    }
    assert split.parts[..k] == split.parts;
  }

  // ---------------------------------------------------------------- inverses

  lemma DisjointTail(parts: seq<Part>)
    requires Disjoint(parts) && parts != []
    ensures Disjoint(parts[1..])
    ensures forall i :: parts[0].Has(i) ==> !Covers(parts[1..], i)
  {
    var tail := parts[1..];
    assert forall k :: 0 <= k < |tail| ==> tail[k] == parts[k + 1];
  }

  /** Encoding only writes bits of the parts. */
  lemma {:induction false} EncodeWithin(parts: seq<Part>, v: Bits, i: nat)
    requires i < 32 && EncodeParts(parts, v)[i]
    ensures Covers(parts, i)
  {
    if EncodePart(parts[0], v)[i] {
      assert parts[0].Has(i);
    } else {
      EncodeWithin(parts[1..], ShiftRight(v, parts[0].count), i);
      var p :| p in parts[1..] && p.Has(i);
      assert p in parts;
    }
  }

  /** Decoding only reads bits of the parts. */
  lemma {:induction false} DecodeReads(parts: seq<Part>, v: Bits, w: Bits, offset: nat)
    requires forall i :: 0 <= i < 32 && Covers(parts, i) ==> v[i] == w[i]
    ensures DecodeParts(parts, v, offset) == DecodeParts(parts, w, offset)
    decreases |parts|
  {
    if parts != [] {
      var p := parts[0];
      forall i | 0 <= i < 32 && p.Has(i) ensures v[i] == w[i] {
        assert Covers(parts, i);
      }
      assert DecodePart(p, v) == DecodePart(p, w);
      forall i | 0 <= i < 32 && Covers(parts[1..], i) ensures v[i] == w[i] {
        var q :| q in parts[1..] && q.Has(i);
        assert q in parts && Covers(parts, i);
      }
      DecodeReads(parts[1..], v, w, offset + p.count);
    }
  }

  lemma HeadReadBack(parts: seq<Part>, v: Bits)
    requires parts != [] && parts[0].offset + parts[0].count <= 32 && Disjoint(parts)
    ensures DecodePart(parts[0], EncodeParts(parts, v)) == Low(v, parts[0].count)
  {
    var p, tail, rest := parts[0], parts[1..], ShiftRight(v, parts[0].count);
    DisjointTail(parts);
    forall i | 0 <= i < 32 && p.Has(i) ensures EncodeParts(parts, v)[i] == v[i - p.offset] {
      if EncodeParts(tail, rest)[i] {
        EncodeWithin(tail, rest, i);
      }
    }
  }

  lemma TailReadBack(parts: seq<Part>, v: Bits, offset: nat)
    requires parts != [] && Disjoint(parts)
    ensures
      var tail := parts[1..];
      DecodeParts(tail, EncodeParts(parts, v), offset)
      == DecodeParts(tail, EncodeParts(tail, ShiftRight(v, parts[0].count)), offset)
  {
    var p, tail, rest := parts[0], parts[1..], ShiftRight(v, parts[0].count);
    DisjointTail(parts);
    forall i | 0 <= i < 32 && Covers(tail, i) ensures EncodeParts(parts, v)[i] == EncodeParts(tail, rest)[i] {
      assert !p.Has(i);
    }
    DecodeReads(tail, EncodeParts(parts, v), EncodeParts(tail, rest), offset);
  }

  lemma LowJoins(v: Bits, c: nat, t: nat, offset: nat)
    ensures Or(ShiftLeft(Low(v, c), offset), ShiftLeft(Low(ShiftRight(v, c), t), offset + c))
            == ShiftLeft(Low(v, c + t), offset)
  {
  }

  lemma {:induction false} DecodeEncodeParts(parts: seq<Part>, v: Bits, offset: nat)
    requires (forall p :: p in parts ==> p.offset + p.count <= 32) && Disjoint(parts)
    ensures DecodeParts(parts, EncodeParts(parts, v), offset) == ShiftLeft(Low(v, Total(parts)), offset)
    decreases |parts|
  {
    if parts != [] {
      hide EncodeParts, DecodePart, Low, ShiftRight, ShiftLeft, Or;
      var p, tail := parts[0], parts[1..];
      HeadReadBack(parts, v);
      DisjointTail(parts);
      TailReadBack(parts, v, offset + p.count);
      DecodeEncodeParts(tail, ShiftRight(v, p.count), offset + p.count);
      LowJoins(v, p.count, Total(tail), offset);
    }
  }

  /** Reading back what was written gives the bits of the value that the split can hold. */
  lemma DecodeEncode(split: Split, v: Bits)
    requires split.Valid()
    ensures
      forall i :: 0 <= i < 32 ==>
        (DecodeSplit(split, EncodeSplit(split, v))[i] <==> split.shift <= i < split.shift + Total(split.parts) && v[i])
  {
    DecodeEncodeParts(split.parts, ShiftRight(v, split.shift), 0);
  }

  lemma ShiftJoins(a: Bits, b: Bits, c: nat, offset: nat)
    ensures Or(ShiftLeft(a, offset), ShiftLeft(b, offset + c)) == ShiftLeft(Or(a, ShiftLeft(b, c)), offset)
  {
  }

  lemma ShiftNone(a: Bits)
    ensures ShiftLeft(a, 0) == a
  {
  }

  lemma {:induction false} DecodeShifts(parts: seq<Part>, w: Bits, offset: nat)
    ensures DecodeParts(parts, w, offset) == ShiftLeft(DecodeParts(parts, w, 0), offset)
    decreases |parts|
  {
    if parts == [] {
      assert ShiftLeft(NoBits(), offset) == NoBits();
    } else {
      hide ShiftLeft, Or, DecodePart;
      var c, d := parts[0].count, DecodePart(parts[0], w);
      DecodeShifts(parts[1..], w, offset + c);
      DecodeShifts(parts[1..], w, c);
      ShiftNone(d);
      ShiftJoins(d, DecodeParts(parts[1..], w, 0), c, offset);
    }
  }

  lemma {:induction false} DecodeBounded(parts: seq<Part>, w: Bits, i: nat)
    requires Total(parts) <= i < 32
    ensures !DecodeParts(parts, w, 0)[i]
    decreases |parts|
  {
    if parts != [] {
      DecodeShifts(parts[1..], w, parts[0].count);
      DecodeBounded(parts[1..], w, i - parts[0].count);
    }
  }

  lemma {:induction false} EncodeDecodeTail(parts: seq<Part>, w: Bits)
    requires parts != [] && Total(parts) <= 32
    ensures ShiftRight(DecodeParts(parts, w, 0), parts[0].count) == DecodeParts(parts[1..], w, 0)
    ensures Low(DecodeParts(parts, w, 0), parts[0].count) == DecodePart(parts[0], w)
  {
    var c, tail := parts[0].count, parts[1..];
    DecodeShifts(tail, w, c);
    forall i | Total(tail) <= i < 32 ensures !DecodeParts(tail, w, 0)[i] {
      DecodeBounded(tail, w, i);
    }
  }

  lemma {:induction false} EncodeDecodeParts(parts: seq<Part>, w: Bits)
    requires (forall p :: p in parts ==> p.offset + p.count <= 32) && Total(parts) <= 32
    ensures forall i :: 0 <= i < 32 ==> (EncodeParts(parts, DecodeParts(parts, w, 0))[i] <==> Covers(parts, i) && w[i])
    decreases |parts|
  {
    if parts != [] {
      var p, tail := parts[0], parts[1..];
      var v := DecodeParts(parts, w, 0);
      EncodeDecodeTail(parts, w);
      EncodeDecodeParts(tail, w);
      forall i | 0 <= i < 32 ensures Covers(parts, i) <==> p.Has(i) || Covers(tail, i) {
        if Covers(parts, i) && !p.Has(i) {
          var q :| q in parts && q.Has(i);
          assert q in tail;
        }
        if Covers(tail, i) {
          var q :| q in tail && q.Has(i);
          assert q in parts;
        }
        if p.Has(i) {
          assert p in parts;
        }
      }
    }
  }

  /** Writing back what was read gives the word restricted to the parts. */
  lemma EncodeDecode(split: Split, w: Bits)
    requires split.Valid()
    ensures forall i :: 0 <= i < 32 ==>
              (EncodeSplit(split, DecodeSplit(split, w))[i] <==> Covers(split.parts, i) && w[i])
  {
    var v := DecodeParts(split.parts, w, 0);
    forall i | Total(split.parts) <= i < 32 ensures !v[i] {
      DecodeBounded(split.parts, w, i);
    }
    assert ShiftRight(ShiftLeft(v, split.shift), split.shift) == v;
    EncodeDecodeParts(split.parts, w);
  }
}
