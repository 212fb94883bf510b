/** Byte-wise access to peripherals that only take whole words of 2, 4 or 8 bytes. */
module SubwordAccess {
  const TWO_32 := 0x1_0000_0000

  predicate IsWidth(width: int) {
    width == 2 || width == 4 || width == 8
  }

  /** Masking with a 32-bit constant clears the upper half of the offset along with the low bits. */
  function Aligned(offset: nat, width: nat): nat
    requires IsWidth(width)
  {
    offset % TWO_32 - offset % TWO_32 % width
  }

  /** A word as it lies in memory. */
  type Word = seq<bv8>

  type Words = nat -> Word

  ghost predicate WordsOf(words: Words, width: nat) {
    IsWidth(width) && forall a :: |words(a)| == width
  }

  /** Byte `b` of the device seen as an array of bytes. */
  ghost function ByteAt(words: Words, width: nat, b: nat): bv8
    requires WordsOf(words, width)
  {
    words(b - b % width)[b % width]
  }

  class Device {
    const width: nat
    var words: Words

    constructor (width: nat, words: Words)
      ensures this.width == width && this.words == words
    {
      this.width, this.words := width, words;
    }

    /** Stores a word and tells whether that changed it. */
    method Set(a: nat, data: Word) returns (changed: bool)
      modifies this
      ensures words(a) == data && (forall x :: x != a ==> words(x) == old(words)(x))
      ensures changed == (old(words)(a) != data)
    {
      changed := words(a) != data;
      var was := words;
      words := (x: nat) => if x == a then data else was(x);
    }
  }

  function Min(a: nat, b: nat): nat {
    if a < b then a else b
  }

  lemma DropsTwo(y: nat)
    ensures (y + 2) % 2 == y % 2
  {
  }

  lemma DropsFour(y: nat)
    ensures (y + 4) % 4 == y % 4
  {
  }

  lemma DropsEight(y: nat)
    ensures (y + 8) % 8 == y % 8
  {
  }

  lemma {:induction false} MultipleDropped(k: nat, r: nat)
    ensures (k * 2 + r) % 2 == r % 2
    ensures (k * 4 + r) % 4 == r % 4
    ensures (k * 8 + r) % 8 == r % 8
  {
    if k > 0 {
      MultipleDropped(k - 1, r);
      DropsTwo((k - 1) * 2 + r);
      DropsFour((k - 1) * 4 + r);
      DropsEight((k - 1) * 8 + r);
    }
  }

  lemma NestedRemainder(x: nat, width: nat)
    requires IsWidth(width)
    ensures x % TWO_32 % width == x % width
  {
    var q, r := x / TWO_32, x % TWO_32;
    if width == 2 {
      MultipleDropped(q * 0x8000_0000, r);
    } else if width == 4 {
      MultipleDropped(q * 0x4000_0000, r);
    } else {
      MultipleDropped(q * 0x2000_0000, r);
    }
  }

  lemma StaysInHalf(r: nat, i: nat)
    ensures r < TWO_32 && r % 2 + i < 2 ==> r + i < TWO_32 && (r + i) % 2 == r % 2 + i
  {
  }

  lemma StaysInQuarter(r: nat, i: nat)
    ensures r < TWO_32 && r % 4 + i < 4 ==> r + i < TWO_32 && (r + i) % 4 == r % 4 + i
  {
  }

  lemma StaysInEighth(r: nat, i: nat)
    ensures r < TWO_32 && r % 8 + i < 8 ==> r + i < TWO_32 && (r + i) % 8 == r % 8 + i
  {
  }

  lemma StaysInWord(r: nat, width: nat, i: nat)
    requires IsWidth(width) && r < TWO_32 && r % width + i < width
    ensures r + i < TWO_32 && (r + i) % width == r % width + i
  {
    StaysInHalf(r, i);
    StaysInQuarter(r, i);
    StaysInEighth(r, i);
  }

  lemma SmallStep(x: nat, i: nat)
    requires x % TWO_32 + i < TWO_32
    ensures (x + i) % TWO_32 == x % TWO_32 + i
  {
  }

  /** The cursor arithmetic of one turn: the word, the place in it, and the bytes that follow there. */
  lemma Turn(offset: nat, width: nat, i: nat)
    requires IsWidth(width) && i < width - offset % width
    ensures
      var b := (offset + i) % TWO_32;
      b - b % width == Aligned(offset, width) && b % width == offset % width + i
  {
    NestedRemainder(offset, width);
    StaysInWord(offset % TWO_32, width, i);
    SmallStep(offset, i);
  }

  // ---------------------------------------------------------------- reading

  lemma ChunkRead(words: Words, width: nat, offset: nat, i: nat)
    requires WordsOf(words, width) && i < width - offset % width
    ensures words(Aligned(offset, width))[offset % width + i] == ByteAt(words, width, (offset + i) % TWO_32)
  {
    hide Aligned;
    Turn(offset, width, i);
  }

  /** Every byte read is the device's byte at that offset, modulo 2^32. */
  method ReadBy(device: Device, dst: array<bv8>, src: nat, size: nat)
    requires WordsOf(device.words, device.width) && size <= dst.Length
    modifies dst
    ensures forall i :: 0 <= i < size ==> dst[i] == ByteAt(device.words, device.width, (src + i) % TWO_32)
    ensures dst[size..] == old(dst[size..])
  {
    hide Aligned, ByteAt;
    var done, first := 0, true;
    while first || done < size
      invariant 0 <= done <= size
      invariant forall i :: 0 <= i < done ==> dst[i] == ByteAt(device.words, device.width, (src + i) % TWO_32)
      invariant dst[size..] == old(dst[size..])
      decreases size - done, first
    {
      first := false;
      var dataOffset := (src + done) % device.width;
      var partialSize := Min(device.width - dataOffset, size - done);
      var data := device.words(Aligned(src + done, device.width));
      forall i | 0 <= i < partialSize {
        dst[done + i] := data[dataOffset + i];
      }
      forall i | done <= i < done + partialSize
        ensures dst[i] == ByteAt(device.words, device.width, (src + i) % TWO_32)
      {
        ChunkRead(device.words, device.width, src + done, i - done);
      }
      done := done + partialSize;
    }
  }

  /** A device whose bytes are 1 at offset 2^32 and beyond, and 0 below. */
  function Marked(width: nat): Words {
    (a: nat) => seq(width, _ => if a >= TWO_32 then 1 else 0)
  }

  lemma RemainderBelow(x: nat, width: nat)
    requires IsWidth(width)
    ensures x % width <= x
  {
  }

  /** No word straddles 2^32. */
  lemma WordSide(b: nat, width: nat)
    requires IsWidth(width)
    ensures b - b % width >= TWO_32 <==> b >= TWO_32
  {
    NestedRemainder(b, width);
    if b >= TWO_32 {
      RemainderBelow(b % TWO_32, width);
      assert b - b % TWO_32 >= TWO_32;
    }
  }

  lemma MarkedAt(width: nat, b: nat)
    requires IsWidth(width)
    ensures WordsOf(Marked(width), width) && ByteAt(Marked(width), width, b) == if b >= TWO_32 then 1 else 0
  {
    WordSide(b, width);
  }

  /** The bytes read are the addressed ones, whatever the device holds, exactly when the span ends at or below 2^32. */
  lemma ReadPlainIff(width: nat, src: nat, size: nat)
    requires IsWidth(width) && size > 0
    ensures (forall words, b ::
               WordsOf(words, width) && src <= b < src + size ==>
                 ByteAt(words, width, b % TWO_32) == ByteAt(words, width, b))
            <==> src + size <= TWO_32
  {
    hide ByteAt;
    if src + size > TWO_32 {
      var b := src + size - 1;
      MarkedAt(width, b);
      MarkedAt(width, b % TWO_32);
      assert ByteAt(Marked(width), width, b % TWO_32) != ByteAt(Marked(width), width, b);
    }
  }

  // ---------------------------------------------------------------- writing

  type View = nat -> bv8

  /** Writes bytes one after the other into an array of bytes whose indices wrap at 2^32. */
  function Written(view: View, dst: nat, src: seq<bv8>): View
    decreases |src|
  {
    if src == [] then view else Written(Put(view, dst % TWO_32, src[0]), dst + 1, src[1..])
  }

  function Put(view: View, b: nat, v: bv8): View {
    (x: nat) => if x == b then v else view(x)
  }

  lemma {:induction false} WrittenAt(view: View, dst: nat, src: seq<bv8>, b: nat)
    requires dst % TWO_32 + |src| <= TWO_32
    ensures
      var r := dst % TWO_32;
      Written(view, dst, src)(b) == if r <= b < r + |src| then src[b - r] else view(b)
    decreases |src|
  {
    if |src| == 1 {
      assert src[1..] == [];
    } else if src != [] {
      SmallStep(dst, 1);
      WrittenAt(Put(view, dst % TWO_32, src[0]), dst + 1, src[1..], b);
    }
  }

  /** Byte `b` after a plain write. */
  function Plain(view: View, dst: nat, src: seq<bv8>, b: nat): bv8 {
    if dst <= b < dst + |src| then src[b - dst] else view(b)
  }

  /** Below 2^32 that is a plain write: exactly the addressed bytes change. */
  lemma WrittenPlain(view: View, dst: nat, src: seq<bv8>, b: nat)
    requires dst + |src| <= TWO_32
    ensures Written(view, dst, src)(b) == Plain(view, dst, src, b)
  {
    if src != [] {
      WrittenAt(view, dst, src, b);
    }
  }

  /** Beyond it, it is not: a write at offset 2^32 lands on byte 0. */
  lemma WrittenWraps(view: View, v: bv8, b: nat)
    ensures Written(view, TWO_32, [v])(b) == if b == 0 then v else view(b)
  {
    WrittenAt(view, TWO_32, [v], b);
  }

  /** No write reaches a byte at 2^32 or beyond. */
  lemma {:induction false} WrittenBelow(view: View, dst: nat, src: seq<bv8>, b: nat)
    requires b >= TWO_32
    ensures Written(view, dst, src)(b) == view(b)
    decreases |src|
  {
    if src != [] {
      WrittenBelow(Put(view, dst % TWO_32, src[0]), dst + 1, src[1..], b);
    }
  }

  /** The write is plain, whatever the device holds, exactly when its span ends at or below 2^32. */
  lemma WrittenPlainIff(dst: nat, src: seq<bv8>)
    ensures (forall view: View, b :: Written(view, dst, src)(b) == Plain(view, dst, src, b))
            <==> src == [] || dst + |src| <= TWO_32
  {
    if src == [] || dst + |src| <= TWO_32 {
      forall view: View, b ensures Written(view, dst, src)(b) == Plain(view, dst, src, b) {
        if src != [] {
          WrittenPlain(view, dst, src, b);
        }
      }
    } else {
      var last := dst + |src| - 1;
      var view := (x: nat) => src[|src| - 1] ^ 1;
      WrittenBelow(view, dst, src, last);
      assert Written(view, dst, src)(last) != Plain(view, dst, src, last);
    }
  }

  lemma {:induction false} WrittenAppends(view: View, dst: nat, a: seq<bv8>, b: seq<bv8>)
    ensures Written(view, dst, a + b) == Written(Written(view, dst, a), dst + |a|, b)
    decreases |a|
  {
    if a == [] {
      assert a + b == b;
    } else {
      assert (a + b)[0] == a[0] && (a + b)[1..] == a[1..] + b;
      WrittenAppends(Put(view, dst % TWO_32, a[0]), dst + 1, a[1..], b);
    }
  }

  ghost predicate Shows(words: Words, width: nat, view: View)
    requires WordsOf(words, width)
  {
    forall b :: ByteAt(words, width, b) == view(b)
  }

  lemma SplicedAt(word: seq<bv8>, k: nat, chunk: seq<bv8>, j: nat)
    requires k + |chunk| <= |word| && j < |word|
    ensures (word[..k] + chunk + word[k + |chunk|..])[j] == if k <= j < k + |chunk| then chunk[j - k] else word[j]
  {
  }

  lemma ChunkByte(words: Words, words': Words, width: nat, a: nat, k: nat, chunk: seq<bv8>, b: nat)
    requires WordsOf(words, width) && WordsOf(words', width) && k + |chunk| <= width
    requires forall x :: x != a ==> words'(x) == words(x)
    requires words'(a) == words(a)[..k] + chunk + words(a)[k + |chunk|..]
    ensures ByteAt(words', width, b)
            == if b - b % width == a && k <= b % width < k + |chunk| then chunk[b % width - k]
               else ByteAt(words, width, b)
  {
    SplicedAt(words(a), k, chunk, b % width);
  }

  /** The bytes of a chunk that fits its word are those at its places in that word. */
  lemma ChunkPlace(r: nat, width: nat, n: nat, b: nat)
    requires IsWidth(width) && r < TWO_32 && n <= width - r % width
    ensures r + n <= TWO_32
    ensures
      var inWord := b - b % width == r - r % width;
      && (r <= b < r + n <==> inWord && r % width <= b % width < r % width + n)
      && (inWord ==> b - r == b % width - r % width)
  {
    if n > 0 {
      StaysInWord(r, width, n - 1);
    }
    if r <= b < r + n {
      StaysInWord(r, width, b - r);
    }
  }

  /** Replacing part of one word is writing those bytes. */
  lemma {:induction false} ChunkWritten(words: Words, width: nat, words': Words, view: View, dst: nat, chunk: seq<bv8>,
                                        b: nat)
    requires WordsOf(words, width) && WordsOf(words', width) && Shows(words, width, view)
    requires |chunk| <= width - dst % width
    requires
      var a, k := Aligned(dst, width), dst % width;
      && (forall x :: x != a ==> words'(x) == words(x))
      && words'(a) == words(a)[..k] + chunk + words(a)[k + |chunk|..]
    ensures ByteAt(words', width, b) == Written(view, dst, chunk)(b)
  {
    var r, a, k := dst % TWO_32, Aligned(dst, width), dst % width;
    NestedRemainder(dst, width);
    ChunkPlace(r, width, |chunk|, b);
    WrittenAt(view, dst, chunk, b);
    ChunkByte(words, words', width, a, k, chunk, b);
    assert ByteAt(words, width, b) == view(b);
  }

  lemma ChunkShown(words: Words, width: nat, words': Words, view: View, dst: nat, chunk: seq<bv8>)
    requires WordsOf(words, width) && WordsOf(words', width) && Shows(words, width, view)
    requires |chunk| <= width - dst % width
    requires
      var a, k := Aligned(dst, width), dst % width;
      && (forall x :: x != a ==> words'(x) == words(x))
      && words'(a) == words(a)[..k] + chunk + words(a)[k + |chunk|..]
    ensures Shows(words', width, Written(view, dst, chunk))
  {
    hide Written, ByteAt, Aligned;
    forall b ensures ByteAt(words', width, b) == Written(view, dst, chunk)(b) {
      ChunkWritten(words, width, words', view, dst, chunk, b);
    }
  }

  ghost predicate Same(words: Words, words': Words) {
    forall a :: words(a) == words'(a)
  }

  lemma SameStart(words: Words)
    ensures Same(words, words)
  {
  }

  lemma SameStep(words: Words, words': Words, words'': Words, a: nat)
    requires forall x :: x != a ==> words''(x) == words'(x)
    ensures Same(words, words') && words''(a) == words'(a) ==> Same(words, words'')
  {
  }

  /** The read-modify-write loop refines a plain array of bytes, and a change is never left unreported. */
  method WriteBy(device: Device, dst: nat, src: seq<bv8>, ghost view: View) returns (changed: bool)
    requires WordsOf(device.words, device.width) && Shows(device.words, device.width, view)
    modifies device
    ensures WordsOf(device.words, device.width) && Shows(device.words, device.width, Written(view, dst, src))
    ensures !changed ==> Same(old(device.words), device.words)
  {
    hide ByteAt, Aligned, Shows, Same;
    SameStart(device.words);
    var done, first := 0, true;
    changed := false;
    assert src[..0] == [];
    while first || done < |src|
      invariant 0 <= done <= |src|
      invariant WordsOf(device.words, device.width)
                && Shows(device.words, device.width, Written(view, dst, src[..done]))
      invariant !changed ==> Same(old(device.words), device.words)
      decreases |src| - done, first
    {
      first := false;
      var current := dst + done;
      var dataOffset := current % device.width;
      var partialSize := Min(device.width - dataOffset, |src| - done);
      var a := Aligned(current, device.width);
      var chunk := src[done..done + partialSize];
      var data := if partialSize < device.width then device.words(a) else seq(device.width, _ => 0);
      data := data[..dataOffset] + chunk + data[dataOffset + partialSize..];
      ghost var before, now := device.words, Written(view, dst, src[..done]);
      var altered := device.Set(a, data);
      changed := changed || altered;
      SameStep(old(device.words), before, device.words, a);
      ChunkShown(before, device.width, device.words, now, current, chunk);
      WrittenAppends(view, dst, src[..done], chunk);
      assert src[..done] + chunk == src[..done + partialSize];
      done := done + partialSize;
    }
    assert src[..done] == src;
  }
}
