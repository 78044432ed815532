/**
  The byte layer the layout manager stands on: the ROM image as an immutable
  byte sequence, little-endian words, the GBA pointer encoding, and the bulk
  fill / move / copy primitives, each as a pure image-to-image function.

  The byte layer itself (`rom_api`) is not part of this model; what it is
  assumed to do is stated here as definitions with contracts:
  - a read past the end of the image sees the erased byte 0xFF;
  - a write that would leave the image is an error (`OutOfImage`);
  - `ptr_to_addr` keeps the low 24 bits of the stored word, and `write_ptr`
    stores `target + 0x08000000` little-endian.
 */
module RomBytes {

  type Byte = b: int | 0 <= b < 256
  type Image = seq<Byte>

  /** Errors an operation of the core can end with. */
  datatype Error =
    | OutOfImage      // a write or copy would leave the image
    | NoFreeSpace     // a bounded scan for free space ran off the image
    | UnknownType     // a frame-type signature that is none of the eight
    | RunsOffImage    // a frame walk found no FRAMES_END before the image end
    | NoSuchRecord    // an index or table position that does not exist

  datatype Result<+T> = Ok(value: T) | Err(error: Error) {
    predicate IsFailure() { Err? }
    function PropagateFailure<U>(): Result<U>
      requires Err?
    {
      Err(error)
    }
    function Extract(): T
      requires Ok?
    {
      value
    }
  }

  const ERASED: Byte := 0xFF
  const ROM_BASE: nat := 0x0800_0000
  const ADDR_SPAN: nat := 0x100_0000      // a pointer keeps 24 address bits
  const WORD_SPAN: nat := 0x1_0000_0000

  // ---------------------------------------------------------------- reads

  /** The byte at `a`; past either end of the image the erased value. */
  function ByteAt(img: Image, a: int): Byte {
    if 0 <= a < |img| then img[a] else ERASED
  }

  /** The little-endian 32-bit word at `a` (`read_word`). */
  function WordAt(img: Image, a: int): (r: nat)
    ensures r < WORD_SPAN
  {
    ByteAt(img, a) + 0x100 * ByteAt(img, a + 1)
    + 0x1_0000 * ByteAt(img, a + 2) + 0x100_0000 * ByteAt(img, a + 3)
  }

  /** `ptr_to_addr`: the address a stored pointer designates. */
  function PtrToAddr(img: Image, a: int): (r: nat)
    ensures r < ADDR_SPAN
  {
    ByteAt(img, a) + 0x100 * ByteAt(img, a + 1) + 0x1_0000 * ByteAt(img, a + 2)
  }

  /** `is_ptr`: a ROM pointer (high byte 0x08) to an address inside the image. */
  predicate IsPtr(img: Image, a: int) {
    ByteAt(img, a + 3) == 0x08 && PtrToAddr(img, a) < |img|
  }

  /** `n` bytes from `a`, with the erased value past the end (`read_bytes`). */
  function BytesAt(img: Image, a: int, n: nat): (r: seq<Byte>)
    ensures |r| == n
    ensures forall i :: 0 <= i < n ==> r[i] == ByteAt(img, a + i)
  {
    seq<Byte>(n, i requires 0 <= i < n => ByteAt(img, a + i))
  }

  // ------------------------------------------------------------ encodings

  function EncodeWord(w: nat): (r: seq<Byte>)
    requires w < WORD_SPAN
    ensures |r| == 4
  {
    [w % 0x100, (w / 0x100) % 0x100, (w / 0x1_0000) % 0x100, w / 0x100_0000]
  }

  /** The four bytes `write_ptr` stores for `target`. */
  function EncodePtr(target: nat): (r: seq<Byte>)
    ensures |r| == 4
  {
    EncodeWord((target + ROM_BASE) % WORD_SPAN)
  }

  function Repeat(v: Byte, n: nat): (r: seq<Byte>)
    ensures |r| == n
    ensures forall i :: 0 <= i < n ==> r[i] == v
  {
    seq(n, _ => v)
  }

  // --------------------------------------------------------------- writes

  predicate InImage(img: Image, a: int, n: int) {
    0 <= a && 0 <= n && a + n <= |img|
  }

  /** `after` has the bytes of `before` everywhere outside `[a, a + n)`. */
  predicate SameExcept(before: Image, after: Image, a: int, n: nat) {
    |after| == |before| && forall i {:trigger after[i]} :: 0 <= i < |before| && !(a <= i < a + n) ==> after[i] == before[i]
  }

  /** `after` has the bytes of `before` everywhere outside `[a, a + n)` and `[b, b + m)`. */
  predicate SameExcept2(before: Image, after: Image, a: int, n: nat, b: int, m: nat) {
    |after| == |before|
    && forall i {:trigger after[i]} :: 0 <= i < |before| && !(a <= i < a + n) && !(b <= i < b + m) ==> after[i] == before[i]
  }

  /** `after` has the bytes of `before` everywhere below `bound`. */
  predicate KeptBelow(before: Image, after: Image, bound: int) {
    |after| == |before| && forall i {:trigger after[i]} :: 0 <= i < |before| && i < bound ==> after[i] == before[i]
  }

  function Min(x: int, y: int): int {
    if x < y then x else y
  }

  /** `bs` written over the image at `a`. */
  function Splice(img: Image, a: nat, bs: seq<Byte>): (r: Image)
    requires a + |bs| <= |img|
    ensures |r| == |img|
    ensures forall i {:trigger r[i]} :: 0 <= i < |img| && !(a <= i < a + |bs|) ==> r[i] == img[i]
    ensures forall i :: 0 <= i < |bs| ==> r[a + i] == bs[i]
  {
    seq(|img|, i requires 0 <= i < |img| => if a <= i < a + |bs| then bs[i - a] else img[i])
  }

  /** A checked write: the spliced image, or `OutOfImage`. */
  function Write(img: Image, a: int, bs: seq<Byte>): (r: Result<Image>)
    ensures r.Ok? <==> InImage(img, a, |bs|)
    ensures r.Ok? ==> r.value == Splice(img, a, bs)
    ensures r.Ok? ==> SameExcept(img, r.value, a, |bs|)
  {
    if InImage(img, a, |bs|) then Ok(Splice(img, a, bs)) else Err(OutOfImage)
  }

  /** `fill_with_data(a, n, v)`. */
  function Fill(img: Image, a: int, n: nat, v: Byte): (r: Result<Image>)
    ensures r.Ok? <==> InImage(img, a, n)
    ensures r.Ok? ==> |r.value| == |img|
    ensures r.Ok? ==> forall i {:trigger r.value[i]} :: 0 <= i < |img| ==>
              r.value[i] == (if a <= i < a + n then v else img[i])
    ensures r.Ok? ==> SameExcept(img, r.value, a, n)
  {
    Write(img, a, Repeat(v, n))
  }

  /** `write_word(a, w)`. */
  function WriteWord(img: Image, a: int, w: nat): (r: Result<Image>)
    requires w < WORD_SPAN
    ensures r.Ok? <==> InImage(img, a, 4)
    ensures r.Ok? ==> WordAt(r.value, a) == w
    ensures r.Ok? ==> r.value == Splice(img, a, EncodeWord(w))
  {
    var r := Write(img, a, EncodeWord(w));
    if r.Ok? then
      WordRecombines(w);
      assert ByteAt(r.value, a) == EncodeWord(w)[0] && ByteAt(r.value, a + 1) == EncodeWord(w)[1];
      assert ByteAt(r.value, a + 2) == EncodeWord(w)[2] && ByteAt(r.value, a + 3) == EncodeWord(w)[3];
      r
    else r
  }

  /** The four little-endian bytes of a word weigh back to the word. */
  lemma WordRecombines(w: nat)
    requires w < WORD_SPAN
    ensures var e := EncodeWord(w); e[0] as int + 0x100 * e[1] as int + 0x1_0000 * e[2] as int + 0x100_0000 * e[3] as int == w
  {
    var q1, q2, q3 := w / 0x100, w / 0x1_0000, w / 0x100_0000;
    assert q1 / 0x100 == q2 && q2 / 0x100 == q3;
    assert w == q1 * 0x100 + w % 0x100;
    assert q1 == q2 * 0x100 + q1 % 0x100;
    assert q2 == q3 * 0x100 + q2 % 0x100;
  }

  /** `write_ptr(target, a)`: store a pointer to `target` at `a`. */
  function WritePtr(img: Image, target: nat, a: int): (r: Result<Image>)
    ensures r.Ok? <==> InImage(img, a, 4)
    ensures r.Ok? ==> r.value == Splice(img, a, EncodePtr(target))
    ensures r.Ok? ==> SameExcept(img, r.value, a, 4)
  {
    Write(img, a, EncodePtr(target))
  }

  /** `move_data(src, dst, n, fill)`: the source range is overwritten with
      `fill`, then the saved bytes land at `dst` (so an overlap keeps the data). */
  function MoveData(img: Image, src: int, dst: int, n: nat, fill: Byte): (r: Result<Image>)
    ensures r.Ok? <==> InImage(img, src, n) && InImage(img, dst, n)
    ensures r.Ok? ==> |r.value| == |img|
    ensures r.Ok? ==> r.value[dst..dst + n] == img[src..src + n]
    ensures r.Ok? ==> forall i {:trigger r.value[i]} :: 0 <= i < |img| && !(dst <= i < dst + n) ==>
              r.value[i] == (if src <= i < src + n then fill else img[i])
  {
    if !InImage(img, src, n) then Err(OutOfImage)
    else
      var data := img[src..src + n];
      var cleared := Fill(img, src, n, fill).value;
      Write(cleared, dst, data)
  }

  /** `copy_data(src, dst, n)`. */
  function CopyData(img: Image, src: int, dst: int, n: nat): (r: Result<Image>)
    ensures r.Ok? <==> InImage(img, src, n) && InImage(img, dst, n)
    ensures r.Ok? ==> |r.value| == |img| && r.value[dst..dst + n] == img[src..src + n]
    ensures r.Ok? ==> forall i {:trigger r.value[i]} :: 0 <= i < |img| && !(dst <= i < dst + n) ==> r.value[i] == img[i]
  {
    if !InImage(img, src, n) then Err(OutOfImage)
    else Write(img, dst, img[src..src + n])
  }

  // --------------------------------------------------------------- lemmas

  /** The four bytes `write_ptr` stores: the three low address bytes, then
      the ROM bank byte 0x08. */
  lemma EncodePtrBytes(target: nat)
    requires target < ADDR_SPAN
    ensures EncodePtr(target) == [target % 0x100, (target / 0x100) % 0x100, target / 0x1_0000, 8]
  {
    var w: int := target + ROM_BASE;
    assert w % WORD_SPAN == w;
    var q1, q2 := target / 0x100, target / 0x1_0000;
    assert q1 / 0x100 == q2;
    Split256(w, q1 + 0x8_0000, target % 0x100);
    Split256(w / 0x100, q2 + 0x800, q1 % 0x100);
    Split256(q2 + 0x800, 8, q2);
    assert w / 0x1_0000 == w / 0x100 / 0x100;
    assert w / 0x100_0000 == w / 0x1_0000 / 0x100;
  }

  /** Four bytes holding the stored form of `target` read back as `target`,
      and they are a valid pointer exactly when `target` is inside the image. */
  lemma PtrDecode(img: Image, a: int, target: nat)
    requires target < ADDR_SPAN
    requires BytesAt(img, a, 4) == EncodePtr(target)
    ensures PtrToAddr(img, a) == target
    ensures IsPtr(img, a) <==> target < |img|
  {
    EncodePtrBytes(target);
    var b := BytesAt(img, a, 4);
    assert ByteAt(img, a) == b[0] == target % 0x100;
    assert ByteAt(img, a + 1) == b[1] == (target / 0x100) % 0x100;
    assert ByteAt(img, a + 2) == b[2] == target / 0x1_0000;
    assert ByteAt(img, a + 3) == b[3] == 8;
    assert target / 0x100 == (target / 0x1_0000) * 0x100 + (target / 0x100) % 0x100;
  }

  /** Reading back a stored pointer gives the target (a valid pointer exactly
      when the target lies inside the image). */
  lemma PtrRoundTrip(img: Image, target: nat, a: int)
    requires InImage(img, a, 4)
    requires target < ADDR_SPAN
    ensures PtrToAddr(Splice(img, a, EncodePtr(target)), a) == target
    ensures IsPtr(Splice(img, a, EncodePtr(target)), a) <==> target < |img|
  {
    var r := Splice(img, a, EncodePtr(target));
    assert BytesAt(r, a, 4) == EncodePtr(target);
    PtrDecode(r, a, target);
  }

  /** Reading the word at `a` and writing it back reproduces the same four
      bytes. */
  lemma WordReencode(img: Image, a: int)
    ensures EncodeWord(WordAt(img, a)) == BytesAt(img, a, 4)
  {
    var b0: int, b1: int, b2: int, b3: int := ByteAt(img, a), ByteAt(img, a + 1), ByteAt(img, a + 2), ByteAt(img, a + 3);
    var w := WordAt(img, a);
    Split256(w, b1 + 0x100 * b2 + 0x1_0000 * b3, b0);
    Split256(w / 0x100, b2 + 0x100 * b3, b1);
    Split256(w / 0x100 / 0x100, b3, b2);
    assert w / 0x1_0000 == w / 0x100 / 0x100;
    assert w / 0x100_0000 == w / 0x1_0000 / 0x100;
  }

  /** A write that misses the four bytes at `a` leaves the pointer there as it was. */
  lemma PtrUntouched(img: Image, img1: Image, a: int, b: int, n: nat)
    requires SameExcept(img, img1, b, n) && (a + 4 <= b || b + n <= a)
    ensures PtrToAddr(img1, a) == PtrToAddr(img, a) && IsPtr(img1, a) == IsPtr(img, a)
  {
    forall i | a <= i < a + 4 ensures ByteAt(img1, i) == ByteAt(img, i) {
      if 0 <= i < |img| {
        assert img1[i] == img[i];
      }
    }
  }

  /** A run of bytes outside the region a write changed reads the same
      afterwards. */
  lemma RunUntouched(img: Image, img1: Image, x: int, m: nat, b: int, n: nat)
    requires SameExcept(img, img1, b, n) && (x + m <= b || b + n <= x)
    ensures BytesAt(img1, x, m) == BytesAt(img, x, m)
  {
    forall i | 0 <= i < m ensures BytesAt(img1, x, m)[i] == BytesAt(img, x, m)[i] {
      if 0 <= x + i < |img| {
        assert img1[x + i] == img[x + i];
      }
    }
  }

  /** Quotient and remainder by 256 are determined by any exact decomposition. */
  lemma Split256(x: int, q: int, r: int)
    requires 0 <= r < 0x100 && x == q * 0x100 + r
    ensures x / 0x100 == q && x % 0x100 == r
  {
  }
}
