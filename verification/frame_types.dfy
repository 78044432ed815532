/**
  The eight sprite frame types: their two-byte signatures, pixel-block sizes
  and display dimensions (core.py:8-15, 162-229).
 */
module FrameTypes {
  import opened RomBytes

  /** A known frame type, numbered as the source numbers them. */
  type OwType = t: int | 1 <= t <= 8 witness 1

  /** What `get_type` answers for a signature that is none of the eight. */
  const UNKNOWN_TYPE: int := -1

  /** The signature stored 4 bytes into every frame-pointer entry. */
  function Signature(t: OwType): (r: seq<Byte>)
    ensures |r| == 2
  {
    match t
    case 1 => [0x00, 0x01]   // 16x32
    case 2 => [0x00, 0x02]   // 32x32
    case 3 => [0x80, 0x00]   // 16x16
    case 4 => [0x00, 0x08]   // 64x64
    case 5 => [0x00, 0x10]   // 128x64
    case 6 => [0x80, 0x04]   // 48x48
    case 7 => [0x80, 0x05]   // 88x32
    case 8 => [0x80, 0x07]   // 96x40
  }

  /** `get_frame_dimensions`: (width, height) in pixels. */
  function Dimensions(t: OwType): (int, int) {
    match t
    case 1 => (16, 32)
    case 2 => (32, 32)
    case 3 => (16, 16)
    case 4 => (64, 64)
    case 5 => (128, 64)
    case 6 => (48, 48)
    case 7 => (88, 32)
    case 8 => (96, 40)
  }

  /** `get_frame_size`: the byte size of one 4-bit-per-pixel frame, which is
      half the pixel count of the type's dimensions. */
  function FrameSize(t: OwType): (r: nat)
    ensures 2 * r == Dimensions(t).0 * Dimensions(t).1
    ensures 128 <= r <= 4096
  {
    match t
    case 1 => 256
    case 2 => 512
    case 3 => 128
    case 4 => 2048
    case 5 => 4096
    case 6 => 1152
    case 7 => 1408
    case 8 => 1920
  }

  /** The type whose signature is `[lo, hi]`, or -1 (`get_type`, core.py:435-463). */
  function TypeOfSignature(lo: Byte, hi: Byte): (r: int)
    ensures r == UNKNOWN_TYPE || 1 <= r <= 8
    ensures 1 <= r <= 8 ==> Signature(r) == [lo, hi]
    ensures r == UNKNOWN_TYPE <==> forall t: OwType :: Signature(t) != [lo, hi]
  {
    if [lo, hi] == Signature(1) then 1
    else if [lo, hi] == Signature(2) then 2
    else if [lo, hi] == Signature(3) then 3
    else if [lo, hi] == Signature(4) then 4
    else if [lo, hi] == Signature(5) then 5
    else if [lo, hi] == Signature(6) then 6
    else if [lo, hi] == Signature(7) then 7
    else if [lo, hi] == Signature(8) then 8
    else UNKNOWN_TYPE
  }

  /** No two types share a signature, so a signature names its type. */
  lemma SignaturesDistinct(t: OwType, u: OwType)
    ensures Signature(t) == Signature(u) ==> t == u
  {
  }

  /** Reading a written signature back recovers the type. */
  lemma SignatureRoundTrip(t: OwType)
    ensures TypeOfSignature(Signature(t)[0], Signature(t)[1]) == t
  {
    var s := Signature(t);
    assert [s[0], s[1]] == s;
    SignaturesDistinct(t, TypeOfSignature(s[0], s[1]));
  }
}
