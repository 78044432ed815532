/**
  Structural validators: byte-pattern predicates that decide what a stretch
  of the image holds (core.py:55-155, 275-305). They never fail: a read past
  the image sees erased bytes, which match none of the patterns that matter.
 */
module Validators {
  import opened RomBytes
  import opened FrameTypes
  import opened RecordFields

  /** The address every frame walk stops at (`FRAMES_END`). */
  const FRAMES_END: nat := 0x2135F0

  // Fill bytes of a freshly laid-out table (core.py:577-579): they double as
  // the tool's own markers.
  const TABLE_FILL: Byte := 0x11
  const RECORD_FILL: Byte := 0x22
  const PTRS_FILL: Byte := 0x33
  const TABLE_MAGIC: nat := 0x1111_1111
  const RECORD_POOL_MAGIC: nat := 0x2222_2222
  const PTRS_POOL_MAGIC: nat := 0x3333_3333

  const TABLE_SLOTS: nat := 256
  const SLOT_SIZE: nat := 4
  const TABLE_BYTES: nat := TABLE_SLOTS * SLOT_SIZE
  const ENTRY_SIZE: nat := 8     // one frame-pointer entry: pointer, signature, two spare bytes

  /** `is_ow_data`: both marker bytes are 0xFF and the five pointer fields
      at +0x10 … +0x20 are valid pointers. */
  predicate IsOwData(img: Image, a: nat) {
    && ByteAt(img, a) == 0xFF && ByteAt(img, a + 1) == 0xFF
    && IsPtr(img, a + 0x10) && IsPtr(img, a + 0x14) && IsPtr(img, a + ANIM_FIELD_A)
    && IsPtr(img, a + FRAMES_FIELD) && IsPtr(img, a + ANIM_FIELD_B)
  }

  /** `is_ow_data_ptr`. */
  predicate IsOwDataPtr(img: Image, a: int) {
    IsPtr(img, a) && IsOwData(img, PtrToAddr(img, a))
  }

  /** The type named by the signature of the frame-pointer entry at `a`, or -1. */
  function EntryType(img: Image, a: int): int {
    TypeOfSignature(ByteAt(img, a + 4), ByteAt(img, a + 5))
  }

  /** `is_frames_ptr`: a valid pointer followed by one of the eight signatures. */
  predicate IsFramesPtr(img: Image, a: int) {
    IsPtr(img, a) && EntryType(img, a) != UNKNOWN_TYPE
  }

  /** `is_frames_end`: the stored pointer designates `FRAMES_END`. */
  predicate IsFramesEnd(img: Image, a: int) {
    PtrToAddr(img, a) == FRAMES_END
  }

  /** `is_orig_table_ptr`: pointer to a slot pointing to a record whose
      frame-pointer field leads to a frame-pointer entry. */
  predicate IsOrigTablePtr(img: Image, a: int) {
    && IsPtr(img, a)
    && var slot := PtrToAddr(img, a);
    && IsPtr(img, slot)
    && var data := PtrToAddr(img, slot);
    && IsOwData(img, data)
    && IsFramesPtr(img, PtrToAddr(img, data + FRAMES_FIELD))
  }

  /** `is_owm_table_ptr`: the three metadata words after the 256 slots are
      pointers, and the first slot is either the fresh-table fill word or a
      record pointer. */
  predicate IsOwmTablePtr(img: Image, a: int) {
    && IsPtr(img, a)
    && var table := PtrToAddr(img, a);
    && var endOfTable := table + TABLE_BYTES;
    && IsPtr(img, endOfTable) && IsPtr(img, endOfTable + 4) && IsPtr(img, endOfTable + 8)
    && (WordAt(img, table) == TABLE_MAGIC || IsOwDataPtr(img, table))
  }

  /** `is_table_ptr`. */
  predicate IsTablePtr(img: Image, a: int) {
    IsOrigTablePtr(img, a) || IsOwmTablePtr(img, a)
  }

  /** `table_needs_repoint`: false when the metadata word after the slots
      leads to the record-pool marker, or to a record and then to the
      frame-pointer-pool marker or a frame-pointer entry; true otherwise. */
  predicate TableNeedsRepoint(img: Image, a: int) {
    var endOfTable := PtrToAddr(img, a) + TABLE_BYTES;
    if WordAt(img, PtrToAddr(img, endOfTable)) == RECORD_POOL_MAGIC then false
    else if !IsOwData(img, PtrToAddr(img, endOfTable)) then true
    else if !IsPtr(img, endOfTable + 4) then true
    else if WordAt(img, PtrToAddr(img, endOfTable + 4)) == PTRS_POOL_MAGIC then false
    else !IsFramesPtr(img, PtrToAddr(img, endOfTable + 4))
  }

  /** `available_frames_ptr_addr`: the `n` entries from `a` are all unused
      frame-pointer-pool bytes. */
  predicate AvailableEntries(img: Image, a: int, n: nat) {
    forall i :: a <= i < a + n * ENTRY_SIZE ==> ByteAt(img, i) == PTRS_FILL
  }

  // ------------------------------------------------------------- sublist

  /** `p` occurs in `l` starting at position `i`. */
  predicate OccursAt(p: seq<Byte>, l: seq<Byte>, i: int) {
    0 <= i && i + |p| <= |l| && l[i..i + |p|] == p
  }

  /** `p` occurs contiguously in `l`. */
  predicate Occurs(p: seq<Byte>, l: seq<Byte>) {
    exists i :: 0 <= i <= |l| && OccursAt(p, l, i)
  }

  /** Python's clamped slice `l[i:j]`. */
  function Slice(l: seq<Byte>, i: nat, j: nat): seq<Byte>
    requires i <= |l|
  {
    if j <= |l| then (if i <= j then l[i..j] else []) else l[i..]
  }

  /** `sublist`: 1 when the (non-empty) pattern occurs in the list, else 0. */
  method Sublist(pattern: seq<Byte>, list: seq<Byte>) returns (r: int)
    requires |pattern| > 0
    ensures r == 0 || r == 1
    ensures r == 1 <==> Occurs(pattern, list)
  {
    var i := 0;
    while i < |list|
      invariant 0 <= i <= |list|
      invariant forall j :: 0 <= j < i ==> !OccursAt(pattern, list, j)
    {
      assert OccursAt(pattern, list, i) <==>
        list[i] == pattern[0] && Slice(list, i, i + |pattern|) == pattern
      by {
        if OccursAt(pattern, list, i) {
          assert list[i..i + |pattern|][0] == list[i];
        }
      }
      if list[i] == pattern[0] && Slice(list, i, i + |pattern|) == pattern {
        return 1;
      }
      i := i + 1;
    }
    assert forall j :: OccursAt(pattern, list, j) ==> j < |list|;
    return 0;
  }

  // --------------------------------------------------------------- lemmas

  /** A record is recognised only when all of its 0x24 bytes lie inside the
      image: a read past the end answers 0, never a fault. */
  lemma OwDataInsideImage(img: Image, a: nat)
    ensures IsOwData(img, a) ==> InImage(img, a, RECORD_SIZE)
  {
  }

  /** A record whose first byte is a tombstone byte is no record. */
  lemma TombstoneIsNotOwData(img: Image, a: nat)
    requires ByteAt(img, a) == RECORD_FILL
    ensures !IsOwData(img, a)
  {
  }

  /** A frame-pointer entry written by the tool is recognised as one, with
      the type its signature names. */
  lemma EntryRecognised(img: Image, a: int, t: OwType)
    requires IsPtr(img, a) && ByteAt(img, a + 4) == Signature(t)[0] && ByteAt(img, a + 5) == Signature(t)[1]
    ensures IsFramesPtr(img, a) && EntryType(img, a) == t
  {
    SignatureRoundTrip(t);
  }
}
