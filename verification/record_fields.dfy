/**
  Accessors for the fields of a 0x24-byte sprite record (core.py:234-239,
  266-273, 307-343): palette id, palette slot, text colour, footprint byte,
  the two animation pointers, and the pointer to the record's frame-pointer
  array.
 */
module RecordFields {
  import opened RomBytes

  const RECORD_SIZE: nat := 0x24
  const PALETTE_ID_FIELD: nat := 2       // little-endian 16-bit value
  const PALETTE_SLOT_FIELD: nat := 12    // low nibble
  const FOOTPRINT_FIELD: nat := 13
  const TEXT_COLOR_FIELD: nat := 0xE
  const ANIM_FIELD_A: nat := 0x18
  const FRAMES_FIELD: nat := 0x1C        // pointer to the frame-pointer array
  const ANIM_FIELD_B: nat := 0x20

  // ------------------------------------------------------------ palette id

  /** `get_ow_palette_id`. */
  function GetPaletteId(img: Image, a: int): nat {
    ByteAt(img, a + PALETTE_ID_FIELD + 1) * 256 + ByteAt(img, a + PALETTE_ID_FIELD)
  }

  /** `write_ow_palette_id`: low byte at +2, high byte at +3. An id of 65536
      or more would make the source write a value that is not a byte. */
  function WritePaletteId(img: Image, a: int, id: nat): (r: Result<Image>)
    requires id < 0x1_0000
    ensures r.Ok? <==> InImage(img, a + PALETTE_ID_FIELD, 2)
    ensures r.Ok? ==> GetPaletteId(r.value, a) == id
    ensures r.Ok? ==> SameExcept(img, r.value, a + PALETTE_ID_FIELD, 2)
  {
    var r := Write(img, a + PALETTE_ID_FIELD, [id % 256, id / 256]);
    if r.Ok? then
      assert r.value[a + 2] == id % 256 && r.value[a + 3] == id / 256;
      r
    else r
  }

  // ---------------------------------------------------------- palette slot

  /** `get_palette_slot`: the low nibble of byte +12. */
  function GetPaletteSlot(img: Image, a: int): (r: nat)
    ensures r < 16
  {
    ByteAt(img, a + PALETTE_SLOT_FIELD) % 16
  }

  /** The high nibble of byte +12, which the palette-slot write keeps. */
  function PaletteHigh(img: Image, a: int): nat {
    ByteAt(img, a + PALETTE_SLOT_FIELD) / 16
  }

  /** `write_palette_slot`: keeps the high nibble of byte +12 and adds the slot
      to it; the sum must still be a byte for the source's write to succeed. */
  function WritePaletteSlot(img: Image, a: int, slot: nat): (r: Result<Image>)
    requires (ByteAt(img, a + PALETTE_SLOT_FIELD) / 16) * 16 + slot < 256
    ensures r.Ok? <==> InImage(img, a + PALETTE_SLOT_FIELD, 1)
    ensures r.Ok? ==> SameExcept(img, r.value, a + PALETTE_SLOT_FIELD, 1)
    ensures r.Ok? && slot < 16 ==> GetPaletteSlot(r.value, a) == slot
    ensures r.Ok? && slot < 16 ==> PaletteHigh(r.value, a) == PaletteHigh(img, a)
  {
    var high := ByteAt(img, a + PALETTE_SLOT_FIELD) / 16;
    var r := Write(img, a + PALETTE_SLOT_FIELD, [high * 16 + slot]);
    if r.Ok? then
      assert r.value[a + 12] == high * 16 + slot;
      r
    else r
  }

  /** Any slot below 16 fits next to any high nibble. */
  lemma SlotFits(b: Byte, slot: nat)
    requires slot < 16
    ensures (b / 16) * 16 + slot < 256
  {
    assert b / 16 <= 15;
  }

  // ----------------------------------------------- text colour, footprint

  /** `get_text_color`. */
  function GetTextColor(img: Image, a: int): Byte {
    ByteAt(img, a + TEXT_COLOR_FIELD)
  }

  /** `set_text_color`. */
  function SetTextColor(img: Image, a: int, v: Byte): (r: Result<Image>)
    ensures r.Ok? <==> InImage(img, a + TEXT_COLOR_FIELD, 1)
    ensures r.Ok? ==> GetTextColor(r.value, a) == v
    ensures r.Ok? ==> SameExcept(img, r.value, a + TEXT_COLOR_FIELD, 1)
  {
    var r := Write(img, a + TEXT_COLOR_FIELD, [v]);
    if r.Ok? then
      assert r.value[a + TEXT_COLOR_FIELD] == v;
      r
    else r
  }

  /** `get_footprint`. */
  function GetFootprint(img: Image, a: int): Byte {
    ByteAt(img, a + FOOTPRINT_FIELD)
  }

  /** `set_footprint` (also the raw `write_byte(addr + 13, …)` of `resize_ow`). */
  function SetFootprint(img: Image, a: int, v: Byte): (r: Result<Image>)
    ensures r.Ok? <==> InImage(img, a + FOOTPRINT_FIELD, 1)
    ensures r.Ok? ==> GetFootprint(r.value, a) == v
    ensures r.Ok? ==> SameExcept(img, r.value, a + FOOTPRINT_FIELD, 1)
  {
    var r := Write(img, a + FOOTPRINT_FIELD, [v]);
    if r.Ok? then
      assert r.value[a + FOOTPRINT_FIELD] == v;
      r
    else r
  }

  // ------------------------------------------------------------- animation

  /** `get_animation_addr`: the targets of the pointers at +0x18 and +0x20. */
  function GetAnimation(img: Image, a: int): (nat, nat) {
    (PtrToAddr(img, a + ANIM_FIELD_A), PtrToAddr(img, a + ANIM_FIELD_B))
  }

  /** `write_animation_ptr`: stores both animation pointers and leaves the
      frame-pointer field between them alone. */
  function WriteAnimation(img: Image, a: int, anim: (nat, nat)): (r: Result<Image>)
    ensures r.Ok? <==> InImage(img, a + ANIM_FIELD_A, 4) && InImage(img, a + ANIM_FIELD_B, 4)
    ensures r.Ok? && anim.0 < ADDR_SPAN && anim.1 < ADDR_SPAN ==> GetAnimation(r.value, a) == anim
    ensures r.Ok? ==> SameExcept2(img, r.value, a + ANIM_FIELD_A, 4, a + ANIM_FIELD_B, 4)
  {
    var img1 :- WritePtr(img, anim.0, a + ANIM_FIELD_A);
    var r := WritePtr(img1, anim.1, a + ANIM_FIELD_B);
    if r.Ok? && anim.0 < ADDR_SPAN && anim.1 < ADDR_SPAN then
      PtrRoundTrip(img, anim.0, a + ANIM_FIELD_A);
      PtrRoundTrip(img1, anim.1, a + ANIM_FIELD_B);
      PtrUntouched(img1, r.value, a + ANIM_FIELD_A, a + ANIM_FIELD_B, 4);
      r
    else r
  }

  // ---------------------------------------------------------------- lemmas

  /** Writing a palette id and reading it back round-trips, and the palette
      slot byte, footprint and text colour are untouched. */
  lemma PaletteIdRoundTrip(img: Image, a: int, id: nat)
    requires id < 0x1_0000 && InImage(img, a + PALETTE_ID_FIELD, 2)
    ensures WritePaletteId(img, a, id).Ok?
    ensures GetPaletteId(WritePaletteId(img, a, id).value, a) == id
    ensures GetPaletteSlot(WritePaletteId(img, a, id).value, a) == GetPaletteSlot(img, a)
    ensures GetTextColor(WritePaletteId(img, a, id).value, a) == GetTextColor(img, a)
  {
  }

  /** Writing a slot below 16 and reading it back round-trips. */
  lemma PaletteSlotRoundTrip(img: Image, a: int, slot: nat)
    requires slot < 16 && InImage(img, a + PALETTE_SLOT_FIELD, 1)
    ensures WritePaletteSlot(img, a, slot).Ok?
    ensures GetPaletteSlot(WritePaletteSlot(img, a, slot).value, a) == slot
    ensures GetPaletteId(WritePaletteSlot(img, a, slot).value, a) == GetPaletteId(img, a)
  {
    assert (ByteAt(img, a + PALETTE_SLOT_FIELD) / 16) * 16 <= 240;
  }
}
