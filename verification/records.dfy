/**
  A sprite record (`OWData`, core.py:489-552): the 0x24-byte data block in
  the record pool, the table slot that points at it, and its frame set.
  Records are instantiated from a type template, tombstoned with 0x22 when
  cleared, and shifted by one slot left or right.
 */
module Records {
  import opened RomBytes
  import opened FrameTypes
  import opened RecordFields
  import opened Validators
  import opened FrameSets

  /** `OWData`: the slot pointing at the record, the record's address, the
      start of the pool new records are placed in, and the frame set. */
  datatype Record = Record(slotAddr: nat, dataAddr: nat, dataPool: nat, frames: FrameSet)

  /** The eight 36-byte record templates, one per type (`get_template`). */
  predicate WellFormedTemplates(templates: seq<seq<Byte>>) {
    |templates| == 8 && forall i :: 0 <= i < 8 ==> |templates[i]| == RECORD_SIZE
  }

  /** The regions `[a, a + n)` and `[b, b + m)` do not overlap. */
  predicate Disjoint(a: int, n: nat, b: int, m: nat) {
    a + n <= b || b + m <= a
  }

  /** The `n` bytes from `a` hold the record-pool fill byte 0x22. */
  predicate Tombstoned(img: Image, a: int, n: nat) {
    forall i :: a <= i < a + n ==> ByteAt(img, i) == RECORD_FILL
  }

  // ------------------------------------------------------------ placement

  /** How many 0x24-stride addresses from `a` hold records before the first
      that does not. Finite: past the end of the image nothing is a record. */
  function FreeRecordIndex(img: Image, a: nat): (k: nat)
    ensures !IsOwData(img, Stride(a, k, RECORD_SIZE))
    ensures forall j :: 0 <= j < k ==> IsOwData(img, Stride(a, j, RECORD_SIZE))
    decreases |img| - a
  {
    if !IsOwData(img, a) then 0
    else
      OwDataInsideImage(img, a);
      var k := FreeRecordIndex(img, a + RECORD_SIZE);
      assert forall j :: 1 <= j <= k + 1 ==>
        Stride(a, j, RECORD_SIZE) == Stride(a + RECORD_SIZE, j - 1, RECORD_SIZE);
      k + 1
  }

  /** `find_available_ow_data_addr`: the first 0x24-stride address from `a`
      that holds no record. */
  function FindFreeRecordAddr(img: Image, a: nat): (r: nat)
    ensures a <= r && r == Stride(a, FreeRecordIndex(img, a), RECORD_SIZE)
    ensures !IsOwData(img, r)
    ensures forall k :: 0 <= k < FreeRecordIndex(img, a) ==> IsOwData(img, Stride(a, k, RECORD_SIZE))
  {
    Stride(a, FreeRecordIndex(img, a), RECORD_SIZE)
  }

  /** `add_ow_data`: copies the type's template into the first free record
      address of the pool, then points its frame-pointer field at `framesPtrs`. */
  function AddOwData(img: Image, templates: seq<seq<Byte>>, t: OwType, rec: Record, framesPtrs: nat)
    : (r: Result<(Image, Record)>)
    requires WellFormedTemplates(templates)
    ensures r.Ok? ==> r.value.1 == rec.(dataAddr := FindFreeRecordAddr(img, rec.dataPool))
    ensures r.Ok? <==> InImage(img, FindFreeRecordAddr(img, rec.dataPool), RECORD_SIZE)
    ensures r.Ok? ==> SameExcept(img, r.value.0, r.value.1.dataAddr, RECORD_SIZE)
    ensures r.Ok? ==> var d := r.value.1.dataAddr;
              && BytesAt(r.value.0, d, FRAMES_FIELD) == templates[t - 1][..FRAMES_FIELD]
              && BytesAt(r.value.0, d + ANIM_FIELD_B, 4) == templates[t - 1][ANIM_FIELD_B..]
              && BytesAt(r.value.0, d + FRAMES_FIELD, 4) == EncodePtr(framesPtrs)
  {
    var d := FindFreeRecordAddr(img, rec.dataPool);
    var img1 :- Write(img, d, templates[t - 1]);
    var img2 := WritePtr(img1, framesPtrs, d + FRAMES_FIELD).value;
    assert BytesAt(img2, d, FRAMES_FIELD) == templates[t - 1][..FRAMES_FIELD] by {
      forall i | 0 <= i < FRAMES_FIELD
        ensures BytesAt(img2, d, FRAMES_FIELD)[i] == templates[t - 1][i]
      {
        assert img2[d + i] == img1[d + i];
      }
    }
    var tail := templates[t - 1][ANIM_FIELD_B..];
    assert BytesAt(img2, d + ANIM_FIELD_B, 4) == tail by {
      forall i | 0 <= i < 4
        ensures BytesAt(img2, d + ANIM_FIELD_B, 4)[i] == tail[i]
      {
        assert img2[d + ANIM_FIELD_B + i] == img1[d + ANIM_FIELD_B + i];
      }
    }
    assert BytesAt(img2, d + FRAMES_FIELD, 4) == EncodePtr(framesPtrs) by {
      forall i | 0 <= i < 4
        ensures BytesAt(img2, d + FRAMES_FIELD, 4)[i] == EncodePtr(framesPtrs)[i]
      {
        assert img2[d + FRAMES_FIELD + i] == EncodePtr(framesPtrs)[i];
      }
    }
    Ok((img2, rec.(dataAddr := d)))
  }

  // ------------------------------------------------------------- clearing

  /** `OWData.clear`: clears the frame set, then tombstones the 36 record
      bytes with 0x22. */
  function ClearRecord(img: Image, rec: Record): (r: Result<Image>)
    ensures r.Ok? ==> Clear(img, rec.frames).Ok?
    ensures r.Ok? ==> !IsOwData(r.value, rec.dataAddr)
    ensures r.Ok? ==> Tombstoned(r.value, rec.dataAddr, RECORD_SIZE)
    ensures r.Ok? ==> KeptBelow(img, r.value, Min(rec.dataAddr, LowestFrame(rec)))
  {
    var img1 :- Clear(img, rec.frames);
    var r := Fill(img1, rec.dataAddr, RECORD_SIZE, RECORD_FILL);
    if r.Ok? then
      assert forall i :: rec.dataAddr <= i < rec.dataAddr + RECORD_SIZE ==> r.value[i] == RECORD_FILL;
      TombstoneIsNotOwData(r.value, rec.dataAddr);
      r
    else r
  }

  /** The lowest address a record's frame set occupies. */
  function LowestFrame(rec: Record): int {
    Min(rec.frames.ptrsAddr, rec.frames.pixelsAddr)
  }

  /** `OWData.remove`: clears the record and tombstones its table slot. */
  function RemoveRecord(img: Image, rec: Record): (r: Result<Image>)
    ensures r.Ok? ==> ClearRecord(img, rec).Ok?
    ensures r.Ok? ==> Tombstoned(r.value, rec.slotAddr, SLOT_SIZE)
    ensures r.Ok? ==> KeptBelow(img, r.value, Min(rec.slotAddr, Min(rec.dataAddr, LowestFrame(rec))))
    ensures r.Ok? && Disjoint(rec.slotAddr, SLOT_SIZE, rec.dataAddr, RECORD_SIZE) ==>
              Tombstoned(r.value, rec.dataAddr, RECORD_SIZE)
  {
    var img1 :- ClearRecord(img, rec);
    var r := Fill(img1, rec.slotAddr, SLOT_SIZE, RECORD_FILL);
    if r.Ok? then
      assert KeptBelow(img, img1, Min(rec.dataAddr, LowestFrame(rec)));
      assert forall i :: rec.slotAddr <= i < rec.slotAddr + SLOT_SIZE ==> r.value[i] == RECORD_FILL;
      assert Disjoint(rec.slotAddr, SLOT_SIZE, rec.dataAddr, RECORD_SIZE) ==>
        Tombstoned(r.value, rec.dataAddr, RECORD_SIZE)
      by {
        forall i | rec.dataAddr <= i < rec.dataAddr + RECORD_SIZE
                   && Disjoint(rec.slotAddr, SLOT_SIZE, rec.dataAddr, RECORD_SIZE)
          ensures ByteAt(r.value, i) == RECORD_FILL
        {
          assert ByteAt(img1, i) == RECORD_FILL;
        }
      }
      r
    else r
  }

  // ------------------------------------------------------------- shifting

  /** `a` moved by one `unit` in direction `dir` (-1 or +1). */
  function Shift(a: int, dir: int, unit: nat): int {
    if dir == 1 then a + unit else a - unit
  }

  /** One record shifted `dir` slots (-1 or +1): the data block moves 36
      bytes, the old slot is pointed at the new block, then the slot itself
      moves 4 bytes; both vacated places are tombstoned with 0x22. */
  function MoveBy(img: Image, rec: Record, dir: int): (r: Result<(Image, Record)>)
    requires dir == -1 || dir == 1
    ensures r.Ok? <==>
              && InImage(img, rec.dataAddr, RECORD_SIZE) && InImage(img, Shift(rec.dataAddr, dir, RECORD_SIZE), RECORD_SIZE)
              && InImage(img, rec.slotAddr, SLOT_SIZE) && InImage(img, Shift(rec.slotAddr, dir, SLOT_SIZE), SLOT_SIZE)
    ensures r.Ok? ==> r.value.1 == rec.(slotAddr := Shift(rec.slotAddr, dir, SLOT_SIZE),
                                        dataAddr := Shift(rec.dataAddr, dir, RECORD_SIZE))
    ensures r.Ok? ==> |r.value.0| == |img|
  {
    var d := rec.dataAddr;
    var s := rec.slotAddr;
    var img1 :- MoveData(img, d, Shift(d, dir, RECORD_SIZE), RECORD_SIZE, RECORD_FILL);
    var img2 :- WritePtr(img1, Shift(d, dir, RECORD_SIZE), s);
    var img3 :- MoveData(img2, s, Shift(s, dir, SLOT_SIZE), SLOT_SIZE, RECORD_FILL);
    Ok((img3, rec.(slotAddr := Shift(s, dir, SLOT_SIZE), dataAddr := Shift(d, dir, RECORD_SIZE))))
  }

  /** `move_left`: the record and its slot each move one place down. */
  function MoveLeft(img: Image, rec: Record): (r: Result<(Image, Record)>)
    ensures r.Ok? <==>
              && InImage(img, rec.dataAddr - RECORD_SIZE, 2 * RECORD_SIZE)
              && InImage(img, rec.slotAddr - SLOT_SIZE, 2 * SLOT_SIZE)
    ensures r.Ok? ==> |r.value.0| == |img|
    ensures r.Ok? ==> r.value.1.dataAddr + RECORD_SIZE == rec.dataAddr
    ensures r.Ok? ==> r.value.1.slotAddr + SLOT_SIZE == rec.slotAddr
  {
    MoveBy(img, rec, -1)
  }

  /** `move_right`: the record and its slot each move one place up. */
  function MoveRight(img: Image, rec: Record): (r: Result<(Image, Record)>)
    ensures r.Ok? <==>
              && InImage(img, rec.dataAddr, 2 * RECORD_SIZE)
              && InImage(img, rec.slotAddr, 2 * SLOT_SIZE)
    ensures r.Ok? ==> |r.value.0| == |img|
    ensures r.Ok? ==> r.value.1.dataAddr == rec.dataAddr + RECORD_SIZE
    ensures r.Ok? ==> r.value.1.slotAddr == rec.slotAddr + SLOT_SIZE
  {
    MoveBy(img, rec, 1)
  }

  /** A successful `move_left` on disjoint places has the effect `Moved` describes. */
  lemma MoveLeftEffect(img: Image, rec: Record)
    requires MoveLeft(img, rec).Ok? && |img| <= ADDR_SPAN
    requires Disjoint(rec.dataAddr - RECORD_SIZE, 2 * RECORD_SIZE, rec.slotAddr - SLOT_SIZE, 2 * SLOT_SIZE)
    ensures Moved(img, MoveLeft(img, rec).value.0, rec, -1)
  {
    MoveByEffect(img, rec, -1);
  }

  /** A successful `move_right` on disjoint places has the effect `Moved` describes. */
  lemma MoveRightEffect(img: Image, rec: Record)
    requires MoveRight(img, rec).Ok? && |img| <= ADDR_SPAN
    requires Disjoint(rec.dataAddr, 2 * RECORD_SIZE, rec.slotAddr, 2 * SLOT_SIZE)
    ensures Moved(img, MoveRight(img, rec).value.0, rec, 1)
  {
    MoveByEffect(img, rec, 1);
  }

  /** What a shift by `dir` achieves: the 36 bytes sit one record further,
      the slot one slot further decodes to their new address, both vacated
      places hold 0x22, and nothing outside the two record places and the
      two slots changes. */
  predicate Moved(before: Image, after: Image, rec: Record, dir: int) {
    var d := rec.dataAddr;
    var s := rec.slotAddr;
    var d' := Shift(d, dir, RECORD_SIZE);
    var s' := Shift(s, dir, SLOT_SIZE);
    && 0 <= d'
    && BytesAt(after, d', RECORD_SIZE) == BytesAt(before, d, RECORD_SIZE)
    && IsPtr(after, s') && PtrToAddr(after, s') == d'
    && Tombstoned(after, d, RECORD_SIZE)
    && Tombstoned(after, s, SLOT_SIZE)
    && SameExcept2(before, after, if dir == 1 then d else d', 2 * RECORD_SIZE, if dir == 1 then s else s', 2 * SLOT_SIZE)
  }

  // ----------------------------------------------------------------- lemmas

  /** The effect of a successful shift on disjoint record and slot places. */
  lemma MoveByEffect(img: Image, rec: Record, dir: int)
    requires dir == -1 || dir == 1
    requires MoveBy(img, rec, dir).Ok? && |img| <= ADDR_SPAN
    requires Disjoint(if dir == 1 then rec.dataAddr else rec.dataAddr - RECORD_SIZE, 2 * RECORD_SIZE,
                      if dir == 1 then rec.slotAddr else rec.slotAddr - SLOT_SIZE, 2 * SLOT_SIZE)
    ensures Moved(img, MoveBy(img, rec, dir).value.0, rec, dir)
  {
    MovedBlock(img, rec, dir);
    MovedVacated(img, rec, dir);
    MovedSlot(img, rec, dir);
    MovedFrame(img, rec, dir);
  }

  lemma MovedBlock(img: Image, rec: Record, dir: int)
    requires dir == -1 || dir == 1
    requires MoveBy(img, rec, dir).Ok? && |img| <= ADDR_SPAN
    requires Disjoint(if dir == 1 then rec.dataAddr else rec.dataAddr - RECORD_SIZE, 2 * RECORD_SIZE,
                      if dir == 1 then rec.slotAddr else rec.slotAddr - SLOT_SIZE, 2 * SLOT_SIZE)
    ensures var d' := Shift(rec.dataAddr, dir, RECORD_SIZE);
            0 <= d' && BytesAt(MoveBy(img, rec, dir).value.0, d', RECORD_SIZE) == BytesAt(img, rec.dataAddr, RECORD_SIZE)
  {
    var d := rec.dataAddr;
    var s := rec.slotAddr;
    var d' := Shift(d, dir, RECORD_SIZE);
    var s' := Shift(s, dir, SLOT_SIZE);
    var img1 := MoveData(img, d, d', RECORD_SIZE, RECORD_FILL).value;
    var img2 := WritePtr(img1, d', s).value;
    var r := MoveData(img2, s, s', SLOT_SIZE, RECORD_FILL).value;
    assert r == MoveBy(img, rec, dir).value.0;
    forall i | 0 <= i < RECORD_SIZE
      ensures BytesAt(r, d', RECORD_SIZE)[i] == BytesAt(img, d, RECORD_SIZE)[i]
    {
      assert img1[d'..d' + RECORD_SIZE][i] == img[d..d + RECORD_SIZE][i];
      assert r[d' + i] == img2[d' + i] == img1[d' + i];
    }
  }

  lemma MovedVacated(img: Image, rec: Record, dir: int)
    requires dir == -1 || dir == 1
    requires MoveBy(img, rec, dir).Ok? && |img| <= ADDR_SPAN
    requires Disjoint(if dir == 1 then rec.dataAddr else rec.dataAddr - RECORD_SIZE, 2 * RECORD_SIZE,
                      if dir == 1 then rec.slotAddr else rec.slotAddr - SLOT_SIZE, 2 * SLOT_SIZE)
    ensures Tombstoned(MoveBy(img, rec, dir).value.0, rec.dataAddr, RECORD_SIZE)
    ensures Tombstoned(MoveBy(img, rec, dir).value.0, rec.slotAddr, SLOT_SIZE)
  {
    var d := rec.dataAddr;
    var s := rec.slotAddr;
    var d' := Shift(d, dir, RECORD_SIZE);
    var s' := Shift(s, dir, SLOT_SIZE);
    var img1 := MoveData(img, d, d', RECORD_SIZE, RECORD_FILL).value;
    var img2 := WritePtr(img1, d', s).value;
    var r := MoveData(img2, s, s', SLOT_SIZE, RECORD_FILL).value;
    assert r == MoveBy(img, rec, dir).value.0;
    forall i | d <= i < d + RECORD_SIZE
      ensures ByteAt(r, i) == RECORD_FILL
    {
      assert r[i] == img2[i] == img1[i];
    }
  }

  lemma MovedSlot(img: Image, rec: Record, dir: int)
    requires dir == -1 || dir == 1
    requires MoveBy(img, rec, dir).Ok? && |img| <= ADDR_SPAN
    requires Disjoint(if dir == 1 then rec.dataAddr else rec.dataAddr - RECORD_SIZE, 2 * RECORD_SIZE,
                      if dir == 1 then rec.slotAddr else rec.slotAddr - SLOT_SIZE, 2 * SLOT_SIZE)
    ensures var s' := Shift(rec.slotAddr, dir, SLOT_SIZE);
            var d' := Shift(rec.dataAddr, dir, RECORD_SIZE);
            IsPtr(MoveBy(img, rec, dir).value.0, s') && PtrToAddr(MoveBy(img, rec, dir).value.0, s') == d'
  {
    var d := rec.dataAddr;
    var s := rec.slotAddr;
    var d' := Shift(d, dir, RECORD_SIZE);
    var s' := Shift(s, dir, SLOT_SIZE);
    var img1 := MoveData(img, d, d', RECORD_SIZE, RECORD_FILL).value;
    var img2 := WritePtr(img1, d', s).value;
    var r := MoveData(img2, s, s', SLOT_SIZE, RECORD_FILL).value;
    assert r == MoveBy(img, rec, dir).value.0;
    assert BytesAt(r, s', 4) == EncodePtr(d') by {
      forall i | 0 <= i < 4 ensures BytesAt(r, s', 4)[i] == EncodePtr(d')[i] {
        assert r[s'..s' + SLOT_SIZE][i] == img2[s..s + SLOT_SIZE][i];
      }
    }
    PtrDecode(r, s', d');
  }

  lemma MovedFrame(img: Image, rec: Record, dir: int)
    requires dir == -1 || dir == 1
    requires MoveBy(img, rec, dir).Ok? && |img| <= ADDR_SPAN
    requires Disjoint(if dir == 1 then rec.dataAddr else rec.dataAddr - RECORD_SIZE, 2 * RECORD_SIZE,
                      if dir == 1 then rec.slotAddr else rec.slotAddr - SLOT_SIZE, 2 * SLOT_SIZE)
    ensures var d := rec.dataAddr;
            var s := rec.slotAddr;
            SameExcept2(img, MoveBy(img, rec, dir).value.0,
                        if dir == 1 then d else d - RECORD_SIZE, 2 * RECORD_SIZE,
                        if dir == 1 then s else s - SLOT_SIZE, 2 * SLOT_SIZE)
  {
    var d := rec.dataAddr;
    var s := rec.slotAddr;
    var d' := Shift(d, dir, RECORD_SIZE);
    var s' := Shift(s, dir, SLOT_SIZE);
    var img1 := MoveData(img, d, d', RECORD_SIZE, RECORD_FILL).value;
    var img2 := WritePtr(img1, d', s).value;
    var r := MoveData(img2, s, s', SLOT_SIZE, RECORD_FILL).value;
    assert r == MoveBy(img, rec, dir).value.0;
  }
}
