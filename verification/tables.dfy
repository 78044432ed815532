/**
  A sprite table (`OWPointerTable`, core.py:554-702): 256 four-byte slots,
  three metadata pointers after them (record pool, frame-pointer pool, pixel
  pool), and the list of records the slots designate. The list is always a
  fresh scan of the slots: every operation ends by rescanning.
 */
module Tables {
  import opened RomBytes
  import opened FrameTypes
  import opened FreeSpace
  import opened RecordFields
  import opened Validators
  import opened FrameSets
  import opened Records
  import opened Shifts

  /** Frame-pointer entries reserved per record when a table is laid out. */
  const FRAMES_PER_OW: nat := 15
  /** `ptr_to_addr` of four erased bytes: the mark of a table not laid out yet. */
  const FRESH_MARK: nat := 0xFF_FFFF
  /** The palette slot `add_ow` gives every new record. */
  const NEW_PALETTE_SLOT: nat := 0xA

  /** `OWPointerTable`: the slot array, the three pools, and the records. */
  datatype Table = Table(tableAddr: nat, dataPool: nat, ptrsPool: nat, pixelsPool: nat, records: seq<Record>)

  /** `end_of_table`: where the metadata pointers start. */
  function EndOfTable(tbl: Table): nat {
    tbl.tableAddr + TABLE_BYTES
  }

  /** `ow_initializer`: the record the pointer in `slot` designates, with its
      frame set read through the record's frame-pointer field. */
  function RecordAt(img: Image, tbl: Table, slot: nat): Record {
    var data := PtrToAddr(img, slot);
    var framesPtrs := PtrToAddr(img, data + FRAMES_FIELD);
    Record(slot, data, tbl.dataPool,
           FrameSet(framesPtrs, PtrToAddr(img, framesPtrs), tbl.ptrsPool, tbl.pixelsPool))
  }

  // ----------------------------------------------------------------- scans

  /** The constructor's walk from slot `c`: one record per valid pointer, up
      to the first slot that is not one or to the end of the slot array. */
  function ScanSlots(img: Image, tbl: Table, c: nat): (r: seq<Record>)
    requires c <= EndOfTable(tbl) && (EndOfTable(tbl) - c) % SLOT_SIZE == 0
    ensures |r| <= (EndOfTable(tbl) - c) / SLOT_SIZE
    ensures forall i :: 0 <= i < |r| ==>
              IsPtr(img, SlotAt(c, i)) && r[i] == RecordAt(img, tbl, SlotAt(c, i))
    ensures SlotAt(c, |r|) == EndOfTable(tbl) || !IsPtr(img, SlotAt(c, |r|))
    decreases EndOfTable(tbl) - c
  {
    if c == EndOfTable(tbl) || !IsPtr(img, c) then []
    else
      var rest := ScanSlots(img, tbl, c + SLOT_SIZE);
      var r := [RecordAt(img, tbl, c)] + rest;
      assert forall i :: 1 <= i <= |rest| + 1 ==> SlotAt(c, i) == SlotAt(c + SLOT_SIZE, i - 1);
      assert forall i :: 1 <= i < |r| ==> r[i] == rest[i - 1];
      r
  }

  /** The records of a table as the slots in `img` designate them. */
  function Scan(img: Image, tbl: Table): (r: seq<Record>)
    ensures |r| <= TABLE_SLOTS
    ensures forall i :: 0 <= i < |r| ==> r[i].slotAddr == SlotAt(tbl.tableAddr, i)
    ensures forall i :: 0 <= i < |r| ==>
              IsPtr(img, SlotAt(tbl.tableAddr, i)) && r[i] == RecordAt(img, tbl, SlotAt(tbl.tableAddr, i))
    ensures |r| == TABLE_SLOTS || !IsPtr(img, SlotAt(tbl.tableAddr, |r|))
  {
    ScanSlots(img, tbl, tbl.tableAddr)
  }

  /** `re_initialize_ow`: the same walk, written as the source's loop. */
  method Reinitialize(img: Image, tbl: Table) returns (recs: seq<Record>)
    ensures recs == Scan(img, tbl)
  {
    recs := [];
    var c := tbl.tableAddr;
    while true
      invariant |recs| <= TABLE_SLOTS && c == SlotAt(tbl.tableAddr, |recs|)
      invariant forall i :: 0 <= i < |recs| ==> IsPtr(img, SlotAt(tbl.tableAddr, i))
      invariant forall i :: 0 <= i < |recs| ==> recs[i] == RecordAt(img, tbl, SlotAt(tbl.tableAddr, i))
      decreases TABLE_SLOTS - |recs|
    {
      if IsPtr(img, c) {
        if c == EndOfTable(tbl) {
          break;
        }
        recs := recs + [RecordAt(img, tbl, c)];
        c := c + SLOT_SIZE;
      } else {
        break;
      }
    }
    ScanLength(img, tbl, |recs|);
  }

  /** The scan finds exactly `m` records when slots `0 … m-1` hold valid
      pointers and slot `m` does not, or is the end of the slot array. */
  lemma ScanLength(img: Image, tbl: Table, m: nat)
    requires m <= TABLE_SLOTS
    requires forall i :: 0 <= i < m ==> IsPtr(img, SlotAt(tbl.tableAddr, i))
    requires m == TABLE_SLOTS || !IsPtr(img, SlotAt(tbl.tableAddr, m))
    ensures |Scan(img, tbl)| == m
  {
    var r := ScanSlots(img, tbl, tbl.tableAddr);
    assert |r| < m ==> IsPtr(img, SlotAt(tbl.tableAddr, |r|));
    assert |r| > m ==> IsPtr(img, SlotAt(tbl.tableAddr, m));
  }

  /** `find_available_ow_ptr`: the first slot from `a` without a valid
      pointer. Always found: past the image nothing is a pointer. */
  function FindFreeSlot(img: Image, a: nat): (r: nat)
    ensures a <= r && (r - a) % SLOT_SIZE == 0
    ensures !IsPtr(img, r)
    ensures forall k :: 0 <= k < (r - a) / SLOT_SIZE ==> IsPtr(img, SlotAt(a, k))
    decreases |img| - a
  {
    if !IsPtr(img, a) then a
    else
      var r := FindFreeSlot(img, a + SLOT_SIZE);
      assert forall k :: 1 <= k < (r - a) / SLOT_SIZE ==> SlotAt(a, k) == SlotAt(a + SLOT_SIZE, k - 1);
      r
  }

  /** The first free slot is slot `m` when slots `0 … m-1` hold valid
      pointers and slot `m` does not. */
  lemma FreeSlotIs(img: Image, a: nat, m: nat)
    requires forall k :: 0 <= k < m ==> IsPtr(img, SlotAt(a, k))
    requires !IsPtr(img, SlotAt(a, m))
    ensures FindFreeSlot(img, a) == SlotAt(a, m)
  {
    var r := FindFreeSlot(img, a);
    var k := (r - a) / SLOT_SIZE;
    assert r == SlotAt(a, k);
    assert k < m ==> IsPtr(img, SlotAt(a, k));
    assert k > m ==> IsPtr(img, SlotAt(a, m));
  }

  /** The first free slot is the slot just after the scanned records, when
      the scan stopped before the end of the slot array. */
  lemma FreeSlotAfterScan(img: Image, tbl: Table)
    requires |Scan(img, tbl)| < TABLE_SLOTS
    ensures FindFreeSlot(img, tbl.tableAddr) == SlotAt(tbl.tableAddr, |Scan(img, tbl)|)
  {
    FreeSlotIs(img, tbl.tableAddr, |Scan(img, tbl)|);
  }

  // ---------------------------------------------------------- construction

  /** The constructor's layout step: a table whose first slot reads as the
      erased mark gets its slot array filled with 0x11, its record pool with
      0x22 and `FRAMES_PER_OW` entries per record of its frame-pointer pool
      with 0x33, then the three metadata pointers. Any other table is left
      as it is. */
  function InitTable(img: Image, tbl: Table): (r: Result<Image>)
    ensures PtrToAddr(img, tbl.tableAddr) != FRESH_MARK ==> r == Ok(img)
    ensures r.Ok? ==> |r.value| == |img|
    ensures PtrToAddr(img, tbl.tableAddr) == FRESH_MARK && r.Ok? ==>
              InImage(img, tbl.tableAddr, TABLE_BYTES + 3 * SLOT_SIZE)
              && InImage(img, tbl.dataPool, TABLE_SLOTS * RECORD_SIZE)
              && InImage(img, tbl.ptrsPool, TABLE_SLOTS * ENTRY_SIZE * FRAMES_PER_OW)
  {
    if PtrToAddr(img, tbl.tableAddr) != FRESH_MARK then Ok(img)
    else
      var img3 :- FillPools(img, tbl);
      PointAtPools(img3, tbl)
  }

  /** The first half of the layout: fill the slot array, the record pool and
      the frame-entry pool. */
  function FillPools(img: Image, tbl: Table): (r: Result<Image>)
    ensures r.Ok? ==> |r.value| == |img|
    ensures r.Ok? ==>
              InImage(img, tbl.tableAddr, TABLE_BYTES)
              && InImage(img, tbl.dataPool, TABLE_SLOTS * RECORD_SIZE)
              && InImage(img, tbl.ptrsPool, TABLE_SLOTS * ENTRY_SIZE * FRAMES_PER_OW)
  {
    var img1 :- Fill(img, tbl.tableAddr, TABLE_BYTES, TABLE_FILL);
    var img2 :- Fill(img1, tbl.dataPool, TABLE_SLOTS * RECORD_SIZE, RECORD_FILL);
    Fill(img2, tbl.ptrsPool, TABLE_SLOTS * ENTRY_SIZE * FRAMES_PER_OW, PTRS_FILL)
  }

  /** The second half: the three metadata words after the slot array. */
  function PointAtPools(img: Image, tbl: Table): (r: Result<Image>)
    ensures r.Ok? ==> |r.value| == |img| && InImage(img, EndOfTable(tbl), 3 * SLOT_SIZE)
  {
    var end := EndOfTable(tbl);
    var img4 :- WritePtr(img, tbl.dataPool, end);
    var img5 :- WritePtr(img4, tbl.ptrsPool, end + 4);
    WritePtr(img5, tbl.pixelsPool, end + 8)
  }

  /** `OWPointerTable(...)`: lay the table out if it is fresh, then scan it.
      A table that already exists is read without a write; a fresh one, with
      its pools ordered as `addrs_filter` places them, is laid out and holds
      no records. */
  function NewTable(img: Image, tableAddr: nat, dataPool: nat, ptrsPool: nat, pixelsPool: nat)
    : (r: Result<(Image, Table)>)
    ensures r.Ok? ==> var tbl := Table(tableAddr, dataPool, ptrsPool, pixelsPool, []);
              && InitTable(img, tbl) == Ok(r.value.0)
              && r.value.1 == tbl.(records := Scan(r.value.0, tbl))
    ensures r.Ok? ==>
              && |r.value.0| == |img|
              && r.value.1.tableAddr == tableAddr && r.value.1.dataPool == dataPool
              && r.value.1.ptrsPool == ptrsPool && r.value.1.pixelsPool == pixelsPool
    ensures PtrToAddr(img, tableAddr) != FRESH_MARK ==>
              r == Ok((img, Table(tableAddr, dataPool, ptrsPool, pixelsPool, []).(records :=
                         Scan(img, Table(tableAddr, dataPool, ptrsPool, pixelsPool, [])))))
    ensures r.Ok? && PtrToAddr(img, tableAddr) == FRESH_MARK
            && tableAddr + TABLE_USED <= dataPool && dataPool + DATA_REGION <= ptrsPool ==>
              var (img1, tbl) := r.value;
              && tbl.records == []
              && BytesAt(img1, tableAddr, 4) == Repeat(TABLE_FILL, 4)
              && BytesAt(img1, dataPool, 4) == Repeat(RECORD_FILL, 4)
              && BytesAt(img1, EndOfTable(tbl), 4) == EncodePtr(dataPool)
              && BytesAt(img1, EndOfTable(tbl) + 4, 4) == EncodePtr(ptrsPool)
              && BytesAt(img1, EndOfTable(tbl) + 8, 4) == EncodePtr(pixelsPool)
  {
    var tbl := Table(tableAddr, dataPool, ptrsPool, pixelsPool, []);
    var img1 :- InitTable(img, tbl);
    if PtrToAddr(img, tableAddr) == FRESH_MARK
       && tableAddr + TABLE_USED <= dataPool && dataPool + DATA_REGION <= ptrsPool then
      InitTableWords(img, tbl);
      FreshScanEmpty(img1, tbl);
      Ok((img1, tbl.(records := Scan(img1, tbl))))
    else
      Ok((img1, tbl.(records := Scan(img1, tbl))))
  }

  /** A slot array whose first slot holds the 0x11 fill scans to no
      records: the fill is not a valid pointer. */
  lemma FreshScanEmpty(img: Image, tbl: Table)
    requires BytesAt(img, tbl.tableAddr, 4) == Repeat(TABLE_FILL, 4)
    ensures Scan(img, tbl) == []
  {
    assert ByteAt(img, tbl.tableAddr + 3) == BytesAt(img, tbl.tableAddr, 4)[3];
    assert !IsPtr(img, SlotAt(tbl.tableAddr, 0));
  }

  // ------------------------------------------------------------ operations

  /** The first half of `add_ow`: allocate the frame set, take the first
      free slot, instantiate the record in the record pool and point the slot
      at it. Gives the image and the new record's address. */
  function PlaceOw(img: Image, templates: seq<seq<Byte>>, tbl: Table, t: OwType, n: nat)
    : (r: Result<(Image, nat)>)
    requires WellFormedTemplates(templates)
    ensures r.Ok? ==> |r.value.0| == |img| && tbl.dataPool <= r.value.1
  {
    var framed :- AddFramesPtrs(img, FrameSet(0, 0, tbl.ptrsPool, tbl.pixelsPool), t, n);
    var img1 := framed.0;
    var slot := FindFreeSlot(img1, tbl.tableAddr);
    var placed :- AddOwData(img1, templates, t, Record(slot, 0, tbl.dataPool, framed.1), framed.1.ptrsAddr);
    var img3 :- WritePtr(placed.0, placed.1.dataAddr, slot);
    Ok((img3, placed.1.dataAddr))
  }

  /** `add_ow` as the source writes it: place the record, rescan, and give
      the LAST scanned record palette slot 0xA. That is the new record only
      when it landed in the last slot; an empty scan is the source's index
      error. */
  function AddOwAsWritten(img: Image, templates: seq<seq<Byte>>, tbl: Table, t: OwType, n: nat)
    : (r: Result<(Image, Table)>)
    requires WellFormedTemplates(templates)
    ensures r.Ok? ==> |r.value.0| == |img|
    ensures r.Ok? ==> PlaceOw(img, templates, tbl, t, n).Ok?
    ensures r.Ok? ==> r.value.1 == tbl.(records := Scan(PlaceOw(img, templates, tbl, t, n).value.0, tbl))
    ensures r.Ok? ==> |r.value.1.records| >= 1
    ensures r.Ok? ==> var last := r.value.1.records[|r.value.1.records| - 1].dataAddr;
              && GetPaletteSlot(r.value.0, last) == NEW_PALETTE_SLOT
              && PaletteHigh(r.value.0, last) == PaletteHigh(PlaceOw(img, templates, tbl, t, n).value.0, last)
              && SameExcept(PlaceOw(img, templates, tbl, t, n).value.0, r.value.0, last + PALETTE_SLOT_FIELD, 1)
  {
    var placed :- PlaceOw(img, templates, tbl, t, n);
    var img3 := placed.0;
    var recs := Scan(img3, tbl);
    if |recs| == 0 then Err(NoSuchRecord)
    else
      var last := recs[|recs| - 1].dataAddr;
      SlotFits(ByteAt(img3, last + PALETTE_SLOT_FIELD), NEW_PALETTE_SLOT);
      var img4 :- WritePaletteSlot(img3, last, NEW_PALETTE_SLOT);
      Ok((img4, tbl.(records := recs)))
  }

  /** `add_ow` with the palette slot 0xA given to the record it placed,
      wherever that landed. The rest of the model uses this one. */
  function AddOw(img: Image, templates: seq<seq<Byte>>, tbl: Table, t: OwType, n: nat)
    : (r: Result<(Image, Table)>)
    requires WellFormedTemplates(templates)
    ensures r.Ok? ==> |r.value.0| == |img|
    ensures r.Ok? ==> PlaceOw(img, templates, tbl, t, n).Ok?
    ensures r.Ok? ==> r.value.1 == tbl.(records := Scan(PlaceOw(img, templates, tbl, t, n).value.0, tbl))
    ensures r.Ok? ==> var (img3, d) := PlaceOw(img, templates, tbl, t, n).value;
              && GetPaletteSlot(r.value.0, d) == NEW_PALETTE_SLOT
              && SameExcept(img3, r.value.0, d + PALETTE_SLOT_FIELD, 1)
  {
    var placed :- PlaceOw(img, templates, tbl, t, n);
    var (img3, d) := placed;
    SlotFits(ByteAt(img3, d + PALETTE_SLOT_FIELD), NEW_PALETTE_SLOT);
    var img4 :- WritePaletteSlot(img3, d, NEW_PALETTE_SLOT);
    Ok((img4, tbl.(records := Scan(img3, tbl))))
  }

  /** `remove_ow`: remove record `id`, move every later record one place
      left in ascending order, rescan. */
  function RemoveOw(img: Image, tbl: Table, id: nat): (r: Result<(Image, Table)>)
    ensures r.Ok? ==> id < |tbl.records| && RemoveRecord(img, tbl.records[id]).Ok?
    ensures r.Ok? ==> |r.value.0| == |img|
    ensures r.Ok? ==> r.value.1 == tbl.(records := Scan(r.value.0, tbl))
  {
    if id >= |tbl.records| then Err(NoSuchRecord)
    else
      var img1 :- RemoveRecord(img, tbl.records[id]);
      var img2 :- ShiftLeftUp(img1, tbl.records, id + 1, |tbl.records|);
      Ok((img2, tbl.(records := Scan(img2, tbl))))
  }

  /** `insert_ow`: move records `pos …` one place right in descending order,
      add the new record with `add_ow` as the source writes it, rescan. A
      position past the end moves nothing. */
  function InsertOw(img: Image, templates: seq<seq<Byte>>, tbl: Table, pos: nat, t: OwType, n: nat)
    : (r: Result<(Image, Table)>)
    requires WellFormedTemplates(templates)
    ensures r.Ok? ==> |r.value.0| == |img|
    ensures r.Ok? ==> r.value.1 == tbl.(records := Scan(r.value.0, tbl))
    ensures r.Ok? && pos <= |tbl.records| ==> ShiftRightDown(img, tbl.records, pos, |tbl.records|).Ok?
  {
    var l := |tbl.records|;
    var img1 :- if pos <= l then ShiftRightDown(img, tbl.records, pos, l) else Ok(img);
    var added :- AddOwAsWritten(img1, templates, tbl, t, n);
    Ok((added.0, tbl.(records := Scan(added.0, tbl))))
  }

  /** `insert_ow` with the corrected `add_ow`, which gives palette slot 0xA
      to the inserted record. */
  function InsertOwIntended(img: Image, templates: seq<seq<Byte>>, tbl: Table, pos: nat, t: OwType, n: nat)
    : (r: Result<(Image, Table)>)
    requires WellFormedTemplates(templates)
    ensures r.Ok? ==> |r.value.0| == |img|
    ensures r.Ok? ==> r.value.1 == tbl.(records := Scan(r.value.0, tbl))
    ensures r.Ok? && pos <= |tbl.records| ==> ShiftRightDown(img, tbl.records, pos, |tbl.records|).Ok?
  {
    var l := |tbl.records|;
    var img1 :- if pos <= l then ShiftRightDown(img, tbl.records, pos, l) else Ok(img);
    var added :- AddOw(img1, templates, tbl, t, n);
    Ok((added.0, tbl.(records := Scan(added.0, tbl))))
  }

  /** What `resize_ow` saves of a record before replacing it. */
  datatype Snapshot = Snapshot(anim: (nat, nat), paletteSlot: nat, footprint: Byte)

  function TakeSnapshot(img: Image, d: int): Snapshot {
    Snapshot(GetAnimation(img, d), GetPaletteSlot(img, d), GetFootprint(img, d))
  }

  /** `resize_ow`: snapshot the animation pointers, palette slot and
      footprint byte of record `pos`, remove it, add a new record with
      `add_ow` as the source writes it, then write the snapshot back at the
      removed record's address, wherever the new record landed; rescan. */
  function ResizeOw(img: Image, templates: seq<seq<Byte>>, tbl: Table, pos: nat, t: OwType, n: nat)
    : (r: Result<(Image, Table)>)
    requires WellFormedTemplates(templates)
    ensures r.Ok? ==> pos < |tbl.records| && |r.value.0| == |img|
    ensures r.Ok? ==> r.value.1 == tbl.(records := Scan(r.value.0, tbl))
    ensures r.Ok? ==>
              TakeSnapshot(r.value.0, tbl.records[pos].dataAddr) == TakeSnapshot(img, tbl.records[pos].dataAddr)
  {
    if pos >= |tbl.records| then Err(NoSuchRecord)
    else
      var d := tbl.records[pos].dataAddr;
      var snap := TakeSnapshot(img, d);
      var img1 :- RemoveRecord(img, tbl.records[pos]);
      var added :- AddOwAsWritten(img1, templates, tbl, t, n);
      // the restore writes lie inside the record the removal tombstoned
      var img3 := WriteAnimation(added.0, d, snap.anim).value;
      SlotFits(ByteAt(img3, d + PALETTE_SLOT_FIELD), snap.paletteSlot);
      var img4 := WritePaletteSlot(img3, d, snap.paletteSlot).value;
      var img5 := SetFootprint(img4, d, snap.footprint).value;
      SnapshotRestored(img3, img4, img5, d, snap);
      Ok((img5, tbl.(records := Scan(img5, tbl))))
  }

  /** `resize_ow` with the corrected `add_ow`. */
  function ResizeOwIntended(img: Image, templates: seq<seq<Byte>>, tbl: Table, pos: nat, t: OwType, n: nat)
    : (r: Result<(Image, Table)>)
    requires WellFormedTemplates(templates)
    ensures r.Ok? ==> pos < |tbl.records| && |r.value.0| == |img|
    ensures r.Ok? ==> r.value.1 == tbl.(records := Scan(r.value.0, tbl))
    ensures r.Ok? ==>
              TakeSnapshot(r.value.0, tbl.records[pos].dataAddr) == TakeSnapshot(img, tbl.records[pos].dataAddr)
  {
    if pos >= |tbl.records| then Err(NoSuchRecord)
    else
      var d := tbl.records[pos].dataAddr;
      var snap := TakeSnapshot(img, d);
      var img1 :- RemoveRecord(img, tbl.records[pos]);
      var added :- AddOw(img1, templates, tbl, t, n);
      // the restore writes lie inside the record the removal tombstoned
      var img3 := WriteAnimation(added.0, d, snap.anim).value;
      SlotFits(ByteAt(img3, d + PALETTE_SLOT_FIELD), snap.paletteSlot);
      var img4 := WritePaletteSlot(img3, d, snap.paletteSlot).value;
      var img5 := SetFootprint(img4, d, snap.footprint).value;
      SnapshotRestored(img3, img4, img5, d, snap);
      Ok((img5, tbl.(records := Scan(img5, tbl))))
  }

  /** The palette-slot write and the footprint write touch one byte each,
      outside the animation pointers and outside each other. */
  lemma SnapshotRestored(img3: Image, img4: Image, img5: Image, d: int, snap: Snapshot)
    requires GetAnimation(img3, d) == snap.anim
    requires SameExcept(img3, img4, d + PALETTE_SLOT_FIELD, 1) && GetPaletteSlot(img4, d) == snap.paletteSlot
    requires SameExcept(img4, img5, d + FOOTPRINT_FIELD, 1) && GetFootprint(img5, d) == snap.footprint
    ensures TakeSnapshot(img5, d) == snap
  {
    forall x | x != d + PALETTE_SLOT_FIELD ensures ByteAt(img4, x) == ByteAt(img3, x) {
      if 0 <= x < |img3| {
        assert img4[x] == img3[x];
      }
    }
    forall x | x != d + FOOTPRINT_FIELD ensures ByteAt(img5, x) == ByteAt(img4, x) {
      if 0 <= x < |img4| {
        assert img5[x] == img4[x];
      }
    }
    assert GetAnimation(img4, d) == GetAnimation(img3, d);
    assert GetAnimation(img5, d) == GetAnimation(img4, d);
    assert GetPaletteSlot(img5, d) == GetPaletteSlot(img4, d);
  }

  // ----------------------------------------------------------------- lemmas

  /** Four bytes outside a region a step changed read the same afterwards. */
  lemma WordKept(before: Image, after: Image, x: int, lo: int, n: nat)
    requires SameExcept(before, after, lo, n) && Disjoint(x, 4, lo, n)
    ensures BytesAt(after, x, 4) == BytesAt(before, x, 4)
  {
    forall i | 0 <= i < 4 ensures BytesAt(after, x, 4)[i] == BytesAt(before, x, 4)[i] {
      if 0 <= x + i < |before| {
        assert after[x + i] == before[x + i];
      }
    }
  }

  /** The five words the layout step leaves behind: the slot-array fill at
      the first slot, the record-pool fill at the pool start, and the three
      metadata pointers. */
  lemma InitTableWords(img: Image, tbl: Table)
    requires PtrToAddr(img, tbl.tableAddr) == FRESH_MARK && InitTable(img, tbl).Ok?
    requires tbl.tableAddr + TABLE_USED <= tbl.dataPool && tbl.dataPool + DATA_REGION <= tbl.ptrsPool
    ensures var r := InitTable(img, tbl).value;
            && BytesAt(r, tbl.tableAddr, 4) == Repeat(TABLE_FILL, 4)
            && BytesAt(r, tbl.dataPool, 4) == Repeat(RECORD_FILL, 4)
            && BytesAt(r, EndOfTable(tbl), 4) == EncodePtr(tbl.dataPool)
            && BytesAt(r, EndOfTable(tbl) + 4, 4) == EncodePtr(tbl.ptrsPool)
            && BytesAt(r, EndOfTable(tbl) + 8, 4) == EncodePtr(tbl.pixelsPool)
  {
    var end := EndOfTable(tbl);
    var t, d, p := tbl.tableAddr, tbl.dataPool, tbl.ptrsPool;
    var img1 := Fill(img, t, TABLE_BYTES, TABLE_FILL).value;
    var img2 := Fill(img1, d, TABLE_SLOTS * RECORD_SIZE, RECORD_FILL).value;
    var img3 := FillPools(img, tbl).value;
    var img4 := WritePtr(img3, d, end).value;
    var img5 := WritePtr(img4, p, end + 4).value;
    var img6 := PointAtPools(img3, tbl).value;
    FillWords(img, img1, img2, img3, tbl);
    PointerWords(img3, img4, img5, img6, tbl);
  }

  /** After the three fills, the first slot and the first record hold their
      fill bytes. */
  lemma FillWords(img: Image, img1: Image, img2: Image, img3: Image, tbl: Table)
    requires tbl.tableAddr + TABLE_USED <= tbl.dataPool && tbl.dataPool + DATA_REGION <= tbl.ptrsPool
    requires Fill(img, tbl.tableAddr, TABLE_BYTES, TABLE_FILL) == Ok(img1)
    requires Fill(img1, tbl.dataPool, TABLE_SLOTS * RECORD_SIZE, RECORD_FILL) == Ok(img2)
    requires Fill(img2, tbl.ptrsPool, TABLE_SLOTS * ENTRY_SIZE * FRAMES_PER_OW, PTRS_FILL) == Ok(img3)
    ensures BytesAt(img3, tbl.tableAddr, 4) == Repeat(TABLE_FILL, 4)
    ensures BytesAt(img3, tbl.dataPool, 4) == Repeat(RECORD_FILL, 4)
  {
    var t, d, p := tbl.tableAddr, tbl.dataPool, tbl.ptrsPool;
    assert BytesAt(img1, t, 4) == Repeat(TABLE_FILL, 4);
    WordKept(img1, img2, t, d, TABLE_SLOTS * RECORD_SIZE);
    WordKept(img2, img3, t, p, TABLE_SLOTS * ENTRY_SIZE * FRAMES_PER_OW);
    assert BytesAt(img2, d, 4) == Repeat(RECORD_FILL, 4);
    WordKept(img2, img3, d, p, TABLE_SLOTS * ENTRY_SIZE * FRAMES_PER_OW);
  }

  /** The three metadata pointers land after the slot array and leave the
      two fill words before them alone. */
  lemma PointerWords(img3: Image, img4: Image, img5: Image, img6: Image, tbl: Table)
    requires tbl.tableAddr + TABLE_USED <= tbl.dataPool
    requires WritePtr(img3, tbl.dataPool, EndOfTable(tbl)) == Ok(img4)
    requires WritePtr(img4, tbl.ptrsPool, EndOfTable(tbl) + 4) == Ok(img5)
    requires WritePtr(img5, tbl.pixelsPool, EndOfTable(tbl) + 8) == Ok(img6)
    ensures BytesAt(img6, tbl.tableAddr, 4) == BytesAt(img3, tbl.tableAddr, 4)
    ensures BytesAt(img6, tbl.dataPool, 4) == BytesAt(img3, tbl.dataPool, 4)
    ensures BytesAt(img6, EndOfTable(tbl), 4) == EncodePtr(tbl.dataPool)
    ensures BytesAt(img6, EndOfTable(tbl) + 4, 4) == EncodePtr(tbl.ptrsPool)
    ensures BytesAt(img6, EndOfTable(tbl) + 8, 4) == EncodePtr(tbl.pixelsPool)
  {
    var t, d, end := tbl.tableAddr, tbl.dataPool, EndOfTable(tbl);
    WordKept(img3, img4, t, end, 4);
    WordKept(img4, img5, t, end + 4, 4);
    WordKept(img5, img6, t, end + 8, 4);
    WordKept(img3, img4, d, end, 4);
    WordKept(img4, img5, d, end + 4, 4);
    WordKept(img5, img6, d, end + 8, 4);
    assert BytesAt(img4, end, 4) == EncodePtr(d);
    WordKept(img4, img5, end, end + 4, 4);
    WordKept(img5, img6, end, end + 8, 4);
    assert BytesAt(img5, end + 4, 4) == EncodePtr(tbl.ptrsPool);
    WordKept(img5, img6, end + 4, end + 8, 4);
  }

  /** A table laid out on fresh space, once the root slot `a` points at it,
      is recognised as one of the tool's tables, does not need repointing,
      and holds no records; its metadata pointers lead to its three pools.
      The pools are ordered as `addrs_filter` places them. */
  lemma FreshTableRecognised(img: Image, tbl: Table, a: nat)
    requires |img| <= ADDR_SPAN
    requires PtrToAddr(img, tbl.tableAddr) == FRESH_MARK && InitTable(img, tbl).Ok?
    requires tbl.tableAddr + TABLE_USED <= tbl.dataPool && tbl.dataPool + DATA_REGION <= tbl.ptrsPool
    requires tbl.pixelsPool < |img|
    requires InImage(img, a, SLOT_SIZE)
    requires Disjoint(a, SLOT_SIZE, tbl.tableAddr, TABLE_USED) && Disjoint(a, SLOT_SIZE, tbl.dataPool, 4)
    ensures var r := WritePtr(InitTable(img, tbl).value, tbl.tableAddr, a).value;
            && IsOwmTablePtr(r, a) && !TableNeedsRepoint(r, a) && Scan(r, tbl) == []
            && PtrToAddr(r, EndOfTable(tbl)) == tbl.dataPool
            && PtrToAddr(r, EndOfTable(tbl) + 4) == tbl.ptrsPool
            && PtrToAddr(r, EndOfTable(tbl) + 8) == tbl.pixelsPool
  {
    var img6 := InitTable(img, tbl).value;
    InitTableWords(img, tbl);
    InitTableInImage(img, tbl);
    var r := WritePtr(img6, tbl.tableAddr, a).value;
    RootWritten(img6, r, tbl, a);
    LaidOutRecognised(r, tbl, a);
  }

  /** Pointing the root slot `a` at the table keeps the five layout words,
      which lie outside the slot. */
  lemma RootWritten(img6: Image, r: Image, tbl: Table, a: nat)
    requires |img6| <= ADDR_SPAN && tbl.tableAddr < |img6| && InImage(img6, a, SLOT_SIZE)
    requires Disjoint(a, SLOT_SIZE, tbl.tableAddr, TABLE_USED) && Disjoint(a, SLOT_SIZE, tbl.dataPool, 4)
    requires WritePtr(img6, tbl.tableAddr, a) == Ok(r)
    ensures IsPtr(r, a) && PtrToAddr(r, a) == tbl.tableAddr
    ensures BytesAt(r, tbl.tableAddr, 4) == BytesAt(img6, tbl.tableAddr, 4)
    ensures BytesAt(r, tbl.dataPool, 4) == BytesAt(img6, tbl.dataPool, 4)
    ensures BytesAt(r, EndOfTable(tbl), 4) == BytesAt(img6, EndOfTable(tbl), 4)
    ensures BytesAt(r, EndOfTable(tbl) + 4, 4) == BytesAt(img6, EndOfTable(tbl) + 4, 4)
    ensures BytesAt(r, EndOfTable(tbl) + 8, 4) == BytesAt(img6, EndOfTable(tbl) + 8, 4)
  {
    var end := EndOfTable(tbl);
    WordKept(img6, r, tbl.tableAddr, a, 4);
    WordKept(img6, r, tbl.dataPool, a, 4);
    WordKept(img6, r, end, a, 4);
    WordKept(img6, r, end + 4, a, 4);
    WordKept(img6, r, end + 8, a, 4);
    PtrRoundTrip(img6, tbl.tableAddr, a);
  }

  /** The layout step only succeeds when the pools lie inside the image. */
  lemma InitTableInImage(img: Image, tbl: Table)
    requires PtrToAddr(img, tbl.tableAddr) == FRESH_MARK && InitTable(img, tbl).Ok?
    ensures tbl.tableAddr < |img| && tbl.dataPool < |img| && tbl.ptrsPool < |img|
  {
  }

  /** What the five layout words mean once the root slot `a` points at the
      table. */
  lemma LaidOutRecognised(r: Image, tbl: Table, a: nat)
    requires |r| <= ADDR_SPAN
    requires tbl.dataPool < |r| && tbl.ptrsPool < |r| && tbl.pixelsPool < |r|
    requires IsPtr(r, a) && PtrToAddr(r, a) == tbl.tableAddr
    requires BytesAt(r, tbl.tableAddr, 4) == Repeat(TABLE_FILL, 4)
    requires BytesAt(r, tbl.dataPool, 4) == Repeat(RECORD_FILL, 4)
    requires BytesAt(r, EndOfTable(tbl), 4) == EncodePtr(tbl.dataPool)
    requires BytesAt(r, EndOfTable(tbl) + 4, 4) == EncodePtr(tbl.ptrsPool)
    requires BytesAt(r, EndOfTable(tbl) + 8, 4) == EncodePtr(tbl.pixelsPool)
    ensures IsOwmTablePtr(r, a) && !TableNeedsRepoint(r, a) && Scan(r, tbl) == []
    ensures PtrToAddr(r, EndOfTable(tbl)) == tbl.dataPool
    ensures PtrToAddr(r, EndOfTable(tbl) + 4) == tbl.ptrsPool
    ensures PtrToAddr(r, EndOfTable(tbl) + 8) == tbl.pixelsPool
  {
    var end := EndOfTable(tbl);
    PtrDecode(r, end, tbl.dataPool);
    PtrDecode(r, end + 4, tbl.ptrsPool);
    PtrDecode(r, end + 8, tbl.pixelsPool);
    FillWord(r, tbl.tableAddr, TABLE_FILL);
    FillWord(r, tbl.dataPool, RECORD_FILL);
    assert WordAt(r, PtrToAddr(r, end)) == RECORD_POOL_MAGIC;
    assert !IsPtr(r, SlotAt(tbl.tableAddr, 0));
  }

  /** Four equal bytes `v` read as the word `v * 0x01010101`. */
  lemma FillWord(r: Image, x: int, v: Byte)
    requires BytesAt(r, x, 4) == Repeat(v, 4)
    ensures WordAt(r, x) == v * 0x0101_0101
    ensures ByteAt(r, x + 3) == v
  {
    assert ByteAt(r, x) == BytesAt(r, x, 4)[0];
    assert ByteAt(r, x + 1) == BytesAt(r, x, 4)[1];
    assert ByteAt(r, x + 2) == BytesAt(r, x, 4)[2];
    assert ByteAt(r, x + 3) == BytesAt(r, x, 4)[3];
  }
}
