/**
  How the table operations lay out the slot array and the record pool: which
  slots end up holding pointers, where the records they designate sit, and
  what the palette-slot write of `add_ow` lands on (core.py:583-702).
 */
module TableLayout {
  import opened RomBytes
  import opened FrameTypes
  import opened RecordFields
  import opened Validators
  import opened FrameSets
  import opened Records
  import opened Shifts
  import opened Tables

  // ------------------------------------------------------ slot-array frames

  /** `after` reads like `before` on the bytes `[lo, hi)`. */
  predicate Agree(before: Image, after: Image, lo: int, hi: int) {
    |after| == |before| && forall x :: lo <= x < hi ==> ByteAt(after, x) == ByteAt(before, x)
  }

  /** A slot whose bytes agree holds the same pointer. */
  lemma AgreePtr(before: Image, after: Image, lo: int, hi: int, s: int)
    requires Agree(before, after, lo, hi) && lo <= s && s + 4 <= hi
    ensures IsPtr(after, s) == IsPtr(before, s) && PtrToAddr(after, s) == PtrToAddr(before, s)
  {
    assert ByteAt(after, s) == ByteAt(before, s);
    assert ByteAt(after, s + 1) == ByteAt(before, s + 1);
    assert ByteAt(after, s + 2) == ByteAt(before, s + 2);
    assert ByteAt(after, s + 3) == ByteAt(before, s + 3);
  }

  /** Two writes that both miss `[lo, hi)` leave it alone. */
  lemma AgreeOutside2(before: Image, after: Image, lo: int, hi: int, a: int, n: nat, b: int, m: nat)
    requires SameExcept2(before, after, a, n, b, m)
    requires (hi <= a || a + n <= lo) && (hi <= b || b + m <= lo)
    ensures Agree(before, after, lo, hi)
  {
    forall x | lo <= x < hi ensures ByteAt(after, x) == ByteAt(before, x) {
      if 0 <= x < |before| {
        assert after[x] == before[x];
      }
    }
  }

  /** One write that misses `[lo, hi)` leaves it alone. */
  lemma AgreeOutside(before: Image, after: Image, lo: int, hi: int, a: int, n: nat)
    requires SameExcept(before, after, a, n) && (hi <= a || a + n <= lo)
    ensures Agree(before, after, lo, hi)
  {
    forall x | lo <= x < hi ensures ByteAt(after, x) == ByteAt(before, x) {
      if 0 <= x < |before| {
        assert after[x] == before[x];
      }
    }
  }

  /** Placing a record on a table whose pools lie after its slot array
      points the first free slot, slot `m`, at the new record and leaves
      every other slot as it was. */
  lemma PlaceOwLinks(img: Image, templates: seq<seq<Byte>>, tbl: Table, t: OwType, n: nat, m: nat)
    requires WellFormedTemplates(templates) && |img| <= ADDR_SPAN
    requires EndOfTable(tbl) <= tbl.dataPool && EndOfTable(tbl) <= tbl.ptrsPool && EndOfTable(tbl) <= tbl.pixelsPool
    requires m < TABLE_SLOTS
    requires forall k :: 0 <= k < m ==> IsPtr(img, SlotAt(tbl.tableAddr, k))
    requires !IsPtr(img, SlotAt(tbl.tableAddr, m))
    requires PlaceOw(img, templates, tbl, t, n).Ok?
    ensures var (img3, d) := PlaceOw(img, templates, tbl, t, n).value;
            && IsPtr(img3, SlotAt(tbl.tableAddr, m)) && PtrToAddr(img3, SlotAt(tbl.tableAddr, m)) == d
            && forall k :: 0 <= k < TABLE_SLOTS && k != m ==>
                 IsPtr(img3, SlotAt(tbl.tableAddr, k)) == IsPtr(img, SlotAt(tbl.tableAddr, k))
                 && PtrToAddr(img3, SlotAt(tbl.tableAddr, k)) == PtrToAddr(img, SlotAt(tbl.tableAddr, k))
  {
    var a, end := tbl.tableAddr, EndOfTable(tbl);
    var framed := AddFramesPtrs(img, FrameSet(0, 0, tbl.ptrsPool, tbl.pixelsPool), t, n).value;
    var img1 := framed.0;
    AgreeOutside2(img, img1, a, end, framed.1.pixelsAddr, n * FrameSize(t) + 4, framed.1.ptrsAddr, n * ENTRY_SIZE);
    forall k | 0 <= k < TABLE_SLOTS ensures IsPtr(img1, SlotAt(a, k)) == IsPtr(img, SlotAt(a, k)) {
      AgreePtr(img, img1, a, end, SlotAt(a, k));
    }
    FreeSlotIs(img1, a, m);
    var slot := FindFreeSlot(img1, a);
    var placed := AddOwData(img1, templates, t, Record(slot, 0, tbl.dataPool, framed.1), framed.1.ptrsAddr).value;
    var d := placed.1.dataAddr;
    AgreeOutside(img1, placed.0, a, end, d, RECORD_SIZE);
    var img3 := WritePtr(placed.0, d, slot).value;
    PtrRoundTrip(placed.0, d, slot);
    forall k | 0 <= k < TABLE_SLOTS && k != m
      ensures IsPtr(img3, SlotAt(a, k)) == IsPtr(img, SlotAt(a, k))
      ensures PtrToAddr(img3, SlotAt(a, k)) == PtrToAddr(img, SlotAt(a, k))
    {
      assert SlotAt(a, k) + 4 <= slot || slot + 4 <= SlotAt(a, k);
      AgreePtr(img, img1, a, end, SlotAt(a, k));
      AgreePtr(img1, placed.0, a, end, SlotAt(a, k));
      AgreeOutside(placed.0, img3, SlotAt(a, k), SlotAt(a, k) + 4, slot, 4);
      AgreePtr(placed.0, img3, SlotAt(a, k), SlotAt(a, k) + 4, SlotAt(a, k));
    }
  }

  /** `add_ow` on a table whose pools lie after its slot array, and whose
      slot scan stopped at a slot followed by no pointer, appends exactly one
      record: the earlier records keep their places, and the new one sits in
      the slot right after them, pointing into the record pool. */
  lemma AddOwAppends(img: Image, templates: seq<seq<Byte>>, tbl: Table, t: OwType, n: nat)
    requires WellFormedTemplates(templates) && |img| <= ADDR_SPAN
    requires EndOfTable(tbl) <= tbl.dataPool && EndOfTable(tbl) <= tbl.ptrsPool && EndOfTable(tbl) <= tbl.pixelsPool
    requires |Scan(img, tbl)| < TABLE_SLOTS
    requires |Scan(img, tbl)| + 1 == TABLE_SLOTS || !IsPtr(img, SlotAt(tbl.tableAddr, |Scan(img, tbl)| + 1))
    requires AddOwAsWritten(img, templates, tbl, t, n).Ok?
    ensures var recs := AddOwAsWritten(img, templates, tbl, t, n).value.1.records;
            && |recs| == |Scan(img, tbl)| + 1
            && (forall i :: 0 <= i < |Scan(img, tbl)| ==> recs[i].dataAddr == Scan(img, tbl)[i].dataAddr)
            && tbl.dataPool <= recs[|Scan(img, tbl)|].dataAddr
  {
    var m := |Scan(img, tbl)|;
    var placed := PlaceOw(img, templates, tbl, t, n).value;
    PlaceOwLinks(img, templates, tbl, t, n, m);
    LinkedScan(img, placed.0, tbl, placed.1);
  }

  /** Slots `0 … m-1` of the slot array at `a` hold valid pointers and the
      other slots do not. */
  predicate Filled(img: Image, a: nat, m: nat) {
    && m <= TABLE_SLOTS
    && (forall k :: 0 <= k < m ==> IsPtr(img, SlotAt(a, k)))
    && (forall k :: m <= k < TABLE_SLOTS ==> !IsPtr(img, SlotAt(a, k)))
  }

  /** On a table whose first `m` slots are the only ones in use, adding a
      record uses exactly one more slot, and the rescan finds `m + 1`
      records. The new record is the last one scanned, so it is the one
      that gets palette slot 0xA. */
  lemma AddOwFills(img: Image, templates: seq<seq<Byte>>, tbl: Table, t: OwType, n: nat, m: nat)
    requires WellFormedTemplates(templates) && |img| <= ADDR_SPAN
    requires EndOfTable(tbl) <= tbl.dataPool && EndOfTable(tbl) <= tbl.ptrsPool && EndOfTable(tbl) <= tbl.pixelsPool
    requires m < TABLE_SLOTS && Filled(img, tbl.tableAddr, m)
    requires AddOwAsWritten(img, templates, tbl, t, n).Ok?
    ensures Filled(AddOwAsWritten(img, templates, tbl, t, n).value.0, tbl.tableAddr, m + 1)
    ensures |AddOwAsWritten(img, templates, tbl, t, n).value.1.records| == m + 1
    ensures GetPaletteSlot(AddOwAsWritten(img, templates, tbl, t, n).value.0, PlaceOw(img, templates, tbl, t, n).value.1)
            == NEW_PALETTE_SLOT
  {
    var a, end := tbl.tableAddr, EndOfTable(tbl);
    var (img3, d) := PlaceOw(img, templates, tbl, t, n).value;
    var img4 := AddOwAsWritten(img, templates, tbl, t, n).value.0;
    PlaceOwLinks(img, templates, tbl, t, n, m);
    ScanLength(img3, tbl, m + 1);
    assert Scan(img3, tbl)[m].dataAddr == d;
    AgreeOutside(img3, img4, a, end, d + PALETTE_SLOT_FIELD, 1);
    forall k | 0 <= k < TABLE_SLOTS ensures IsPtr(img4, SlotAt(a, k)) == IsPtr(img3, SlotAt(a, k)) {
      AgreePtr(img3, img4, a, end, SlotAt(a, k));
    }
    ScanLength(img3, tbl, m + 1);
  }

  /** Slot `m`, the first after the scanned records, now pointing at `d`,
      with every other slot up to `m + 1` as before: the scan finds one more
      record, the new one at `d`. */
  lemma LinkedScan(img: Image, img3: Image, tbl: Table, d: nat)
    requires |Scan(img, tbl)| < TABLE_SLOTS
    requires |Scan(img, tbl)| + 1 == TABLE_SLOTS || !IsPtr(img, SlotAt(tbl.tableAddr, |Scan(img, tbl)| + 1))
    requires IsPtr(img3, SlotAt(tbl.tableAddr, |Scan(img, tbl)|))
    requires PtrToAddr(img3, SlotAt(tbl.tableAddr, |Scan(img, tbl)|)) == d
    requires forall k :: 0 <= k <= |Scan(img, tbl)| + 1 && k != |Scan(img, tbl)| && k < TABLE_SLOTS ==>
               IsPtr(img3, SlotAt(tbl.tableAddr, k)) == IsPtr(img, SlotAt(tbl.tableAddr, k))
               && PtrToAddr(img3, SlotAt(tbl.tableAddr, k)) == PtrToAddr(img, SlotAt(tbl.tableAddr, k))
    ensures |Scan(img3, tbl)| == |Scan(img, tbl)| + 1
    ensures forall i :: 0 <= i < |Scan(img, tbl)| ==> Scan(img3, tbl)[i].dataAddr == Scan(img, tbl)[i].dataAddr
    ensures Scan(img3, tbl)[|Scan(img, tbl)|].dataAddr == d
  {
    ScanLength(img3, tbl, |Scan(img, tbl)| + 1);
  }

  /** A tombstoned slot holds no pointer. */
  lemma TombstoneIsNotPtr(img: Image, s: int)
    requires Tombstoned(img, s, SLOT_SIZE)
    ensures !IsPtr(img, s)
  {
    assert ByteAt(img, s + 3) == RECORD_FILL;
  }

  /** `remove_ow` is the removal of record `id` followed by the left shift
      of the records after it and a rescan. */
  lemma RemoveOwSteps(img: Image, tbl: Table, id: nat)
    requires RemoveOw(img, tbl, id).Ok?
    ensures id < |tbl.records| && RemoveRecord(img, tbl.records[id]).Ok?
    ensures ShiftLeftUp(RemoveRecord(img, tbl.records[id]).value, tbl.records, id + 1, |tbl.records|).Ok?
    ensures RemoveOw(img, tbl, id).value.0
            == ShiftLeftUp(RemoveRecord(img, tbl.records[id]).value, tbl.records, id + 1, |tbl.records|).value
  {
  }

  /** The removal of record `id` on a table of contiguous records, then the
      left shift of the records after it: the slots below `id` are kept,
      slot `id` is tombstoned, and the later records move one place down. */
  lemma RemoveThenShift(img: Image, img1: Image, img2: Image, tbl: Table, id: nat, data: int)
    requires |img| <= ADDR_SPAN && id < |tbl.records| <= TABLE_SLOTS
    requires Contiguous(tbl.records, 0, |tbl.records|, data, tbl.tableAddr)
    requires EndOfTable(tbl) <= data && EndOfTable(tbl) <= LowestFrame(tbl.records[id])
    requires RemoveRecord(img, tbl.records[id]) == Ok(img1)
    requires ShiftLeftUp(img1, tbl.records, id + 1, |tbl.records|) == Ok(img2)
    ensures Agree(img, img1, tbl.tableAddr, SlotAt(tbl.tableAddr, id))
    ensures Tombstoned(img1, SlotAt(tbl.tableAddr, id), SLOT_SIZE)
    ensures ShiftedLeft(img1, img2, data, tbl.tableAddr, id + 1, |tbl.records|)
  {
    RemoveKeepsBelow(img, img1, tbl, id, data);
    ShiftAfterRemove(img1, img2, tbl, id, data);
  }

  /** Removing record `id` of a table of contiguous records keeps every byte
      below its slot and tombstones the slot. */
  lemma RemoveKeepsBelow(img: Image, img1: Image, tbl: Table, id: nat, data: int)
    requires id < |tbl.records| <= TABLE_SLOTS
    requires Contiguous(tbl.records, 0, |tbl.records|, data, tbl.tableAddr)
    requires EndOfTable(tbl) <= data && EndOfTable(tbl) <= LowestFrame(tbl.records[id])
    requires RemoveRecord(img, tbl.records[id]) == Ok(img1)
    ensures |img1| == |img|
    ensures Agree(img, img1, tbl.tableAddr, SlotAt(tbl.tableAddr, id))
    ensures Tombstoned(img1, SlotAt(tbl.tableAddr, id), SLOT_SIZE)
  {
    var rec := tbl.records[id];
    assert rec.slotAddr == SlotAt(tbl.tableAddr, id) && rec.dataAddr == Place(data, id);
    assert Min(rec.slotAddr, Min(rec.dataAddr, LowestFrame(rec))) == SlotAt(tbl.tableAddr, id);
  }

  /** The left shift of the records after `id`, on a table of contiguous
      records whose data lies above the slot area. */
  lemma ShiftAfterRemove(img1: Image, img2: Image, tbl: Table, id: nat, data: int)
    requires |img1| <= ADDR_SPAN && id < |tbl.records| <= TABLE_SLOTS
    requires Contiguous(tbl.records, 0, |tbl.records|, data, tbl.tableAddr)
    requires EndOfTable(tbl) <= data
    requires ShiftLeftUp(img1, tbl.records, id + 1, |tbl.records|) == Ok(img2)
    ensures ShiftedLeft(img1, img2, data, tbl.tableAddr, id + 1, |tbl.records|)
  {
    var l, a := |tbl.records|, tbl.tableAddr;
    assert Contiguous(tbl.records, id + 1, l, data, a);
    assert SlotAt(a, id) + SLOT_SIZE * (l - id) == SlotAt(a, l) <= Place(data, id);
    ShiftLeftUpEffect(img1, tbl.records, id + 1, l, data, a, img2);
  }

  /** After the removal and the left shift, the slots below the removed one
      read as before, the slots from it to the second-last point at their
      places, and the last slot holds no pointer. */
  lemma RemovedShiftedSlots(img: Image, img1: Image, img2: Image, tbl: Table, id: nat, data: int)
    requires |img| <= ADDR_SPAN && id < |tbl.records| <= TABLE_SLOTS
    requires Contiguous(tbl.records, 0, |tbl.records|, data, tbl.tableAddr)
    requires EndOfTable(tbl) <= data && EndOfTable(tbl) <= LowestFrame(tbl.records[id])
    requires RemoveRecord(img, tbl.records[id]) == Ok(img1)
    requires ShiftLeftUp(img1, tbl.records, id + 1, |tbl.records|) == Ok(img2)
    ensures forall k :: 0 <= k < id ==>
              IsPtr(img2, SlotAt(tbl.tableAddr, k)) == IsPtr(img, SlotAt(tbl.tableAddr, k))
              && PtrToAddr(img2, SlotAt(tbl.tableAddr, k)) == PtrToAddr(img, SlotAt(tbl.tableAddr, k))
    ensures forall k :: id <= k < |tbl.records| - 1 ==>
              IsPtr(img2, SlotAt(tbl.tableAddr, k)) && PtrToAddr(img2, SlotAt(tbl.tableAddr, k)) == Place(data, k)
    ensures !IsPtr(img2, SlotAt(tbl.tableAddr, |tbl.records| - 1))
  {
    RemoveThenShift(img, img1, img2, tbl, id, data);
    RemovedSlots(img, img1, img2, tbl.records, tbl.tableAddr, data, id, |tbl.records|);
  }

  /** `remove_ow` on such a table: the rescan finds one record fewer, every
      record slot still designating the place it designated before. */
  lemma RemoveOwShrinks(img: Image, tbl: Table, id: nat, data: int)
    requires |img| <= ADDR_SPAN
    requires tbl.records == Scan(img, tbl) && id < |tbl.records|
    requires Contiguous(tbl.records, 0, |tbl.records|, data, tbl.tableAddr)
    requires EndOfTable(tbl) <= data && EndOfTable(tbl) <= LowestFrame(tbl.records[id])
    requires RemoveOw(img, tbl, id).Ok?
    ensures var tbl2 := RemoveOw(img, tbl, id).value.1;
            && |tbl2.records| == |tbl.records| - 1
            && forall i :: 0 <= i < |tbl2.records| ==> tbl2.records[i].dataAddr == tbl.records[i].dataAddr
  {
    RemoveOwSteps(img, tbl, id);
    RemovedRescan(img, RemoveRecord(img, tbl.records[id]).value, RemoveOw(img, tbl, id).value.0, tbl, id, data);
  }

  /** The two steps of a removal, then the rescan: one record fewer, each
      remaining slot designating the place it designated before. */
  lemma RemovedRescan(img: Image, img1: Image, img2: Image, tbl: Table, id: nat, data: int)
    requires |img| <= ADDR_SPAN
    requires tbl.records == Scan(img, tbl) && id < |tbl.records|
    requires Contiguous(tbl.records, 0, |tbl.records|, data, tbl.tableAddr)
    requires EndOfTable(tbl) <= data && EndOfTable(tbl) <= LowestFrame(tbl.records[id])
    requires RemoveRecord(img, tbl.records[id]) == Ok(img1)
    requires ShiftLeftUp(img1, tbl.records, id + 1, |tbl.records|) == Ok(img2)
    ensures |Scan(img2, tbl)| == |tbl.records| - 1
    ensures forall i :: 0 <= i < |Scan(img2, tbl)| ==> Scan(img2, tbl)[i].dataAddr == tbl.records[i].dataAddr
  {
    RemovedShiftedSlots(img, img1, img2, tbl, id, data);
    ShrunkScan(img, img2, tbl, id, data);
  }

  /** Slots that read as before up to `id`, point at consecutive places from
      `id` on, and stop one slot short: the scan finds one record fewer, each
      slot designating what it designated before. */
  lemma ShrunkScan(img: Image, img2: Image, tbl: Table, id: nat, data: int)
    requires tbl.records == Scan(img, tbl) && id < |tbl.records|
    requires Contiguous(tbl.records, 0, |tbl.records|, data, tbl.tableAddr)
    requires forall k :: 0 <= k < id ==>
               IsPtr(img2, SlotAt(tbl.tableAddr, k)) == IsPtr(img, SlotAt(tbl.tableAddr, k))
               && PtrToAddr(img2, SlotAt(tbl.tableAddr, k)) == PtrToAddr(img, SlotAt(tbl.tableAddr, k))
    requires forall k :: id <= k < |tbl.records| - 1 ==>
               IsPtr(img2, SlotAt(tbl.tableAddr, k)) && PtrToAddr(img2, SlotAt(tbl.tableAddr, k)) == Place(data, k)
    requires !IsPtr(img2, SlotAt(tbl.tableAddr, |tbl.records| - 1))
    ensures |Scan(img2, tbl)| == |tbl.records| - 1
    ensures forall i :: 0 <= i < |Scan(img2, tbl)| ==> Scan(img2, tbl)[i].dataAddr == tbl.records[i].dataAddr
  {
    ScanLength(img2, tbl, |tbl.records| - 1);
  }

  /** After a removal that tombstoned slot `id` and left the slots below it
      alone, and a left shift of the records after it: the slots below `id`
      hold what they held, slots `id … l-2` point at their places, and slot
      `l - 1` holds no pointer. */
  lemma RemovedSlots(img: Image, img1: Image, img2: Image, recs: seq<Record>, a: nat, data: int, id: nat, l: nat)
    requires id < l <= |recs| && l <= TABLE_SLOTS && a + TABLE_BYTES <= data
    requires Agree(img, img1, a, SlotAt(a, id)) && Tombstoned(img1, SlotAt(a, id), SLOT_SIZE)
    requires ShiftedLeft(img1, img2, data, a, id + 1, l)
    requires ShiftLeftUp(img1, recs, id + 1, l) == Ok(img2)
    ensures forall k :: 0 <= k < id ==>
              IsPtr(img2, SlotAt(a, k)) == IsPtr(img, SlotAt(a, k))
              && PtrToAddr(img2, SlotAt(a, k)) == PtrToAddr(img, SlotAt(a, k))
    ensures forall k :: id <= k < l - 1 ==>
              IsPtr(img2, SlotAt(a, k)) && PtrToAddr(img2, SlotAt(a, k)) == Place(data, k)
    ensures !IsPtr(img2, SlotAt(a, l - 1))
  {
    AgreeOutside2(img1, img2, a, SlotAt(a, id), Place(data, id), Span(id + 1, l, RECORD_SIZE),
                  SlotAt(a, id), Span(id + 1, l, SLOT_SIZE));
    forall k | 0 <= k < id
      ensures IsPtr(img2, SlotAt(a, k)) == IsPtr(img, SlotAt(a, k))
      ensures PtrToAddr(img2, SlotAt(a, k)) == PtrToAddr(img, SlotAt(a, k))
    {
      AgreePtr(img, img1, a, SlotAt(a, id), SlotAt(a, k));
      AgreePtr(img1, img2, a, SlotAt(a, id), SlotAt(a, k));
    }
    if id + 1 == l {
      assert img2 == img1;
    }
    TombstoneIsNotPtr(img2, SlotAt(a, l - 1));
  }

  // ------------------------------------------------------- record copies

  /** Agreement on a range gives the same bytes for any run inside it. */
  lemma AgreeBytes(before: Image, after: Image, lo: int, hi: int, a: int, n: nat)
    requires Agree(before, after, lo, hi) && lo <= a && a + n <= hi
    ensures BytesAt(after, a, n) == BytesAt(before, a, n)
  {
    forall i | 0 <= i < n ensures BytesAt(after, a, n)[i] == BytesAt(before, a, n)[i] {
      assert ByteAt(after, a + i) == ByteAt(before, a + i);
    }
  }

  /** The four bytes at `b + off` of `after` are those at `a + off` of
      `before`, so they hold the same pointer. */
  lemma FieldCopied(before: Image, after: Image, a: int, b: int, off: nat)
    requires |after| == |before| && off + 4 <= RECORD_SIZE
    requires BytesAt(after, b, RECORD_SIZE) == BytesAt(before, a, RECORD_SIZE)
    ensures IsPtr(after, b + off) == IsPtr(before, a + off)
    ensures PtrToAddr(after, b + off) == PtrToAddr(before, a + off)
  {
    var x, y := BytesAt(after, b, RECORD_SIZE), BytesAt(before, a, RECORD_SIZE);
    assert x[off] == y[off] && x[off + 1] == y[off + 1];
    assert x[off + 2] == y[off + 2] && x[off + 3] == y[off + 3];
  }

  /** A record's 36 bytes copied elsewhere are a record there exactly when
      they were one where they came from. */
  lemma OwDataCopied(before: Image, after: Image, a: nat, b: nat)
    requires |after| == |before|
    requires BytesAt(after, b, RECORD_SIZE) == BytesAt(before, a, RECORD_SIZE)
    ensures IsOwData(after, b) == IsOwData(before, a)
  {
    var x, y := BytesAt(after, b, RECORD_SIZE), BytesAt(before, a, RECORD_SIZE);
    assert x[0] == y[0] && x[1] == y[1];
    FieldCopied(before, after, a, b, 0x10);
    FieldCopied(before, after, a, b, 0x14);
    FieldCopied(before, after, a, b, ANIM_FIELD_A);
    FieldCopied(before, after, a, b, FRAMES_FIELD);
    FieldCopied(before, after, a, b, ANIM_FIELD_B);
  }

  // ------------------------------------------------------ holes and places

  /** Slots `0 … l` of the array at `slots` and places `0 … l` of the pool at
      `data` are in step: every index but `hole` has a slot pointing at its
      own place and a record there; at `hole` there is neither. */
  predicate Holed(img: Image, data: nat, slots: nat, l: nat, hole: nat) {
    && hole <= l
    && (forall k :: 0 <= k <= l && k != hole ==>
          IsPtr(img, SlotAt(slots, k)) && PtrToAddr(img, SlotAt(slots, k)) == Place(data, k)
          && IsOwData(img, Place(data, k)))
    && !IsPtr(img, SlotAt(slots, hole)) && !IsOwData(img, Place(data, hole))
  }

  /** The first free place is place `m` when places `0 … m-1` hold records
      and place `m` does not. */
  lemma FreeRecordIs(img: Image, data: nat, m: nat)
    requires forall k :: 0 <= k < m ==> IsOwData(img, Place(data, k))
    requires !IsOwData(img, Place(data, m))
    ensures FindFreeRecordAddr(img, data) == Place(data, m)
  {
    var j := FreeRecordIndex(img, data);
    assert Stride(data, j, RECORD_SIZE) == Place(data, j);
    assert Stride(data, m, RECORD_SIZE) == Place(data, m);
  }

  /** The slot and place of an index below a right shift stay as they were. */
  lemma ShiftedKeepsBelow(img: Image, img1: Image, data: nat, slots: nat, pos: nat, l: nat, k: nat)
    requires pos < l && k < pos && SlotAt(slots, l + 1) <= data
    requires ShiftedRight(img, img1, data, slots, pos, l)
    ensures IsPtr(img1, SlotAt(slots, k)) == IsPtr(img, SlotAt(slots, k))
    ensures PtrToAddr(img1, SlotAt(slots, k)) == PtrToAddr(img, SlotAt(slots, k))
    ensures BytesAt(img1, Place(data, k), RECORD_SIZE) == BytesAt(img, Place(data, k), RECORD_SIZE)
    ensures IsOwData(img1, Place(data, k)) == IsOwData(img, Place(data, k))
  {
    var pa, pn, sa, sn := Place(data, pos), Span(pos, l, RECORD_SIZE), SlotAt(slots, pos), Span(pos, l, SLOT_SIZE);
    assert sa + sn == SlotAt(slots, l + 1);
    AgreeOutside2(img, img1, SlotAt(slots, k), SlotAt(slots, k) + 4, pa, pn, sa, sn);
    AgreePtr(img, img1, SlotAt(slots, k), SlotAt(slots, k) + 4, SlotAt(slots, k));
    AgreeOutside2(img, img1, Place(data, k), Place(data, k) + RECORD_SIZE, pa, pn, sa, sn);
    AgreeBytes(img, img1, Place(data, k), Place(data, k) + RECORD_SIZE, Place(data, k), RECORD_SIZE);
    OwDataCopied(img, img1, Place(data, k), Place(data, k));
  }

  /** The slot right after a right shift's range stays as it was. */
  lemma ShiftedKeepsNext(img: Image, img1: Image, data: nat, slots: nat, pos: nat, l: nat)
    requires pos < l && l + 1 < TABLE_SLOTS && SlotAt(slots, TABLE_SLOTS) <= data
    requires ShiftedRight(img, img1, data, slots, pos, l)
    ensures IsPtr(img1, SlotAt(slots, l + 1)) == IsPtr(img, SlotAt(slots, l + 1))
  {
    var pa, pn, sa, sn := Place(data, pos), Span(pos, l, RECORD_SIZE), SlotAt(slots, pos), Span(pos, l, SLOT_SIZE);
    assert sa + sn == SlotAt(slots, l + 1);
    AgreeOutside2(img, img1, SlotAt(slots, l + 1), SlotAt(slots, l + 1) + 4, pa, pn, sa, sn);
    AgreePtr(img, img1, SlotAt(slots, l + 1), SlotAt(slots, l + 1) + 4, SlotAt(slots, l + 1));
  }

  /** A right shift of records `pos … l-1` over slots and places in step
      with their hole at `l` leaves them in step with the hole at `pos`. */
  lemma ShiftedHoled(img: Image, img1: Image, data: nat, slots: nat, pos: nat, l: nat)
    requires pos < l < TABLE_SLOTS && SlotAt(slots, TABLE_SLOTS) <= data
    requires Holed(img, data, slots, l, l)
    requires ShiftedRight(img, img1, data, slots, pos, l)
    ensures Holed(img1, data, slots, l, pos)
    ensures forall k :: 0 <= k < pos ==>
              BytesAt(img1, Place(data, k), RECORD_SIZE) == BytesAt(img, Place(data, k), RECORD_SIZE)
  {
    forall k | 0 <= k < pos
      ensures IsPtr(img1, SlotAt(slots, k)) && PtrToAddr(img1, SlotAt(slots, k)) == Place(data, k)
      ensures BytesAt(img1, Place(data, k), RECORD_SIZE) == BytesAt(img, Place(data, k), RECORD_SIZE)
      ensures IsOwData(img1, Place(data, k))
    {
      ShiftedKeepsBelow(img, img1, data, slots, pos, l, k);
    }
    forall k | pos < k <= l
      ensures IsOwData(img1, Place(data, k))
    {
      OwDataCopied(img, img1, Place(data, k - 1), Place(data, k));
    }
    TombstoneIsNotPtr(img1, SlotAt(slots, pos));
    TombstoneIsNotOwData(img1, Place(data, pos));
  }

  /** The record at each place `j` in `[lo, hi)` of `before` sits, byte for
      byte, at place `j + 1` of `after`. (The two-term trigger keeps the
      solver from walking down the places when `after` is `before`.) */
  predicate MovedUp(before: Image, after: Image, data: int, lo: int, hi: int) {
    forall j, k {:trigger BytesAt(after, Place(data, k), RECORD_SIZE), BytesAt(before, Place(data, j), RECORD_SIZE)} ::
      lo <= j < hi && k == j + 1 ==>
        BytesAt(after, Place(data, k), RECORD_SIZE) == BytesAt(before, Place(data, j), RECORD_SIZE)
  }

  /** `insert_ow`'s right shift of records `pos … l-1`, on a table whose
      record pool lies above its slot array and whose only hole was at `l`:
      the records before `pos` stay, the others sit one place further, the
      hole moves to `pos`, and slot `l + 1` is left alone. */
  lemma ShiftOpensHole(img: Image, recs: seq<Record>, pos: nat, l: nat, data: nat, slots: nat, img1: Image)
    requires pos <= l <= |recs| && l < TABLE_SLOTS && |img| <= ADDR_SPAN
    requires SlotAt(slots, TABLE_SLOTS) <= data
    requires Contiguous(recs, pos, l, data, slots)
    requires Holed(img, data, slots, l, l)
    requires ShiftRightDown(img, recs, pos, l) == Ok(img1)
    ensures |img1| == |img| && Holed(img1, data, slots, l, pos)
    ensures l + 1 < TABLE_SLOTS ==> IsPtr(img1, SlotAt(slots, l + 1)) == IsPtr(img, SlotAt(slots, l + 1))
    ensures forall k :: 0 <= k < pos ==>
              BytesAt(img1, Place(data, k), RECORD_SIZE) == BytesAt(img, Place(data, k), RECORD_SIZE)
    ensures MovedUp(img, img1, data, pos, l)
  {
    if pos < l {
      assert SlotAt(slots, pos) + SLOT_SIZE * (l + 1 - pos) == SlotAt(slots, l + 1);
      assert SlotAt(slots, l + 1) <= Place(data, pos);
      ShiftRightDownEffect(img, recs, pos, l, data, slots, img1);
      ShiftedHoled(img, img1, data, slots, pos, l);
      if l + 1 < TABLE_SLOTS {
        ShiftedKeepsNext(img, img1, data, slots, pos, l);
      }
      ShiftedMovedUp(img, img1, data, slots, pos, l);
    }
  }

  lemma ShiftedMovedUp(img: Image, img1: Image, data: nat, slots: nat, pos: nat, l: nat)
    requires pos <= l
    requires ShiftedRight(img, img1, data, slots, pos, l)
    ensures MovedUp(img, img1, data, pos, l)
  {
    forall j, k | pos <= j < l && k == j + 1
      ensures BytesAt(img1, Place(data, k), RECORD_SIZE) == BytesAt(img, Place(data, j), RECORD_SIZE)
    {
      assert BytesAt(img1, Place(data, k), RECORD_SIZE) == BytesAt(img, Place(data, k - 1), RECORD_SIZE);
    }
  }

  /** `add_ow`'s placement on a table whose slots and places are in step up
      to `l` with one hole, and whose frame pools lie above place `l`: the
      record goes into the hole's place and the hole's slot points at it;
      every other slot up to `l + 1` and every other record stays as it was. */
  lemma PlaceInHole(img: Image, templates: seq<seq<Byte>>, tbl: Table, t: OwType, n: nat, l: nat, hole: nat)
    requires WellFormedTemplates(templates) && |img| <= ADDR_SPAN
    requires EndOfTable(tbl) <= tbl.dataPool
    requires Place(tbl.dataPool, l + 1) <= tbl.ptrsPool && Place(tbl.dataPool, l + 1) <= tbl.pixelsPool
    requires l < TABLE_SLOTS && Holed(img, tbl.dataPool, tbl.tableAddr, l, hole)
    requires PlaceOw(img, templates, tbl, t, n).Ok?
    ensures var (img3, d) := PlaceOw(img, templates, tbl, t, n).value;
            && d == Place(tbl.dataPool, hole)
            && (forall k :: 0 <= k <= l ==>
                  IsPtr(img3, SlotAt(tbl.tableAddr, k)) && PtrToAddr(img3, SlotAt(tbl.tableAddr, k)) == Place(tbl.dataPool, k))
            && (l + 1 < TABLE_SLOTS ==> IsPtr(img3, SlotAt(tbl.tableAddr, l + 1)) == IsPtr(img, SlotAt(tbl.tableAddr, l + 1)))
            && (forall k :: 0 <= k <= l && k != hole ==>
                  BytesAt(img3, Place(tbl.dataPool, k), RECORD_SIZE) == BytesAt(img, Place(tbl.dataPool, k), RECORD_SIZE))
  {
    var a, data := tbl.tableAddr, tbl.dataPool;
    var hi := Place(data, l + 1);
    var framed := AddFramesPtrs(img, FrameSet(0, 0, tbl.ptrsPool, tbl.pixelsPool), t, n).value;
    var img1 := framed.0;
    AgreeOutside2(img, img1, a, hi, framed.1.pixelsAddr, n * FrameSize(t) + 4, framed.1.ptrsAddr, n * ENTRY_SIZE);
    AgreeKeepsHoled(img, img1, a, data, l, hole);
    FreeSlotIs(img1, a, hole);
    FreeRecordIs(img1, data, hole);
    var slot := FindFreeSlot(img1, a);
    var placed := AddOwData(img1, templates, t, Record(slot, 0, data, framed.1), framed.1.ptrsAddr).value;
    var d := placed.1.dataAddr;
    var img3 := WritePtr(placed.0, d, slot).value;
    PtrRoundTrip(placed.0, d, slot);
    PlacedKeeps(img1, placed.0, img3, a, data, l, hole);
  }

  /** Slots and places that read the same keep the same holes, pointers and
      records. */
  lemma AgreeKeepsHoled(img: Image, img1: Image, a: nat, data: nat, l: nat, hole: nat)
    requires a + TABLE_BYTES <= data && l < TABLE_SLOTS
    requires Agree(img, img1, a, Place(data, l + 1)) && Holed(img, data, a, l, hole)
    ensures Holed(img1, data, a, l, hole)
    ensures l + 1 < TABLE_SLOTS ==> IsPtr(img1, SlotAt(a, l + 1)) == IsPtr(img, SlotAt(a, l + 1))
    ensures forall k :: 0 <= k <= l ==>
              BytesAt(img1, Place(data, k), RECORD_SIZE) == BytesAt(img, Place(data, k), RECORD_SIZE)
  {
    var hi := Place(data, l + 1);
    forall k | 0 <= k <= l + 1 && k < TABLE_SLOTS
      ensures IsPtr(img1, SlotAt(a, k)) == IsPtr(img, SlotAt(a, k))
      ensures PtrToAddr(img1, SlotAt(a, k)) == PtrToAddr(img, SlotAt(a, k))
    {
      AgreePtr(img, img1, a, hi, SlotAt(a, k));
    }
    forall k | 0 <= k <= l
      ensures BytesAt(img1, Place(data, k), RECORD_SIZE) == BytesAt(img, Place(data, k), RECORD_SIZE)
      ensures IsOwData(img1, Place(data, k)) == IsOwData(img, Place(data, k))
    {
      AgreeBytes(img, img1, a, hi, Place(data, k), RECORD_SIZE);
      OwDataCopied(img, img1, Place(data, k), Place(data, k));
    }
  }

  /** The record write into place `hole` and the pointer write into slot
      `hole` miss every other slot and place. */
  lemma PlacedKeeps(img1: Image, img2: Image, img3: Image, a: nat, data: nat, l: nat, hole: nat)
    requires a + TABLE_BYTES <= data && hole <= l < TABLE_SLOTS
    requires SameExcept(img1, img2, Place(data, hole), RECORD_SIZE)
    requires SameExcept(img2, img3, SlotAt(a, hole), 4)
    ensures forall k :: 0 <= k <= l + 1 && k != hole && k < TABLE_SLOTS ==>
              IsPtr(img3, SlotAt(a, k)) == IsPtr(img1, SlotAt(a, k))
              && PtrToAddr(img3, SlotAt(a, k)) == PtrToAddr(img1, SlotAt(a, k))
    ensures forall k :: 0 <= k <= l && k != hole ==>
              BytesAt(img3, Place(data, k), RECORD_SIZE) == BytesAt(img1, Place(data, k), RECORD_SIZE)
  {
    forall k | 0 <= k <= l + 1 && k != hole && k < TABLE_SLOTS
      ensures IsPtr(img3, SlotAt(a, k)) == IsPtr(img1, SlotAt(a, k))
      ensures PtrToAddr(img3, SlotAt(a, k)) == PtrToAddr(img1, SlotAt(a, k))
    {
      PlacedKeepsSlot(img1, img2, img3, a, data, SlotAt(a, hole), Place(data, hole), hole, k);
    }
    forall k | 0 <= k <= l && k != hole
      ensures BytesAt(img3, Place(data, k), RECORD_SIZE) == BytesAt(img1, Place(data, k), RECORD_SIZE)
    {
      PlacedKeepsRecord(img1, img2, img3, a, data, SlotAt(a, hole), Place(data, hole), hole, k);
    }
  }

  /** The record write and the slot write of a placement miss every other slot. */
  lemma PlacedKeepsSlot(img1: Image, img2: Image, img3: Image, a: nat, data: nat, slot: int, d: int, hole: nat, k: nat)
    requires a + TABLE_BYTES <= data && k < TABLE_SLOTS && k != hole
    requires slot == SlotAt(a, hole) && d == Place(data, hole)
    requires SameExcept(img1, img2, d, RECORD_SIZE) && SameExcept(img2, img3, slot, 4)
    ensures IsPtr(img3, SlotAt(a, k)) == IsPtr(img1, SlotAt(a, k))
    ensures PtrToAddr(img3, SlotAt(a, k)) == PtrToAddr(img1, SlotAt(a, k))
  {
    var s := SlotAt(a, k);
    assert s + 4 <= slot || slot + 4 <= s by {
      assert k < hole || k > hole;
    }
    AgreeOutside(img1, img2, s, s + 4, d, RECORD_SIZE);
    AgreeOutside(img2, img3, s, s + 4, slot, 4);
    AgreePtr(img1, img2, s, s + 4, s);
    AgreePtr(img2, img3, s, s + 4, s);
  }

  /** The record write and the slot write of a placement miss every other place. */
  lemma PlacedKeepsRecord(img1: Image, img2: Image, img3: Image, a: nat, data: nat, slot: int, d: int, hole: nat, k: nat)
    requires a + TABLE_BYTES <= data && hole < TABLE_SLOTS && k != hole
    requires slot == SlotAt(a, hole) && d == Place(data, hole)
    requires SameExcept(img1, img2, d, RECORD_SIZE) && SameExcept(img2, img3, slot, 4)
    ensures BytesAt(img3, Place(data, k), RECORD_SIZE) == BytesAt(img1, Place(data, k), RECORD_SIZE)
  {
    var p := Place(data, k);
    assert p + RECORD_SIZE <= d || d + RECORD_SIZE <= p by {
      assert k < hole || k > hole;
    }
    AgreeOutside(img1, img2, p, p + RECORD_SIZE, d, RECORD_SIZE);
    AgreeOutside(img2, img3, p, p + RECORD_SIZE, slot, 4);
    AgreeBytes(img1, img2, p, p + RECORD_SIZE, p, RECORD_SIZE);
    AgreeBytes(img2, img3, p, p + RECORD_SIZE, p, RECORD_SIZE);
  }

  /** Equal runs have equal prefixes. */
  lemma BytesPrefix(x: Image, y: Image, p: int, q: int, n: nat, m: nat)
    requires n <= m && BytesAt(x, p, m) == BytesAt(y, q, m)
    ensures BytesAt(x, p, n) == BytesAt(y, q, n)
  {
    forall i | 0 <= i < n ensures BytesAt(x, p, n)[i] == BytesAt(y, q, n)[i] {
      assert BytesAt(x, p, m)[i] == BytesAt(y, q, m)[i];
    }
  }

  /** `add_ow` (palette slot to the placed record) on slots and places in
      step up to `l` with one hole: the scan afterwards finds `l + 1` records,
      each at its own place; the new one, in the hole, has palette slot 0xA;
      every other record is untouched. */
  lemma AddOwPaintsNew(img: Image, img4: Image, templates: seq<seq<Byte>>, tbl: Table, t: OwType, n: nat, l: nat, hole: nat)
    requires WellFormedTemplates(templates) && |img| <= ADDR_SPAN
    requires EndOfTable(tbl) <= tbl.dataPool
    requires Place(tbl.dataPool, l + 1) <= tbl.ptrsPool && Place(tbl.dataPool, l + 1) <= tbl.pixelsPool
    requires l < TABLE_SLOTS && Holed(img, tbl.dataPool, tbl.tableAddr, l, hole)
    requires l + 1 == TABLE_SLOTS || !IsPtr(img, SlotAt(tbl.tableAddr, l + 1))
    requires AddOw(img, templates, tbl, t, n).Ok? && img4 == AddOw(img, templates, tbl, t, n).value.0
    ensures |Scan(img4, tbl)| == l + 1
    ensures forall i :: 0 <= i <= l ==> Scan(img4, tbl)[i].dataAddr == Place(tbl.dataPool, i)
    ensures GetPaletteSlot(img4, Place(tbl.dataPool, hole)) == NEW_PALETTE_SLOT
    ensures forall k {:trigger BytesAt(img4, Place(tbl.dataPool, k), RECORD_SIZE)} :: 0 <= k <= l && k != hole ==>
              BytesAt(img4, Place(tbl.dataPool, k), RECORD_SIZE) == BytesAt(img, Place(tbl.dataPool, k), RECORD_SIZE)
  {
    PlaceInHole(img, templates, tbl, t, n, l, hole);
    var img3 := PlaceOw(img, templates, tbl, t, n).value.0;
    PaintKeeps(img3, img4, tbl.tableAddr, tbl.dataPool, l, hole);
    ScanInStep(img3, tbl, l);
    ScanInStep(img4, tbl, l);
  }

  /** The one-byte palette write at the record in place `hole` misses every
      slot and every other place. */
  lemma PaintKeeps(img3: Image, img4: Image, a: nat, data: nat, l: nat, hole: nat)
    requires SameExcept(img3, img4, Place(data, hole) + PALETTE_SLOT_FIELD, 1)
    requires a + TABLE_BYTES <= data && hole <= l < TABLE_SLOTS
    ensures forall k :: 0 <= k <= l + 1 && k < TABLE_SLOTS ==>
              IsPtr(img4, SlotAt(a, k)) == IsPtr(img3, SlotAt(a, k))
              && PtrToAddr(img4, SlotAt(a, k)) == PtrToAddr(img3, SlotAt(a, k))
    ensures forall k :: 0 <= k <= l && k != hole ==>
              BytesAt(img4, Place(data, k), RECORD_SIZE) == BytesAt(img3, Place(data, k), RECORD_SIZE)
  {
    var w := Place(data, hole) + PALETTE_SLOT_FIELD;
    forall k | 0 <= k <= l + 1 && k < TABLE_SLOTS
      ensures IsPtr(img4, SlotAt(a, k)) == IsPtr(img3, SlotAt(a, k))
      ensures PtrToAddr(img4, SlotAt(a, k)) == PtrToAddr(img3, SlotAt(a, k))
    {
      AgreeOutside(img3, img4, SlotAt(a, k), SlotAt(a, k) + 4, w, 1);
      AgreePtr(img3, img4, SlotAt(a, k), SlotAt(a, k) + 4, SlotAt(a, k));
    }
    forall k | 0 <= k <= l && k != hole
      ensures BytesAt(img4, Place(data, k), RECORD_SIZE) == BytesAt(img3, Place(data, k), RECORD_SIZE)
    {
      assert Place(data, k) + RECORD_SIZE <= w || w + 1 <= Place(data, k) by {
        assert k < hole || k > hole;
      }
      AgreeOutside(img3, img4, Place(data, k), Place(data, k) + RECORD_SIZE, w, 1);
      AgreeBytes(img3, img4, Place(data, k), Place(data, k) + RECORD_SIZE, Place(data, k), RECORD_SIZE);
    }
  }

  /** Slots `0 … l` pointing at places `0 … l` and no pointer after them:
      the scan finds exactly those `l + 1` records. */
  lemma ScanInStep(img: Image, tbl: Table, l: nat)
    requires l < TABLE_SLOTS
    requires forall k :: 0 <= k <= l ==>
               IsPtr(img, SlotAt(tbl.tableAddr, k)) && PtrToAddr(img, SlotAt(tbl.tableAddr, k)) == Place(tbl.dataPool, k)
    requires l + 1 == TABLE_SLOTS || !IsPtr(img, SlotAt(tbl.tableAddr, l + 1))
    ensures |Scan(img, tbl)| == l + 1
    ensures forall i :: 0 <= i <= l ==> Scan(img, tbl)[i].dataAddr == Place(tbl.dataPool, i)
  {
    ScanLength(img, tbl, l + 1);
  }

  /** The palette write of `add_ow` as the source writes it, on slots and
      places in step up to `l` with the hole at `hole < l` (as `insert_ow`
      and `resize_ow` leave them): the record placed in the hole is not the
      last one scanned, so palette slot 0xA lands on the record at place `l`,
      whose other leading bytes are those it had before, and the placed
      record keeps the template's palette byte. */
  lemma AddOwRepaintsLast(img: Image, templates: seq<seq<Byte>>, tbl: Table, t: OwType, n: nat, l: nat, hole: nat)
    requires WellFormedTemplates(templates) && |img| <= ADDR_SPAN
    requires EndOfTable(tbl) <= tbl.dataPool
    requires Place(tbl.dataPool, l + 1) <= tbl.ptrsPool && Place(tbl.dataPool, l + 1) <= tbl.pixelsPool
    requires l < TABLE_SLOTS && Holed(img, tbl.dataPool, tbl.tableAddr, l, hole) && hole < l
    requires l + 1 == TABLE_SLOTS || !IsPtr(img, SlotAt(tbl.tableAddr, l + 1))
    requires AddOwAsWritten(img, templates, tbl, t, n).Ok?
    ensures var (img4, tbl4) := AddOwAsWritten(img, templates, tbl, t, n).value;
            && PlaceOw(img, templates, tbl, t, n).value.1 == Place(tbl.dataPool, hole)
            && |tbl4.records| == l + 1 && tbl4.records[l].dataAddr == Place(tbl.dataPool, l)
            && GetPaletteSlot(img4, Place(tbl.dataPool, l)) == NEW_PALETTE_SLOT
            && BytesAt(img4, Place(tbl.dataPool, l), PALETTE_SLOT_FIELD)
               == BytesAt(img, Place(tbl.dataPool, l), PALETTE_SLOT_FIELD)
            && BytesAt(img4, Place(tbl.dataPool, hole), RECORD_SIZE)
               == BytesAt(PlaceOw(img, templates, tbl, t, n).value.0, Place(tbl.dataPool, hole), RECORD_SIZE)
  {
    var data := tbl.dataPool;
    PlaceInHole(img, templates, tbl, t, n, l, hole);
    var img3 := PlaceOw(img, templates, tbl, t, n).value.0;
    ScanLength(img3, tbl, l + 1);
    var last := Scan(img3, tbl)[l].dataAddr;
    assert last == Place(data, l);
    var img4 := AddOwAsWritten(img, templates, tbl, t, n).value.0;
    AgreeOutside(img3, img4, last, last + PALETTE_SLOT_FIELD, last + PALETTE_SLOT_FIELD, 1);
    AgreeBytes(img3, img4, last, last + PALETTE_SLOT_FIELD, last, PALETTE_SLOT_FIELD);
    BytesPrefix(img3, img, last, last, PALETTE_SLOT_FIELD, RECORD_SIZE);
    PaintKeeps(img3, img4, tbl.tableAddr, data, l, l);
  }

  /** The record at `p` in `after` is the record at `q` in `before` with
      palette slot 0xA: the bytes before and after byte +12, and the high
      nibble of byte +12, are those of `before`. */
  predicate Repainted(before: Image, after: Image, p: int, q: int) {
    && BytesAt(after, p, PALETTE_SLOT_FIELD) == BytesAt(before, q, PALETTE_SLOT_FIELD)
    && BytesAt(after, p + FOOTPRINT_FIELD, RECORD_SIZE - FOOTPRINT_FIELD)
       == BytesAt(before, q + FOOTPRINT_FIELD, RECORD_SIZE - FOOTPRINT_FIELD)
    && PaletteHigh(after, p) == PaletteHigh(before, q)
    && GetPaletteSlot(after, p) == NEW_PALETTE_SLOT
  }

  /** A palette write of 0xA on a record that reads as record `q` of `before`
      repaints it. */
  lemma RepaintedFrom(before: Image, x: Image, y: Image, p: int, q: int)
    requires BytesAt(x, p, RECORD_SIZE) == BytesAt(before, q, RECORD_SIZE)
    requires SameExcept(x, y, p + PALETTE_SLOT_FIELD, 1)
    requires GetPaletteSlot(y, p) == NEW_PALETTE_SLOT && PaletteHigh(y, p) == PaletteHigh(x, p)
    ensures Repainted(before, y, p, q)
  {
    var w := BytesAt(x, p, RECORD_SIZE);
    forall i | 0 <= i < PALETTE_SLOT_FIELD
      ensures BytesAt(y, p, PALETTE_SLOT_FIELD)[i] == BytesAt(before, q, PALETTE_SLOT_FIELD)[i]
    {
      assert w[i] == BytesAt(before, q, RECORD_SIZE)[i];
      if 0 <= p + i < |x| {
        assert y[p + i] == x[p + i];
      }
    }
    var tailY := BytesAt(y, p + FOOTPRINT_FIELD, RECORD_SIZE - FOOTPRINT_FIELD);
    var tailB := BytesAt(before, q + FOOTPRINT_FIELD, RECORD_SIZE - FOOTPRINT_FIELD);
    forall i | 0 <= i < RECORD_SIZE - FOOTPRINT_FIELD ensures tailY[i] == tailB[i] {
      assert w[FOOTPRINT_FIELD + i] == BytesAt(before, q, RECORD_SIZE)[FOOTPRINT_FIELD + i];
      if 0 <= p + FOOTPRINT_FIELD + i < |x| {
        assert y[p + FOOTPRINT_FIELD + i] == x[p + FOOTPRINT_FIELD + i];
      }
    }
    assert w[PALETTE_SLOT_FIELD] == BytesAt(before, q, RECORD_SIZE)[PALETTE_SLOT_FIELD];
  }

  /** `add_ow` as the source writes it, on slots and places in step up to
      `l` with one hole: the scan afterwards finds `l + 1` records, each at
      its own place, the new one in the hole; palette slot 0xA goes to the
      record at place `l`, which is the new one only when the hole was
      there; every record other than the new one and the one at `l` is
      untouched. */
  lemma AddOwPaintsLast(img: Image, img4: Image, templates: seq<seq<Byte>>, tbl: Table, t: OwType, n: nat, l: nat, hole: nat)
    requires WellFormedTemplates(templates) && |img| <= ADDR_SPAN
    requires EndOfTable(tbl) <= tbl.dataPool
    requires Place(tbl.dataPool, l + 1) <= tbl.ptrsPool && Place(tbl.dataPool, l + 1) <= tbl.pixelsPool
    requires l < TABLE_SLOTS && Holed(img, tbl.dataPool, tbl.tableAddr, l, hole)
    requires l + 1 == TABLE_SLOTS || !IsPtr(img, SlotAt(tbl.tableAddr, l + 1))
    requires AddOwAsWritten(img, templates, tbl, t, n).Ok? && img4 == AddOwAsWritten(img, templates, tbl, t, n).value.0
    ensures |Scan(img4, tbl)| == l + 1
    ensures forall i :: 0 <= i <= l ==> Scan(img4, tbl)[i].dataAddr == Place(tbl.dataPool, i)
    ensures PlaceOw(img, templates, tbl, t, n).value.1 == Place(tbl.dataPool, hole)
    ensures GetPaletteSlot(img4, Place(tbl.dataPool, l)) == NEW_PALETTE_SLOT
    ensures hole < l ==> Repainted(img, img4, Place(tbl.dataPool, l), Place(tbl.dataPool, l))
    ensures forall k {:trigger BytesAt(img4, Place(tbl.dataPool, k), RECORD_SIZE)} :: 0 <= k < l && k != hole ==>
              BytesAt(img4, Place(tbl.dataPool, k), RECORD_SIZE) == BytesAt(img, Place(tbl.dataPool, k), RECORD_SIZE)
  {
    var data := tbl.dataPool;
    PlaceInHole(img, templates, tbl, t, n, l, hole);
    var img3 := PlaceOw(img, templates, tbl, t, n).value.0;
    ScanInStep(img3, tbl, l);
    assert Scan(img3, tbl)[l].dataAddr == Place(data, l);
    PaintKeeps(img3, img4, tbl.tableAddr, data, l, l);
    ScanInStep(img4, tbl, l);
    if hole < l {
      RepaintedFrom(img, img3, img4, Place(data, l), Place(data, l));
    }
  }

  /** `insert_ow` is the right shift of records `pos …` followed by
      `add_ow`, as the source writes it, on the shifted image and a rescan. */
  lemma InsertOwSteps(img: Image, templates: seq<seq<Byte>>, tbl: Table, pos: nat, t: OwType, n: nat)
    requires WellFormedTemplates(templates) && pos <= |tbl.records|
    requires InsertOw(img, templates, tbl, pos, t, n).Ok?
    ensures ShiftRightDown(img, tbl.records, pos, |tbl.records|).Ok?
    ensures var img1 := ShiftRightDown(img, tbl.records, pos, |tbl.records|).value;
            && AddOwAsWritten(img1, templates, tbl, t, n).Ok?
            && InsertOw(img, templates, tbl, pos, t, n).value.0 == AddOwAsWritten(img1, templates, tbl, t, n).value.0
  {
  }

  /** The corrected insert is the same right shift followed by the corrected
      `add_ow`. */
  lemma InsertOwIntendedSteps(img: Image, templates: seq<seq<Byte>>, tbl: Table, pos: nat, t: OwType, n: nat)
    requires WellFormedTemplates(templates) && pos <= |tbl.records|
    requires InsertOwIntended(img, templates, tbl, pos, t, n).Ok?
    ensures ShiftRightDown(img, tbl.records, pos, |tbl.records|).Ok?
    ensures var img1 := ShiftRightDown(img, tbl.records, pos, |tbl.records|).value;
            && AddOw(img1, templates, tbl, t, n).Ok?
            && InsertOwIntended(img, templates, tbl, pos, t, n).value.0 == AddOw(img1, templates, tbl, t, n).value.0
  {
  }

  /** The right shift from `pos` followed by the corrected `add_ow`, over the
      images it passes through: `img` with its hole at the end, the shifted
      `img1`, and the final `img5`. */
  lemma ShiftThenAdd(img: Image, img1: Image, img5: Image, templates: seq<seq<Byte>>, tbl: Table, pos: nat, t: OwType, n: nat)
    requires WellFormedTemplates(templates) && |img| <= ADDR_SPAN
    requires |tbl.records| < TABLE_SLOTS && pos <= |tbl.records|
    requires Contiguous(tbl.records, 0, |tbl.records|, tbl.dataPool, tbl.tableAddr)
    requires Holed(img, tbl.dataPool, tbl.tableAddr, |tbl.records|, |tbl.records|)
    requires EndOfTable(tbl) <= tbl.dataPool
    requires Place(tbl.dataPool, |tbl.records| + 1) <= tbl.ptrsPool
    requires Place(tbl.dataPool, |tbl.records| + 1) <= tbl.pixelsPool
    requires |tbl.records| + 1 == TABLE_SLOTS || !IsPtr(img, SlotAt(tbl.tableAddr, |tbl.records| + 1))
    requires ShiftRightDown(img, tbl.records, pos, |tbl.records|) == Ok(img1)
    requires AddOw(img1, templates, tbl, t, n).Ok? && img5 == AddOw(img1, templates, tbl, t, n).value.0
    ensures |Scan(img5, tbl)| == |tbl.records| + 1
    ensures forall i :: 0 <= i <= |tbl.records| ==> Scan(img5, tbl)[i].dataAddr == Place(tbl.dataPool, i)
    ensures GetPaletteSlot(img5, Place(tbl.dataPool, pos)) == NEW_PALETTE_SLOT
  {
    ShiftOpensHole(img, tbl.records, pos, |tbl.records|, tbl.dataPool, tbl.tableAddr, img1);
    AddOwPaintsNew(img1, img5, templates, tbl, t, n, |tbl.records|, pos);
  }

  /** The right shift from `pos` followed by `add_ow` as the source writes
      it: the records before `pos` are kept, those after it are moved up one
      place, and the one moved to the last place `l` gets palette slot 0xA
      (the new record gets it instead when `pos` is `l`). */
  lemma ShiftThenAddAsWritten(img: Image, img1: Image, img5: Image, templates: seq<seq<Byte>>, tbl: Table, pos: nat, t: OwType, n: nat)
    requires WellFormedTemplates(templates) && |img| <= ADDR_SPAN
    requires |tbl.records| < TABLE_SLOTS && pos <= |tbl.records|
    requires Contiguous(tbl.records, 0, |tbl.records|, tbl.dataPool, tbl.tableAddr)
    requires Holed(img, tbl.dataPool, tbl.tableAddr, |tbl.records|, |tbl.records|)
    requires EndOfTable(tbl) <= tbl.dataPool
    requires Place(tbl.dataPool, |tbl.records| + 1) <= tbl.ptrsPool
    requires Place(tbl.dataPool, |tbl.records| + 1) <= tbl.pixelsPool
    requires |tbl.records| + 1 == TABLE_SLOTS || !IsPtr(img, SlotAt(tbl.tableAddr, |tbl.records| + 1))
    requires ShiftRightDown(img, tbl.records, pos, |tbl.records|) == Ok(img1)
    requires AddOwAsWritten(img1, templates, tbl, t, n).Ok? && img5 == AddOwAsWritten(img1, templates, tbl, t, n).value.0
    ensures |Scan(img5, tbl)| == |tbl.records| + 1
    ensures forall i :: 0 <= i <= |tbl.records| ==> Scan(img5, tbl)[i].dataAddr == Place(tbl.dataPool, i)
    ensures forall k {:trigger BytesAt(img5, Place(tbl.dataPool, k), RECORD_SIZE)} :: 0 <= k < pos ==>
              BytesAt(img5, Place(tbl.dataPool, k), RECORD_SIZE) == BytesAt(img, Place(tbl.dataPool, k), RECORD_SIZE)
    ensures MovedUp(img, img5, tbl.dataPool, pos, |tbl.records| - 1)
    ensures pos < |tbl.records| ==>
              Repainted(img, img5, Place(tbl.dataPool, |tbl.records|), Place(tbl.dataPool, |tbl.records| - 1))
    ensures pos == |tbl.records| ==> GetPaletteSlot(img5, Place(tbl.dataPool, pos)) == NEW_PALETTE_SLOT
  {
    var l, data := |tbl.records|, tbl.dataPool;
    ShiftOpensHole(img, tbl.records, pos, l, data, tbl.tableAddr, img1);
    AddOwPaintsLast(img1, img5, templates, tbl, t, n, l, pos);
    KeptThroughAdd(img, img1, img5, data, pos, l);
  }

  /** A repaint of a record that was moved is a repaint of the record it was
      moved from. */
  lemma RepaintedMoved(img: Image, img1: Image, img5: Image, p: int, q: int)
    requires BytesAt(img1, p, RECORD_SIZE) == BytesAt(img, q, RECORD_SIZE)
    requires Repainted(img1, img5, p, p)
    ensures Repainted(img, img5, p, q)
  {
    var w := BytesAt(img, q, RECORD_SIZE);
    BytesPrefix(img1, img, p, q, PALETTE_SLOT_FIELD, RECORD_SIZE);
    var tail1 := BytesAt(img1, p + FOOTPRINT_FIELD, RECORD_SIZE - FOOTPRINT_FIELD);
    var tail := BytesAt(img, q + FOOTPRINT_FIELD, RECORD_SIZE - FOOTPRINT_FIELD);
    forall i | 0 <= i < RECORD_SIZE - FOOTPRINT_FIELD ensures tail1[i] == tail[i] {
      assert BytesAt(img1, p, RECORD_SIZE)[FOOTPRINT_FIELD + i] == w[FOOTPRINT_FIELD + i];
    }
    assert BytesAt(img1, p, RECORD_SIZE)[PALETTE_SLOT_FIELD] == w[PALETTE_SLOT_FIELD];
  }

  /** The records before `pos` kept by the shift and by the later `add_ow`
      are kept overall, and so are the records the shift moved up below the
      last place `l`; a repaint of the record moved to `l` is a repaint of
      the one that stood at `l - 1`. */
  lemma KeptThroughAdd(img: Image, img1: Image, img5: Image, data: nat, pos: nat, l: nat)
    requires pos <= l
    requires forall k :: 0 <= k < pos ==>
               BytesAt(img1, Place(data, k), RECORD_SIZE) == BytesAt(img, Place(data, k), RECORD_SIZE)
    requires MovedUp(img, img1, data, pos, l)
    requires forall k {:trigger BytesAt(img5, Place(data, k), RECORD_SIZE)} :: 0 <= k < l && k != pos ==>
               BytesAt(img5, Place(data, k), RECORD_SIZE) == BytesAt(img1, Place(data, k), RECORD_SIZE)
    ensures forall k {:trigger BytesAt(img5, Place(data, k), RECORD_SIZE)} :: 0 <= k < pos ==>
              BytesAt(img5, Place(data, k), RECORD_SIZE) == BytesAt(img, Place(data, k), RECORD_SIZE)
    ensures MovedUp(img, img5, data, pos, l - 1)
    ensures pos < l && Repainted(img1, img5, Place(data, l), Place(data, l)) ==>
              Repainted(img, img5, Place(data, l), Place(data, l - 1))
  {
    if pos < l && Repainted(img1, img5, Place(data, l), Place(data, l)) {
      assert BytesAt(img1, Place(data, l), RECORD_SIZE) == BytesAt(img, Place(data, l - 1), RECORD_SIZE);
      RepaintedMoved(img, img1, img5, Place(data, l), Place(data, l - 1));
    }
    forall j, k | pos <= j < l - 1 && k == j + 1
      ensures BytesAt(img5, Place(data, k), RECORD_SIZE) == BytesAt(img, Place(data, j), RECORD_SIZE)
    {
      assert BytesAt(img5, Place(data, k), RECORD_SIZE) == BytesAt(img1, Place(data, k), RECORD_SIZE);
    }
  }

  /** `insert_ow` with the corrected `add_ow`, at `pos` on a table of
      `l < 256` records at consecutive places from its record pool, followed
      by a free place and a free slot: the rescan finds `l + 1` records, each
      at its own place, and the new record at place `pos` has palette
      slot 0xA. */
  lemma InsertOwPlaces(img: Image, templates: seq<seq<Byte>>, tbl: Table, pos: nat, t: OwType, n: nat)
    requires WellFormedTemplates(templates) && |img| <= ADDR_SPAN
    requires tbl.records == Scan(img, tbl) && |tbl.records| < TABLE_SLOTS && pos <= |tbl.records|
    requires Contiguous(tbl.records, 0, |tbl.records|, tbl.dataPool, tbl.tableAddr)
    requires forall k :: 0 <= k < |tbl.records| ==> IsOwData(img, Place(tbl.dataPool, k))
    requires !IsOwData(img, Place(tbl.dataPool, |tbl.records|))
    requires EndOfTable(tbl) <= tbl.dataPool
    requires Place(tbl.dataPool, |tbl.records| + 1) <= tbl.ptrsPool
    requires Place(tbl.dataPool, |tbl.records| + 1) <= tbl.pixelsPool
    requires |tbl.records| + 1 == TABLE_SLOTS || !IsPtr(img, SlotAt(tbl.tableAddr, |tbl.records| + 1))
    requires InsertOwIntended(img, templates, tbl, pos, t, n).Ok?
    ensures var (img5, tbl5) := InsertOwIntended(img, templates, tbl, pos, t, n).value;
            && |tbl5.records| == |tbl.records| + 1
            && (forall i :: 0 <= i <= |tbl.records| ==> tbl5.records[i].dataAddr == Place(tbl.dataPool, i))
            && GetPaletteSlot(img5, Place(tbl.dataPool, pos)) == NEW_PALETTE_SLOT
  {
    ScanHoled(img, tbl);
    InsertOwIntendedSteps(img, templates, tbl, pos, t, n);
    ShiftThenAdd(img, ShiftRightDown(img, tbl.records, pos, |tbl.records|).value,
                 InsertOwIntended(img, templates, tbl, pos, t, n).value.0, templates, tbl, pos, t, n);
  }

  /** `insert_ow` as the source writes it, on such a table: the rescan finds
      `l + 1` records, each at its own place; the records before `pos` are
      untouched; each later record is moved one place further unchanged,
      except that the one moved to the last place `l` gets palette slot 0xA
      in the low nibble of its byte +12. Only an insert at the end gives
      0xA to the new record. */
  lemma InsertOwKeeps(img: Image, templates: seq<seq<Byte>>, tbl: Table, pos: nat, t: OwType, n: nat)
    requires WellFormedTemplates(templates) && |img| <= ADDR_SPAN
    requires tbl.records == Scan(img, tbl) && |tbl.records| < TABLE_SLOTS && pos <= |tbl.records|
    requires Contiguous(tbl.records, 0, |tbl.records|, tbl.dataPool, tbl.tableAddr)
    requires forall k :: 0 <= k < |tbl.records| ==> IsOwData(img, Place(tbl.dataPool, k))
    requires !IsOwData(img, Place(tbl.dataPool, |tbl.records|))
    requires EndOfTable(tbl) <= tbl.dataPool
    requires Place(tbl.dataPool, |tbl.records| + 1) <= tbl.ptrsPool
    requires Place(tbl.dataPool, |tbl.records| + 1) <= tbl.pixelsPool
    requires |tbl.records| + 1 == TABLE_SLOTS || !IsPtr(img, SlotAt(tbl.tableAddr, |tbl.records| + 1))
    requires InsertOw(img, templates, tbl, pos, t, n).Ok?
    ensures var (img5, tbl5) := InsertOw(img, templates, tbl, pos, t, n).value;
            && |tbl5.records| == |tbl.records| + 1
            && (forall i :: 0 <= i <= |tbl.records| ==> tbl5.records[i].dataAddr == Place(tbl.dataPool, i))
            && (forall k {:trigger BytesAt(img5, Place(tbl.dataPool, k), RECORD_SIZE)} :: 0 <= k < pos ==>
                  BytesAt(img5, Place(tbl.dataPool, k), RECORD_SIZE) == BytesAt(img, Place(tbl.dataPool, k), RECORD_SIZE))
            && (forall k {:trigger BytesAt(img5, Place(tbl.dataPool, k), RECORD_SIZE)} :: pos < k < |tbl.records| ==>
                  BytesAt(img5, Place(tbl.dataPool, k), RECORD_SIZE) == BytesAt(img, Place(tbl.dataPool, k - 1), RECORD_SIZE))
            && (pos < |tbl.records| ==>
                  Repainted(img, img5, Place(tbl.dataPool, |tbl.records|), Place(tbl.dataPool, |tbl.records| - 1)))
            && (pos == |tbl.records| ==> GetPaletteSlot(img5, Place(tbl.dataPool, pos)) == NEW_PALETTE_SLOT)
  {
    ScanHoled(img, tbl);
    InsertOwSteps(img, templates, tbl, pos, t, n);
    ShiftThenAddAsWritten(img, ShiftRightDown(img, tbl.records, pos, |tbl.records|).value,
                          InsertOw(img, templates, tbl, pos, t, n).value.0, templates, tbl, pos, t, n);
  }

  /** Scanned records at consecutive places, each holding a record, with no
      record at the place after them: slots and places are in step with the
      hole at the end. */
  lemma ScanHoled(img: Image, tbl: Table)
    requires tbl.records == Scan(img, tbl) && |tbl.records| < TABLE_SLOTS
    requires Contiguous(tbl.records, 0, |tbl.records|, tbl.dataPool, tbl.tableAddr)
    requires forall k :: 0 <= k < |tbl.records| ==> IsOwData(img, Place(tbl.dataPool, k))
    requires !IsOwData(img, Place(tbl.dataPool, |tbl.records|))
    ensures Holed(img, tbl.dataPool, tbl.tableAddr, |tbl.records|, |tbl.records|)
  {
  }
}
