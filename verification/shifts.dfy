/**
  The record shifts of `remove_ow` and `insert_ow` (core.py:658-684): after
  a removal every later record moves one place left, in ascending order;
  before an insertion every record from the insertion point moves one place
  right, in descending order. On a table whose records and slots lie
  contiguously, each order is the one that never overwrites a record that
  has not moved yet.
 */
module Shifts {
  import opened RomBytes
  import opened Validators
  import opened RecordFields
  import opened FrameSets
  import opened Records

  /** `insert_ow`'s loop: records `hi-1` down to `lo` each move one place right. */
  function ShiftRightDown(img: Image, recs: seq<Record>, lo: nat, hi: nat): (r: Result<Image>)
    requires lo <= hi <= |recs|
    ensures r.Ok? ==> |r.value| == |img|
    decreases hi - lo
  {
    if hi == lo then Ok(img)
    else
      var moved :- MoveRight(img, recs[hi - 1]);
      ShiftRightDown(moved.0, recs, lo, hi - 1)
  }

  /** `remove_ow`'s loop: records `lo` up to `hi-1` each move one place left. */
  function ShiftLeftUp(img: Image, recs: seq<Record>, lo: nat, hi: nat): (r: Result<Image>)
    requires lo <= hi <= |recs|
    ensures r.Ok? ==> |r.value| == |img|
    decreases hi - lo
  {
    if hi == lo then Ok(img)
    else
      var moved :- MoveLeft(img, recs[lo]);
      ShiftLeftUp(moved.0, recs, lo + 1, hi)
  }

  /** The descending shift of records `lo … hi-1` succeeds with image `r`. */
  predicate ShiftsRightTo(img: Image, recs: seq<Record>, lo: nat, hi: nat, r: Image)
    requires lo <= hi <= |recs|
  {
    ShiftRightDown(img, recs, lo, hi) == Ok(r)
  }

  /** The ascending shift of records `lo … hi-1` succeeds with image `r`. */
  predicate ShiftsLeftTo(img: Image, recs: seq<Record>, lo: nat, hi: nat, r: Image)
    requires lo <= hi <= |recs|
  {
    ShiftLeftUp(img, recs, lo, hi) == Ok(r)
  }

  /** The `i`-th record place of a pool starting at `data`. */
  function Place(data: int, i: int): int {
    data + i * RECORD_SIZE
  }

  /** The `i`-th slot of a table starting at `slots`. */
  function SlotAt(slots: int, i: int): int {
    slots + i * SLOT_SIZE
  }

  /** Records `lo … hi-1` of the list sit at consecutive places from `data`
      and their slots at consecutive slots from `slots`. */
  predicate Contiguous(recs: seq<Record>, lo: nat, hi: nat, data: int, slots: int)
    requires lo <= hi <= |recs|
  {
    forall i :: lo <= i < hi ==>
      recs[i].dataAddr == Place(data, i) && recs[i].slotAddr == SlotAt(slots, i)
  }


  /** The extent of places or slots a shift of records `lo … hi-1` may
      change: none when nothing moves, else the `hi - lo` places plus the one
      they move into. */
  function Span(lo: nat, hi: nat, unit: nat): nat
    requires lo <= hi
  {
    if lo == hi then 0 else unit * (hi + 1 - lo)
  }

  /** Records `lo … hi-1` moved one place right: each one's 36 bytes now sit
      one place higher and each slot `lo+1 … hi` points at its record; the
      places and the slot at `lo` are tombstoned; nothing outside places and
      slots `lo … hi` changed. */
  predicate ShiftedRight(before: Image, after: Image, data: int, slots: int, lo: nat, hi: nat)
    requires lo <= hi
  {
    && (forall i {:trigger BytesAt(after, Place(data, i), RECORD_SIZE)} :: lo < i <= hi ==>
          BytesAt(after, Place(data, i), RECORD_SIZE) == BytesAt(before, Place(data, i - 1), RECORD_SIZE))
    && (forall i {:trigger IsPtr(after, SlotAt(slots, i))} {:trigger PtrToAddr(after, SlotAt(slots, i))} :: lo < i <= hi ==>
          IsPtr(after, SlotAt(slots, i)) && PtrToAddr(after, SlotAt(slots, i)) == Place(data, i))
    && (lo < hi ==> Tombstoned(after, Place(data, lo), RECORD_SIZE)
                    && Tombstoned(after, SlotAt(slots, lo), SLOT_SIZE))
    && SameExcept2(before, after, Place(data, lo), Span(lo, hi, RECORD_SIZE),
                   SlotAt(slots, lo), Span(lo, hi, SLOT_SIZE))
  }

  /** Records `lo … hi-1` moved one place left: each one's 36 bytes now sit
      one place lower and each slot `lo-1 … hi-2` points at its record; the
      place and the slot at `hi-1` are tombstoned; nothing outside places and
      slots `lo-1 … hi-1` changed. */
  predicate ShiftedLeft(before: Image, after: Image, data: int, slots: int, lo: nat, hi: nat)
    requires lo <= hi
  {
    && (forall i {:trigger BytesAt(after, Place(data, i), RECORD_SIZE)} :: lo - 1 <= i < hi - 1 ==>
          BytesAt(after, Place(data, i), RECORD_SIZE) == BytesAt(before, Place(data, i + 1), RECORD_SIZE))
    && (forall i {:trigger IsPtr(after, SlotAt(slots, i))} {:trigger PtrToAddr(after, SlotAt(slots, i))} :: lo - 1 <= i < hi - 1 ==>
          IsPtr(after, SlotAt(slots, i)) && PtrToAddr(after, SlotAt(slots, i)) == Place(data, i))
    && (lo < hi ==> Tombstoned(after, Place(data, hi - 1), RECORD_SIZE)
                    && Tombstoned(after, SlotAt(slots, hi - 1), SLOT_SIZE))
    && SameExcept2(before, after, Place(data, lo - 1), Span(lo, hi, RECORD_SIZE),
                   SlotAt(slots, lo - 1), Span(lo, hi, SLOT_SIZE))
  }

  // ------------------------------------------------------------ frame facts

  /** Bytes outside both changed regions read the same afterwards. */
  lemma BytesFrame(before: Image, after: Image, a: int, n: nat, x: int, xn: nat, y: int, yn: nat)
    requires SameExcept2(before, after, x, xn, y, yn)
    requires Disjoint(a, n, x, xn) && Disjoint(a, n, y, yn)
    ensures BytesAt(after, a, n) == BytesAt(before, a, n)
  {
    forall i | 0 <= i < n ensures BytesAt(after, a, n)[i] == BytesAt(before, a, n)[i] {
      if 0 <= a + i < |before| {
        assert after[a + i] == before[a + i];
      }
    }
  }

  /** A pointer outside both changed regions decodes the same afterwards. */
  lemma PtrFrame(before: Image, after: Image, a: int, x: int, xn: nat, y: int, yn: nat)
    requires SameExcept2(before, after, x, xn, y, yn)
    requires Disjoint(a, 4, x, xn) && Disjoint(a, 4, y, yn)
    ensures IsPtr(after, a) == IsPtr(before, a)
    ensures PtrToAddr(after, a) == PtrToAddr(before, a)
  {
    BytesFrame(before, after, a, 4, x, xn, y, yn);
    assert ByteAt(after, a + 3) == BytesAt(after, a, 4)[3];
    assert ByteAt(after, a + 2) == BytesAt(after, a, 4)[2];
    assert ByteAt(after, a + 1) == BytesAt(after, a, 4)[1];
    assert ByteAt(after, a) == BytesAt(after, a, 4)[0];
  }

  /** Tombstoned bytes outside both changed regions stay tombstoned. */
  lemma TombstoneFrame(before: Image, after: Image, a: int, n: nat, x: int, xn: nat, y: int, yn: nat)
    requires SameExcept2(before, after, x, xn, y, yn)
    requires Disjoint(a, n, x, xn) && Disjoint(a, n, y, yn)
    requires Tombstoned(before, a, n)
    ensures Tombstoned(after, a, n)
  {
    forall i | a <= i < a + n ensures ByteAt(after, i) == RECORD_FILL {
      assert ByteAt(before, i) == RECORD_FILL;
    }
  }

  /** Two frames compose into the frame of the enclosing regions. */
  lemma FrameTrans(img0: Image, img1: Image, img2: Image,
                   a1: int, n1: nat, b1: int, m1: nat, a2: int, n2: nat, b2: int, m2: nat,
                   a: int, n: nat, b: int, m: nat)
    requires SameExcept2(img0, img1, a1, n1, b1, m1) && SameExcept2(img1, img2, a2, n2, b2, m2)
    requires a <= a1 && a1 + n1 <= a + n && a <= a2 && a2 + n2 <= a + n
    requires b <= b1 && b1 + m1 <= b + m && b <= b2 && b2 + m2 <= b + m
    ensures SameExcept2(img0, img2, a, n, b, m)
  {
    forall i | 0 <= i < |img0| && !(a <= i < a + n) && !(b <= i < b + m)
      ensures img2[i] == img0[i]
    {
      assert img1[i] == img0[i];
    }
  }

  // ----------------------------------------------------------------- lemmas

  /** One step of the descending shift: record `hi-1` moved right first,
      then records `lo … hi-2` moved right, make records `lo … hi-1` moved. */
  lemma RightStep(img: Image, img1: Image, r: Image, rec: Record, data: int, slots: int, lo: nat, hi: nat)
    requires lo < hi
    requires rec.dataAddr == Place(data, hi - 1) && rec.slotAddr == SlotAt(slots, hi - 1)
    requires Disjoint(Place(data, lo), RECORD_SIZE * (hi + 1 - lo),
                      SlotAt(slots, lo), SLOT_SIZE * (hi + 1 - lo))
    requires Moved(img, img1, rec, 1)
    requires ShiftedRight(img1, r, data, slots, lo, hi - 1)
    ensures ShiftedRight(img, r, data, slots, lo, hi)
  {
    var d, s := rec.dataAddr, rec.slotAddr;
    var dLo, sLo := Place(data, lo), SlotAt(slots, lo);
    var dn, sn := Span(lo, hi - 1, RECORD_SIZE), Span(lo, hi - 1, SLOT_SIZE);
    // the record that moved first, and its slot, are outside what the rest touches
    var dHi, sHi := Place(data, hi), SlotAt(slots, hi);
    BytesFrame(img1, r, dHi, RECORD_SIZE, dLo, dn, sLo, sn);
    PtrFrame(img1, r, sHi, dLo, dn, sLo, sn);
    LaterUntouched(img, img1, data, slots, lo, hi);
    if lo == hi - 1 {
      assert r == img1 by {
        assert |r| == |img1|;
        forall i | 0 <= i < |r| ensures r[i] == img1[i] { }
      }
    }
    assert Shift(d, 1, RECORD_SIZE) == dHi && Shift(s, 1, SLOT_SIZE) == sHi;
    forall i | lo < i <= hi
      ensures BytesAt(r, Place(data, i), RECORD_SIZE) == BytesAt(img, Place(data, i - 1), RECORD_SIZE)
    {
      if i < hi {
        assert BytesAt(r, Place(data, i), RECORD_SIZE) == BytesAt(img1, Place(data, i - 1), RECORD_SIZE);
      }
    }
    forall i | lo < i <= hi
      ensures IsPtr(r, SlotAt(slots, i)) && PtrToAddr(r, SlotAt(slots, i)) == Place(data, i)
    {
      if i < hi {
        assert IsPtr(r, SlotAt(slots, i));
      }
    }
    FrameTrans(img, img1, r, d, 2 * RECORD_SIZE, s, 2 * SLOT_SIZE, dLo, dn, sLo, sn,
               dLo, Span(lo, hi, RECORD_SIZE), sLo, Span(lo, hi, SLOT_SIZE));
  }

  /** The first move of a descending shift, of record `hi-1` and its slot,
      leaves the places `lo … hi-2` that move later alone. */
  lemma LaterUntouched(img: Image, img1: Image, data: int, slots: int, lo: nat, hi: nat)
    requires lo < hi
    requires Disjoint(Place(data, lo), RECORD_SIZE * (hi + 1 - lo),
                      SlotAt(slots, lo), SLOT_SIZE * (hi + 1 - lo))
    requires SameExcept2(img, img1, Place(data, hi - 1), 2 * RECORD_SIZE, SlotAt(slots, hi - 1), 2 * SLOT_SIZE)
    ensures forall i :: lo <= i < hi - 1 ==>
              BytesAt(img1, Place(data, i), RECORD_SIZE) == BytesAt(img, Place(data, i), RECORD_SIZE)
  {
    forall i | lo <= i < hi - 1
      ensures BytesAt(img1, Place(data, i), RECORD_SIZE) == BytesAt(img, Place(data, i), RECORD_SIZE)
    {
      BytesFrame(img, img1, Place(data, i), RECORD_SIZE, Place(data, hi - 1), 2 * RECORD_SIZE, SlotAt(slots, hi - 1), 2 * SLOT_SIZE);
    }
  }

  /** One step of the ascending shift: record `lo` moved left first, then
      records `lo+1 … hi-1` moved left, make records `lo … hi-1` moved. */
  lemma LeftStep(img: Image, img1: Image, r: Image, rec: Record, data: int, slots: int, lo: nat, hi: nat)
    requires lo < hi
    requires rec.dataAddr == Place(data, lo) && rec.slotAddr == SlotAt(slots, lo)
    requires Disjoint(Place(data, lo - 1), RECORD_SIZE * (hi + 1 - lo),
                      SlotAt(slots, lo - 1), SLOT_SIZE * (hi + 1 - lo))
    requires Moved(img, img1, rec, -1)
    requires ShiftedLeft(img1, r, data, slots, lo + 1, hi)
    ensures ShiftedLeft(img, r, data, slots, lo, hi)
  {
    var d, s := rec.dataAddr, rec.slotAddr;
    var dLo, sLo := Place(data, lo), SlotAt(slots, lo);
    var dn, sn := Span(lo + 1, hi, RECORD_SIZE), Span(lo + 1, hi, SLOT_SIZE);
    // the record that moved first, and its slot, are outside what the rest touches
    var dPrev, sPrev := Place(data, lo - 1), SlotAt(slots, lo - 1);
    BytesFrame(img1, r, dPrev, RECORD_SIZE, dLo, dn, sLo, sn);
    PtrFrame(img1, r, sPrev, dLo, dn, sLo, sn);
    // the records that moved later were not touched by the first move
    forall i | lo < i < hi
      ensures BytesAt(img1, Place(data, i), RECORD_SIZE) == BytesAt(img, Place(data, i), RECORD_SIZE)
    {
      BytesFrame(img, img1, Place(data, i), RECORD_SIZE, dPrev, 2 * RECORD_SIZE, sPrev, 2 * SLOT_SIZE);
    }
    if lo + 1 == hi {
      assert r == img1 by {
        assert |r| == |img1|;
        forall i | 0 <= i < |r| ensures r[i] == img1[i] { }
      }
    }
    assert Shift(d, -1, RECORD_SIZE) == dPrev && Shift(s, -1, SLOT_SIZE) == sPrev;
    forall i | lo - 1 <= i < hi - 1
      ensures BytesAt(r, Place(data, i), RECORD_SIZE) == BytesAt(img, Place(data, i + 1), RECORD_SIZE)
    {
      if i >= lo {
        assert BytesAt(r, Place(data, i), RECORD_SIZE) == BytesAt(img1, Place(data, i + 1), RECORD_SIZE);
      }
    }
    forall i | lo - 1 <= i < hi - 1
      ensures IsPtr(r, SlotAt(slots, i)) && PtrToAddr(r, SlotAt(slots, i)) == Place(data, i)
    {
      if i >= lo {
        assert IsPtr(r, SlotAt(slots, i));
      }
    }
    FrameTrans(img, img1, r, dPrev, 2 * RECORD_SIZE, sPrev, 2 * SLOT_SIZE, dLo, dn, sLo, sn,
               dPrev, Span(lo, hi, RECORD_SIZE), sPrev, Span(lo, hi, SLOT_SIZE));
  }

  /** The first move of the descending shift succeeds, and the rest of the
      shift starts from its result. */
  lemma RightFirstMove(img: Image, recs: seq<Record>, lo: nat, hi: nat, r: Image)
    requires lo < hi <= |recs|
    requires ShiftRightDown(img, recs, lo, hi) == Ok(r)
    ensures MoveRight(img, recs[hi - 1]).Ok?
    ensures |MoveRight(img, recs[hi - 1]).value.0| == |img|
    ensures ShiftRightDown(MoveRight(img, recs[hi - 1]).value.0, recs, lo, hi - 1) == Ok(r)
  {
  }

  /** The descending shift of `insert_ow` on a contiguous table moves every
      record `lo … hi-1` one place right intact. */
  lemma {:induction false} ShiftRightDownEffect(img: Image, recs: seq<Record>, lo: nat, hi: nat, data: int, slots: int, r: Image)
    requires lo <= hi <= |recs| && |img| <= ADDR_SPAN
    requires Contiguous(recs, lo, hi, data, slots)
    requires Disjoint(Place(data, lo), RECORD_SIZE * (hi + 1 - lo),
                      SlotAt(slots, lo), SLOT_SIZE * (hi + 1 - lo))
    requires ShiftsRightTo(img, recs, lo, hi, r)
    ensures ShiftedRight(img, r, data, slots, lo, hi)
    decreases hi - lo, 1
  {
    if hi > lo {
      var img1 := RightRestReady(img, recs, lo, hi, data, slots, r);
      ShiftRightDownRest(img, img1, recs, lo, hi, data, slots, r);
    } else {
      NothingShifted(img, r, data, slots, lo);
    }
  }

  /** The inductive step of `ShiftRightDownEffect`: after the first move,
      the rest of the shift is one record shorter. */
  lemma {:induction false} ShiftRightDownRest(img: Image, img1: Image, recs: seq<Record>, lo: nat, hi: nat, data: int, slots: int, r: Image)
    requires lo < hi <= |recs| && |img1| <= ADDR_SPAN
    requires recs[hi - 1].dataAddr == Place(data, hi - 1) && recs[hi - 1].slotAddr == SlotAt(slots, hi - 1)
    requires Moved(img, img1, recs[hi - 1], 1)
    requires Contiguous(recs, lo, hi - 1, data, slots)
    requires Disjoint(Place(data, lo), RECORD_SIZE * (hi + 1 - lo),
                      SlotAt(slots, lo), SLOT_SIZE * (hi + 1 - lo))
    requires Disjoint(Place(data, lo), RECORD_SIZE * ((hi - 1) + 1 - lo),
                      SlotAt(slots, lo), SLOT_SIZE * ((hi - 1) + 1 - lo))
    requires ShiftsRightTo(img1, recs, lo, hi - 1, r)
    ensures ShiftedRight(img, r, data, slots, lo, hi)
    decreases hi - lo, 0
  {
    ShiftRightDownEffect(img1, recs, lo, hi - 1, data, slots, r);
    RightStep(img, img1, r, recs[hi - 1], data, slots, lo, hi);
  }

  /** The first move of the descending shift moves record `hi-1` onto the
      place and slot next to it, which no other record uses, and the rest of
      the shift meets the same hypotheses one record shorter. */
  lemma RightRestReady(img: Image, recs: seq<Record>, lo: nat, hi: nat, data: int, slots: int, r: Image)
    returns (img1: Image)
    requires lo < hi <= |recs| && |img| <= ADDR_SPAN
    requires Contiguous(recs, lo, hi, data, slots)
    requires Disjoint(Place(data, lo), RECORD_SIZE * (hi + 1 - lo),
                      SlotAt(slots, lo), SLOT_SIZE * (hi + 1 - lo))
    requires ShiftRightDown(img, recs, lo, hi) == Ok(r)
    ensures recs[hi - 1].dataAddr == Place(data, hi - 1) && recs[hi - 1].slotAddr == SlotAt(slots, hi - 1)
    ensures Moved(img, img1, recs[hi - 1], 1)
    ensures |img1| <= ADDR_SPAN
    ensures Contiguous(recs, lo, hi - 1, data, slots)
    ensures Disjoint(Place(data, lo), RECORD_SIZE * ((hi - 1) + 1 - lo),
                     SlotAt(slots, lo), SLOT_SIZE * ((hi - 1) + 1 - lo))
    ensures ShiftsRightTo(img1, recs, lo, hi - 1, r)
  {
    RightFirstMove(img, recs, lo, hi, r);
    var rec := recs[hi - 1];
    img1 := MoveRight(img, rec).value.0;
    assert rec.dataAddr == Place(data, hi - 1) && rec.slotAddr == SlotAt(slots, hi - 1);
    assert RECORD_SIZE * (hi - lo) <= RECORD_SIZE * (hi + 1 - lo);
    assert SLOT_SIZE * (hi - lo) <= SLOT_SIZE * (hi + 1 - lo);
    assert Place(data, hi - 1) + 2 * RECORD_SIZE == Place(data, lo) + RECORD_SIZE * (hi + 1 - lo);
    assert SlotAt(slots, hi - 1) + 2 * SLOT_SIZE == SlotAt(slots, lo) + SLOT_SIZE * (hi + 1 - lo);
    assert Disjoint(rec.dataAddr, 2 * RECORD_SIZE, rec.slotAddr, 2 * SLOT_SIZE);
    MoveRightEffect(img, rec);
  }

  /** The first move of the ascending shift succeeds, and the rest of the
      shift starts from its result. */
  lemma LeftFirstMove(img: Image, recs: seq<Record>, lo: nat, hi: nat, r: Image)
    requires lo < hi <= |recs|
    requires ShiftLeftUp(img, recs, lo, hi) == Ok(r)
    ensures MoveLeft(img, recs[lo]).Ok?
    ensures |MoveLeft(img, recs[lo]).value.0| == |img|
    ensures ShiftLeftUp(MoveLeft(img, recs[lo]).value.0, recs, lo + 1, hi) == Ok(r)
  {
  }

  /** The ascending shift of `remove_ow` on a contiguous table moves every
      record `lo … hi-1` one place left intact. */
  lemma {:induction false} ShiftLeftUpEffect(img: Image, recs: seq<Record>, lo: nat, hi: nat, data: int, slots: int, r: Image)
    requires lo <= hi <= |recs| && |img| <= ADDR_SPAN
    requires Contiguous(recs, lo, hi, data, slots)
    requires Disjoint(Place(data, lo - 1), RECORD_SIZE * (hi + 1 - lo),
                      SlotAt(slots, lo - 1), SLOT_SIZE * (hi + 1 - lo))
    requires ShiftsLeftTo(img, recs, lo, hi, r)
    ensures ShiftedLeft(img, r, data, slots, lo, hi)
    decreases hi - lo, 1
  {
    if hi > lo {
      var img1 := LeftRestReady(img, recs, lo, hi, data, slots, r);
      ShiftLeftUpRest(img, img1, recs, lo, hi, data, slots, r);
    } else {
      NothingShifted(img, r, data, slots, lo);
    }
  }

  /** The inductive step of `ShiftLeftUpEffect`: after the first move, the
      rest of the shift is one record shorter. */
  lemma {:induction false} ShiftLeftUpRest(img: Image, img1: Image, recs: seq<Record>, lo: nat, hi: nat, data: int, slots: int, r: Image)
    requires lo < hi <= |recs| && |img1| <= ADDR_SPAN
    requires recs[lo].dataAddr == Place(data, lo) && recs[lo].slotAddr == SlotAt(slots, lo)
    requires Moved(img, img1, recs[lo], -1)
    requires Contiguous(recs, lo + 1, hi, data, slots)
    requires Disjoint(Place(data, lo - 1), RECORD_SIZE * (hi + 1 - lo),
                      SlotAt(slots, lo - 1), SLOT_SIZE * (hi + 1 - lo))
    requires Disjoint(Place(data, lo + 1 - 1), RECORD_SIZE * (hi + 1 - (lo + 1)),
                      SlotAt(slots, lo + 1 - 1), SLOT_SIZE * (hi + 1 - (lo + 1)))
    requires ShiftsLeftTo(img1, recs, lo + 1, hi, r)
    ensures ShiftedLeft(img, r, data, slots, lo, hi)
    decreases hi - lo, 0
  {
    ShiftLeftUpEffect(img1, recs, lo + 1, hi, data, slots, r);
    LeftStep(img, img1, r, recs[lo], data, slots, lo, hi);
  }

  /** An empty shift changes nothing, which both shift predicates allow. */
  lemma NothingShifted(img: Image, r: Image, data: int, slots: int, lo: nat)
    requires r == img
    ensures ShiftedLeft(img, r, data, slots, lo, lo)
    ensures ShiftedRight(img, r, data, slots, lo, lo)
  {
  }

  /** The first move of the ascending shift moves record `lo` onto the place
      and slot before it, which no other record uses, and the rest of the
      shift meets the same hypotheses one record further on. */
  lemma LeftRestReady(img: Image, recs: seq<Record>, lo: nat, hi: nat, data: int, slots: int, r: Image)
    returns (img1: Image)
    requires lo < hi <= |recs| && |img| <= ADDR_SPAN
    requires Contiguous(recs, lo, hi, data, slots)
    requires Disjoint(Place(data, lo - 1), RECORD_SIZE * (hi + 1 - lo),
                      SlotAt(slots, lo - 1), SLOT_SIZE * (hi + 1 - lo))
    requires ShiftLeftUp(img, recs, lo, hi) == Ok(r)
    ensures recs[lo].dataAddr == Place(data, lo) && recs[lo].slotAddr == SlotAt(slots, lo)
    ensures Moved(img, img1, recs[lo], -1)
    ensures |img1| <= ADDR_SPAN
    ensures Contiguous(recs, lo + 1, hi, data, slots)
    ensures Disjoint(Place(data, lo + 1 - 1), RECORD_SIZE * (hi + 1 - (lo + 1)),
                     SlotAt(slots, lo + 1 - 1), SLOT_SIZE * (hi + 1 - (lo + 1)))
    ensures ShiftsLeftTo(img1, recs, lo + 1, hi, r)
  {
    LeftFirstMove(img, recs, lo, hi, r);
    var rec := recs[lo];
    img1 := MoveLeft(img, rec).value.0;
    assert rec.dataAddr == Place(data, lo) && rec.slotAddr == SlotAt(slots, lo);
    assert Place(data, lo) == Place(data, lo - 1) + RECORD_SIZE;
    assert SlotAt(slots, lo) == SlotAt(slots, lo - 1) + SLOT_SIZE;
    assert RECORD_SIZE * (hi - lo) + RECORD_SIZE == RECORD_SIZE * (hi + 1 - lo);
    assert SLOT_SIZE * (hi - lo) + SLOT_SIZE == SLOT_SIZE * (hi + 1 - lo);
    assert Disjoint(rec.dataAddr - RECORD_SIZE, 2 * RECORD_SIZE, rec.slotAddr - SLOT_SIZE, 2 * SLOT_SIZE);
    MoveLeftEffect(img, rec);
  }
}
