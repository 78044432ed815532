/**
  The catalogue of sprite tables (`Root`, core.py:704-964). A chain of
  four-byte table pointers starts at the root address; discovery walks it,
  opens every table it designates and rebuilds every table still in the
  game's original layout into fresh space ("repointing"); removal erases one
  table and closes the gap in the chain; the spare-slot count measures the
  zeroed words after the chain.
 */
module Catalog {
  import opened RomBytes
  import opened FrameTypes
  import opened FreeSpace
  import opened RecordFields
  import opened Validators
  import opened FrameSets
  import opened Records
  import opened Shifts
  import opened Tables
  import opened TableLayout

  /** Addresses of the two shipped tables discovery refuses to list: their
      chain slot is zeroed, which ends the chain there. */
  const SKIPPED_TABLES: set<nat> := {0x39_FFB0, 0x39_FEB0}
  /** The record walk of a repointing stops once it has counted this many. */
  const MAX_COUNT: nat := TABLE_SLOTS + 1
  /** A repointed table holding at least this many records is padded. */
  const PAD_THRESHOLD: nat := 218
  /** Type and frame count of a padding record. */
  const PAD_TYPE: OwType := 1
  const PAD_FRAMES: nat := 9

  /** Process-wide state kept across calls: the free-space cursor of the
      allocator, the frame-pointer arrays claimed by every record scanned so
      far, and every table address ever listed. Nothing resets the last two. */
  datatype Session = Session(cursor: nat, claimed: set<nat>, knownTables: seq<nat>)

  /** The frame-pointer arrays of `recs`, which a scan adds to the claimed set. */
  function ClaimedBy(recs: seq<Record>): set<nat> {
    set r | r in recs :: r.frames.ptrsAddr
  }

  // ------------------------------------------------------------ the chain

  /** The chain walk from chain slot `k`: the number of consecutive table
      pointers, and the image after the walk. With `skip` (discovery), a
      pointer to one of `SKIPPED_TABLES` is overwritten with zeros, which ends
      the walk; without it (reload) the image is only read. */
  function Walk(img: Image, root: nat, k: nat, skip: bool): (r: (Image, nat))
    ensures k <= r.1 && |r.0| == |img|
    ensures forall j :: k <= j < r.1 ==>
              IsTablePtr(img, SlotAt(root, j))
              && (skip ==> PtrToAddr(img, SlotAt(root, j)) !in SKIPPED_TABLES)
    ensures !IsTablePtr(r.0, SlotAt(root, r.1))
    ensures r.0 != img ==>
              && skip && IsTablePtr(img, SlotAt(root, r.1))
              && PtrToAddr(img, SlotAt(root, r.1)) in SKIPPED_TABLES
              && SameExcept(img, r.0, SlotAt(root, r.1), SLOT_SIZE)
              && BytesAt(r.0, SlotAt(root, r.1), SLOT_SIZE) == Repeat(0, SLOT_SIZE)
    decreases |img| - SlotAt(root, k)
  {
    var slot := SlotAt(root, k);
    if !IsTablePtr(img, slot) then (img, k)
    else if skip && PtrToAddr(img, slot) in SKIPPED_TABLES then
      var img1 := Fill(img, slot, SLOT_SIZE, 0).value;
      assert img1[slot + 3] == 0;
      assert BytesAt(img1, slot, SLOT_SIZE) == Repeat(0, SLOT_SIZE);
      (img1, k)
    else
      assert SlotAt(root, k + 1) == slot + SLOT_SIZE;
      Walk(img, root, k + 1, skip)
  }

  /** The table addresses the first `n` chain slots point at. */
  function ChainTargets(img: Image, root: nat, n: nat): (r: seq<nat>)
    ensures |r| == n
    ensures forall j :: 0 <= j < n ==> r[j] == PtrToAddr(img, SlotAt(root, j))
  {
    seq(n, j => PtrToAddr(img, SlotAt(root, j)))
  }

  /** Open the table chain slot `slot` points at, with the three pools its
      metadata words name (the load branch of discovery, and reload). A
      table already laid out is read without changing a byte; one whose first
      slot still reads as the erased mark is laid out first. */
  function Load(img: Image, s: Session, slot: nat): (r: Result<(Image, Table, Session)>)
    ensures r.Ok? ==>
      var (img1, tbl, s1) := r.value;
      && tbl.tableAddr == PtrToAddr(img, slot)
      && tbl.dataPool == PtrToAddr(img, EndOfTable(tbl))
      && tbl.ptrsPool == PtrToAddr(img, EndOfTable(tbl) + 4)
      && tbl.pixelsPool == PtrToAddr(img, EndOfTable(tbl) + 8)
      && tbl.records == Scan(img1, tbl) && |img1| == |img|
      && s1 == s.(claimed := s.claimed + ClaimedBy(tbl.records))
    ensures r.Ok? ==> InitTable(img, r.value.1.(records := [])) == Ok(r.value.0)
    ensures r.Ok? && PtrToAddr(img, r.value.1.tableAddr) != FRESH_MARK ==> r.value.0 == img
  {
    var table := PtrToAddr(img, slot);
    var end := table + TABLE_BYTES;
    var made :- NewTable(img, table, PtrToAddr(img, end), PtrToAddr(img, end + 4), PtrToAddr(img, end + 8));
    var (img1, tbl) := made;
    Ok((img1, tbl, s.(claimed := s.claimed + ClaimedBy(tbl.records))))
  }

  /** Open chain slots `k … n-1` in order onto `tables`. */
  function LoadFrom(img: Image, s: Session, root: nat, k: nat, n: nat, tables: seq<Table>)
    : (r: Result<(Image, seq<Table>, Session)>)
    requires k <= n
    ensures r.Ok? ==> |r.value.0| == |img| && |r.value.1| == |tables| + n - k
    ensures r.Ok? ==> forall i :: 0 <= i < |tables| ==> r.value.1[i] == tables[i]
    ensures r.Ok? ==> r.value.2.cursor == s.cursor && r.value.2.knownTables == s.knownTables
    ensures r.Ok? ==> s.claimed <= r.value.2.claimed
    decreases n - k
  {
    if k == n then Ok((img, tables, s))
    else
      var loaded :- Load(img, s, SlotAt(root, k));
      var (img1, tbl, s1) := loaded;
      LoadFrom(img1, s1, root, k + 1, n, tables + [tbl])
  }

  /** `reload`: walk the chain without skipping anything, record every
      table address, and open every table. */
  function Reload(img: Image, s: Session, root: nat): (r: Result<(Image, seq<Table>, Session)>)
    ensures r.Ok? ==>
      var n := |r.value.1|;
      && (forall j :: 0 <= j < n ==> IsTablePtr(img, SlotAt(root, j)))
      && !IsTablePtr(img, SlotAt(root, n))
      && r.value.2.knownTables == s.knownTables + ChainTargets(img, root, n)
      && r.value.2.cursor == s.cursor && s.claimed <= r.value.2.claimed
      && |r.value.0| == |img|
  {
    var (img1, n) := Walk(img, root, 0, false);
    LoadFrom(img, s.(knownTables := s.knownTables + ChainTargets(img, root, n)), root, 0, n, [])
  }

  // ------------------------------------------------- repointing: inference

  /** The record count of a repointing (core.py:842-852) from slot `num` of
      the slot array at `a`: the run of record pointers, cut short once more
      than 256 are counted, or at a slot past the first two that is itself a
      listed table address. */
  function CountRecordsFrom(img: Image, a: nat, num: nat, known: seq<nat>): (n: nat)
    requires num <= MAX_COUNT
    ensures num <= n <= MAX_COUNT
    ensures forall i :: num <= i < n ==> IsOwDataPtr(img, SlotAt(a, i))
    ensures forall i :: num <= i < n && 2 <= i ==> SlotAt(a, i) !in known
    ensures n == MAX_COUNT || !IsOwDataPtr(img, SlotAt(a, n)) || (2 <= n && SlotAt(a, n) in known)
    decreases MAX_COUNT - num
  {
    var slot := SlotAt(a, num);
    if !IsOwDataPtr(img, slot) || num > TABLE_SLOTS then num
    else if num > 1 && slot in known then num
    else CountRecordsFrom(img, a, num + 1, known)
  }

  /** The number of records of the table whose slot array is at `a`. */
  function CountRecords(img: Image, a: nat, known: seq<nat>): (n: nat)
    ensures n <= MAX_COUNT
    ensures forall i :: 0 <= i < n ==> IsOwDataPtr(img, SlotAt(a, i))
    ensures forall i :: 2 <= i < n ==> SlotAt(a, i) !in known
    ensures n == MAX_COUNT || !IsOwDataPtr(img, SlotAt(a, n)) || (2 <= n && SlotAt(a, n) in known)
  {
    CountRecordsFrom(img, a, 0, known)
  }

  /** Conversely, the count is the only number with those properties: the
      longest run of record pointers, none of them past the first two a
      listed table address, capped at 257. */
  lemma {:induction false} CountRecordsIs(img: Image, a: nat, known: seq<nat>, m: nat)
    requires m <= MAX_COUNT
    requires forall i :: 0 <= i < m ==> IsOwDataPtr(img, SlotAt(a, i))
    requires forall i :: 2 <= i < m ==> SlotAt(a, i) !in known
    requires m == MAX_COUNT || !IsOwDataPtr(img, SlotAt(a, m)) || (2 <= m && SlotAt(a, m) in known)
    ensures CountRecords(img, a, known) == m
  {
    CountFromIs(img, a, 0, known, m);
  }

  lemma {:induction false} CountFromIs(img: Image, a: nat, num: nat, known: seq<nat>, m: nat)
    requires num <= m <= MAX_COUNT
    requires forall i :: num <= i < m ==> IsOwDataPtr(img, SlotAt(a, i))
    requires forall i :: num <= i < m && 2 <= i ==> SlotAt(a, i) !in known
    requires m == MAX_COUNT || !IsOwDataPtr(img, SlotAt(a, m)) || (2 <= m && SlotAt(a, m) in known)
    ensures CountRecordsFrom(img, a, num, known) == m
    decreases m - num
  {
    if num < m {
      CountFromIs(img, a, num + 1, known, m);
    }
  }

  /** The frame-pointer array of each of the first `n` records of the slot
      array at `a`. */
  function OriginalFramesPtrs(img: Image, a: nat, n: nat): (r: seq<nat>)
    ensures |r| == n
    ensures forall i :: 0 <= i < n ==> r[i] == PtrToAddr(img, PtrToAddr(img, SlotAt(a, i)) + FRAMES_FIELD)
  {
    seq(n, i => PtrToAddr(img, PtrToAddr(img, SlotAt(a, i)) + FRAMES_FIELD))
  }

  /** The test the frame-count walk applies to the entry at `c`: it is not
      one of the `excluded` arrays, it is a frame-pointer entry, and its
      signature word equals that of the entry before it. */
  predicate Continues(img: Image, c: nat, excluded: set<nat>) {
    c !in excluded && IsFramesPtr(img, c) && WordAt(img, c + 4) == WordAt(img, c - 4)
  }

  /** The index of the first entry, from entry `j` of the array at `c` on,
      that fails the test. */
  function RunFrom(img: Image, c: nat, j: nat, excluded: set<nat>): (k: nat)
    ensures j <= k
    ensures forall i :: j <= i < k ==> Continues(img, Stride(c, i, ENTRY_SIZE), excluded)
    ensures !Continues(img, Stride(c, k, ENTRY_SIZE), excluded)
    decreases |img| - Stride(c, j, ENTRY_SIZE)
  {
    if !Continues(img, Stride(c, j, ENTRY_SIZE), excluded) then j
    else
      assert ByteAt(img, Stride(c, j, ENTRY_SIZE) + 3) == 8;
      RunFrom(img, c, j + 1, excluded)
  }

  /** The frame count inferred for the record whose frame-pointer array is
      at `ofp` (core.py:869-885): one, plus the run of entries passing the
      test. The test of the second entry excludes the arrays claimed so far;
      the tests of the later ones exclude only this table's own arrays. */
  function InferFrameCount(img: Image, ofp: nat, claimed: set<nat>, originals: seq<nat>): (n: nat)
    ensures n >= 1
    ensures n == 1 <==> !Continues(img, ofp + ENTRY_SIZE, claimed)
    ensures n >= 2 ==>
              && (forall j :: 2 <= j < n ==> Continues(img, Stride(ofp, j, ENTRY_SIZE), set x | x in originals))
              && !Continues(img, Stride(ofp, n, ENTRY_SIZE), set x | x in originals)
  {
    if !Continues(img, ofp + ENTRY_SIZE, claimed) then 1
    else RunFrom(img, ofp, 2, set x | x in originals)
  }

  /** Conversely, the frame count is the only number with those
      properties. */
  lemma InferFrameCountIs(img: Image, ofp: nat, claimed: set<nat>, originals: seq<nat>, m: nat)
    requires m >= 1
    requires m == 1 <==> !Continues(img, ofp + ENTRY_SIZE, claimed)
    requires m >= 2 ==>
               && (forall j :: 2 <= j < m ==> Continues(img, Stride(ofp, j, ENTRY_SIZE), set x | x in originals))
               && !Continues(img, Stride(ofp, m, ENTRY_SIZE), set x | x in originals)
    ensures InferFrameCount(img, ofp, claimed, originals) == m
  {
    if m >= 2 {
      RunFromIs(img, ofp, 2, (set x | x in originals), m);
    }
  }

  lemma {:induction false} RunFromIs(img: Image, c: nat, j: nat, excluded: set<nat>, m: nat)
    requires j <= m
    requires forall i :: j <= i < m ==> Continues(img, Stride(c, i, ENTRY_SIZE), excluded)
    requires !Continues(img, Stride(c, m, ENTRY_SIZE), excluded)
    ensures RunFrom(img, c, j, excluded) == m
    decreases m - j
  {
    if j < m {
      RunFromIs(img, c, j + 1, excluded, m);
    }
  }

  // ------------------------------------------------- repointing: rebuild

  /** The first steps of a repointing (core.py:856-859): lay a new table out
      in free space found from the cursor, and point the chain slot at it. */
  function StartRepoint(img: Image, s: Session, slot: nat): (r: Result<(Image, Table, nat)>)
    ensures r.Ok? ==>
      var (img1, tbl, cursor) := r.value;
      && |img1| == |img| && s.cursor <= tbl.tableAddr && cursor <= |img|
      && tbl.tableAddr + TABLE_USED <= tbl.dataPool
      && tbl.dataPool + DATA_REGION <= tbl.ptrsPool
      && tbl.ptrsPool + PTRS_REGION <= tbl.pixelsPool
      && cursor == tbl.pixelsPool + PIXELS_REGION
  {
    var found :- AllocateFootprint(img, s.cursor);
    var (fp, cursor) := found;
    var made :- NewTable(img, fp.tableAddr, fp.dataPool, fp.ptrsPool, fp.pixelsPool);
    var (img1, tbl) := made;
    var img2 :- WritePtr(img1, tbl.tableAddr, slot);
    Ok((img2, tbl, cursor))
  }

  /** `copy_data` of the `n - j` frames left, from the pixel blocks the
      entries `j … n-1` of the array at `ofp` point at, to consecutive blocks
      of `size` bytes from `dst`. */
  function CopyFrames(img: Image, ofp: nat, dst: nat, size: nat, j: nat, n: nat): (r: Result<Image>)
    requires j <= n
    ensures r.Ok? ==> |r.value| == |img|
    ensures r.Ok? ==> forall i {:trigger r.value[i]} :: 0 <= i < |img| && !(Stride(dst, j, size) <= i < Stride(dst, n, size)) ==>
              r.value[i] == img[i]
    decreases n - j
  {
    if j == n then Ok(img)
    else
      var lo := Stride(dst, j, size);
      var img1 :- CopyData(img, PtrToAddr(img, Stride(ofp, j, ENTRY_SIZE)), lo, size);
      var r := CopyFrames(img1, ofp, dst, size, j + 1, n);
      if r.Ok? then
        StrideStep(dst, j, n, size);
        r
      else r
  }

  lemma StrideStep(dst: nat, j: nat, n: nat, size: nat)
    requires j < n
    ensures Stride(dst, j + 1, size) == Stride(dst, j, size) + size
    ensures Stride(dst, j + 1, size) <= Stride(dst, n, size)
  {
    assert (j + 1) * size <= n * size;
  }

  /** `[x, x + m)` lies wholly before `lo` or from `hi` on. */
  predicate Outside(x: int, m: nat, lo: int, hi: int) {
    x + m <= lo || hi <= x
  }

  /** The entry words `j … n-1` of the array at `ofp`, and the `size`-byte
      blocks they point at, all lie outside `[lo, hi)`. */
  predicate SourcesOutside(img: Image, ofp: nat, size: nat, j: nat, n: nat, lo: int, hi: int) {
    forall jj :: j <= jj < n ==>
      && Outside(Stride(ofp, jj, ENTRY_SIZE), 4, lo, hi)
      && Outside(PtrToAddr(img, Stride(ofp, jj, ENTRY_SIZE)), size, lo, hi)
  }

  /** The entries `j … n-1` and their blocks lie outside the blocks
      `j … n-1` being written from `dst`. */
  predicate CopiesClear(img: Image, ofp: nat, dst: nat, size: nat, j: nat, n: nat) {
    SourcesOutside(img, ofp, size, j, n, Stride(dst, j, size), Stride(dst, n, size))
  }

  /** When no copy overwrites an entry or a source block still to be read,
      destination block `jj` ends up holding the old frame `jj`: the `size`
      bytes the entry `jj` pointed at. */
  lemma CopiedFrames(img: Image, ofp: nat, dst: nat, size: nat, j: nat, n: nat)
    requires j <= n && CopyFrames(img, ofp, dst, size, j, n).Ok?
    requires CopiesClear(img, ofp, dst, size, j, n)
    ensures forall jj :: j <= jj < n ==>
              BytesAt(CopyFrames(img, ofp, dst, size, j, n).value, Stride(dst, jj, size), size)
              == BytesAt(img, PtrToAddr(img, Stride(ofp, jj, ENTRY_SIZE)), size)
  {
    forall jj | j <= jj < n
      ensures BytesAt(CopyFrames(img, ofp, dst, size, j, n).value, Stride(dst, jj, size), size)
              == BytesAt(img, PtrToAddr(img, Stride(ofp, jj, ENTRY_SIZE)), size)
    {
      CopiedFrame(img, ofp, dst, size, j, n, jj);
    }
  }

  /** `CopiedFrames` for the one block `jj`, by induction on the copies made
      before it. */
  lemma {:induction false} CopiedFrame(img: Image, ofp: nat, dst: nat, size: nat, j: nat, n: nat, jj: nat)
    requires j <= jj < n && CopyFrames(img, ofp, dst, size, j, n).Ok?
    requires CopiesClear(img, ofp, dst, size, j, n)
    ensures BytesAt(CopyFrames(img, ofp, dst, size, j, n).value, Stride(dst, jj, size), size)
            == BytesAt(img, PtrToAddr(img, Stride(ofp, jj, ENTRY_SIZE)), size)
    decreases n - j
  {
    var lo, hi := Stride(dst, j, size), Stride(dst, n, size);
    var src := PtrToAddr(img, Stride(ofp, j, ENTRY_SIZE));
    var img1 := CopyData(img, src, lo, size).value;
    assert CopyFrames(img1, ofp, dst, size, j + 1, n) == CopyFrames(img, ofp, dst, size, j, n);
    var r := CopyFrames(img1, ofp, dst, size, j + 1, n).value;
    StrideStep(dst, j, n, size);
    if jj == j {
      CopyStepBlock(img, img1, r, src, lo, Stride(dst, j + 1, size), hi, size);
    } else {
      CopyStepClear(img, img1, ofp, dst, size, j, n);
      assert CopyFrames(img1, ofp, dst, size, j + 1, n).Ok?;
      assert CopiesClear(img1, ofp, dst, size, j + 1, n);
      CopiedFrame(img1, ofp, dst, size, j + 1, n, jj);
    }
  }

  /** One copy into block `j` leaves the later entries and their source
      blocks as they were, still clear of the blocks left to write. */
  lemma CopyStepClear(img: Image, img1: Image, ofp: nat, dst: nat, size: nat, j: nat, n: nat)
    requires j < n && CopiesClear(img, ofp, dst, size, j, n)
    requires SameExcept(img, img1, Stride(dst, j, size), size)
    requires Stride(dst, j + 1, size) == Stride(dst, j, size) + size <= Stride(dst, n, size)
    ensures CopiesClear(img1, ofp, dst, size, j + 1, n)
    ensures forall jj :: j + 1 <= jj < n ==>
              PtrToAddr(img1, Stride(ofp, jj, ENTRY_SIZE)) == PtrToAddr(img, Stride(ofp, jj, ENTRY_SIZE))
              && BytesAt(img1, PtrToAddr(img, Stride(ofp, jj, ENTRY_SIZE)), size)
                 == BytesAt(img, PtrToAddr(img, Stride(ofp, jj, ENTRY_SIZE)), size)
  {
    var lo := Stride(dst, j, size);
    forall jj | j + 1 <= jj < n
      ensures PtrToAddr(img1, Stride(ofp, jj, ENTRY_SIZE)) == PtrToAddr(img, Stride(ofp, jj, ENTRY_SIZE))
      ensures BytesAt(img1, PtrToAddr(img, Stride(ofp, jj, ENTRY_SIZE)), size)
              == BytesAt(img, PtrToAddr(img, Stride(ofp, jj, ENTRY_SIZE)), size)
    {
      PtrUntouched(img, img1, Stride(ofp, jj, ENTRY_SIZE), lo, size);
      RunUntouched(img, img1, PtrToAddr(img, Stride(ofp, jj, ENTRY_SIZE)), size, lo, size);
    }
  }

  /** Block `j` holds its source after the copy and keeps it through the
      copies into the blocks from `lo1` to `hi`. */
  lemma CopyStepBlock(img: Image, img1: Image, r: Image, src: int, lo: int, lo1: int, hi: int, size: nat)
    requires InImage(img, src, size) && InImage(img, lo, size)
    requires |img1| == |img| && img1[lo..lo + size] == img[src..src + size]
    requires lo + size == lo1 <= hi
    requires |r| == |img1|
    requires forall i {:trigger r[i]} :: 0 <= i < |img1| && !(lo1 <= i < hi) ==> r[i] == img1[i]
    ensures BytesAt(r, lo, size) == BytesAt(img, src, size)
  {
    forall i | 0 <= i < size ensures BytesAt(r, lo, size)[i] == BytesAt(img, src, size)[i] {
      assert img1[lo..lo + size][i] == img[src..src + size][i];
      assert r[lo + i] == img1[lo + i];
    }
  }

  /** Rebuild record `i` of the old slot array at `a` into `tbl`
      (core.py:893-915): add a record of type `t` with `n` frames, copy the
      old 36 bytes over it but keep its own frame-pointer field, then copy
      the `n` old frames, listed by the array at `ofp`, into its new pixel
      blocks. */
  function RestoreOne(img: Image, templates: seq<seq<Byte>>, tbl: Table, a: nat, i: nat,
                      ofp: nat, t: OwType, n: nat)
    : (r: Result<(Image, Table)>)
    requires WellFormedTemplates(templates)
    ensures r.Ok? ==> |r.value.0| == |img| && SamePools(r.value.1, tbl)
    ensures r.Ok? ==> AddOwAsWritten(img, templates, tbl, t, n).Ok?
    ensures r.Ok? ==>
              var (img1, tbl1) := AddOwAsWritten(img, templates, tbl, t, n).value;
              var last := tbl1.records[|tbl1.records| - 1];
              && r.value.1 == tbl1
              && CopyRecord(img1, SlotAt(a, i), last.dataAddr, last.frames.pixelsAddr, ofp, FrameSize(t), n)
                 == Ok(r.value.0)
  {
    var added :- AddOwAsWritten(img, templates, tbl, t, n);
    var (img1, tbl1) := added;
    AddOwKeepsPools(img, templates, tbl, t, n);
    if |tbl1.records| == 0 then Err(NoSuchRecord)
    else
      var last := tbl1.records[|tbl1.records| - 1];
      var img2 :- CopyRecord(img1, SlotAt(a, i), last.dataAddr, last.frames.pixelsAddr, ofp, FrameSize(t), n);
      Ok((img2, tbl1))
  }

  /** The copying half of a rebuild, into the new record at `d` whose pixel
      blocks start at `pixels`: copy the 36 bytes of the old record `slot`
      points at over it, put back the frame-pointer word it had at +0x1C,
      then copy the `n` old frames listed by the array at `ofp`. */
  function CopyRecord(img: Image, slot: nat, d: nat, pixels: nat, ofp: nat, size: nat, n: nat): (r: Result<Image>)
    ensures r.Ok? ==> |r.value| == |img|
  {
    var kept := WordAt(img, d + FRAMES_FIELD);
    var img1 :- CopyData(img, PtrToAddr(img, slot), d, RECORD_SIZE);
    var img2 :- WriteWord(img1, d + FRAMES_FIELD, kept);
    CopyFrames(img2, ofp, pixels, size, 0, n)
  }

  /** Unmoved entries and blocks: a change confined to `[lo, lo + m)` that
      misses the entries and the blocks they point at leaves both, and so
      leaves the copies clear. */
  lemma SourcesKept(img: Image, img1: Image, ofp: nat, dst: nat, size: nat, n: nat, lo: int, m: nat)
    requires CopiesClear(img, ofp, dst, size, 0, n) && SameExcept(img, img1, lo, m)
    requires SourcesOutside(img, ofp, size, 0, n, lo, lo + m)
    ensures CopiesClear(img1, ofp, dst, size, 0, n)
    ensures forall jj :: 0 <= jj < n ==>
              BytesAt(img1, PtrToAddr(img1, Stride(ofp, jj, ENTRY_SIZE)), size)
              == BytesAt(img, PtrToAddr(img, Stride(ofp, jj, ENTRY_SIZE)), size)
  {
    forall jj | 0 <= jj < n
      ensures PtrToAddr(img1, Stride(ofp, jj, ENTRY_SIZE)) == PtrToAddr(img, Stride(ofp, jj, ENTRY_SIZE))
      ensures BytesAt(img1, PtrToAddr(img, Stride(ofp, jj, ENTRY_SIZE)), size)
              == BytesAt(img, PtrToAddr(img, Stride(ofp, jj, ENTRY_SIZE)), size)
    {
      PtrUntouched(img, img1, Stride(ofp, jj, ENTRY_SIZE), lo, m);
      RunUntouched(img, img1, PtrToAddr(img, Stride(ofp, jj, ENTRY_SIZE)), size, lo, m);
    }
  }

  /** What a rebuild's copying leaves in the new record at `d`, when neither
      the old frame entries nor the frames they point at sit in that record
      or in the new pixel blocks: the old record's bytes up to +0x1C and
      from +0x20, the frame-pointer word the new record had at +0x1C, and
      in new block `jj` the old frame `jj`. */
  lemma RestoredRecord(img: Image, slot: nat, d: nat, pixels: nat, ofp: nat, size: nat, n: nat)
    requires CopyRecord(img, slot, d, pixels, ofp, size, n).Ok?
    requires CopiesClear(img, ofp, pixels, size, 0, n)
    requires SourcesOutside(img, ofp, size, 0, n, d, d + RECORD_SIZE)
    requires Outside(d, RECORD_SIZE, pixels, Stride(pixels, n, size))
    ensures var r, src := CopyRecord(img, slot, d, pixels, ofp, size, n).value, PtrToAddr(img, slot);
            && BytesAt(r, d, FRAMES_FIELD) == BytesAt(img, src, FRAMES_FIELD)
            && WordAt(r, d + FRAMES_FIELD) == WordAt(img, d + FRAMES_FIELD)
            && BytesAt(r, d + ANIM_FIELD_B, RECORD_SIZE - ANIM_FIELD_B)
               == BytesAt(img, src + ANIM_FIELD_B, RECORD_SIZE - ANIM_FIELD_B)
            && forall jj :: 0 <= jj < n ==>
                 BytesAt(r, Stride(pixels, jj, size), size) == BytesAt(img, PtrToAddr(img, Stride(ofp, jj, ENTRY_SIZE)), size)
  {
    var src, kept := PtrToAddr(img, slot), WordAt(img, d + FRAMES_FIELD);
    var img1 := CopyData(img, src, d, RECORD_SIZE).value;
    var img2 := WriteWord(img1, d + FRAMES_FIELD, kept).value;
    RecordRebuilt(img, img1, img2, CopyRecord(img, slot, d, pixels, ofp, size, n).value, src, d, kept,
                  pixels, Stride(pixels, n, size));
    SourcesKept(img, img2, ofp, pixels, size, n, d, RECORD_SIZE);
    CopiedFrames(img2, ofp, pixels, size, 0, n);
  }

  /** The record at `d` after copying 36 bytes from `src` over it, writing
      the word `w` at +0x1C, and changes outside it in `[lo, hi)`. */
  lemma RecordRebuilt(img1: Image, img2: Image, img3: Image, r: Image, src: nat, d: nat, w: nat, lo: int, hi: int)
    requires w < WORD_SPAN
    requires CopyData(img1, src, d, RECORD_SIZE) == Ok(img2) && WriteWord(img2, d + FRAMES_FIELD, w) == Ok(img3)
    requires |r| == |img3| && forall x {:trigger r[x]} :: 0 <= x < |img3| && !(lo <= x < hi) ==> r[x] == img3[x]
    requires Outside(d, RECORD_SIZE, lo, hi)
    ensures SameExcept(img1, img3, d, RECORD_SIZE)
    ensures BytesAt(r, d, FRAMES_FIELD) == BytesAt(img1, src, FRAMES_FIELD)
    ensures WordAt(r, d + FRAMES_FIELD) == w
    ensures BytesAt(r, d + ANIM_FIELD_B, RECORD_SIZE - ANIM_FIELD_B) == BytesAt(img1, src + ANIM_FIELD_B, RECORD_SIZE - ANIM_FIELD_B)
  {
    var head, tail := BytesAt(r, d, FRAMES_FIELD), BytesAt(r, d + ANIM_FIELD_B, RECORD_SIZE - ANIM_FIELD_B);
    forall x | 0 <= x < FRAMES_FIELD ensures head[x] == BytesAt(img1, src, FRAMES_FIELD)[x] {
      assert img2[d..d + RECORD_SIZE][x] == img1[src..src + RECORD_SIZE][x];
      assert r[d + x] == img3[d + x];
    }
    forall x | 0 <= x < RECORD_SIZE - ANIM_FIELD_B
      ensures tail[x] == BytesAt(img1, src + ANIM_FIELD_B, RECORD_SIZE - ANIM_FIELD_B)[x]
    {
      assert img2[d..d + RECORD_SIZE][ANIM_FIELD_B + x] == img1[src..src + RECORD_SIZE][ANIM_FIELD_B + x];
      assert r[d + ANIM_FIELD_B + x] == img3[d + ANIM_FIELD_B + x];
    }
    forall x | d + FRAMES_FIELD <= x < d + ANIM_FIELD_B ensures r[x] == img3[x] {
    }
  }

  /** Rebuild records `i …` in order. A record whose type is unknown stops
      the rebuild with an error. */
  function Restore(img: Image, templates: seq<seq<Byte>>, tbl: Table, claimed: set<nat>, a: nat,
                   ofps: seq<nat>, frames: seq<nat>, types: seq<int>, i: nat)
    : (r: Result<(Image, Table, set<nat>)>)
    requires WellFormedTemplates(templates)
    requires |ofps| == |frames| == |types| && i <= |types|
    ensures r.Ok? ==> |r.value.0| == |img| && claimed <= r.value.2
    ensures r.Ok? ==> SamePools(r.value.1, tbl)
    decreases |types| - i
  {
    if i == |types| then Ok((img, tbl, claimed))
    else if !(1 <= types[i] <= 8) then Err(UnknownType)
    else
      var rebuilt :- RestoreOne(img, templates, tbl, a, i, ofps[i], types[i], frames[i]);
      var (img1, tbl1) := rebuilt;
      Restore(img1, templates, tbl1, claimed + ClaimedBy(tbl1.records), a, ofps, frames, types, i + 1)
  }

  /** Two views of one table: the same slot array and pools. */
  predicate SamePools(t: Table, u: Table) {
    t.tableAddr == u.tableAddr && t.dataPool == u.dataPool
    && t.ptrsPool == u.ptrsPool && t.pixelsPool == u.pixelsPool
  }

  /** Adding a record leaves the slot array and the pools where they are. */
  lemma AddOwKeepsPools(img: Image, templates: seq<seq<Byte>>, tbl: Table, t: OwType, n: nat)
    requires WellFormedTemplates(templates) && AddOwAsWritten(img, templates, tbl, t, n).Ok?
    ensures SamePools(AddOwAsWritten(img, templates, tbl, t, n).value.1, tbl)
  {
  }

  /** Add `k` padding records (core.py:917-920). */
  function Pad(img: Image, templates: seq<seq<Byte>>, tbl: Table, claimed: set<nat>, k: nat)
    : (r: Result<(Image, Table, set<nat>)>)
    requires WellFormedTemplates(templates)
    ensures r.Ok? ==> |r.value.0| == |img| && claimed <= r.value.2
    ensures r.Ok? ==> SamePools(r.value.1, tbl)
    decreases k
  {
    if k == 0 then Ok((img, tbl, claimed))
    else
      var added :- AddOwAsWritten(img, templates, tbl, PAD_TYPE, PAD_FRAMES);
      var (img1, tbl1) := added;
      AddOwKeepsPools(img, templates, tbl, PAD_TYPE, PAD_FRAMES);
      Pad(img1, templates, tbl1, claimed + ClaimedBy(tbl1.records), k - 1)
  }

  /** Every byte of `after` is the byte of `before` or an erased one. */
  predicate OnlyErases(before: Image, after: Image) {
    |after| == |before|
    && forall i {:trigger after[i]} :: 0 <= i < |before| ==> after[i] == before[i] || after[i] == ERASED
  }

  /** Erase up to `k` frames of an old record (core.py:933-940): while the
      entry at `p` is a frame-pointer entry, its pixel block and the entry
      are erased and `p` moves to the next entry; the first entry that is not
      one leaves everything as it is. An array address of 0xFFFFFF is
      skipped altogether. An unknown type has no frame size, which is an
      error once a frame is to be erased. */
  function EraseFrames(img: Image, p: nat, t: int, k: nat): (r: Result<Image>)
    ensures r.Ok? ==> |r.value| == |img| && OnlyErases(img, r.value)
    ensures p == FRESH_MARK || !IsFramesPtr(img, p) || k == 0 ==> r == Ok(img)
    ensures r.Ok? && k > 0 && p != FRESH_MARK && IsFramesPtr(img, p) ==>
              && 1 <= t <= 8
              && (forall x {:trigger r.value[x]} :: p <= x < p + ENTRY_SIZE && x < |img| ==> r.value[x] == ERASED)
              && (forall x {:trigger r.value[x]} ::
                    PtrToAddr(img, p) <= x < PtrToAddr(img, p) + FrameSize(t) && x < |img| ==> r.value[x] == ERASED)
    decreases k
  {
    if k == 0 || p == FRESH_MARK || !IsFramesPtr(img, p) then Ok(img)
    else if !(1 <= t <= 8) then Err(UnknownType)
    else
      var img1 :- Fill(img, PtrToAddr(img, p), FrameSize(t), ERASED);
      var img2 :- Fill(img1, p, ENTRY_SIZE, ERASED);
      var r := EraseFrames(img2, p + ENTRY_SIZE, t, k - 1);
      if r.Ok? then
        ErasedStays(img1, img2, r.value, PtrToAddr(img, p), FrameSize(t));
        ErasedStays(img2, img2, r.value, p, ENTRY_SIZE);
        r
      else r
  }

  /** Bytes erased by one step stay erased through steps that only erase. */
  lemma ErasedStays(img1: Image, img2: Image, r: Image, lo: int, n: nat)
    requires forall x {:trigger img1[x]} :: 0 <= x < |img1| && lo <= x < lo + n ==> img1[x] == ERASED
    requires OnlyErases(img1, img2) && OnlyErases(img2, r)
    ensures forall x {:trigger r[x]} :: 0 <= x < |r| && lo <= x < lo + n ==> r[x] == ERASED
  {
    forall x | 0 <= x < |r| && lo <= x < lo + n ensures r[x] == ERASED {
      assert img1[x] == ERASED;
      assert img2[x] == ERASED;
    }
  }

  /** Erase the old records `i …` (core.py:922-942): the slot, the 36 bytes
      of the record, then its frames. */
  function CleanUp(img: Image, a: nat, frames: seq<nat>, types: seq<int>, i: nat): (r: Result<Image>)
    requires |frames| == |types| && i <= |types|
    ensures r.Ok? ==> |r.value| == |img| && OnlyErases(img, r.value)
    ensures r.Ok? ==> forall k :: i <= k < |types| ==> InImage(img, SlotAt(a, k), SLOT_SIZE)
    ensures r.Ok? ==> forall k, x :: i <= k < |types| && SlotAt(a, k) <= x < SlotAt(a, k) + SLOT_SIZE && 0 <= x < |img| ==>
              r.value[x] == ERASED
    ensures r.Ok? && i < |types| ==>
              var data := PtrToAddr(img, SlotAt(a, i));
              forall x {:trigger r.value[x]} :: data <= x < data + RECORD_SIZE && 0 <= x < |img| ==> r.value[x] == ERASED
    decreases |types| - i
  {
    if i == |types| then Ok(img)
    else
      var slot := SlotAt(a, i);
      var data := PtrToAddr(img, slot);
      var img1 :- Fill(img, slot, SLOT_SIZE, ERASED);
      var fptrs := PtrToAddr(img1, data + FRAMES_FIELD);
      var img2 :- Fill(img1, data, RECORD_SIZE, ERASED);
      var img3 :- EraseFrames(img2, fptrs, types[i], frames[i]);
      var r := CleanUp(img3, a, frames, types, i + 1);
      if r.Ok? then
        assert forall x :: slot <= x < slot + SLOT_SIZE ==> img1[x] == ERASED && img2[x] == ERASED;
        ErasedStays(img2, img3, r.value, data, RECORD_SIZE);
        r
      else r
  }

  // --------------------------------------------------- repointing: whole

  /** `repoint_table` (core.py:841-942) for the table chain slot `slot`
      points at: count its records, lay a new table out and point the slot
      at it, then move the records over. */
  function RepointTable(img: Image, templates: seq<seq<Byte>>, s: Session, slot: nat)
    : (r: Result<(Image, Table, Session)>)
    requires WellFormedTemplates(templates)
    ensures r.Ok? ==> StartRepoint(img, s, slot).Ok?
    ensures r.Ok? ==>
      var (img1, tbl, cursor) := StartRepoint(img, s, slot).value;
      && |r.value.0| == |img| && SamePools(r.value.1, tbl)
      && r.value.2.cursor == cursor && s.cursor < cursor
      && s.claimed <= r.value.2.claimed && r.value.2.knownTables == s.knownTables
  {
    var a := PtrToAddr(img, slot);
    var n := CountRecords(img, a, s.knownTables);
    var started :- StartRepoint(img, s, slot);
    var (img1, tbl, cursor) := started;
    var moved :- MoveRecords(img1, templates, tbl, s.claimed + ClaimedBy(tbl.records), a, n);
    var (img2, tbl2, claimed) := moved;
    Ok((img2, tbl2, Session(cursor, claimed, s.knownTables)))
  }

  /** Move the `n` records of the old slot array at `a` into the new table
      `tbl` (core.py:862-942): infer each record's frame count and type,
      rebuild the records, pad a nearly full table to 256 records, and
      erase the old slots, records and frames. */
  function MoveRecords(img: Image, templates: seq<seq<Byte>>, tbl: Table, claimed: set<nat>, a: nat, n: nat)
    : (r: Result<(Image, Table, set<nat>)>)
    requires WellFormedTemplates(templates)
    ensures r.Ok? ==> |r.value.0| == |img| && SamePools(r.value.1, tbl) && claimed <= r.value.2
  {
    var ofps := OriginalFramesPtrs(img, a, n);
    var claimed1 := claimed + set x | x in ofps;
    var frames := seq(n, i requires 0 <= i < n => InferFrameCount(img, ofps[i], claimed1, ofps));
    var types := seq(n, i requires 0 <= i < n => GetType(img, FrameSet(ofps[i], 0, 0, 0)));
    var restored :- Restore(img, templates, tbl, claimed1, a, ofps, frames, types, 0);
    var (img2, tbl2, claimed2) := restored;
    var pads := if PAD_THRESHOLD <= n < TABLE_SLOTS then TABLE_SLOTS - n else 0;
    var padded :- Pad(img2, templates, tbl2, claimed2, pads);
    var (img3, tbl3, claimed3) := padded;
    var img4 :- CleanUp(img3, a, frames, types, 0);
    Ok((img4, tbl3, claimed3))
  }

  /** The table a repointing lays out is recognised at once through the
      chain slot: it is one of the tool's tables, it does not need
      repointing (its record pool starts with the 0x22 fill word), and its
      metadata words lead to its three pools. */
  lemma RepointStartsFresh(img: Image, s: Session, slot: nat)
    requires |img| <= ADDR_SPAN && IsPtr(img, slot)
    requires StartRepoint(img, s, slot).Ok?
    ensures var r := StartRepoint(img, s, slot).value;
            && IsOwmTablePtr(r.0, slot) && !TableNeedsRepoint(r.0, slot)
            && PtrToAddr(r.0, EndOfTable(r.1)) == r.1.dataPool
            && PtrToAddr(r.0, EndOfTable(r.1) + 4) == r.1.ptrsPool
            && PtrToAddr(r.0, EndOfTable(r.1) + 8) == r.1.pixelsPool
  {
    var tbl, img1, tbl1 := StartRepointIs(img, s, slot);
    FreshFootprintFacts(img, tbl, slot, img1, tbl1);
  }

  /** `FreshFootprintRecognised`, restated for a table with the same pools
      as the one laid out. */
  lemma FreshFootprintFacts(img: Image, tbl: Table, slot: nat, img1: Image, tbl1: Table)
    requires |img| <= ADDR_SPAN && IsPtr(img, slot)
    requires IsFreeRun(img, tbl.tableAddr, TABLE_REGION) && IsFreeRun(img, tbl.dataPool, DATA_REGION)
    requires tbl.tableAddr + TABLE_USED <= tbl.dataPool && tbl.dataPool + DATA_REGION <= tbl.ptrsPool
    requires tbl.ptrsPool + PTRS_REGION <= tbl.pixelsPool && tbl.pixelsPool + PIXELS_REGION <= |img|
    requires InitTable(img, tbl).Ok?
    requires WritePtr(InitTable(img, tbl).value, tbl.tableAddr, slot) == Ok(img1)
    requires SamePools(tbl1, tbl)
    ensures IsOwmTablePtr(img1, slot) && !TableNeedsRepoint(img1, slot)
    ensures PtrToAddr(img1, EndOfTable(tbl1)) == tbl1.dataPool
    ensures PtrToAddr(img1, EndOfTable(tbl1) + 4) == tbl1.ptrsPool
    ensures PtrToAddr(img1, EndOfTable(tbl1) + 8) == tbl1.pixelsPool
  {
    FreshFootprintRecognised(img, tbl, slot, img1);
    MetaWordsSamePools(img1, tbl, tbl1);
  }

  /** The metadata words of a table lead to its pools exactly when they do
      for any table with the same pools. */
  lemma MetaWordsSamePools(img: Image, tbl: Table, tbl1: Table)
    requires SamePools(tbl1, tbl)
    requires PtrToAddr(img, EndOfTable(tbl)) == tbl.dataPool
    requires PtrToAddr(img, EndOfTable(tbl) + 4) == tbl.ptrsPool
    requires PtrToAddr(img, EndOfTable(tbl) + 8) == tbl.pixelsPool
    ensures PtrToAddr(img, EndOfTable(tbl1)) == tbl1.dataPool
    ensures PtrToAddr(img, EndOfTable(tbl1) + 4) == tbl1.ptrsPool
    ensures PtrToAddr(img, EndOfTable(tbl1) + 8) == tbl1.pixelsPool
  {
    assert EndOfTable(tbl1) == EndOfTable(tbl);
  }

  /** What `StartRepoint` builds: the root slot pointing at a table laid out
      by `InitTable` on a footprint of free runs. */
  lemma StartRepointIs(img: Image, s: Session, slot: nat) returns (tbl: Table, img1: Image, tbl1: Table)
    requires StartRepoint(img, s, slot).Ok?
    ensures StartRepoint(img, s, slot).value.0 == img1 && StartRepoint(img, s, slot).value.1 == tbl1
    ensures IsFreeRun(img, tbl.tableAddr, TABLE_REGION) && IsFreeRun(img, tbl.dataPool, DATA_REGION)
    ensures tbl.tableAddr + TABLE_USED <= tbl.dataPool && tbl.dataPool + DATA_REGION <= tbl.ptrsPool
    ensures tbl.ptrsPool + PTRS_REGION <= tbl.pixelsPool && tbl.pixelsPool + PIXELS_REGION <= |img|
    ensures InitTable(img, tbl).Ok?
    ensures WritePtr(InitTable(img, tbl).value, tbl.tableAddr, slot) == Ok(img1)
    ensures SamePools(tbl1, tbl)
  {
    var (fp, cursor) := AllocateFootprint(img, s.cursor).value;
    tbl := Table(fp.tableAddr, fp.dataPool, fp.ptrsPool, fp.pixelsPool, []);
    img1 := StartRepoint(img, s, slot).value.0;
    tbl1 := StartRepoint(img, s, slot).value.1;
  }

  /** A table laid out on a footprint of free runs, with root slot `slot`
      pointed at it, is recognised as fresh and its metadata words lead to
      its pools. */
  lemma FreshFootprintRecognised(img: Image, tbl: Table, slot: nat, img1: Image)
    requires |img| <= ADDR_SPAN && IsPtr(img, slot)
    requires IsFreeRun(img, tbl.tableAddr, TABLE_REGION) && IsFreeRun(img, tbl.dataPool, DATA_REGION)
    requires tbl.tableAddr + TABLE_USED <= tbl.dataPool && tbl.dataPool + DATA_REGION <= tbl.ptrsPool
    requires tbl.ptrsPool + PTRS_REGION <= tbl.pixelsPool && tbl.pixelsPool + PIXELS_REGION <= |img|
    requires InitTable(img, tbl).Ok?
    requires WritePtr(InitTable(img, tbl).value, tbl.tableAddr, slot) == Ok(img1)
    ensures IsOwmTablePtr(img1, slot) && !TableNeedsRepoint(img1, slot)
    ensures PtrToAddr(img1, EndOfTable(tbl)) == tbl.dataPool
    ensures PtrToAddr(img1, EndOfTable(tbl) + 4) == tbl.ptrsPool
    ensures PtrToAddr(img1, EndOfTable(tbl) + 8) == tbl.pixelsPool
  {
    assert img[tbl.tableAddr] == ERASED && img[tbl.tableAddr + 1] == ERASED && img[tbl.tableAddr + 2] == ERASED;
    assert PtrToAddr(img, tbl.tableAddr) == FRESH_MARK;
    FreeRunMissesPtr(img, slot, tbl.tableAddr, TABLE_REGION);
    FreeRunMissesPtr(img, slot, tbl.dataPool, DATA_REGION);
    FreshTableRecognised(img, tbl, slot);
  }

  /** A free run never covers the high byte of a valid pointer, so a
      pointer slot lies wholly before the run or (but for at most three
      bytes) after it. */
  lemma FreeRunMissesPtr(img: Image, slot: nat, b: nat, size: nat)
    requires IsPtr(img, slot) && IsFreeRun(img, b, size) && size >= 8
    ensures Disjoint(slot, SLOT_SIZE, b, size - 4)
  {
    assert img[slot + 3] == 8;
  }

  /** Padding a table whose first `m` slots are the only ones in use with
      `256 - m` records fills every slot: the table then holds 256 records
      (core.py:917-920, with the threshold of 218 applied by the caller). */
  lemma {:induction false} PadFills(img: Image, templates: seq<seq<Byte>>, tbl: Table, claimed: set<nat>, m: nat)
    requires WellFormedTemplates(templates) && |img| <= ADDR_SPAN
    requires EndOfTable(tbl) <= tbl.dataPool && EndOfTable(tbl) <= tbl.ptrsPool && EndOfTable(tbl) <= tbl.pixelsPool
    requires m < TABLE_SLOTS && Filled(img, tbl.tableAddr, m)
    requires Pad(img, templates, tbl, claimed, TABLE_SLOTS - m).Ok?
    ensures |Pad(img, templates, tbl, claimed, TABLE_SLOTS - m).value.1.records| == TABLE_SLOTS
    ensures Filled(Pad(img, templates, tbl, claimed, TABLE_SLOTS - m).value.0, tbl.tableAddr, TABLE_SLOTS)
    decreases TABLE_SLOTS - m
  {
    var (img1, tbl1) := AddOwAsWritten(img, templates, tbl, PAD_TYPE, PAD_FRAMES).value;
    AddOwFills(img, templates, tbl, PAD_TYPE, PAD_FRAMES, m);
    AddOwKeepsPools(img, templates, tbl, PAD_TYPE, PAD_FRAMES);
    if m + 1 < TABLE_SLOTS {
      PadFills(img1, templates, tbl1, claimed + ClaimedBy(tbl1.records), m + 1);
    }
  }

  // -------------------------------------------------------------- discovery

  /** Open the table of one chain slot as discovery does (core.py:729-758):
      a table still in the original layout is repointed, any other is
      loaded as it is. */
  function OpenOne(img: Image, templates: seq<seq<Byte>>, s: Session, slot: nat)
    : (r: Result<(Image, Table, Session)>)
    requires WellFormedTemplates(templates)
    ensures r.Ok? ==> |r.value.0| == |img| && s.cursor <= r.value.2.cursor
    ensures r.Ok? ==> s.claimed <= r.value.2.claimed && r.value.2.knownTables == s.knownTables
    ensures r.Ok? && !TableNeedsRepoint(img, slot) ==> r == Load(img, s, slot)
  {
    if TableNeedsRepoint(img, slot) then RepointTable(img, templates, s, slot)
    else Load(img, s, slot)
  }

  /** Open chain slots `k … n-1` in order. */
  function OpenFrom(img: Image, templates: seq<seq<Byte>>, s: Session, root: nat, k: nat, n: nat,
                    tables: seq<Table>)
    : (r: Result<(Image, seq<Table>, Session)>)
    requires WellFormedTemplates(templates) && k <= n
    ensures r.Ok? ==> |r.value.0| == |img| && |r.value.1| == |tables| + n - k
    ensures r.Ok? ==> forall i :: 0 <= i < |tables| ==> r.value.1[i] == tables[i]
    ensures r.Ok? ==> s.cursor <= r.value.2.cursor && s.claimed <= r.value.2.claimed
    ensures r.Ok? ==> r.value.2.knownTables == s.knownTables
    decreases n - k
  {
    if k == n then Ok((img, tables, s))
    else
      var slot := SlotAt(root, k);
      var opened1 :- OpenOne(img, templates, s, slot);
      var (img1, tbl, s1) := opened1;
      OpenFrom(img1, templates, s1, root, k + 1, n, tables + [tbl])
  }

  /** `Root.__init__`: walk the chain, zeroing a slot that points at one of
      `SKIPPED_TABLES`, record every table address met, and open every
      table. */
  function Discover(img: Image, templates: seq<seq<Byte>>, s: Session, root: nat)
    : (r: Result<(Image, seq<Table>, Session)>)
    requires WellFormedTemplates(templates)
    ensures r.Ok? ==>
      var n := |r.value.1|;
      && (forall j :: 0 <= j < n ==>
            IsTablePtr(img, SlotAt(root, j)) && PtrToAddr(img, SlotAt(root, j)) !in SKIPPED_TABLES)
      && (IsTablePtr(img, SlotAt(root, n)) ==> PtrToAddr(img, SlotAt(root, n)) in SKIPPED_TABLES)
      && r.value.2.knownTables == s.knownTables + ChainTargets(img, root, n)
      && s.cursor <= r.value.2.cursor && s.claimed <= r.value.2.claimed
      && |r.value.0| == |img|
  {
    var (img1, n) := Walk(img, root, 0, true);
    OpenFrom(img1, templates, s.(knownTables := s.knownTables + ChainTargets(img, root, n)), root, 0, n, [])
  }

  // ---------------------------------------------------------------- removal

  /** Remove every record of `recs` in order (`ow.remove()` for each). The
      slot of the last record removed ends tombstoned; earlier ones may lie
      in a later record's frame set, which clearing overwrites. */
  function RemoveAll(img: Image, recs: seq<Record>): (r: Result<Image>)
    ensures r.Ok? ==> |r.value| == |img|
    ensures recs == [] ==> r == Ok(img)
    ensures r.Ok? && recs != [] ==>
              RemoveRecord(img, recs[0]).Ok? && Tombstoned(r.value, recs[|recs| - 1].slotAddr, SLOT_SIZE)
    decreases |recs|
  {
    if recs == [] then Ok(img)
    else
      var img1 :- RemoveRecord(img, recs[0]);
      RemoveAll(img1, recs[1..])
  }

  /** `after` is `before` with the slots from `lo` up to `hi` each moved one
      slot down, the last of them left zero, and every other byte
      untouched. */
  predicate ShiftedDown(before: Image, after: Image, lo: nat, hi: nat) {
    && |after| == |before| && SLOT_SIZE <= lo <= hi
    && (lo == hi ==> after == before)
    && (lo < hi ==> hi <= |before| && MovedDown(before, after, lo, hi))
  }

  /** Bytes `[lo - 4, hi - 4)` of `after` are those of `[lo, hi)` in
      `before`, `[hi - 4, hi)` is zero, and the rest is untouched. */
  predicate MovedDown(before: Image, after: Image, lo: nat, hi: nat)
    requires |after| == |before| && SLOT_SIZE <= lo <= hi <= |before|
  {
    && (forall x {:trigger after[x]} :: 0 <= x < |before| && !(lo - SLOT_SIZE <= x < hi) ==> after[x] == before[x])
    && (forall x :: lo - SLOT_SIZE <= x < hi - SLOT_SIZE ==> after[x] == before[x + SLOT_SIZE])
    && (forall x :: hi - SLOT_SIZE <= x < hi ==> after[x] == 0)
  }

  /** The compaction loop of `remove_table` (core.py:829-833) from chain slot
      `j` on: while the slot holds a table pointer, move its four bytes one
      slot down, leaving zeros behind. Gives the index of the first slot
      that held no table pointer; that slot still holds none. */
  function ShiftChain(img: Image, root: nat, j: nat): (r: Result<(Image, nat)>)
    requires 1 <= j
    ensures r.Ok? ==> j <= r.value.1
    ensures r.Ok? ==> ShiftedDown(img, r.value.0, SlotAt(root, j), SlotAt(root, r.value.1))
    ensures r.Ok? ==> !IsTablePtr(r.value.0, SlotAt(root, r.value.1))
    decreases |img| - SlotAt(root, j)
  {
    var c := SlotAt(root, j);
    if !IsTablePtr(img, c) then Ok((img, j))
    else
      var img1 :- MoveData(img, c, c - SLOT_SIZE, SLOT_SIZE, 0);
      var shifted :- ShiftChain(img1, root, j + 1);
      ShiftStep(img, img1, shifted.0, c, SlotAt(root, shifted.1));
      Ok(shifted)
  }

  /** One move of the compaction loop followed by the moves after it. */
  lemma ShiftStep(img: Image, img1: Image, img2: Image, c: nat, hi: nat)
    requires SLOT_SIZE <= c && c + SLOT_SIZE <= |img|
    requires MoveData(img, c, c - SLOT_SIZE, SLOT_SIZE, 0) == Ok(img1)
    requires ShiftedDown(img1, img2, c + SLOT_SIZE, hi)
    ensures ShiftedDown(img, img2, c, hi)
  {
    forall x | 0 <= x < |img| && !(c - SLOT_SIZE <= x < hi) ensures img2[x] == img[x] {
      assert img1[x] == img[x];
    }
    forall x | c - SLOT_SIZE <= x < c ensures img2[x] == img[x + SLOT_SIZE] {
      assert img1[c - SLOT_SIZE..c][x - (c - SLOT_SIZE)] == img[c..c + SLOT_SIZE][x - (c - SLOT_SIZE)];
    }
    forall x | c <= x < hi - SLOT_SIZE ensures img2[x] == img[x + SLOT_SIZE] {
      assert img1[x + SLOT_SIZE] == img[x + SLOT_SIZE];
    }
    forall x | hi - SLOT_SIZE <= x < hi ensures img2[x] == 0 {
      if hi == c + SLOT_SIZE {
        assert img1[x] == 0;
      }
    }
  }

  /** `remove_table(i)` (core.py:814-836): remove the records of table `i`,
      erase its frame-pointer pool, record pool and slot array, zero its
      chain slot, move the later chain pointers down over it, and reload. A
      table number past the end is an error. */
  function RemoveTable(img: Image, s: Session, root: nat, tables: seq<Table>, i: nat)
    : (r: Result<(Image, seq<Table>, Session)>)
    ensures i >= |tables| ==> r == Err(NoSuchRecord)
    ensures r.Ok? ==> |r.value.0| == |img| && r.value.2.cursor == s.cursor
    ensures r.Ok? ==> s.claimed <= r.value.2.claimed && s.knownTables <= r.value.2.knownTables
  {
    if i >= |tables| then Err(NoSuchRecord)
    else
      var tbl := tables[i];
      var img1 :- RemoveAll(img, tbl.records);
      var img2 :- Fill(img1, tbl.ptrsPool, TABLE_SLOTS * ENTRY_SIZE * FRAMES_PER_OW, ERASED);
      var img3 :- Fill(img2, tbl.dataPool, TABLE_SLOTS * RECORD_SIZE, ERASED);
      var img4 :- Fill(img3, tbl.tableAddr, TABLE_BYTES + 3 * SLOT_SIZE, ERASED);
      var img5 :- Fill(img4, SlotAt(root, i), SLOT_SIZE, 0);
      var shifted :- ShiftChain(img5, root, i + 1);
      Reload(shifted.0, s, root)
  }

  // ------------------------------------------------------ spare chain slots

  /** The number of consecutive all-zero words from `c`: a word counts as
      zero when the sum of its four bytes is zero. Past the image the bytes
      read as 0xFF, so the count always ends. */
  function ZeroWords(img: Image, c: nat): (k: nat)
    ensures forall j :: 0 <= j < k ==> BytesAt(img, SlotAt(c, j), SLOT_SIZE) == Repeat(0, SLOT_SIZE)
    ensures BytesAt(img, SlotAt(c, k), SLOT_SIZE) != Repeat(0, SLOT_SIZE)
    decreases |img| - c
  {
    if ByteAt(img, c) + ByteAt(img, c + 1) + ByteAt(img, c + 2) + ByteAt(img, c + 3) != 0 then
      assert BytesAt(img, c, SLOT_SIZE)[0] == ByteAt(img, c);
      assert BytesAt(img, c, SLOT_SIZE)[1] == ByteAt(img, c + 1);
      assert BytesAt(img, c, SLOT_SIZE)[2] == ByteAt(img, c + 2);
      assert BytesAt(img, c, SLOT_SIZE)[3] == ByteAt(img, c + 3);
      0
    else
      assert BytesAt(img, c, SLOT_SIZE) == Repeat(0, SLOT_SIZE);
      var k := ZeroWords(img, c + SLOT_SIZE);
      assert forall j :: 1 <= j <= k + 1 ==> SlotAt(c, j) == SlotAt(c + SLOT_SIZE, j - 1);
      k + 1
  }

  /** `get_num_of_available_table_ptrs` (core.py:944-964): skip the chain
      slots holding pointers, then count the zero words after them. */
  function AvailableTableSlots(img: Image, root: nat): (k: nat)
    ensures var f := FindFreeSlot(img, root);
            && (forall j :: 0 <= j < k ==> BytesAt(img, SlotAt(f, j), SLOT_SIZE) == Repeat(0, SLOT_SIZE))
            && BytesAt(img, SlotAt(f, k), SLOT_SIZE) != Repeat(0, SLOT_SIZE)
  {
    ZeroWords(img, FindFreeSlot(img, root))
  }

  /** Conversely, the spare-slot count is the only number with those
      properties. */
  lemma AvailableTableSlotsIs(img: Image, root: nat, m: nat)
    requires var f := FindFreeSlot(img, root);
             && (forall j :: 0 <= j < m ==> BytesAt(img, SlotAt(f, j), SLOT_SIZE) == Repeat(0, SLOT_SIZE))
             && BytesAt(img, SlotAt(f, m), SLOT_SIZE) != Repeat(0, SLOT_SIZE)
    ensures AvailableTableSlots(img, root) == m
  {
    var k := AvailableTableSlots(img, root);
    var f := FindFreeSlot(img, root);
    assert BytesAt(img, SlotAt(f, k), SLOT_SIZE) != Repeat(0, SLOT_SIZE);
    assert BytesAt(img, SlotAt(f, m), SLOT_SIZE) != Repeat(0, SLOT_SIZE);
  }
}
