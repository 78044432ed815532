/**
  A record's frame set: an array of 8-byte frame-pointer entries (pointer to
  a pixel block, two-byte type signature, two spare bytes) and the pixel
  blocks themselves, ended by a FRAMES_END pointer stored right after the
  last block (`FramesPointers`, core.py:347-487, and the helpers at
  core.py:157-201).
 */
module FrameSets {
  import opened RomBytes
  import opened FrameTypes
  import opened FreeSpace
  import opened Validators

  /** `FramesPointers`: where the entries and pixel blocks are, and the pools
      new ones are taken from. */
  datatype FrameSet = FrameSet(ptrsAddr: nat, pixelsAddr: nat, ptrsPool: nat, pixelsPool: nat)

  /** The stored form of a pointer to `FRAMES_END`. */
  const FRAMES_END_BYTES: seq<Byte> := [0xF0, 0x35, 0x21, 0x08]

  /** Address of the `k`-th block of `size` bytes from `a`. */
  function Stride(a: int, k: int, size: int): int {
    a + k * size
  }

  /** The 8 bytes of the `k`-th entry from `base`. */
  function EntryAt(img: Image, base: int, k: int): seq<Byte> {
    BytesAt(img, base + k * ENTRY_SIZE, ENTRY_SIZE)
  }

  /** What `write_frames_ptrs` stores for one frame. */
  function EntryBytes(target: nat, t: OwType): (r: seq<Byte>)
    ensures |r| == ENTRY_SIZE
  {
    EncodePtr(target) + Signature(t) + [0, 0]
  }

  // -------------------------------------------------------- type and count

  /** `get_type`: the type named by the first entry's signature, or -1. */
  function GetType(img: Image, fs: FrameSet): int {
    EntryType(img, fs.ptrsAddr)
  }

  /** The frame walk of `get_num`: blocks of `size` bytes from `a` up to the
      first one that starts with a FRAMES_END pointer. Running off the image
      is an error (the source never stops there). */
  function CountFrom(img: Image, a: nat, size: nat): (r: Result<nat>)
    requires size > 0
    ensures r.Ok? ==> IsFramesEnd(img, Stride(a, r.value, size))
    ensures r.Ok? ==> forall k :: 0 <= k < r.value ==> !IsFramesEnd(img, Stride(a, k, size))
    decreases |img| - a
  {
    if IsFramesEnd(img, a) then Ok(0)
    else if a >= |img| then Err(RunsOffImage)
    else
      var n :- CountFrom(img, a + size, size);
      CountFromStep(img, a, a + size, size, n);
      Ok(n + 1)
  }

  /** A walk of `n` blocks from the next block is a walk of `n + 1` blocks
      from a block that is not the end. */
  lemma CountFromStep(img: Image, a: nat, next: nat, size: nat, n: nat)
    requires next == a + size && !IsFramesEnd(img, a)
    requires IsFramesEnd(img, Stride(next, n, size))
    requires forall k :: 0 <= k < n ==> !IsFramesEnd(img, Stride(next, k, size))
    ensures IsFramesEnd(img, Stride(a, n + 1, size))
    ensures forall k :: 0 <= k < n + 1 ==> !IsFramesEnd(img, Stride(a, k, size))
  {
    assert Stride(a, n + 1, size) == Stride(next, n, size);
    forall k | 0 <= k < n + 1 ensures !IsFramesEnd(img, Stride(a, k, size)) {
      if k > 0 {
        assert Stride(a, k, size) == Stride(next, k - 1, size);
      }
    }
  }

  /** `get_num`: the number of frames. With an unknown type the walk only
      succeeds when it stops at once (the source then never uses the size). */
  function GetNum(img: Image, fs: FrameSet): Result<nat> {
    var t := GetType(img, fs);
    if IsFramesEnd(img, fs.pixelsAddr) then Ok(0)
    else if t == UNKNOWN_TYPE then Err(UnknownType)
    else CountFrom(img, fs.pixelsAddr, FrameSize(t))
  }

  /** `update_frames_addr`: the address just past `num` blocks of type `t`. */
  method UpdateFramesAddr(num: nat, addr: nat, t: OwType) returns (r: nat)
    ensures r == Stride(addr, num, FrameSize(t))
  {
    r := addr;
    var i := 1;
    while i <= num
      invariant 1 <= i <= num + 1
      invariant r == addr + (i - 1) * FrameSize(t)
    {
      r := r + FrameSize(t);
      i := i + 1;
    }
  }

  // ------------------------------------------------------------ allocation

  /** `find_available_frames_ptrs_addr`: the first 8-byte stride from `a`
      where `n` entries of unused pool bytes (0x33) fit. */
  function FindEntrySlot(img: Image, a: nat, n: nat): (r: Result<nat>)
    ensures r.Ok? ==> a <= r.value && (r.value - a) % ENTRY_SIZE == 0
    ensures r.Ok? ==> AvailableEntries(img, r.value, n)
    ensures r.Ok? ==> forall k :: 0 <= k < (r.value - a) / ENTRY_SIZE ==>
              !AvailableEntries(img, Stride(a, k, ENTRY_SIZE), n)
    decreases |img| - a
  {
    if AvailableEntries(img, a, n) then Ok(a)
    else if a >= |img| then Err(NoFreeSpace)
    else
      var r :- FindEntrySlot(img, a + ENTRY_SIZE, n);
      assert forall k :: 1 <= k < (r - a) / ENTRY_SIZE ==>
        Stride(a, k, ENTRY_SIZE) == Stride(a + ENTRY_SIZE, k - 1, ENTRY_SIZE);
      Ok(r)
  }

  /** `write_frames_ptrs`: entries `0 … n-1` from `ptrs`, the `k`-th pointing
      at the `k`-th block of type `t` from `pixels`. */
  function WriteEntries(img: Image, t: OwType, ptrs: nat, pixels: nat, n: nat): (r: Result<Image>)
    ensures r.Ok? <==> n == 0 || InImage(img, ptrs, n * ENTRY_SIZE)
    ensures r.Ok? ==> SameExcept(img, r.value, ptrs, n * ENTRY_SIZE)
    ensures r.Ok? ==> forall k :: 0 <= k < n ==>
              EntryAt(r.value, ptrs, k) == EntryBytes(Stride(pixels, k, FrameSize(t)), t)
  {
    if n == 0 then Ok(img)
    else
      var prev := WriteEntries(img, t, ptrs, pixels, n - 1);
      if prev.Err? then prev
      else
        var at := ptrs + (n - 1) * ENTRY_SIZE;
        var r := Write(prev.value, at, EntryBytes(Stride(pixels, n - 1, FrameSize(t)), t));
        if r.Ok? then
          assert InImage(img, ptrs, n * ENTRY_SIZE);
          forall k | 0 <= k < n - 1
            ensures EntryAt(r.value, ptrs, k) == EntryAt(prev.value, ptrs, k)
          {
            assert EntryAt(r.value, ptrs, k) == r.value[ptrs + k * ENTRY_SIZE..ptrs + k * ENTRY_SIZE + 8];
          }
          assert EntryAt(r.value, ptrs, n - 1) == r.value[at..at + 8];
          r
        else r
  }

  /** `add_frames_ptrs`: takes pixel space (blocks plus the FRAMES_END
      pointer) from the pixel pool and entry space from the entry pool, then
      lays the frames out there. */
  function AddFramesPtrs(img: Image, fs: FrameSet, t: OwType, n: nat): (r: Result<(Image, FrameSet)>)
    ensures r.Ok? ==> r.value.1 == fs.(ptrsAddr := r.value.1.ptrsAddr, pixelsAddr := r.value.1.pixelsAddr)
    ensures r.Ok? ==> fs.ptrsPool <= r.value.1.ptrsAddr && fs.pixelsPool <= r.value.1.pixelsAddr
    ensures r.Ok? ==> IsFreeRun(img, r.value.1.pixelsAddr, n * FrameSize(t) + 4)
    ensures r.Ok? ==> AvailableEntries(img, r.value.1.ptrsAddr, n)
    ensures r.Ok? ==> r.value.0 == LayOutFrames(img, t, n, r.value.1.pixelsAddr, r.value.1.ptrsAddr)
  {
    var pixels :- FindFreeSpace(img, n * FrameSize(t) + 4, fs.pixelsPool);
    var ptrs :- FindEntrySlot(img, fs.ptrsPool, n);
    Ok((LayOutFrames(img, t, n, pixels, ptrs), fs.(ptrsAddr := ptrs, pixelsAddr := pixels)))
  }

  /** The writes of `add_frames_ptrs` once both regions are found: erase the
      blocks, store FRAMES_END after them, write the entries. */
  function LayOutFrames(img: Image, t: OwType, n: nat, pixels: nat, ptrs: nat): (r: Image)
    requires IsFreeRun(img, pixels, n * FrameSize(t) + 4)
    requires AvailableEntries(img, ptrs, n)
    ensures SameExcept2(img, r, pixels, n * FrameSize(t) + 4, ptrs, n * ENTRY_SIZE)
    ensures forall j :: pixels <= j < pixels + n * FrameSize(t) ==> ByteAt(r, j) == ERASED
    ensures BytesAt(r, pixels + n * FrameSize(t), 4) == EncodePtr(FRAMES_END)
    ensures forall k :: 0 <= k < n ==>
              EntryAt(r, ptrs, k) == EntryBytes(Stride(pixels, k, FrameSize(t)), t)
  {
    WriteFrames(img, t, n, n * FrameSize(t), pixels, ptrs)
  }

  /** The same writes for blocks spanning `m` bytes in all. */
  function WriteFrames(img: Image, t: OwType, n: nat, m: nat, pixels: nat, ptrs: nat): (r: Image)
    requires IsFreeRun(img, pixels, m + 4)
    requires AvailableEntries(img, ptrs, n)
    ensures SameExcept2(img, r, pixels, m + 4, ptrs, n * ENTRY_SIZE)
    ensures forall j :: pixels <= j < pixels + m ==> ByteAt(r, j) == ERASED
    ensures BytesAt(r, pixels + m, 4) == EncodePtr(FRAMES_END)
    ensures forall k :: 0 <= k < n ==>
              EntryAt(r, ptrs, k) == EntryBytes(Stride(pixels, k, FrameSize(t)), t)
  {
    AllocatedRegionsDisjoint(img, pixels, m + 4, ptrs, n);
    var img1 := Fill(img, pixels, m, ERASED).value;
    var img2 := WritePtr(img1, FRAMES_END, pixels + m).value;
    var r := WriteEntries(img2, t, ptrs, pixels, n).value;
    LaidOut(img, img1, img2, r, pixels, m, ptrs, n);
    r
  }

  /** The three writes of `LayOutFrames` over an erased run of `m + 4` bytes
      and an entry run of `n` entries: only those two runs change, the
      first `m` bytes stay erased and FRAMES_END follows them. */
  lemma LaidOut(img: Image, img1: Image, img2: Image, r: Image, pixels: nat, m: nat, ptrs: nat, n: nat)
    requires IsFreeRun(img, pixels, m + 4) && AvailableEntries(img, ptrs, n)
    requires SameExcept(img, img1, pixels, m) && pixels + m + 4 <= |img1|
    requires forall i {:trigger img1[i]} :: pixels <= i < pixels + m ==> img1[i] == ERASED
    requires img2 == Splice(img1, pixels + m, EncodePtr(FRAMES_END))
    requires SameExcept(img2, r, ptrs, n * ENTRY_SIZE)
    ensures SameExcept2(img, r, pixels, m + 4, ptrs, n * ENTRY_SIZE)
    ensures forall j :: pixels <= j < pixels + m ==> ByteAt(r, j) == ERASED
    ensures BytesAt(r, pixels + m, 4) == EncodePtr(FRAMES_END)
  {
    AllocatedRegionsDisjoint(img, pixels, m + 4, ptrs, n);
    forall j | pixels <= j < pixels + m
      ensures ByteAt(r, j) == ERASED
    {
      assert ByteAt(img, j) == ERASED;
      assert ByteAt(r, j) == img2[j] == img1[j];
    }
    var end := pixels + m;
    forall i | 0 <= i < 4 ensures BytesAt(r, end, 4)[i] == EncodePtr(FRAMES_END)[i] {
      assert ByteAt(img, end + i) == ERASED;
      assert r[end + i] == img2[end + i] == EncodePtr(FRAMES_END)[i];
    }
  }

  // --------------------------------------------------------------- clearing

  function Max(x: int, y: int): int {
    if x < y then y else x
  }

  /** `write_word(a, 0xFFFFFFFF)` is a 4-byte erase. */
  function EraseWord(img: Image, a: int): (r: Result<Image>)
    ensures r == Fill(img, a, 4, ERASED)
  {
    assert EncodeWord(0xFFFF_FFFF) == Repeat(ERASED, 4);
    WriteWord(img, a, 0xFFFF_FFFF)
  }

  /** `clear_frames`: if the stored FRAMES_END pointer occurs inside the blocks
      about to be erased (an overlay), only the word just past the blocks is
      erased; otherwise the blocks are erased together with the word at their
      start, so at least four bytes. */
  function ClearFrames(img: Image, a: nat, frames: nat, size: nat): (r: Result<Image>)
    ensures Occurs(FRAMES_END_BYTES, BytesAt(img, a, frames * size)) ==>
              r == Fill(img, a + frames * size, 4, ERASED)
    ensures !Occurs(FRAMES_END_BYTES, BytesAt(img, a, frames * size)) ==>
              r == Fill(img, a, Max(frames * size, 4), ERASED)
  {
    if Occurs(FRAMES_END_BYTES, BytesAt(img, a, frames * size)) then
      EraseWord(img, a + frames * size)
    else
      var img1 := Fill(img, a, frames * size, ERASED);
      if img1.Err? then
        img1
      else
        var r := EraseWord(img1.value, a);
        assert r.Ok? ==> r.value == Fill(img, a, Max(frames * size, 4), ERASED).value;
        r
  }

  /** `FramesPointers.clear`: the entries go back to the entry pool (0x33)
      and the blocks are erased with `clear_frames`. When the entries lie
      clear of the blocks and the word after them, the entries read 0x33
      afterwards, and either the word after the blocks (an overlay) or the
      blocks, at least four bytes, read erased; nothing else changes. */
  function Clear(img: Image, fs: FrameSet): (r: Result<Image>)
    ensures r.Ok? ==> GetType(img, fs) != UNKNOWN_TYPE && GetNum(img, fs).Ok?
    ensures r.Ok? ==> |r.value| == |img|
    ensures r.Ok? ==> KeptBelow(img, r.value, Min(fs.ptrsAddr, fs.pixelsAddr))
    ensures r.Ok? ==> Cleared(img, r.value, fs.ptrsAddr, GetNum(img, fs).value * ENTRY_SIZE,
                              fs.pixelsAddr, GetNum(img, fs).value * FrameSize(GetType(img, fs)))
  {
    var t := GetType(img, fs);
    var n :- GetNum(img, fs);
    if t == UNKNOWN_TYPE then Err(UnknownType)
    else
      var img1 :- Fill(img, fs.ptrsAddr, n * ENTRY_SIZE, PTRS_FILL);
      var r := ClearFrames(img1, fs.pixelsAddr, n, FrameSize(t));
      if r.Ok? then
        ClearedRuns(img, img1, r.value, fs.ptrsAddr, n * ENTRY_SIZE, fs.pixelsAddr, n, FrameSize(t));
        r
      else r
  }

  /** What `clear` leaves, for `k` bytes of entries at `ptrs` and `m` bytes
      of blocks at `pixels`, when the entries miss the blocks and the word
      after them. */
  predicate Cleared(img: Image, r: Image, ptrs: int, k: nat, pixels: int, m: nat) {
    ptrs + k <= pixels || pixels + Max(m, 4) + 4 <= ptrs ==>
      && (forall i :: ptrs <= i < ptrs + k ==> ByteAt(r, i) == PTRS_FILL)
      && (Occurs(FRAMES_END_BYTES, BytesAt(img, pixels, m)) ==>
            SameExcept2(img, r, ptrs, k, pixels + m, 4)
            && forall i :: pixels + m <= i < pixels + m + 4 ==> ByteAt(r, i) == ERASED)
      && (!Occurs(FRAMES_END_BYTES, BytesAt(img, pixels, m)) ==>
            SameExcept2(img, r, ptrs, k, pixels, Max(m, 4))
            && forall i :: pixels <= i < pixels + Max(m, 4) ==> ByteAt(r, i) == ERASED)
  }

  /** The entry fill followed by `clear_frames` leaves what `Cleared` says. */
  lemma ClearedRuns(img: Image, img1: Image, r: Image, ptrs: nat, k: nat, pixels: nat, frames: nat, size: nat)
    requires Fill(img, ptrs, k, PTRS_FILL) == Ok(img1)
    requires ClearFrames(img1, pixels, frames, size) == Ok(r)
    ensures |r| == |img|
    ensures Cleared(img, r, ptrs, k, pixels, frames * size)
  {
    var m := frames * size;
    if ptrs + k <= pixels || pixels + Max(m, 4) + 4 <= ptrs {
      assert BytesAt(img1, pixels, m) == BytesAt(img, pixels, m) by {
        forall i | 0 <= i < m ensures BytesAt(img1, pixels, m)[i] == BytesAt(img, pixels, m)[i] {
          if 0 <= pixels + i < |img| {
            assert img1[pixels + i] == img[pixels + i];
          }
        }
      }
      forall i | ptrs <= i < ptrs + k ensures ByteAt(r, i) == PTRS_FILL {
        assert img1[i] == PTRS_FILL;
      }
    }
  }

  // ----------------------------------------------------------------- lemmas

  /** The erased run and the entry-pool run found on one image never overlap,
      because they are made of different bytes. */
  lemma AllocatedRegionsDisjoint(img: Image, pixels: nat, len: nat, ptrs: nat, n: nat)
    requires IsFreeRun(img, pixels, len)
    requires AvailableEntries(img, ptrs, n)
    ensures n == 0 || InImage(img, ptrs, n * ENTRY_SIZE)
    ensures forall i :: pixels <= i < pixels + len ==>
              ByteAt(img, i) == ERASED && !(ptrs <= i < ptrs + n * ENTRY_SIZE)
  {
    forall i | pixels <= i < pixels + len
      ensures ByteAt(img, i) == ERASED && !(ptrs <= i < ptrs + n * ENTRY_SIZE)
    {
      assert img[i] == ERASED;
    }
    if n > 0 {
      assert ByteAt(img, ptrs + n * ENTRY_SIZE - 1) == PTRS_FILL;
    }
  }

  /** A walk over `m` blocks that are no FRAMES_END, followed by one that is,
      counts exactly `m`. */
  lemma {:induction false} CountFromExact(img: Image, a: nat, size: nat, m: nat)
    requires size > 0
    requires forall k :: 0 <= k < m ==> !IsFramesEnd(img, Stride(a, k, size)) && Stride(a, k, size) < |img|
    requires IsFramesEnd(img, Stride(a, m, size))
    ensures CountFrom(img, a, size) == Ok(m)
    decreases m
  {
    if m > 0 {
      assert Stride(a, 0, size) == a;
      var next := a + size;
      forall k | 0 <= k < m - 1
        ensures !IsFramesEnd(img, Stride(next, k, size)) && Stride(next, k, size) < |img|
      {
        assert Stride(next, k, size) == Stride(a, k + 1, size);
      }
      assert Stride(next, m - 1, size) == Stride(a, m, size);
      CountFromExact(img, next, size, m - 1);
    }
  }

  lemma MulMonotone(k: nat, n: nat, size: nat)
    requires k < n
    ensures k * size + size <= n * size
  {
    var d := n - k - 1;
    assert n * size == k * size + size + d * size;
  }

  /** Laid-out frames read back as type `t`: the first entry is a pointer
      to the first block followed by the signature of `t`. */
  lemma LaidOutFramesType(img: Image, t: OwType, n: nat, pixels: nat, ptrs: nat)
    requires n >= 1 && |img| <= ADDR_SPAN
    requires IsFreeRun(img, pixels, n * FrameSize(t) + 4)
    requires AvailableEntries(img, ptrs, n)
    ensures IsFramesPtr(LayOutFrames(img, t, n, pixels, ptrs), ptrs)
    ensures EntryType(LayOutFrames(img, t, n, pixels, ptrs), ptrs) == t
  {
    var r := LayOutFrames(img, t, n, pixels, ptrs);
    var first := EntryAt(r, ptrs, 0);
    assert first == EntryBytes(Stride(pixels, 0, FrameSize(t)), t);
    assert first == BytesAt(r, ptrs, 8);
    assert ByteAt(r, ptrs + 4) == first[4] && ByteAt(r, ptrs + 5) == first[5];
    assert BytesAt(r, ptrs, 4) == first[..4];
    PtrDecode(r, ptrs, pixels);
    EntryRecognised(r, ptrs, t);
  }

  /** Laid-out frames are walked to exactly `n` blocks: blocks `0 … n-1`
      start with erased bytes, block `n` with the FRAMES_END pointer. */
  lemma LaidOutFramesCount(img: Image, t: OwType, n: nat, pixels: nat, ptrs: nat)
    requires n >= 1 && |img| <= ADDR_SPAN
    requires IsFreeRun(img, pixels, n * FrameSize(t) + 4)
    requires AvailableEntries(img, ptrs, n)
    ensures !IsFramesEnd(LayOutFrames(img, t, n, pixels, ptrs), pixels)
    ensures CountFrom(LayOutFrames(img, t, n, pixels, ptrs), pixels, FrameSize(t)) == Ok(n)
  {
    var size := FrameSize(t);
    var r := LayOutFrames(img, t, n, pixels, ptrs);
    LaidOutBlocksNotEnd(img, t, n, pixels, ptrs);
    assert Stride(pixels, 0, size) == pixels;
    PtrDecode(r, Stride(pixels, n, size), FRAMES_END);
    CountFromExact(r, pixels, size, n);
  }

  /** Each laid-out block starts with erased bytes, which never read as the
      FRAMES_END pointer. */
  lemma LaidOutBlocksNotEnd(img: Image, t: OwType, n: nat, pixels: nat, ptrs: nat)
    requires IsFreeRun(img, pixels, n * FrameSize(t) + 4)
    requires AvailableEntries(img, ptrs, n)
    ensures var r := LayOutFrames(img, t, n, pixels, ptrs);
            forall k :: 0 <= k < n ==>
              !IsFramesEnd(r, Stride(pixels, k, FrameSize(t))) && Stride(pixels, k, FrameSize(t)) < |r|
  {
    var size := FrameSize(t);
    var r := LayOutFrames(img, t, n, pixels, ptrs);
    forall k | 0 <= k < n
      ensures !IsFramesEnd(r, Stride(pixels, k, size)) && Stride(pixels, k, size) < |r|
    {
      var s := Stride(pixels, k, size);
      MulMonotone(k, n, size);
      assert ByteAt(r, s) == ERASED && ByteAt(r, s + 1) == ERASED && ByteAt(r, s + 2) == ERASED;
    }
  }

  /** Frames laid out with `n >= 1` read back as type `t` with exactly `n`
      frames, whatever pools the frame set draws on. */
  lemma LaidOutFramesReadBack(img: Image, t: OwType, n: nat, fs: FrameSet)
    requires n >= 1 && |img| <= ADDR_SPAN
    requires IsFreeRun(img, fs.pixelsAddr, n * FrameSize(t) + 4)
    requires AvailableEntries(img, fs.ptrsAddr, n)
    ensures GetType(LayOutFrames(img, t, n, fs.pixelsAddr, fs.ptrsAddr), fs) == t
    ensures GetNum(LayOutFrames(img, t, n, fs.pixelsAddr, fs.ptrsAddr), fs) == Ok(n)
  {
    LaidOutFramesType(img, t, n, fs.pixelsAddr, fs.ptrsAddr);
    LaidOutFramesCount(img, t, n, fs.pixelsAddr, fs.ptrsAddr);
  }

  /** After `add_frames_ptrs(t, n)` with `n >= 1` the new frame set reads
      back as type `t` with exactly `n` frames. */
  lemma AddedFramesReadBack(img: Image, fs: FrameSet, t: OwType, n: nat)
    requires n >= 1 && |img| <= ADDR_SPAN
    requires AddFramesPtrs(img, fs, t, n).Ok?
    ensures GetType(AddFramesPtrs(img, fs, t, n).value.0, AddFramesPtrs(img, fs, t, n).value.1) == t
    ensures GetNum(AddFramesPtrs(img, fs, t, n).value.0, AddFramesPtrs(img, fs, t, n).value.1) == Ok(n)
    ensures AddFramesPtrs(img, fs, t, n).value.1.ptrsAddr < |img|
  {
    LaidOutFramesReadBack(img, t, n, AddFramesPtrs(img, fs, t, n).value.1);
    assert ByteAt(img, AddFramesPtrs(img, fs, t, n).value.1.ptrsAddr) == PTRS_FILL;
  }

  /** The first entry and the pixel run with its end marker of a frame set
      of `n` frames of type `t` lie outside `[a, a + m)`. */
  predicate FramesMiss(fs: FrameSet, t: OwType, n: nat, a: int, m: nat) {
    && (fs.ptrsAddr + ENTRY_SIZE <= a || a + m <= fs.ptrsAddr)
    && (fs.pixelsAddr + n * FrameSize(t) + 4 <= a || a + m <= fs.pixelsAddr)
  }

  /** The frame walk only looks at the block starts it passes: an image that
      agrees on them counts the same. */
  lemma {:induction false} CountFromAgree(img: Image, img1: Image, p: nat, size: nat, c: nat)
    requires size > 0 && |img1| == |img| && CountFrom(img, p, size) == Ok(c)
    requires forall k :: 0 <= k <= c ==> IsFramesEnd(img1, Stride(p, k, size)) == IsFramesEnd(img, Stride(p, k, size))
    ensures CountFrom(img1, p, size) == Ok(c)
    decreases |img| - p
  {
    assert Stride(p, 0, size) == p;
    if !IsFramesEnd(img, p) {
      var next := p + size;
      forall k | 0 <= k <= c - 1
        ensures IsFramesEnd(img1, Stride(next, k, size)) == IsFramesEnd(img, Stride(next, k, size))
      {
        assert Stride(next, k, size) == Stride(p, k + 1, size);
      }
      CountFromAgree(img, img1, next, size, c - 1);
    }
  }

  /** A frame set that reads back as type `t` with `n` frames still does
      after a change that misses its first entry and its pixel run. */
  lemma ReadBackKept(img: Image, img1: Image, fs: FrameSet, t: OwType, n: nat, a: int, m: nat)
    requires n >= 1 && GetType(img, fs) == t && GetNum(img, fs) == Ok(n)
    requires SameExcept(img, img1, a, m) && FramesMiss(fs, t, n, a, m)
    ensures GetType(img1, fs) == t && GetNum(img1, fs) == Ok(n)
  {
    var size := FrameSize(t);
    forall x | x == fs.ptrsAddr + 4 || x == fs.ptrsAddr + 5 ensures ByteAt(img1, x) == ByteAt(img, x) {
      if 0 <= x < |img| {
        assert img1[x] == img[x];
      }
    }
    forall k | 0 <= k <= n
      ensures IsFramesEnd(img1, Stride(fs.pixelsAddr, k, size)) == IsFramesEnd(img, Stride(fs.pixelsAddr, k, size))
    {
      if k < n {
        MulMonotone(k, n, size);
      }
      PtrUntouched(img, img1, Stride(fs.pixelsAddr, k, size), a, m);
    }
    assert Stride(fs.pixelsAddr, 0, size) == fs.pixelsAddr;
    CountFromAgree(img, img1, fs.pixelsAddr, size, n);
  }
}
