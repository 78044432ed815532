/**
  The free-space allocator and the four-region table footprint.

  The allocator (`find_free_space`) belongs to the byte layer and is not part
  of this model; it is assumed to return the first address at or after the
  hint where `size` erased (0xFF) bytes lie inside the image. Its alignment
  argument is not modelled.
 */
module FreeSpace {
  import opened RomBytes

  /** `size` erased bytes starting at `a`, all inside the image. */
  predicate IsFreeRun(img: Image, a: int, size: nat) {
    InImage(img, a, size) && forall i :: a <= i < a + size ==> img[i] == ERASED
  }

  /** `find_free_space(size, start, _)`. */
  function FindFreeSpace(img: Image, size: nat, start: nat): (r: Result<nat>)
    ensures r.Ok? ==> start <= r.value && IsFreeRun(img, r.value, size)
    ensures r.Ok? ==> forall b :: start <= b < r.value ==> !IsFreeRun(img, b, size)
    ensures r.Err? ==> r.error == NoFreeSpace && forall b :: start <= b ==> !IsFreeRun(img, b, size)
    decreases |img| - start
  {
    if start + size > |img| then Err(NoFreeSpace)
    else if IsFreeRun(img, start, size) then Ok(start)
    else FindFreeSpace(img, size, start + 1)
  }

  // Region sizes of one table footprint (`addrs_filter`, core.py:241-264).
  const TABLE_REGION: nat := 260 * 4         // 256 slots, 3 metadata words, 1 spare
  const TABLE_USED: nat := 259 * 4           // the part the next region may not overlap
  const DATA_REGION: nat := 256 * 36 + 4
  const PTRS_REGION: nat := 9 * 8 * 256 + 4
  const PIXELS_REGION: nat := 0x40000

  datatype Footprint = Footprint(tableAddr: nat, dataPool: nat, ptrsPool: nat, pixelsPool: nat)

  /** `addrs_filter(0, 0, 0, 0)`: the four regions of a new table, each found
      by the allocator, the first one from the free-space cursor and each next
      one just past the previous one; returns the advanced cursor too. */
  function AllocateFootprint(img: Image, cursor: nat): (r: Result<(Footprint, nat)>)
    ensures r.Ok? ==>
      var (fp, next) := r.value;
      && cursor <= fp.tableAddr
      && fp.tableAddr + TABLE_USED <= fp.dataPool
      && fp.dataPool + DATA_REGION <= fp.ptrsPool
      && fp.ptrsPool + PTRS_REGION <= fp.pixelsPool
      && next == fp.pixelsPool + PIXELS_REGION && next <= |img|
      && IsFreeRun(img, fp.tableAddr, TABLE_REGION)
      && IsFreeRun(img, fp.dataPool, DATA_REGION)
      && IsFreeRun(img, fp.ptrsPool, PTRS_REGION)
      && IsFreeRun(img, fp.pixelsPool, PIXELS_REGION)
  {
    var table :- FindFreeSpace(img, TABLE_REGION, cursor);
    var data :- FindFreeSpace(img, DATA_REGION, table + TABLE_USED);
    var ptrs :- FindFreeSpace(img, PTRS_REGION, data + DATA_REGION);
    var pixels :- FindFreeSpace(img, PIXELS_REGION, ptrs + PTRS_REGION);
    Ok((Footprint(table, data, ptrs, pixels), pixels + PIXELS_REGION))
  }
}
