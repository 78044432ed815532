# OWM-Qt layout manager, modelled in Dafny

OWM-Qt edits the overworld sprite ("OW") tables of a Game Boy Advance ROM. Its
core, `core_files/core.py`, is a layout manager and structural validator over
the flat byte image of the ROM:

- a **table** is an array of 256 four-byte slots. Each slot points at a
  36-byte (0x24) **record** in the table's record pool, and the table's three
  metadata words point at that pool, at a frame-pointer pool and at a pixel
  pool;
- a record's frame-pointer field leads to an array of 8-byte **entries**
  (pointer, two-byte type signature, two spare bytes). Each entry points at
  one frame's pixel block. The frame list ends at the block holding the
  `FRAMES_END` pointer;
- the **root** is a chain of table pointers. Discovery walks it, loads the
  tables laid out by the tool, and "repoints" every table still in the game's
  original layout: it rebuilds the table in fresh space and erases the old
  one.

The model is functional. The image is an immutable `seq<Byte>`. Every
operation is a pure function from image to `Result<image>`, and a `Session`
threads the process-wide state the source keeps in globals and class
attributes: the free-space cursor, the set of claimed frame-pointer arrays,
and the list of table addresses ever seen. The scans are recursive functions
bounded by the image length.

Modules follow the layers of the source:

| module | file | what it holds |
|---|---|---|
| `RomBytes` | rom_bytes.dfy | image, words, pointer encoding, fill/move/copy primitives |
| `FrameTypes` | frame_types.dfy | the eight type signatures, frame sizes and dimensions |
| `FreeSpace` | free_space.dfy | the free-space search and the four-region allocation of a new table |
| `RecordFields` | record_fields.dfy | palette id, palette slot, text colour, footprint and animation fields |
| `Validators` | validators.dfy | `is_ow_data`, `is_frames_ptr`, the table-pointer tests, `table_needs_repoint`, `sublist` |
| `FrameSets` | frame_sets.dfy | `FramesPointers`: allocation, entry writing, type, count, clearing |
| `Records` | records.dfy | `OWData`: instantiate, clear, remove, move left/right |
| `Shifts` | shifts.dfy | the record shifts of `remove_ow` and `insert_ow` |
| `Tables` | tables.dfy | `OWPointerTable`: fresh layout, scan, free slot, add/remove/insert/resize |
| `TableLayout` | table_layout.dfy | what add/remove/insert do to the table as a whole |
| `Catalog` | catalog.dfy | `Root`: discovery, reload, repointing, table removal, spare slots |

The byte layer `rom_api` is not part of this model. Its primitives are
defined in `RomBytes` with the contracts the core relies on. A read past the
image sees 0xFF. A write that would leave the image is the error
`OutOfImage`. `ptr_to_addr` keeps the low 24 bits of the little-endian word.
`write_ptr` stores `target + 0x08000000`, which is the encoding `clear_frames`
searches for as `[0xF0, 0x35, 0x21, 0x08]`. The eight record templates are a
parameter (`templates`, eight 36-byte sequences).

Behaviour kept as the source has it:
- `Root.__init__` binds a local `FRAMES_PTRS_PTRS`, so nothing resets the
  claimed set: `Session.claimed` only grows.
- `ow_tables_addrs` is a class attribute that nothing clears:
  `Session.knownTables` only grows.
- The record count of a repointing compares slot addresses (not targets)
  with the known table addresses, and its guard `<= 256` lets it reach 257.
- The first frame-count test excludes the claimed set; the later ones
  exclude only the original frame-pointer arrays.
- The collision branch of `clear_frames` erases the word at
  `addr + frames*size`, not the collision point.
- `resize_ow` writes its snapshot back at the removed record's address.
- `insert_ow`, `resize_ow`, the rebuild and the padding of a repointing all call `add_ow` as written, which gives palette slot 0xA to the last scanned record (see Findings).
- `get_type` answers -1 for an unknown signature, and an unknown type has no
  frame size. Where the source would then fail on `None`, the model ends
  with the error `UnknownType`.

## Model

| member | source | states |
|---|---|---|
| RomBytes.PtrRoundTrip | core_files/core.py:586-588 | a pointer `write_ptr` stores reads back through `ptr_to_addr` as its target, and is a valid pointer exactly when the target lies inside the image |
| RomBytes.WordReencode | core_files/core.py:905-909 | the four bytes of the word read at an address are exactly the bytes stored there, so saving the frames word before the record copy and writing it back afterwards restores it unchanged |
| RomBytes.Fill | core_files/core.py:577-579 | `fill_with_data` succeeds exactly when the range lies in the image; it sets every byte of the range to the value and changes no other byte |
| RomBytes.MoveData | core_files/core.py:830-833 | `move_data` succeeds exactly when both ranges lie in the image; the destination receives the source bytes and, outside both ranges, nothing changes |
| RomBytes.CopyData | core_files/core.py:906-908 | `copy_data` succeeds exactly when both ranges lie in the image; the destination receives the source bytes and nothing outside it changes |
| RomBytes.WriteWord | core_files/core.py:909 | `write_word` succeeds exactly when the word lies in the image, and the word reads back as written |
| FrameTypes.FrameSize | core_files/core.py:162-229 | for each of the eight types, the frame size is width times height over two (4 bits per pixel) of the type's dimensions, between 128 and 4096 bytes |
| FrameTypes.TypeOfSignature | core_files/core.py:435-463 | the type is -1 exactly when no type has that signature, and otherwise it is the type whose signature the two bytes are |
| FrameTypes.SignaturesDistinct | core_files/core.py:8-15 | the eight two-byte signatures are pairwise distinct |
| FrameTypes.SignatureRoundTrip | core_files/core.py:397-463 | the type read back from a written signature is the type that was written |
| FreeSpace.FindFreeSpace | core_files/core.py:48-53 | the first address from the start with a free (all 0xFF) run of the size; no earlier address has one; `NoFreeSpace` exactly when none exists |
| FreeSpace.AllocateFootprint | core_files/core.py:241-264 | a new table's four regions are free runs, in order and non-overlapping, from the cursor, and the cursor advances past the pixel region |
| RecordFields.WritePaletteId | core_files/core.py:266-273 | the write succeeds exactly when bytes +2 and +3 are in the image; the palette id reads back as written and no other byte changes |
| RecordFields.PaletteIdRoundTrip | core_files/core.py:234-273 | every id below 65536 written at a record reads back, and the palette slot and text colour are unaffected |
| RecordFields.WritePaletteSlot | core_files/core.py:313-321 | only byte +12 changes; its low nibble becomes the slot and its high nibble is kept |
| RecordFields.PaletteSlotRoundTrip | core_files/core.py:307-321 | every slot below 16 reads back after the write, and the palette id is unaffected |
| RecordFields.SetTextColor | core_files/core.py:333-337 | the text colour reads back as set and only byte +0xE changes |
| RecordFields.SetFootprint | core_files/core.py:339-343 | the footprint byte reads back as set and only byte +13 changes |
| RecordFields.WriteAnimation | core_files/core.py:323-331 | both animation pointers read back as written and only their eight bytes change |
| Validators.Sublist | core_files/core.py:129-134 | the answer is 1 exactly when the pattern occurs contiguously in the list, else 0 |
| Validators.IsOwData | core_files/core.py:55-68 | a record starts with two 0xFF bytes and holds pointers at +0x10, +0x14, +0x18, +0x1C and +0x20 |
| Validators.IsFramesPtr | core_files/core.py:275-305 | a frame-pointer entry is a valid pointer followed by one of the eight signatures |
| Validators.IsFramesEnd | core_files/core.py:121-127 | the word read as a pointer designates `FRAMES_END` |
| Validators.IsOrigTablePtr | core_files/core.py:70-82 | a pointer to a slot that points at a record whose frame-pointer field leads to a frame-pointer entry |
| Validators.IsOwmTablePtr | core_files/core.py:84-100 | a pointer to a table whose three metadata words are pointers and whose first slot is the 0x11 fill or points at a record |
| Validators.TableNeedsRepoint | core_files/core.py:136-155 | the five tests of `table_needs_repoint` in order: the 0x22 record-pool fill, a record, a pointer pool word, the 0x33 fill, a frame-pointer entry |
| Validators.OwDataInsideImage | core_files/core.py:55-68 | a recognised record lies entirely inside the image: a read past the end makes the test fail rather than fault |
| Validators.TombstoneIsNotOwData | core_files/core.py:55-59 | a record whose first byte is the 0x22 tombstone fill is not recognised |
| Validators.EntryRecognised | core_files/core.py:275-305 | a valid pointer followed by one of the eight signatures is a frame-pointer entry of that type |
| FrameSets.UpdateFramesAddr | core_files/core.py:157-160 | adding the frame size `num` times to `addr` gives `addr + num * size` |
| FrameSets.CountFrom | core_files/core.py:465-478 | the count is the number of frame blocks before the first block holding the `FRAMES_END` pointer |
| FrameSets.CountFromExact | core_files/core.py:465-478 | conversely, a walk whose first end marker is at block `m`, with every earlier block inside the image, counts exactly `m` |
| FrameSets.FindEntrySlot | core_files/core.py:388-395 | the first 8-byte-aligned address of the pool with room for `n` entries; no earlier aligned address has room |
| FrameSets.WriteEntries | core_files/core.py:397-426 | each of the `n` entries holds a pointer to its own pixel block and the type's signature; nothing outside the entries changes |
| FrameSets.LayOutFrames | core_files/core.py:360-373 | the pixel blocks become 0xFF, the end marker sits right after the last block, and the entries point at the blocks; nothing else changes |
| FrameSets.AddFramesPtrs | core_files/core.py:360-373 | the pixel region is a free run found in the pixel pool and the entries go to the first free place of the pointer pool, laid out as above |
| FrameSets.AllocatedRegionsDisjoint | core_files/core.py:360-373 | the free pixel run found never overlaps the entry region found |
| FrameSets.LaidOutFramesType | core_files/core.py:397-463 | after laying out `n >= 1` frames of type `t`, the first entry is a frame pointer whose type reads back as `t` |
| FrameSets.LaidOutFramesCount | core_files/core.py:465-478 | after laying out `n >= 1` frames, the frame walk from the first block counts exactly `n` |
| FrameSets.AddedFramesReadBack | core_files/core.py:360-478 | after `add_frames_ptrs(t, n)` with `n >= 1`, `get_type` gives `t` and `get_num` gives `n` |
| FrameSets.GetType | core_files/core.py:435-463 | the type of a frame set is the type whose signature follows its first entry's pointer, or -1 |
| FrameSets.GetNum | core_files/core.py:465-478 | a frame set whose pixel address already holds the end marker has 0 frames; otherwise an unknown type is the error `UnknownType` and a known one counts blocks of its frame size |
| FrameSets.CountFromAgree | core_files/core.py:470-476 | the frame count depends only on the end-marker tests at the blocks it walks: an image that agrees on those gives the same count |
| FrameSets.ReadBackKept | core_files/core.py:435-478 | a frame set that reads back as type `t` with `n` frames still does after a change that misses its first entry and its pixel run with the end marker |
| FrameSets.ClearFrames | core_files/core.py:180-189 | when the end-marker bytes occur in the cleared range only the word at `addr + frames*size` is erased; otherwise every byte of `[addr, addr + max(frames*size, 4))` becomes 0xFF and nothing else changes |
| FrameSets.Clear | core_files/core.py:480-487 | clearing needs a known type and a terminated frame list and changes nothing below the frame set; when the entries lie clear of the pixel blocks, the `n` entries become 0x33 and the blocks are erased as `clear_frames` erases them (only the word after the blocks when the end-marker bytes occur in them), and no other byte changes |
| Records.FindFreeRecordAddr | core_files/core.py:515-523 | the first 0x24-stride address of the pool that holds no record; every earlier one holds a record |
| Records.AddOwData | core_files/core.py:500-513 | the record lands at the first free place: template bytes, the frame-pointer field pointing at the new entries, and only those 36 bytes change |
| Records.ClearRecord | core_files/core.py:525-527 | after clearing, the record is tombstoned with 0x22 and no longer recognised |
| Records.RemoveRecord | core_files/core.py:529-533 | removal clears the record and tombstones its slot with 0x22 |
| Records.MoveLeft | core_files/core.py:535-541 | the record moves 36 bytes lower and its slot 4 bytes lower, with the errors exactly when a range leaves the image |
| Records.MoveRight | core_files/core.py:543-552 | the record moves 36 bytes higher and its slot 4 bytes higher, with the errors exactly when a range leaves the image |
| Records.MoveLeftEffect | core_files/core.py:535-541 | after `move_left` the 36 bytes sit one place lower, the slot one word lower points at them, and the vacated record and slot are tombstoned |
| Records.MoveRightEffect | core_files/core.py:543-552 | after `move_right` the 36 bytes sit one place higher, the slot one word higher points at them, and the vacated record and slot are tombstoned |
| Shifts.ShiftLeftUpEffect | core_files/core.py:664-667 | `remove_ow`'s ascending shift moves each later record and its slot one place left, in order |
| Shifts.ShiftRightDownEffect | core_files/core.py:676-678 | `insert_ow`'s descending shift moves each record from `pos` on one place right without overwriting an unmoved record |
| Tables.Scan | core_files/core.py:590-594 | the scanned records are the maximal run of valid pointers from the slot array, at most 256, each record taken from its slot |
| Tables.RecordAt | core_files/core.py:596-610 | a record object is read from its slot: the slot's target, the frame-pointer word at +0x1C, the pixel address that word leads to, and the table's pools |
| Tables.Reinitialize | core_files/core.py:621-635 | the loop of `re_initialize_ow` gives the same record list as the constructor's scan |
| Tables.ScanLength | core_files/core.py:590-594 | conversely, a run of exactly `m` valid pointers scans to exactly `m` records |
| Tables.FindFreeSlot | core_files/core.py:612-619 | the first 4-stride slot that is not a valid pointer; every earlier one is |
| Tables.FreeSlotIs | core_files/core.py:612-619 | conversely, the first slot that is not a valid pointer is the one found |
| Tables.FreeSlotAfterScan | core_files/core.py:612-635 | in a table that is not full, the free slot is the one right after the scanned records |
| Tables.InitTable | core_files/core.py:573-588 | only a table whose address reads 0xFFFFFF is laid out, and then all of its regions lie in the image; any other is untouched |
| Tables.InitTableWords | core_files/core.py:573-588 | a fresh layout leaves the slot array filled with 0x11, the record pool starting with 0x22 and the metadata words pointing at the three pools |
| Tables.FreshTableRecognised | core_files/core.py:84-155 | a freshly laid-out table, once a slot points at it, is one of the tool's tables and does not need repointing, and it scans to no records |
| Tables.NewTable | core_files/core.py:564-594 | the image keeps its size and the table its address and pools; a table whose address does not read 0xFFFFFF is read without changing a byte and never fails; a fresh one with ordered pools is laid out (0x11 slots, 0x22 record pool, metadata pointers to the three pools after the slots) and holds no records |
| Tables.AddOwAsWritten | core_files/core.py:637-656 | `add_ow` as written: the record is placed, the table rescanned, and palette slot 0xA goes to the last scanned record |
| Tables.AddOw | core_files/core.py:637-656 | corrected `add_ow`: palette slot 0xA goes to the record just placed and only that byte changes after placement |
| Tables.PlaceOw | core_files/core.py:640-651 | placing allocates the frames, writes the record into the record pool and points the first free slot at it; the image keeps its size and the record lies in the pool |
| Tables.RemoveOw | core_files/core.py:658-670 | removal needs an existing index and a successful record removal; the table is the rescan of the result |
| Tables.InsertOw | core_files/core.py:672-684 | insertion keeps the image size, the shift of the records from `pos` on succeeds whenever the insertion does, and the table is the rescan of the result |
| Tables.InsertOwIntended | core_files/core.py:672-684 | the corrected insertion: the same shift, the corrected `add_ow`, and the rescan; the shift succeeds whenever the insertion does |
| Tables.ResizeOw | core_files/core.py:686-702 | the animation pointers, palette slot and footprint of the old record's address are as they were before the resize |
| Tables.ResizeOwIntended | core_files/core.py:686-702 | the corrected resize: the animation pointers, palette slot and footprint of the old record's address are as they were before |
| TableLayout.PlaceOwLinks | core_files/core.py:640-651 | placing a record points the first free slot at it and leaves every other slot's pointer as it was |
| TableLayout.AddOwAppends | core_files/core.py:637-656 | on a table whose records end before a free slot, adding keeps the old records and appends the new one |
| TableLayout.AddOwFills | core_files/core.py:637-656 | when the first `m` slots are filled, adding fills the first `m + 1` and the table has `m + 1` records |
| TableLayout.RemoveOwShrinks | core_files/core.py:658-670 | removing record `id` leaves one record fewer, the records before `id` in place and each later one moved to the place before it |
| TableLayout.AddOwRepaintsLast | core_files/core.py:653-656 | when the placed record lands in a hole below the last place, the as-written palette write hits the record at the last place instead, and the placed record keeps every byte it was written with, so its palette slot stays the template's |
| TableLayout.AddOwPaintsLast | core_files/core.py:637-656 | on slots and places in step up to `l` with one hole, the as-written add scans `l + 1` records each at its own place, places the record in the hole, keeps every other record below `l`, and the record at `l` gets palette slot 0xA; when the hole is below `l` that record is repainted: only the low nibble of its byte +12 changes |
| TableLayout.AddOwPaintsNew | core_files/core.py:637-656 | with the correction, the placed record gets palette slot 0xA and every other record's bytes are unchanged |
| TableLayout.InsertOwPlaces | core_files/core.py:672-684 | inserting at `pos` gives one record more, all at consecutive places, and the record at place `pos` has palette slot 0xA |
| TableLayout.InsertOwKeeps | core_files/core.py:637-684 | `insert_ow` as written, at `pos`: the rescan finds one record more, all at consecutive places; every record before `pos` is kept and every later one moves one place further unchanged, except that the one moved to the last place gets palette slot 0xA in the low nibble of byte +12 with all its other bytes kept; only when `pos` is the end does the new record get 0xA |
| Catalog.Walk | core_files/core.py:719-727 | the walk counts the run of table pointers; during discovery a pointer to one of the two skipped tables is zeroed, which ends the run |
| Catalog.Load | core_files/core.py:743-758 | a loaded table takes its pools from the three metadata words after the slot array, its records are the scan and are added to the claimed set, and the image is the fresh layout of that table, so a table already laid out is read without changing a byte |
| Catalog.Reload | core_files/core.py:763-787 | reload opens every table of the chain's run of table pointers and appends their addresses to the known tables |
| Catalog.CountRecords | core_files/core.py:842-852 | the count is the run of record pointers from the old slot array, cut once a slot from the third on is a known table address, and never above 257 |
| Catalog.CountRecordsIs | core_files/core.py:842-852 | conversely, any number with that characterisation is the count |
| Catalog.InferFrameCount | core_files/core.py:869-885 | the count is at least 1 and is 1 exactly when the next entry fails the first test; otherwise it is the run of following entries that pass the later test |
| Catalog.InferFrameCountIs | core_files/core.py:869-885 | conversely, any number with that characterisation is the inferred count |
| Catalog.StartRepoint | core_files/core.py:856-859 | the new table's regions lie at or after the cursor, in order and without overlap, and the cursor moves past them |
| Catalog.RepointStartsFresh | core_files/core.py:136-155 | the table a repointing lays out is seen through its chain slot as a tool table that needs no repointing, with metadata words leading to its pools |
| Catalog.CopyFrames | core_files/core.py:912-915 | copying the frames changes no byte outside the destination blocks |
| Catalog.CopiedFrames | core_files/core.py:912-915 | when no copy overwrites an entry or a source block still to be read, destination block `j` holds exactly the bytes of the block entry `j` pointed at |
| Catalog.RestoreOne | core_files/core.py:904-915 | rebuilding one record keeps the new table's pools; it is `add_ow` as written followed by the copying of `Catalog.CopyRecord` into the last scanned record and its pixel blocks |
| Catalog.RestoredRecord | core_files/core.py:905-915 | when the old entries and frames lie outside the new record and the new pixel blocks, the rebuilt record holds the old record's 36 bytes except the word at +0x1C, which keeps the frame-pointer value the new record had, and new block `j` holds old frame `j` |
| Catalog.Restore | core_files/core.py:893-915 | the rebuild keeps the new table's pools and only adds to the claimed set |
| Catalog.Pad | core_files/core.py:917-920 | padding keeps the new table's pools and only adds to the claimed set |
| Catalog.PadFills | core_files/core.py:917-920 | padding a table with its first `m` slots filled by `256 - m` records leaves exactly 256 records with all 256 slots filled |
| Catalog.EraseFrames | core_files/core.py:933-940 | erasing only turns bytes into 0xFF, and does nothing when the array is 0xFFFFFF, not a frame-pointer entry, or no frames are left; otherwise the type is known and the first entry and the pixel block it points at end erased |
| Catalog.CleanUp | core_files/core.py:922-942 | cleanup only turns bytes into 0xFF, every old slot ends up erased, and so do the 36 bytes of the first record it cleans |
| Catalog.MoveRecords | core_files/core.py:862-942 | moving the records keeps the new table's pools and only adds to the claimed set |
| Catalog.RepointTable | core_files/core.py:841-942 | repointing allocates through `StartRepoint`, advances the cursor, keeps the new table's pools, and only adds to the claimed set |
| Catalog.OpenOne | core_files/core.py:729-758 | a table that does not need repointing is loaded as it is; any table only adds to the claimed set and advances the cursor |
| Catalog.OpenFrom | core_files/core.py:729-758 | opening the chain slots appends one table per slot in order, keeping the tables already opened |
| Catalog.Discover | core_files/core.py:709-758 | discovery lists one table per slot of the run of table pointers, none of them a skipped table, and records their addresses |
| Catalog.ShiftChain | core_files/core.py:829-833 | every table pointer after the removed slot moves one word down, the last word of the run becomes zero, nothing else changes, and the run ends at a non-pointer |
| Catalog.RemoveTable | core_files/core.py:814-836 | a table number past the end is an error; otherwise the image keeps its size and the cursor is unchanged |
| Catalog.RemoveAll | core_files/core.py:816-817 | removing no records changes nothing; on success, removing the first record succeeds on the original image, and the slot of the last record removed ends tombstoned with 0x22 |
| Catalog.AvailableTableSlots | core_files/core.py:944-964 | the count of all-zero words right after the chain's pointers |
| Catalog.AvailableTableSlotsIs | core_files/core.py:944-964 | conversely, any number with that characterisation is the count |

## Left out

- The default-table pointer rewrite (core_files/core.py:734-741) is left out. It searches the whole image with `find_ptr_in_rom`, which is not part of this model. Repointing the first table is modelled like repointing any other.
- `change_core_info` (core_files/core.py:29-42) is left out: it opens files and maps templates. The templates are a parameter.
- `update_free_space`, `find_free_space_update` and `addrs_filter` (core_files/core.py:44-53, 241-264) are modelled only as the advancing cursor of `FreeSpace.AllocateFootprint`.
- `is_jpan_ptr` (core_files/core.py:106-116) and `repoint_frames` (core_files/core.py:428-433) are left out. The first has no caller in the core; the second computes a value and discards it.
- `custom_table_import`, `clear_OW_Tables`, `import_OW_Table` and `tables_num` (core_files/core.py:789-812, 838-839) are left out. They are entry points of the user interface over `addrs_filter` and the constructor.
- All printing and `SHOW` logging, and the UI files, are left out.
- Negative Python indices are left out. `remove_table(-1)` would pick the last table; the model takes a natural index, and one past the end is `NoSuchRecord`.
- Validators.Sublist requires a non-empty pattern. On a non-empty list the source indexes `pattern[0]` and fails; the only caller passes four bytes.
- FrameTypes.FrameSize requires a type in 1..8, where the source returns `None` for any other type.
- Records.MoveLeftEffect and Records.MoveRightEffect assume that the moved record and slot do not overlap each other's ranges. A table laid out by the tool always satisfies this.
- Catalog.PadFills takes as a hypothesis that the first `m` slots are filled when padding starts. It does not derive that from the rebuild.
- Catalog.RepointTable, Catalog.MoveRecords and Catalog.Restore state the pools, cursor and claimed set of the result, not the copied record and frame bytes. The contents are stated for one record at a time: Catalog.RestoreOne is the add followed by Catalog.CopyRecord, and Catalog.RestoredRecord and Catalog.CopiedFrames say what that copying leaves. Lifting this to every record `k` of a table would need the later rebuilds, the padding and the cleanup to be shown to miss record `k`, its new blocks and the old frames, which depends on where free space was found.
- Catalog.RestoredRecord and Catalog.CopiedFrames take as hypotheses that the old entries and frames lie clear of the new record and the new blocks. The source copies in place whatever the layout; an overlapping layout is not characterised.
- Catalog.CleanUp states the erased 36 bytes only for the first record it cleans. Each later record is the same clause one step further into the recursion, whose record address is read from the partly erased image, so it is not restated in terms of the original image.
- Catalog.EraseFrames states the erasure of the first entry and its pixel block only. The later entries are the same clause one step further into the recursion.
- Tables.ResizeOw states the restored snapshot, not the replacement record's type `t` and `n` frames. The pieces are stated separately: FrameSets.AddedFramesReadBack reads back `t` and `n` after `add_frames_ptrs`, and FrameSets.ReadBackKept carries them through later writes that miss the entry and the pixel run. Composing them through the record removal and the snapshot writes is not done.
- FrameSets.Clear states the 0x33 entries and the erased blocks only when the entries lie clear of the blocks and of the word after them. An overlapping layout is not characterised.
- FreeSpace.FindFreeSpace ignores the alignment argument of `find_free_space` (4 or 2 at core_files/core.py:46, 244-261, 384). The search steps one byte at a time, so it may return an address the source would skip. `find_free_space` lives in `rom_api`, which is not part of this model.
- FrameSets.LayOutFrames fills the new pixel blocks with 0xFF for `fill_with_data(…, -1)` (core_files/core.py:369). What `rom_api` stores for -1 is not part of this model; 0xFF is the byte value of -1.
- FrameSets.CountFrom and FrameSets.FindEntrySlot end with `RunsOffImage` and `NoFreeSpace` once the walk leaves the image. The source loops (core_files/core.py:388-395, 470-476) and either faults in `rom_api` or, with reads past the end seeing 0xFF, never stops; the model makes the walk terminate.
- Tables.AddOw, Tables.AddOwAsWritten, Tables.RemoveOw, Tables.InsertOw and Tables.ResizeOw take no `Session`. In the source every rescan adds the frame-pointer arrays to `FRAMES_PTRS_PTRS` (core_files/core.py:600); in the model only Catalog.Load and the repointing grow `Session.claimed`. The rescans of the table operations do not.
- Catalog.RemoveTable states the error case and the session, not the erased pools. The chain compaction it performs is stated by Catalog.ShiftChain.
- Catalog.Discover and Catalog.OpenOne do not state the contents of repointed tables, for the same reason as Catalog.RepointTable.
- A failure part way through a repointing or a removal is not rolled back, in the source or in the model. The model returns the error and drops the partly written image, while the source leaves it written.
- Integer widths: addresses are unbounded naturals. Pointers keep 24 bits, and words are taken modulo 2^32 where the source reads or writes them.

## Findings

| source | as written | input that shows it | evidently intended | confidence | as-written member | corrected member |
|---|---|---|---|---|---|---|
| core_files/core.py:653-656 | after placing the record, `add_ow` rescans and writes palette slot 0xA to the LAST scanned record | `insert_ow(pos, …)` with `pos` below the record count: the shift leaves a hole at place `pos`, the new record lands there, and the last scanned record is the old one moved to the last place (the same holds for `resize_ow` of any record but the last) | the record just added gets palette slot 0xA; Tables.AddOw, Tables.InsertOwIntended and Tables.ResizeOwIntended do that, while Tables.InsertOw and Tables.ResizeOw keep the source's behaviour, stated by TableLayout.InsertOwKeeps | medium, not executed | TableLayout.AddOwRepaintsLast | TableLayout.InsertOwPlaces |
