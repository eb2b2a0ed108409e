# Ceph kernel-client cluster map and the crimson block segment table, in Dafny

This project models two pieces of Ceph.

The first is the kernel client's cluster-map code in `src/kernel/osdmap.c`:
- the decoder of a CRUSH topology blob (`crush_decode` and its four per-algorithm bucket helpers);
- the decoder of a full OSD map (`osdmap_decode`), which embeds a CRUSH map;
- the resize of the three per-OSD arrays (`osdmap_set_max_osd`);
- the placement-group masks (`calc_bits_of`, `calc_pg_masks`);
- the in-place application of an incremental map (`apply_incremental`);
- the placement arithmetic that maps a file range to an object extent and an object to a placement-group id (`calc_file_object_mapping`, `calc_object_layout`).

The second is the small, synchronous part of the crimson block segment manager in `src/crimson/os/seastore/segment_manager/block.h`:
- the segment state table `SegmentStateTracker`: one byte per segment in a page-aligned buffer;
- the device offset of a segment address (`get_offset`);
- the I/O statistics counters (`effort_t::increment`, `stats.reset`).

How the model is built:
- A buffer is a `seq<u8>` read through a cursor `nat`. Every "need n bytes" guard of the source is an explicit `p + n <= |b|` test.
- Errors are `Result` values carrying `Inval` (-EINVAL), `NoMem` (-ENOMEM) or `Bug` (a `BUG_ON` that fired).
- Every decoder and update has two layers:
  - a specification function over values: `Crush.ParseCrush`, `OsdMapSpec.ParseOsdMap`, `IncrementalSpec.ApplySpec`;
  - an imperative layer with the C code's loops and in-place updates, proved equal to the specification. `CrushDecoder` decodes with `for` loops into fresh arrays. The `OsdMaps.OsdMap` class holds the three per-OSD arrays and reallocates them and updates them in place.
- Where the C code has one of the bugs listed under "## Findings", both layers follow the corrected behaviour, and a separate member models the code as written: `ParseCrushAsWritten` for the NULL result of `crush_decode`, `StepsNeedAsWritten` for its step-count check, `CopyAsWritten` for the shrinking copy, and `ApplyDiff(…, false)` for the cursor not moved past a new CRUSH blob. "## Left out" names each member that carries a correction.
- The properties the source promises are lemmas about the specification functions.

Modules, in dependency order:
- `Wire`: fixed-width integers, little-endian reads, encoders and their read-back lemmas.
- `Crush`: the CRUSH map as a value, its parser and encoder, and the round trip.
- `CrushDecoder`: the loop-based CRUSH decoder.
- `Masks`: `calc_bits_of` and the pg masks.
- `OsdMapSpec`: the cluster map as a value, the resize, and the full-map parser.
- `IncrementalSpec`: the incremental update as a function, and its lemmas.
- `OsdMaps`: the `OsdMap` class and its methods.
- `Placement`: the file-to-object mapping and the object layout.
- `Block`: the segment state tracker, `get_offset` and the counters.

Constants the model takes from headers that are not part of this model:
- `CRUSH_MAGIC` is 0x00010000.
- The bucket algorithms uniform, list, tree and straw are 1 to 4.
- `CEPH_OSD_UP` is bit 1 of the state byte.
- `sizeof(struct ceph_entity_addr)` is 24. Addresses are opaque 24-byte records.
- `segment_state_t::EMPTY` is stored as byte 0.
- `PAGE_SIZE` is 4096.
- The `union ceph_pg` fields are taken as `ps: u32` and `preferred: s32`. If the header declares them narrower, the stored seed keeps only the low bits of what `CalcObjectLayout` and `ConsecutiveSeeds` compute mod 2^32.

## Model

| member | source | states |
|---|---|---|
| Masks.BitsOf | src/kernel/osdmap.c:17-25 | The bit count is 0 exactly for 0, and never exceeds the value. |
| Masks.CalcBitsOf | src/kernel/osdmap.c:17-25 | The shifting loop returns `BitsOf(t)`, the number of significant bits of `t`. |
| Masks.BitsOfBounds | src/kernel/osdmap.c:17-25 | The bit count is 0 for 0. For `t > 0` it is the `b` with 2^(b-1) <= t < 2^b. |
| Masks.BitsOfUnique | src/kernel/osdmap.c:17-25 | Any `b >= 1` with 2^(b-1) <= t < 2^b is the bit count. |
| Masks.BitsOfU32 | src/kernel/osdmap.c:17-25 | A 32-bit value has at most 32 significant bits. |
| Masks.BitsOfExamples | src/kernel/osdmap.c:17-25 | bits(0) = 0, bits(1) = 1, bits(7) = 3, bits(8) = 4. |
| Masks.PgMask | src/kernel/osdmap.c:27-36 | The mask for `num` is at least `num - 1` (wrapped to 32 bits), so every index below `num` survives masking. |
| Masks.PgMaskSmallest | src/kernel/osdmap.c:27-36 | The mask for `num` is at least `num - 1` (wrapped to 32 bits) and below 2^32. No smaller value of the form 2^n - 1 is at least `num - 1`. |
| Masks.PgMaskExamples | src/kernel/osdmap.c:30-36 | pg_num 8 gives mask 7, 1 gives 0, 9 gives 15. |
| Crush.ParsePayload | src/kernel/osdmap.c:41-114 | A bucket helper succeeds exactly when its one need check passes; otherwise -EINVAL. On success the payload is the variant its algorithm selects, with `size` entries per array, and the cursor is just past them. |
| Crush.ParseBucketSlot | src/kernel/osdmap.c:157-235 | A slot is empty exactly when its tag is 0. A nonzero tag outside the four algorithms is -EINVAL. A present bucket has a known outer tag and exactly `size` items. Its payload is the one its inner 16-bit `alg` selects, one entry per item. |
| Crush.ParseBucketSlots | src/kernel/osdmap.c:157-235 | The bucket loop yields exactly `n` slots or -EINVAL. |
| Crush.Steps | src/kernel/osdmap.c:266-270 | `n` steps, step `j` being the (op, arg1, arg2) words at 12 * j. |
| Crush.ParseRuleSlot | src/kernel/osdmap.c:239-271 | Corrected step check (Finding 2). A slot is empty exactly when its flag is 0. A present rule has a 4-byte mask and exactly `len` steps, and the cursor ends 12 + 12 * len bytes on. Any short read is -EINVAL. |
| Crush.ParseRuleSlots | src/kernel/osdmap.c:239-271 | The rule loop yields exactly `n` slots or -EINVAL. |
| Crush.ParseCrushTo | src/kernel/osdmap.c:116-284 | Every failure of the blob decode is -EINVAL. |
| Crush.ParseCrush | src/kernel/osdmap.c:116-284 | Corrected error code (Finding 1): every failure is -EINVAL, where the code as written can return NULL. A wrong magic is -EINVAL. A decoded map has the magic and the valid shape: `max_buckets` bucket slots, `max_rules` rule slots, every present bucket with one payload entry per item. No partial map is ever returned. |
| Crush.BucketSlotsShape | src/kernel/osdmap.c:157-235 | Every present bucket the loop decodes is shaped. |
| Crush.RuleSlotsShape | src/kernel/osdmap.c:239-271 | Every present rule the loop decodes has a 4-byte mask. |
| Crush.CrushShape | src/kernel/osdmap.c:116-284 | A blob that decodes gives a map of valid shape. |
| Crush.BucketSlotsFailFrom | src/kernel/osdmap.c:162-233 | One failing bucket slot fails the whole bucket loop (`goto bad`). |
| Crush.RuleSlotsFailFrom | src/kernel/osdmap.c:243-265 | One failing rule slot fails the whole rule loop. |
| Crush.ParseCrushAsWritten | src/kernel/osdmap.c:116-284 | `crush_decode` as written: the corrected decode's map wherever that succeeds, -EINVAL or NULL where it fails, and NULL only there. |
| Crush.StepsNeedAsWritten | src/kernel/osdmap.c:265 | The step-count check as written, with `3 * len` wrapped to 32 bits. Where `3 * len` does not wrap it agrees with the corrected check. |
| Crush.CrushNullOnLateError | src/kernel/osdmap.c:118-284 | Finding 1: for a concrete blob whose rule table is cut short, the corrected decode fails, but the code as written returns a null map rather than an error. |
| Crush.RuleStepsOverrun | src/kernel/osdmap.c:255-270 | Finding 2: a 20-byte rule slot announcing 0x55555556 steps passes the need check as written, because 3 * len wraps in 32 bits. The corrected check rejects it. |
| Crush.AtPayload | src/kernel/osdmap.c:41-114 | Decoding an encoded payload gives it back, with the cursor just past it. |
| Crush.AtBucketSlot | src/kernel/osdmap.c:157-235 | Decoding an encoded bucket slot, present or empty, gives it back, with the cursor just past it. |
| Crush.AtSteps | src/kernel/osdmap.c:266-270 | Decoding encoded steps gives them back. |
| Crush.AtRuleSlot | src/kernel/osdmap.c:239-271 | Decoding an encoded rule slot, present or empty, gives it back, with the cursor just past it. |
| CrushDecoder.DecodeUniform | src/kernel/osdmap.c:41-56 | The primes loop and the item weight compute exactly the uniform case of `ParsePayload`. |
| CrushDecoder.DecodeList | src/kernel/osdmap.c:58-77 | The pair loop computes exactly the list case of `ParsePayload`. |
| CrushDecoder.DecodeTree | src/kernel/osdmap.c:79-93 | The node-weight loop computes exactly the tree case of `ParsePayload`. |
| CrushDecoder.DecodeStraw | src/kernel/osdmap.c:95-114 | The pair loop computes exactly the straw case of `ParsePayload`. |
| CrushDecoder.DecodeBucket | src/kernel/osdmap.c:158-235 | One bucket iteration computes exactly `ParseBucketSlot`. |
| CrushDecoder.DecodeRule | src/kernel/osdmap.c:240-271 | One rule iteration computes exactly `ParseRuleSlot`. |
| CrushDecoder.DecodeBuckets | src/kernel/osdmap.c:157-235 | The bucket loop fills its table to exactly `ParseBucketSlots`. |
| CrushDecoder.DecodeRules | src/kernel/osdmap.c:239-271 | The rule loop fills its table to exactly `ParseRuleSlots`. |
| CrushDecoder.DecodeCrush | src/kernel/osdmap.c:116-284 | The decode loops return exactly `ParseCrush`: a complete map or -EINVAL, with Findings 1 and 2 corrected. |
| OsdMapSpec.EmptyMap | src/kernel/osdmap.c:350-352 | A freshly zeroed map has no OSDs and no CRUSH map. |
| OsdMapSpec.UpBits | src/kernel/osdmap.c:515-527 | Setting the UP bit makes the OSD up, clearing it makes it down, and no other bit of the state byte moves. |
| OsdMapSpec.WithMasks | src/kernel/osdmap.c:30-36 | `calc_pg_masks` changes only the four masks, and each mask is at least its count minus one. |
| OsdMapSpec.Resize | src/kernel/osdmap.c:304-335 | Corrected copy (Finding 3). A successful resize leaves three arrays of length `max`. |
| OsdMapSpec.ResizeSpec | src/kernel/osdmap.c:304-335 | Corrected copy (Finding 3): min(old `max_osd`, `max`) entries. The resize fails, with -ENOMEM, exactly when allocation fails. On success the arrays have length `max`, entries below the old `max_osd` keep index and value, new entries are zero, and nothing else changes. |
| OsdMapSpec.CopyAsWritten | src/kernel/osdmap.c:321-324 | The copy as written is possible exactly when the map does not shrink. It then keeps every old entry in place, in arrays of length `max`. |
| OsdMapSpec.ShrinkOverrun | src/kernel/osdmap.c:321-324 | Finding 3: shrinking from three OSDs to two, the copy as written overruns the new arrays. The corrected copy keeps the two surviving entries. |
| OsdMapSpec.CopyAsWrittenAgrees | src/kernel/osdmap.c:321-324 | When the map does not shrink, the copy as written and the corrected copy agree. |
| OsdMapSpec.HeaderFields | src/kernel/osdmap.c:354-368 | The fixed header gives a map with no OSDs and no CRUSH map, and with the epoch, pg_num and flags at their offsets. |
| OsdMapSpec.ParseHeader | src/kernel/osdmap.c:354-370 | The header with its masks: no OSDs, no CRUSH map, and each mask at least its count minus one. |
| OsdMapSpec.MaxField | src/kernel/osdmap.c:373 | `max` is the word at `p + 60` when present. When the word lies past the end, the need check at :381-383 rejects the value the model takes. |
| OsdMapSpec.Addrs | src/kernel/osdmap.c:393-394 | `n` addresses: address `i` is the 24 bytes at `i * 24`. |
| OsdMapSpec.ParseCrushSection | src/kernel/osdmap.c:396-407 | The CRUSH section fails with -EINVAL unless its length word and its `len` bytes are present. It then decodes from the blob's start to the end of the whole buffer. |
| OsdMapSpec.FillArrays | src/kernel/osdmap.c:383-394 | Filling the per-OSD section keeps the arrays shaped and at their length. |
| OsdMapSpec.ParseOsds | src/kernel/osdmap.c:352-394 | A decoded map up to the CRUSH section has a complete header, `max`, and the per-OSD section. It has exactly `max` OSDs and no CRUSH map yet. |
| OsdMapSpec.ParseOsdMap | src/kernel/osdmap.c:340-419 | A decoded full map has exactly `max` OSDs, the whole per-OSD section, and a CRUSH map. The copy in the resize and the CRUSH decode are the corrected ones (Findings 1 and 3). |
| OsdMapSpec.ParseOsdMapFields | src/kernel/osdmap.c:354-401 | A decoded map has these properties: (1) every header field (fsid, epoch, ctime, mtime, the four counts, last_pg_change, flags) read from its offset; (2) the four masks that follow from the counts; (3) state byte `i`, weight `i` and address `i` read from their places in the per-OSD section; (4) the CRUSH map decoded right after that section. |
| OsdMapSpec.ParseOsdMapErrors | src/kernel/osdmap.c:340-419 | Every failure is -EINVAL or -ENOMEM. A short header is -EINVAL. A failed allocation, or `max` above INT_MAX, is -ENOMEM. |
| IncrementalSpec.Ups | src/kernel/osdmap.c:506-517 | The up loop keeps the arrays shaped and at their length. |
| IncrementalSpec.UpsEffect | src/kernel/osdmap.c:505-517 | A complete up list does the following: (1) marks up exactly the listed OSDs; (2) moves no other state bit; (3) gives each listed OSD the address of the last entry naming it; (4) leaves unlisted OSDs' state and address untouched; (5) touches only state and addresses; (6) names only OSDs below `max_osd`, since any other is a BUG. |
| IncrementalSpec.UpsFrame | src/kernel/osdmap.c:505-517 | Even when it fails, the up loop touches only the state and address arrays. |
| IncrementalSpec.Downs | src/kernel/osdmap.c:519-530 | The down loop keeps the arrays shaped and at their length. |
| IncrementalSpec.DownsEffect | src/kernel/osdmap.c:519-530 | The down loop touches only the state array. Its mark-down events are the addresses of the listed in-range OSDs, in list order, also when it fails. A complete list clears the UP bit of exactly the listed in-range OSDs and no other bit. |
| IncrementalSpec.Weights | src/kernel/osdmap.c:532-544 | The weight loop changes nothing but the weight array, keeps its length, and marks nothing down. |
| IncrementalSpec.WeightsEffect | src/kernel/osdmap.c:532-544 | The weight loop changes only the weights of listed OSDs. Each listed in-range OSD gets the weight of the last entry naming it, also when the loop stops at an entry cut short. |
| IncrementalSpec.ApplyLists | src/kernel/osdmap.c:505-544 | The three change lists either succeed, updating this map in place, or fail with an error. |
| IncrementalSpec.BlockUpdate | src/kernel/osdmap.c:482-503 | Only the four counts, the epoch and the CRUSH map change. The epoch always changes, a nonzero count stays nonzero, and a CRUSH map, once present, stays. |
| IncrementalSpec.ApplyBlock | src/kernel/osdmap.c:470-544 | The block after the CRUSH section either succeeds, updating this map in place, or fails with an error. |
| IncrementalSpec.DiffBlob | src/kernel/osdmap.c:461-468 | A new CRUSH blob decodes from its own span only when its length is nonzero, to a map of valid shape, and fails only with -EINVAL. |
| IncrementalSpec.ApplyDiff | src/kernel/osdmap.c:460-544 | A diff either succeeds, updating this map in place, or fails with an error. `advance` false is the code as written (Finding 4); true is the corrected cursor. |
| IncrementalSpec.FullMap | src/kernel/osdmap.c:451-458 | A full map decoded from its own span has shaped arrays and a CRUSH map. It fails only with -EINVAL or -ENOMEM. |
| IncrementalSpec.ApplyPayload | src/kernel/osdmap.c:451-553 | A nonzero full-map length leaves the caller's map untouched, and a success then returns a replacement map. A zero length applies the diff in place, with the corrected cursor (Finding 4). |
| IncrementalSpec.ApplySpec | src/kernel/osdmap.c:424-556 | A success needs a complete header whose epoch is the map's plus one. A returned full map leaves the caller's map untouched and marks nothing down. The diff path uses the corrected cursor (Finding 4). |
| IncrementalSpec.ListsFrame | src/kernel/osdmap.c:505-544 | The change lists keep the map shaped and at its size, and change nothing but the per-OSD arrays. |
| IncrementalSpec.ApplyHeader | src/kernel/osdmap.c:439-446 | A short header is -EINVAL. An epoch other than the map's plus one is a BUG. In both cases the map is untouched. |
| IncrementalSpec.ApplyFullMap | src/kernel/osdmap.c:451-458 | A nonzero full-map length returns the decode of exactly that span, or its error. The caller's map is untouched. |
| IncrementalSpec.ApplyBlockFields | src/kernel/osdmap.c:470-503 | An applied block has the following effects: (1) the epoch goes up by exactly one; (2) the flags are replaced only by a non-negative value; (3) `max_osd` is replaced only by a non-negative `max`; (4) each pg count is replaced only by a nonzero field; (5) the CRUSH map is replaced only by a newly decoded one; (6) fsid, times, last_pg_change and the masks stay. |
| IncrementalSpec.DiffIsBlock | src/kernel/osdmap.c:460-474 | A diff that applies is the block read right after the CRUSH section, with the decoded map when its length is nonzero. |
| IncrementalSpec.ApplyNotAtomic | src/kernel/osdmap.c:470-474 | A diff whose 20-byte block is cut short fails with -EINVAL, yet the new flags are already in the map. |
| IncrementalSpec.DiffBlobMagic | src/kernel/osdmap.c:461-468 | A new CRUSH blob that decodes starts with the CRUSH magic, right after its length word. |
| IncrementalSpec.CrushCursorNotAdvanced | src/kernel/osdmap.c:461-479 | Finding 4: with the cursor not advanced past the blob, every diff that carries a CRUSH map and applies leaves `max_osd` = 0x10000, the blob's magic. |
| IncrementalSpec.CrushCursorAdvanced | src/kernel/osdmap.c:461-479 | With the cursor advanced, `max_osd` comes from the word after the blob: a non-negative value is the new size, -1 keeps the old one. |
| IncrementalSpec.BlockSize | src/kernel/osdmap.c:474-482 | An applied block leaves the arrays at its `max` when that is non-negative, and at the old size otherwise. |
| OsdMaps.PgMaskOf | src/kernel/osdmap.c:32-35 | `(1 << calc_bits_of(num - 1)) - 1` equals `PgMask(num)`, is at least `num - 1`, and is below 2^32. |
| OsdMaps.Reallocated | src/kernel/osdmap.c:310-324 | A fresh zeroed array of `max` entries with the surviving entries copied in. |
| OsdMaps.DecodeCrushSection | src/kernel/osdmap.c:396-407 | The CRUSH section of a full map, decoded exactly as `ParseCrushSection`. |
| OsdMaps.OsdMap.constructor | src/kernel/osdmap.c:350-352 | A zeroed map holding the given scalar fields and no OSDs. |
| OsdMaps.OsdMap.CalcPgMasks | src/kernel/osdmap.c:30-36 | Sets the four masks from the four counts and changes nothing else. |
| OsdMaps.OsdMap.SetMaxOsd | src/kernel/osdmap.c:304-335 | Corrected copy (Finding 3). Succeeds exactly when `Resize` does, leaving the map equal to it in fresh arrays. Otherwise it is -ENOMEM and the object is unchanged. |
| OsdMaps.OsdMap.DecodeStates | src/kernel/osdmap.c:386-387 | The state array becomes the `max_osd` bytes at the cursor. Nothing else changes. |
| OsdMaps.OsdMap.DecodeWeights | src/kernel/osdmap.c:389-391 | The weight array becomes the `max_osd` words at the cursor. Nothing else changes. |
| OsdMaps.OsdMap.DecodeAddrs | src/kernel/osdmap.c:393-394 | The address array becomes the `max_osd` addresses at the cursor. Nothing else changes. |
| OsdMaps.OsdMap.NewMap | src/kernel/osdmap.c:350-378 | A fresh map holding the header and its masks, resized to `max`, or -ENOMEM. |
| OsdMaps.OsdMap.DecodeArrays | src/kernel/osdmap.c:383-394 | The per-OSD section, its three length words skipped, fills the arrays as `FillArrays`. |
| OsdMaps.OsdMap.DecodeOsdSection | src/kernel/osdmap.c:340-394 | Decodes up to the CRUSH section exactly as `ParseOsds`, error for error. |
| OsdMaps.OsdMap.Decode | src/kernel/osdmap.c:340-419 | With Findings 1 and 3 corrected, `osdmap_decode` returns a fresh map equal to `ParseOsdMap`, or that function's error. |
| OsdMaps.OsdMap.SetCrush | src/kernel/osdmap.c:401-407 | Installs the decoded CRUSH map and changes nothing else. |
| OsdMaps.OsdMap.MarkUp | src/kernel/osdmap.c:505-517 | The up loop leaves the map and the cursor as `Ups` says. |
| OsdMaps.OsdMap.MarkDown | src/kernel/osdmap.c:519-530 | The down loop leaves the map, the cursor and the mark-down events as `Downs` says. |
| OsdMaps.OsdMap.SetWeights | src/kernel/osdmap.c:532-544 | The weight loop leaves the map and the cursor as `Weights` says. |
| OsdMaps.OsdMap.ApplyChangeLists | src/kernel/osdmap.c:505-544 | The three lists leave the map, result and events as `ApplyLists` says. |
| OsdMaps.OsdMap.SetCounts | src/kernel/osdmap.c:483-494 | Each nonzero count replaces the current one. Nothing else changes. |
| OsdMaps.OsdMap.NextEpoch | src/kernel/osdmap.c:496-503 | The epoch goes up by one, mod 2^32. A new CRUSH map, if any, replaces the old one. |
| OsdMaps.OsdMap.UpdateCounts | src/kernel/osdmap.c:483-503 | Counts, epoch and CRUSH map as `BlockUpdate` says. |
| OsdMaps.OsdMap.ApplyDiffBlock | src/kernel/osdmap.c:470-544 | Flags, resize, counts, epoch, CRUSH map and the change lists as `ApplyBlock` says. |
| OsdMaps.OsdMap.ApplyDiffWith | src/kernel/osdmap.c:460-544 | Given what the CRUSH section decodes to, the diff leaves everything as `ApplyDiff` says with the corrected cursor (Finding 4). |
| OsdMaps.OsdMap.ApplyDiffInPlace | src/kernel/osdmap.c:460-544 | Decodes the new CRUSH blob from its own bytes, then applies the diff as `ApplyDiff` says with the corrected cursor (Finding 4). |
| OsdMaps.OsdMap.DecodeFullMap | src/kernel/osdmap.c:452-457 | Decodes the full map from exactly its span, as `FullMap`, error for error (Findings 1 and 3 corrected). |
| OsdMaps.OsdMap.ApplyPayloadInPlace | src/kernel/osdmap.c:451-553 | Returns the full map, or applies the diff to this map, as `ApplyPayload` says (Finding 4 corrected). |
| OsdMaps.OsdMap.ApplyIncremental | src/kernel/osdmap.c:424-556 | With Findings 1, 3 and 4 corrected, `apply_incremental` leaves this map and the mark-down events exactly as `ApplySpec` says. It returns this map, a fresh map equal to the decoded full map, or the same error. |
| Placement.SuPerObject | src/kernel/osdmap.c:583 | At least one stripe unit fits in an object. |
| Placement.MapAsWritten | src/kernel/osdmap.c:569-607 | As written: `oxoff < su`, `oxoff + oxlen <= su`, the new `*plen` equals `oxlen`, which is at most the old one and nonzero for a nonempty range. |
| Placement.FileObjectMapping | src/kernel/osdmap.c:569-607 | Corrected mapping. The object number and length are those of the code; the object offset agrees with `off` modulo the stripe unit; the extent lies inside the object. |
| Placement.MappingRoundTrip | src/kernel/osdmap.c:583-604 | The file offset is recovered from the object number and the corrected object offset whenever `off / su` fits in 32 bits. |
| Placement.MappingInjective | src/kernel/osdmap.c:583-604 | Distinct offsets map to distinct object bytes. |
| Placement.StripeUnitsCollide | src/kernel/osdmap.c:601-602 | Finding 5: with two stripe units per object, offsets 0 and 4096 get the same object byte as written. The corrected mapping puts the second at offset 4096. |
| Placement.MapAtZero | src/kernel/osdmap.c:589-604 | Offset 0 with `plen >= su` gives object 0, offset 0, length `su`. |
| Placement.ChosenCount | src/kernel/osdmap.c:624-630 | A non-negative preferred OSD selects `lpg_num` and its mask, otherwise `pg_num` and its mask. |
| Placement.CalcObjectLayout | src/kernel/osdmap.c:613-641 | The seed `ps` is `bno + hash(low32(ino), high32(ino))` mod 2^32. preferred, type, size and pool come from the file layout, and the stripe unit from `fl_object_stripe_unit`. |
| Placement.LayoutIgnoresMap | src/kernel/osdmap.c:624-639 | The layout does not depend on the map: the chosen count and mask are never used. |
| Placement.ConsecutiveSeeds | src/kernel/osdmap.c:633 | Object `bno + k` of a file gets seed `ps + k`, mod 2^32. |
| Block.RawSize | src/crimson/os/seastore/segment_manager/block.h:39-41 | `get_raw_size` is a multiple of the block size, at least `segments`, and less than one block more. |
| Block.RawSizeSmallest | src/crimson/os/seastore/segment_manager/block.h:39-41 | No smaller multiple of the block size holds `segments`. |
| Block.RawSizeIdempotent | src/crimson/os/seastore/segment_manager/block.h:39-41 | Rounding an already rounded size changes nothing. |
| Block.SegmentStateTracker.constructor | src/crimson/os/seastore/segment_manager/block.h:43-52 | The buffer has the raw size, with size = capacity, and every byte EMPTY. |
| Block.SegmentStateTracker.GetSize | src/crimson/os/seastore/segment_manager/block.h:54-56 | The size is the buffer length. |
| Block.SegmentStateTracker.GetCapacity | src/crimson/os/seastore/segment_manager/block.h:58-60 | The capacity is the buffer length. |
| Block.SegmentStateTracker.Get | src/crimson/os/seastore/segment_manager/block.h:62-67 | Requires `offset < capacity`. Returns that segment's byte. |
| Block.SegmentStateTracker.Set | src/crimson/os/seastore/segment_manager/block.h:69-73 | Requires `offset < capacity`. Stores the state at `offset`; every other byte keeps its value. |
| Block.SetThenGet | src/crimson/os/seastore/segment_manager/block.h:62-73 | After `set(o, s)`, `get(o)` is `s` and another offset keeps its old state. |
| Block.GetOffset | src/crimson/os/seastore/segment_manager/block.h:208-212 | first_segment_offset + device_segment_id * segment_size + offset, exactly when the sum fits in 64 bits, and wrapped otherwise. |
| Block.GetOffsetInverse | src/crimson/os/seastore/segment_manager/block.h:208-212 | For an offset inside its segment, the device offset determines the segment and the offset inside it. |
| Block.Effort.constructor | src/crimson/os/seastore/segment_manager/block.h:168-170 | Both counters start at zero. |
| Block.Effort.Increment | src/crimson/os/seastore/segment_manager/block.h:172-175 | `num` goes up by one and `bytes` by the given count, both mod 2^64. |
| Block.Effort.Clear | src/crimson/os/seastore/segment_manager/block.h:188-190 | Assigning `{}` zeroes both counters. |
| Block.IncrementExact | src/crimson/os/seastore/segment_manager/block.h:172-175 | Below 2^64, an increment adds exactly one and exactly `n`. |
| Block.Stats.constructor | src/crimson/os/seastore/segment_manager/block.h:178-185 | The three efforts start at zero and the four counters at the given values. |
| Block.Stats.Reset | src/crimson/os/seastore/segment_manager/block.h:187-195 | All three efforts and all four segment counters become zero. |

## Left out

- Logging (`dout`, `derr`, `ceph_debug_osdmap`) has no effect on results and is not modelled.
- Deallocation (`crush_destroy`, `osdmap_destroy`, `kfree`) is not modelled; memory is garbage collected. Because no partial map is ever returned, the source's release of a partial map on error is captured.
- Allocation failure is modelled only for `osdmap_set_max_osd`, through the `allocOk` parameter. The `kzalloc` of the map itself (osdmap.c:350) and the `kmalloc`/`kzalloc` calls inside `crush_decode` and its bucket helpers always succeed in the model.
- Crush.ParsePayload: checks the payload length without wrap-around. The source computes `1 + size` (uniform) and `2 * size` (list, straw) in 32 bits. Those wrap only when `size` is at least 2^31, and such a bucket must first have passed the item-array check at osdmap.c:205 with at least 8 GiB of items.
- `ceph_messenger_mark_down` (osdmap.c:528) is a network call. It is modelled as the returned sequence `downs` of marked-down addresses, in order.
- `crush_hash32_2` is not part of this model. `CalcObjectLayout` takes it as a function parameter `hash`.
- The bit packing of `union ceph_pg` and the layout of `ceph_entity_addr` are not part of this model. The pgid is a record, and an address is an opaque 24-byte record.
- The decode macros are modelled as bounds-checked little-endian reads. `le32_to_cpu` and `cpu_to_le64` are the identity on values.
- How far the caller's cursor `*p` has moved when a decode fails is not modelled. Success always ends with `*p = end`, which is not modelled either.
- Masks.PgMask: for `pg_num = 0`, `pg_num - 1` wraps and the source shifts by 32, which is undefined in C. The model gives 2^32 - 1.
- The comment on `calc_pg_masks` (osdmap.c:28) promises a mask at least `foo`. The code gives one at least `foo - 1`, and the model follows the code.
- OsdMapSpec.MaxField: `osdmap_decode` reads `max` (osdmap.c:373) without a bounds check, and passes it to `osdmap_set_max_osd` (:376) before the need check at :381-383. When that word lies past the end, the source's result depends on the bytes there: -EINVAL, or -ENOMEM if they give a value above INT_MAX or too large to allocate. The model reads 0 and gives -EINVAL, or -ENOMEM only through `allocOk`.
- A `max` above INT_MAX is negative as the `int` parameter of `osdmap_set_max_osd`. The model reports -ENOMEM, as the failing allocation does.
- The unchecked `(*p)++` over the down-list flag byte (osdmap.c:524) is reproduced: the cursor may pass the end, and the next read fails its check.
- The CRUSH blob of a full map is decoded up to the end of the whole buffer, not of its length (osdmap.c:401). This is reproduced in `ParseCrushSection`.
- The payload of a bucket is selected by the inner 16-bit `alg` field (osdmap.c:209), with no default case. This is reproduced: an unknown inner tag gives `NoPayload` and no error.
- The decoded ctime of an incremental is never stored (osdmap.c:497 assigns `map->ctime` to itself), so the model does not read it into the map.
- `apply_incremental` does not recompute the pg masks after changing the counts, and neither does the model (`ApplyBlockFields` states that the masks stay).
- `apply_incremental` is not atomic. Changes made before a later failure stay in the map, and the model returns the map as it stands (`ApplyNotAtomic`, `ListsFrame`).
- The `BUG_ON` checks at osdmap.c:446 and :514 are modelled as the error `Bug` with the map as it stands. The `BUG_ON` at :587 becomes the precondition `ValidLayout`, which also excludes the divisions by zero that a zero stripe unit, stripe count or `su_per_object` would cause.
- Placement.MappingRoundTrip: holds only when `off / su` fits in 32 bits, since the source truncates the block number to 32 bits.
- Block.RawSize: does not model a `size_t` overflow of the rounding, and requires a power-of-two block size as `p2roundup` does.
- Block.GetOffset: the segment offset and the superblock fields are non-negative; a negative `segment_off_t` is not modelled.
- Block.SegmentStateTracker.Get: the `assert` on the offset is a precondition.
- `segment_state_t` values are bytes; the enumeration itself is not part of this model.
- `SegmentStateTracker::write_out`/`read_in` are not modelled; they are asynchronous device I/O.
- The rest of `BlockSegment` and `BlockSegmentManager` is not modelled: mount, mkfs, open, release, read, segment_write, segment_close, close, metrics registration, Seastar futures and `seastar::file`. All of it is asynchronous device I/O whose bodies are not in this file.
- The CRUSH traversal that selects devices is not in these files and is not modelled.
- `CrushMap` has no `device_parents` or `bucket_parents`. `crush_decode` allocates both (osdmap.c:142-147) but never fills them, so they carry no decoded data.
- Crush.ParseCrush: returns -EINVAL on every failure, the corrected behaviour of Finding 1. `crush_decode` as written can return NULL instead; that is `Crush.ParseCrushAsWritten`. `CrushDecoder.DecodeCrush`, `OsdMapSpec.ParseOsdMap`, `OsdMaps.OsdMap.Decode` and the incremental's CRUSH section build on the corrected decode, so the model does not capture a full map returned with no CRUSH map, or an incremental keeping the old one, after a NULL result.
- Crush.ParseRuleSlot: checks 12 * len bytes without wrap-around, the corrected check of Finding 2. The check as written is `Crush.StepsNeedAsWritten`.
- OsdMapSpec.Resize: copies min(old `max_osd`, `max`) entries, the corrected copy of Finding 3. The copy as written, which overruns when shrinking, is `OsdMapSpec.CopyAsWritten`. `OsdMaps.OsdMap.SetMaxOsd` and every decode and apply that resizes use the corrected copy.
- IncrementalSpec.ApplySpec: the diff path moves the cursor past a new CRUSH blob, the correction of Finding 4 (`ApplyDiff(…, true)`). The code as written is `IncrementalSpec.ApplyDiff(…, false)`. `ApplyPayload`, `OsdMaps.OsdMap.ApplyDiffWith`, `ApplyDiffInPlace`, `ApplyPayloadInPlace` and `ApplyIncremental` use the corrected cursor too.

## Findings

| source | as written | input that shows it | evidently intended | confidence | as-written member | corrected member |
|---|---|---|---|---|---|---|
| src/kernel/osdmap.c:118-284 | `err` starts as -EINVAL but is overwritten with 0 by each successful bucket helper, and the later `goto bad` paths return `ERR_PTR(err)`. A failure after such a bucket returns `ERR_PTR(0)`, that is, NULL, which `IS_ERR` does not catch. | A blob announcing one tree bucket of size 0 and one rule, and ending where the rule slot should be (`LateErrorBlob`). | Return -EINVAL for every failed need check. | not executed | Crush.CrushNullOnLateError | Crush.ParseCrush |
| src/kernel/osdmap.c:265 | The need check multiplies the 32-bit `r->len` by 3 in 32 bits, so a large step count wraps to a small need. | A rule slot with `len` = 0x55555556 in a 20-byte buffer: the check passes and the loop reads 0x55555556 steps, provided the rule's `kmalloc` of about 16 GiB succeeds. | Check 12 * len bytes without wrap-around. | not executed | Crush.RuleStepsOverrun | Crush.ParseRuleSlot |
| src/kernel/osdmap.c:321-324 | When shrinking, `memcpy` copies the old `max_osd` entries into arrays of only `max` entries. | Resize a map with three OSDs to two. | Copy min(old max_osd, max) entries. | not executed | OsdMapSpec.ShrinkOverrun | OsdMapSpec.ResizeSpec |
| src/kernel/osdmap.c:465 | After decoding a new CRUSH blob, the cursor is not advanced past it. The 20-byte block and the change lists are read from the blob's first byte. | Any diff with a nonzero CRUSH length that applies: the blob's magic 0x00010000 becomes `max_osd`. | Advance the cursor by the blob's length (`*p += len`). | not executed | IncrementalSpec.CrushCursorNotAdvanced | IncrementalSpec.CrushCursorAdvanced |
| src/kernel/osdmap.c:601-602 | The object offset is `off % su`, the offset inside the stripe unit, so different stripe units of one object share object bytes. | Object size 8192, stripe unit 4096, stripe count 1: offsets 0 and 4096 both map to object 0, offset 0. | Add `(stripeno % su_per_object) * su` to the offset. | not executed | Placement.StripeUnitsCollide | Placement.MappingRoundTrip |
