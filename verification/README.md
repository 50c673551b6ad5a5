# Virtual Hard Disk engine: a Dafny model

This project models the sparse image engine of a VHD (Virtual Hard Disk) reader and writer
and proves that it behaves as one flat disk, whatever the device does to it.

A VHD image is a file with a 512-byte footer at its end. A dynamic image also has a copy of
that footer at offset 0 (the mirror), a 1024-byte header, and a block allocation table (BAT)
whose entries name blocks: a sector bitmap followed by data. A clear bitmap bit means that the
sector reads as whatever lies under the image, zero or the parent.

## What is modelled

- `Devices`: a growable byte string behind an `Environment` that decides, operation by
  operation, whether it succeeds, is refused after letting any prefix of its bytes land, or is
  the last one before the machine stops. A statement about an arbitrary environment is a
  statement about every fault and every crash point. Ghost fields record what the last
  completed flush secured and every contents the device has had.
- `Format`, `Footers`, `DynamicHeaders`: the checksum, the footer and the header, parsed and
  composed in place.
- `Geometry`: the cylinder/head/sector ladder and the search that rounds a request up.
- `Blocks`, `Disks`: bitmaps, the flat disk that a device and a table describe, and the
  invariant `Inv` of a dynamic image: blocks pairwise disjoint, above the metadata and below
  the tail, the cached table equal to the device's one except where a BAT write landed
  unacknowledged, and then on a blank block.
- `Acceptance`, `Images`, `Opening`: the BAT walk, the sort, the locator search, the choice of
  footer, the parent chain.
- `Publishing`, `Steps`: what one device operation of the write path may change.
- `Landing`: what a write, whole or cut short, leaves on the device itself, hidden bytes
  included, and which blocks it must allocate.
- `Cuts`: images whose device ends at the tail, with no room for a footer, and what steps make
  of them.
- `Readers`: `VhdReader` with its cached table and tail, reading, allocating and writing.
- `Chains`: differencing chains as values, and their flattening.
- `Published`: the format a second time, as its specification publishes it, with every offset,
  wire number and bit written out: what a footer, a header, a name, a table entry, a block and a
  believable image are.
- `Names`: which UTF-16 units spell a file name. `Resolution`: what opens, why not, and which
  byte of which file a read returns, in the terms of `Published`.
- `Runs`: any sequence of writes and restarts with faults. `Writers`: interleaved writers.
- `Creation`, `Recovery`: creating fixed and dynamic images, and reopening and writing one whose footer was
  cut off.

## Main results

1. A `write_at` to a dynamic image that reports success changes the flat disk by exactly one
   splice and its effect is on stable storage; one that fails, or is cut short at any device
   operation and any byte, changes nothing outside its range and leaves every byte inside old
   or new (`Readers.VhdReader.WriteAt`).
2. For any events, writes and restarts, with any faults, on any handle ready to be written: every
   byte at the end is the one some write put there, with every later write of it reported to the
   caller as failed, or the byte it had at the start; no range named by the device's table or by
   the cache is handed out again between any two points of the run; a write inside the disk with
   no operation of its own struck succeeds if and only if the table, as it was before that
   write, can name the blocks it must add (`Runs.Run`). A recoverable image stays so, and each of
   the states on the way reopens, from the tail or from the mirror, as the same disk
   (`Images.RecoverableReopens`); an image cut by its footer stays cut or becomes recoverable
   (`Cuts.KeepsRooted`). A run ends early only at a restart whose open was struck, or on an image
   with no way back: one that was never recoverable or cut, or one still cut and never grown
   whose last sector begins with the cookie.
3. `read_at`, which walks runs of sectors block by block through a chain of parents, returns
   byte by byte the first image, leaf first, that holds the sector (`Readers.VhdReader.ReadAt`
   with `Chains.ChainIsFlattened`).
4. Opening accepts a table if and only if all its blocks lie in the data area and are pairwise
   disjoint, and a locator if and only if its payload meets nothing (`Opening.Believe`); what it
   accepts is exactly what writing relies on, provided the tail is above the metadata
   (`Images.AcceptanceEstablishesInv`), which holds if and only if some block is allocated or
   a footer's room is left past the metadata (`Images.TailAboveMetadata`).
5. Any interleaving of the locked chunks of writers on disjoint ranges keeps the structure and
   loses nothing; with a turn for every block each range reaches and no operation struck, all
   writers finish if and only if the table can name the blocks they need, and then the disk is the one
   that applying the writes in order gives, each needed block allocated once
   (`Writers.Interleave`).
6. Creation accepts exactly the stated requests (`Creation.AcceptsAsPublished`), and the image it
   makes carries the time, the creator, the id and a geometry of the specification's ladder in
   its published places, opens, reads zero and satisfies the invariant of the write path
   (`Creation.CreateDynamic`, `Creation.CreateFixed`, `Geometry.LadderIsUnique`).
7. An image cut by its footer whose last block ends the device reopens as itself if and only if
   its last sector does not begin with the footer's cookie (`Cuts.CutReopens`), and then nothing
   is lost (`Cuts.CutRecovers`). A write to it, however it ends (done, failed or cut short by a
   crash at any byte of any operation), leaves an image that reopens as itself if and only if the
   device has grown, which an allocation does first, or the last sector does not then begin with
   the cookie. A caller can rule that out beforehand, from the old contents and the payload: if
   the cookie is nowhere on the way of the write, the image reopens whatever happens. For a write
   inside that block the condition is exact: the cookie is on the way if and only if the write,
   cut short somewhere, leaves it there (`Recovery.CookieOnTheWayIsExact`). Once the write is
   done, its own range and payload decide (`Recovery.WriteToCut`).
8. A crash right after the growth of any image in order, whichever footer it was opened from, is
   survived if and only if the mirror parses as a sparse footer and leads back to the same
   layout (`Cuts.GrownReopens`).
9. The code agrees with the format as published, both ways: 512 bytes parse as a footer to given
   fields if and only if they are that footer (`Published.FooterAsPublished`), 1,024 bytes as a
   header, parent name and locators included, if and only if they are that header
   (`Published.HeaderAsPublished`), and a sparse image is believed if and only if its file
   satisfies the published conditions (`Published.AcceptedAsPublished`).
10. Every file that ends in a fixed image's footer opens; a dynamic image opens if and only if it
   is believable; a believable child opens if and only if the sibling it names in UTF-16 is a
   file name, is there, opens one level further down and has the id it names
   (`Resolution.FixedOpens`, `Resolution.DynamicOpens`, `Resolution.DifferencingOpens`). Opening
   a file and reading from it returns the bytes that the files hold by the published rules,
   through the whole chain, and with nothing failing it returns them for every range of a disk
   whose root is not shorter than it says; what does not open is refused for the first check
   that fails (`Resolution.OpenAndRead`).

## Where the code and its documentation disagree

The model follows the code.

- The documentation of `size_with_exact_geometry` (src/footer_build.rs:199-200) says that
  rounding makes size and geometry agree by construction. They disagree on eleven windows of
  requests: 69,600 sectors round to 69,615, whose own geometry describes 69,564.
  `Geometry.ExactUnlessGap` gives the windows exactly.
- The comments of `allocate_block_locked` (src/reader.rs:1118-1121 and 1167) say that the file
  ends in a valid footer at every instant. Right after the device has grown it ends in zeros,
  which no parser takes for a footer (`Steps.GrownEndsInZeros`). Over a whole allocation the
  device never ends in anything but the footer if and only if it ended in it before and did not
  grow; for an allocation that succeeds, if and only if it ended in it before and was long enough
  already (`Readers.VhdReader.AllocateBlockLocked`). What holds at every instant is that the
  image reopens from its tail or its mirror.
- The documentation of `write_sparse` (src/reader.rs:994-999) speaks of a flush between the steps.
  There is none between the payload and the bitmap: until the closing flush nothing written
  inside the block is on stable storage (`Readers.VhdReader.WriteIntoBlock`).
- An image with no block allocated whose trailing footer was cut off opens with its tail
  inside its own metadata, exactly one sector below its end (`Images.TailInsideMetadata`).
  `Images.TailAboveMetadata` gives the condition, `Recovery.EmptyImageCutToItsTable` the family.
  The first block placed there zeroes the end of the metadata and is named below the data area:
  the allocation is reported as done, and the image is refused at its next open
  (`Recovery.AllocateInsideMetadata`).
- An image cut by its footer whose last block ends the device opens from its mirror and may be
  written. If the guest then stores the eight bytes of the cookie at the start of that block's
  last sector and the device does not grow, the image is refused, or that sector is taken for its
  footer. That the write must allocate as well is not enough: when its first chunk leaves the
  cookie and a later chunk allocates, a crash between the two leaves such an image. Nor is it
  enough that neither the old bytes nor the new are the cookie: a payload torn inside those
  eight bytes may make it up from both. `Recovery.WriteToCut` gives the exact conditions, before
  the call and after any outcome; a block allocated at any time puts the footer back and ends it.
- The comment at src/reader.rs:744-747 says that a fixed image's footer is off limits to writes.
  Open never compares the declared size with the device, and the footer is out of reach if and
  only if that size leaves room for it (`Images.FixedFooterUntouched`).

## Model

| member | source | states |
|---|---|---|
| Bytes.ReadU32Bytes | src/format.rs:115-118 | reading a big-endian word back from where it was written returns it |
| Bytes.ReadU64Bytes | src/format.rs:120-131 | the same for eight bytes |
| Format.OnesComplementChecksum | src/format.rs:140-153 | the wrapping loop computes the complement of the byte sum with the stored field taken as zero, also for a short buffer |
| Format.SealBreaks | src/format.rs:140-153 | no change of a single byte of a section of at most 1024 bytes survives its checksum |
| Format.SealedBelowIsEqual | src/format.rs:140-153 | a sealed section that is nowhere above another sealed one is that one: lost bytes cannot be compensated by the stored field |
| Footers.DiskTypeFromU32 | src/footer.rs:45-54 | a wire value is accepted if and only if it is the one of a disk type, and yields that type |
| Footers.BuildFooter | src/footer_build.rs:66-103 | the composed footer parses to its own fields, carries the timestamp, the creator and, field by field, the geometry of its size, and is zero in its reserved part |
| Footers.SealedFooterParses | src/footer_build.rs:96-103 | storing the checksum last leaves every field readable and seals it |
| Footers.TamperedFooterRefused | src/footer.rs:68-105 | changing any one byte of a footer that parses makes it refused |
| Footers.TornFooterIsWholeOrRefused | src/reader.rs:1208-1218 | a footer write over zeros torn at any byte leaves the whole footer or something refused as one |
| DynamicHeaders.ParseHeader | src/dynamic.rs:59-117 | the imperative parser computes the value-level parse, errors included |
| DynamicHeaders.DecodeUnits | src/dynamic.rs:158-168 | the loop collects exactly the units that stand in the name field, each most significant byte first, up to the first zero unit or the field's end |
| DynamicHeaders.UnitsAsPublished | src/dynamic.rs:158-168 | a field decodes to a name if and only if it holds that name, most significant byte first, ended by a zero unit where it is shorter |
| DynamicHeaders.BitmapSize | src/dynamic.rs:122-129 | the fewest whole sectors, at least one, that have a bit for every sector of the block |
| DynamicHeaders.SectorDividesPowerOfTwo | src/dynamic.rs:83-88 | an accepted block size is a whole number of sectors |
| DynamicHeaders.BuildDynamicHeader | src/dynamic.rs:135-152 | the composed header parses, if and only if the block size is a power of two of at least 512, to its fields with no parent |
| DynamicHeaders.TamperedHeaderRefused | src/dynamic.rs:59-117 | changing any one byte of a header that parses makes it refused |
| DynamicHeaders.MaskIsModulo | src/reader.rs:869-881 | masking by one less than a power of two is the remainder |
| Geometry.ChsForSize | src/footer_build.rs:150-189 | for every size the geometry is on the specification's ladder: 17 sectors a track with the fewest heads from 4 to 16 that keep below 1,024 cylinders, else 31 while they fit 16 heads, else 63, and 255 from 66,059,280 sectors on; cylinders below 65,536, and cylinders x heads x sectors the largest multiple of the rung's unit below the capped size |
| Geometry.LadderIsUnique | src/footer_build.rs:150-189 | no other geometry is on the ladder for that size |
| Geometry.IndependentGeometries | tests/reference_geometry.rs:62-155 | geometries that another implementation wrote, and some worked out from the specification, come out of the ladder |
| Geometry.CylindersBound | src/footer_build.rs:150-189 | the final clamp of the cylinders never takes effect |
| Geometry.SizeWithExactGeometry | src/footer_build.rs:212-227 | the result covers the request within 4,080 sectors, never passes the ceiling, and is described exactly by its own geometry if and only if the request is addressable and outside eleven windows |
| Geometry.StopIsFirstCover | src/footer_build.rs:218-225 | the search stops at the first size whose geometry covers the request |
| Geometry.SearchIsShort | src/footer_build.rs:218-225 | the search takes fewer than 4,080 steps |
| Geometry.ExactUnlessGap | src/footer_build.rs:190-227 | size and geometry agree if and only if the request is in none of the eleven windows |
| Geometry.RoundingMissesGap | src/footer_build.rs:190-227 | 69,600 sectors round to 69,615 while the geometry of that describes 69,564 |
| Blocks.BitmapSet | src/reader.rs:857-861 | sets the bit of one sector, most significant first, and no other |
| Blocks.ZeroedIsBlank | src/reader.rs:1220-1245 | a zeroed block publishes no sector |
| Disks.LiveAgreesWithDevice | src/reader.rs:1270-1279 | the live handle and a reading of the device's own table give the same flat disk, also where a BAT write landed and was reported as failed |
| Disks.EntryWritten | src/reader.rs:1264-1268 | pointing an entry at a blank block above all others keeps the invariant and every byte, with the cache still unallocated |
| Disks.CacheEntry | src/reader.rs:1270-1279 | admitting that entry to the cache changes no byte |
| Disks.CommitTail | src/reader.rs:1247-1262 | moving the tail past the new block keeps the invariant and every byte |
| Publishing.HiddenWrite | src/reader.rs:1355-1383 | writing under a clear bit changes nothing that is read |
| Publishing.EndsDefineAll | src/reader.rs:1312-1314 | only the first and the last touched sector can be partly covered |
| Publishing.PayloadStaged | src/reader.rs:1069-1080 | with both ends defined, the payload write leaves every touched sector holding exactly what must be published |
| Publishing.BitmapPublishes | src/reader.rs:1386-1404 | the bitmap write, torn at any byte, publishes only old or written bytes; whole, it changes the block by exactly the payload |
| Acceptance.CollectAllocated | src/reader.rs:351-373 | the walk passes if and only if every named block lies in the data area, and collects the named blocks |
| Acceptance.NeighboursOverlap | src/reader.rs:374-385 | on a sorted list, the neighbour test finds an overlap if and only if some pair overlaps |
| Acceptance.SortedTestIsExact | src/reader.rs:351-385 | range and sorted test together hold if and only if the table's blocks are in range and pairwise disjoint |
| Acceptance.LastReachesFurthest | src/reader.rs:386-391 | the last of the sorted blocks ends furthest |
| Acceptance.PartitionPoint | src/reader.rs:428-433 | the binary search splits the sorted blocks at the first one starting at or past the end |
| Acceptance.MeetsSomeBlock | src/reader.rs:428-441 | looking at one block decides whether any block shares a byte with the extent |
| Acceptance.CheckLocators | src/reader.rs:408-442 | the locators pass if and only if every payload that is not skipped ends in the data area and meets neither mirror, header, table nor any block |
| Acceptance.MeetsMeansSharedByte | src/reader.rs:420-427 | the overlap test on bounds is the existence of a shared byte |
| Images.AcceptedLayoutIsValid | src/reader.rs:200-317 | a header and footer that pass give a layout whose table covers the virtual size |
| Images.AcceptedTail | src/reader.rs:340-391 | the tail computed at open is sector-aligned, past every block and at most a footer from the end |
| Images.TailAboveMetadata | src/reader.rs:344-391 | the tail lies above the metadata if and only if a block is allocated or the device leaves a footer's room past the metadata |
| Images.AcceptanceEstablishesInv | src/reader.rs:143-487 | an accepted image satisfies the write path's invariant if and only if its tail lies above the metadata |
| Images.TailInsideMetadata | src/reader.rs:303-348 | an accepted tail below the metadata's end is exactly one sector below it, and a block placed there covers the metadata's last byte |
| Images.FixedFooterUntouched | src/reader.rs:743-749 | no write inside a fixed image's declared size reaches its footer if and only if the device leaves 512 bytes past that size |
| Images.RecoverableReopens | src/reader.rs:153-196 | an image with intact mirror and header and a last sector that is the footer, or refused as one, reopens as the same layout, table and contents, in order and recoverable again |
| Steps.NothingHandedOutTwice | src/reader.rs:1247-1262 | a block named only after a step shares no byte with one named before it |
| Steps.GrownEndsInZeros | src/reader.rs:1186-1206 | right after a growth the device ends in zeros, which are refused as a footer |
| Steps.GrowthDecides | src/reader.rs:1160-1219 | among all contents seen, one does not end in the footer if and only if the first did not or the device grew |
| Steps.KeepsAnchored | src/reader.rs:1160-1219 | an anchored image that ends in its footer one sector past the tail is recoverable |
| Steps.TornSlotRecoverable | src/reader.rs:1160-1218 | while a block is prepared, the image stays recoverable with the footer's slot torn anywhere |
| Steps.CommitKeeps | src/reader.rs:1247-1262 | committing the tail keeps invariant, order of allocation, recoverability and contents |
| Steps.EntryKeeps | src/reader.rs:1264-1268 | so does the BAT entry, whether or not its write is reported as done |
| Steps.CacheKeeps | src/reader.rs:1270-1279 | so does the cached entry |
| Steps.ChunkMixed | src/reader.rs:1066-1087 | a chunk that landed in part keeps all that and leaves every byte of the disk old or the chunk's |
| Steps.ChunkLanded | src/reader.rs:1066-1087 | a chunk that landed whole is one splice of the disk |
| Landing.ChunkLands | src/reader.rs:1029-1091 | chunk by chunk, what the device holds for every byte of every block that had a place, which blocks were given one, and that an allocation leaves an anchored image recoverable |
| Landing.OwnBlockLands | src/reader.rs:1324-1404 | in the block written: the payload, what was read in the rest of the touched sectors, the old bytes, hidden or not, elsewhere |
| Landing.OwnBlockMixed | src/reader.rs:1066-1087 | cut short there, every byte of the block is the old one or the one the whole write leaves; once a byte of the payload has landed, all below it and all outside the range is final |
| Publishing.PayloadRaw | src/reader.rs:1076-1082 | the same in one chunk, its payload torn anywhere after the partly covered sectors are defined |
| Landing.ChunkAllotted | src/reader.rs:1064-1070 | chunk by chunk, exactly the blocks of the range that had no place have one, each at its own address from the old tail on |
| Landing.NoRoomAhead | src/reader.rs:1424-1439 | a chunk whose block cannot be named shows that the whole write had no room from the start |
| Devices.Device.WriteAt | tests/synthetic.rs:2252-2279 | a failed write leaves a prefix of its bytes; a write past the end is refused |
| Devices.Device.SetLen | src/reader.rs:787-812 | a refusal leaves the device as it was; growth adds zeros |
| Chains.ChainIsFlattened | src/reader.rs:959-981 | byte v of a chain is that of the first image, leaf first, that holds its sector, and zero once an image on the way down ends before it |
| Chains.SomeLayerDecides | src/reader.rs:959-981 | every byte has such an image or runs out of them |
| Readers.BatEntryFor | src/reader.rs:1424-1439 | an offset is named if and only if it is a sector boundary below the reserved entry, and the entry names exactly it |
| Readers.SetBits | src/reader.rs:1394-1400 | the copy has the bits of the range added and no other changed |
| Readers.VhdReader.ReadAt | src/reader.rs:674-694 | on success every byte of the slice is the chain's byte and nothing else in the buffer moved; with nothing failing a fixed image is read if and only if the range is in the disk and on the device, and any chain that lacks nothing on its devices on every range inside the disk; a range past the disk is refused for that |
| Readers.VhdReader.ReadsContents | src/reader.rs:863-955 | for a dynamic image those bytes are the flat disk that writes change |
| Readers.VhdReader.NextChunk | src/reader.rs:878-894 | the chunk stays in one block that the table covers: the entry is never out of range |
| Readers.VhdReader.ReadSparse | src/reader.rs:863-955 | the block walk fills every byte with the chain's byte |
| Readers.VhdReader.ReadRuns | src/reader.rs:910-949 | the run walk fills every byte by its own sector's bit |
| Readers.VhdReader.RunEnd | src/reader.rs:921-928 | every sector of a run has the bit of its first one |
| Readers.VhdReader.ReadBlockUnallocated | src/reader.rs:959-981 | the parent's bytes as far as it reaches, zero past it or without one |
| Readers.VhdReader.DevGrowTo | src/reader.rs:807-812 | the device only grows, by zeros; a refusal leaves it byte-identical |
| Readers.VhdReader.PutFooterTwice | src/reader.rs:1208-1218 | the footer's copy is given up on only after two faults, and a torn copy stays a torn copy or becomes the whole |
| Readers.VhdReader.WriteFooterCopy | src/reader.rs:1208-1219 | on success the device ends in the footer, on stable storage |
| Readers.VhdReader.ZeroBlock | src/reader.rs:1221-1245 | on success the whole block is zero, on stable storage, and the footer past it untouched |
| Readers.VhdReader.PrepareBlock | src/reader.rs:1208-1245 | the footer past the block, then the zeroed block: nothing below the tail changes, and a torn footer slot stays one |
| Readers.VhdReader.AllocateBlockLocked | src/reader.rs:1146-1284 | at every outcome invariant, order of allocation, anchor, recoverability and contents are kept; success allocates at the old tail, leaves zeros there around the entry and the device below as it was, exactly a footer past the new tail, ending in the footer and recoverable if the mirror and header stand; an address the BAT cannot name leaves the device byte-identical; the device ends in the footer throughout if and only if it did before and does not grow, or, on success, was long enough |
| Readers.VhdReader.FillAndPublish | src/reader.rs:1208-1284 | past making room: footer, zeroed block, committed tail, entry, cache; neither the blocks below the tail nor the length move |
| Readers.VhdReader.PublishEntry | src/reader.rs:1264-1279 | the cache follows the device only once the entry is on stable storage; a failure, whether or not the entry landed, leaves the cache unallocated and keeps everything |
| Readers.VhdReader.PutEntry | src/reader.rs:1264-1268 | the entry lands whole or not at all, and on success is on stable storage |
| Readers.VhdReader.DefinePartialSectors | src/reader.rs:1324-1384 | no byte that is read changes, and the uncovered bytes of the sectors about to be published read as they do now |
| Readers.VhdReader.DefineSector | src/reader.rs:1350-1383 | the same for one end of the range |
| Readers.VhdReader.SetBitmapRange | src/reader.rs:1389-1404 | the bitmap written is the one read with the touched sectors' bits added |
| Readers.VhdReader.WriteChunkLocked | src/reader.rs:1029-1087 | one critical section: part of the chunk at most, the whole on success and on stable storage, and at most one allocation; unless struck it fails only where the BAT cannot name the block |
| Readers.VhdReader.WriteIntoBlock | src/reader.rs:1066-1087 | the part of it inside an allocated block: old and new bytes mixed, all new on success; nothing of it is on stable storage unless its closing flush succeeds |
| Readers.VhdReader.EnsureAllocated | src/reader.rs:1064-1070 | a place for the block: none is given twice, and the table and tail move by at most one allocation |
| Readers.VhdReader.PublishBits | src/reader.rs:1084-1086 | the bitmap write and the closing flush: torn anywhere the block is a mixture, whole it holds the chunk |
| Readers.VhdReader.WriteSparse | src/reader.rs:1015-1094 | the same for the whole write across any number of blocks; unless struck it succeeds if and only if the BAT can name every block it must add |
| Readers.VhdReader.WriteNext | src/reader.rs:1029-1091 | one chunk more has landed and been flushed, or the write so far is a mixture of old and new |
| Readers.VhdReader.WriteAt | src/reader.rs:723-756 | refusals leave everything as it was; a write is one splice, or on failure old or new byte by byte, hidden bytes included, and on a dynamic image in order keeps everything else; unless struck it succeeds if and only if the range is in the disk and, on a fixed image, on the device, or, on a dynamic one, the BAT can name every block it must add |
| Readers.VhdReader.FlushWrites | src/reader.rs:761-766 | success on a writable handle puts the device's contents on stable storage |
| Opening.ReadFooter | src/reader.rs:153-196 | chooses the trailing footer, or the mirror of a sparse image where the tail does not parse |
| Opening.DecodeTable | src/reader.rs:275-280 | the table read is the device's table |
| Opening.ReadHeader | src/reader.rs:200-283 | the checks before the table, in their order |
| Opening.Believe | src/reader.rs:303-442 | walk, sort, neighbours, locators and tail accept exactly the images whose table fits and whose locators are clear |
| Opening.OpenInner | src/reader.rs:143-487 | with nothing failing it succeeds exactly on the images that open and otherwise gives the first reason why not; the handle holds what its device says, and so does every parent down the chain |
| Opening.OpenParent | src/reader.rs:1453-1489 | the parent is the sibling named by a file name, one level further down, with the unique id the child names; without one the reason is given |
| Opening.OpenedIsBounded | src/reader.rs:386-391 | every opened handle on a dynamic image meets what a write requires of one, its tail above the metadata or not |
| Opening.OpenedIsReady | src/reader.rs:472-487 | a dynamic image is ready to be written if and only if its tail lies above the metadata |
| Opening.OpenedIsComplete | src/reader.rs:198-201 | an opened chain lacks nothing on its devices, but for a fixed image longer than its device |
| Names.WellFormedIsEncoded | src/dynamic.rs:158-168 | units are taken as a name if and only if they are the UTF-16 encoding of some text |
| Names.PlainNames | src/reader.rs:1522-1545 | units without surrogates and separators, other than one dot or two, name a file |
| Names.PathsRefused | src/reader.rs:1522-1545 | an empty name, a path and a directory do not |
| Published.FooterAsPublished | src/footer.rs:68-105 | 512 bytes parse to given fields if and only if they are that footer: cookie, big-endian fields at their published offsets, disk type 2, 3 or 4, and the complement of the sum of all other bytes |
| Published.ComposedAsPublished | src/footer_build.rs:66-103 | a composed footer holds time, creator, geometry and zeros where the specification puts them |
| Published.HeaderAsPublished | src/dynamic.rs:59-117 | 1,024 bytes parse to given fields if and only if they are that header, with its name, its eight locators, and a block size that is a power of two of at least 512 |
| Published.BitmapAsPublished | src/dynamic.rs:122-129 | the bitmap has a sector for every 4,096 sectors of the block or part of them |
| Published.BitAsPublished | src/reader.rs:852-861 | the first sector of a byte has its most significant bit |
| Published.BytesAsPublished | src/reader.rs:863-955 | a byte read through the table is the one that the published rules find in the file |
| Published.ContentsAsPublished | src/reader.rs:863-955 | the disk that the write path keeps is the one that the file shows by those rules, also where the cached table lags behind |
| Published.LocatorAsPublished | src/reader.rs:408-442 | a locator passes if and only if it is empty or its payload ends in the data area and lies apart from mirror, header, table and blocks |
| Published.AcceptedAsPublished | src/reader.rs:200-442 | a sparse image is believed with a given header if and only if its file satisfies the published conditions |
| Resolution.ChoiceAsPublished | src/reader.rs:153-196 | the footer believed is the last sector, or where that is none the first sector of a sparse image |
| Resolution.FixedOpens | src/reader.rs:200-201 | every file that ends in a fixed footer opens at every depth above zero |
| Resolution.DynamicOpens | src/reader.rs:143-487 | a dynamic image opens if and only if its file is believable |
| Resolution.DifferencingOpens | src/reader.rs:1453-1489 | a believable child opens if and only if the sibling named is a file name, is there, opens one level further down and has the id named |
| Resolution.DifferencingIsBelievable | src/reader.rs:143-487 | no other differencing image opens |
| Resolution.DeeperOpens | src/reader.rs:143-152 | what opens with some levels to spend opens with more |
| Resolution.LevelsNeeded | src/reader.rs:143-152 | whatever opens needs an exact number of levels, one without a parent |
| Resolution.ChildNeedsOneMore | src/reader.rs:1472-1483 | a child needs one level more than its parent |
| Resolution.TooDeep | src/reader.rs:149-151 | an image that needs more levels than it is given is refused as too deep |
| Resolution.FooterRefused | src/footer.rs:68-105 | without a footer to believe, the last sector says why: no cookie, a wrong checksum or an unknown disk type |
| Resolution.ImageByteAsPublished | src/reader.rs:863-981 | a byte of an image is a fixed one's own, a dynamic one's own or zero, a child's own or its parent's |
| Resolution.ChainIsImage | src/reader.rs:863-981 | what a read of an opened handle resolves a byte to is the byte that the files hold |
| Resolution.WholeIsComplete | src/reader.rs:198-201 | an opened chain lacks nothing if and only if no fixed image at its root is shorter than it says |
| Resolution.OpenAndRead | src/reader.rs:104-116 | opening and reading returns the bytes that the files hold, or the reason why the image does not open |
| Resolution.DataThenFooter | src/reader.rs:696-700 | data followed by a fixed footer of their size are an image of those data |
| Resolution.FixedRoundTrip | src/footer_build.rs:48-50 | data behind which a composed fixed footer is put come back when the file is opened and read |
| Runs.Run | src/reader.rs:723-1284 | any writes and restarts with any faults, on any handle ready to be written: every byte is explained by a write with all later ones reported failed, no space is handed out twice, outcomes are those of the events, a write with no operation struck succeeds if and only if the BAT can name the blocks it must add, and the run ends early only at a restart that was struck or had no way back |
| Runs.Perform | src/reader.rs:723-1284 | the same run step by step: the disk before and after every event, each step that of its event and of what the caller was told |
| Runs.DoEvent | src/reader.rs:723-756 | one event; only a restart that is struck or has no way back yields no handle, and its contents are kept |
| Runs.DoWrite | src/reader.rs:723-756 | one write as a step of a run, acknowledged exactly if the write returned success; outside the disk it is refused |
| Runs.DoRestart | src/reader.rs:143-487 | after a crash anywhere a recoverable or cut image opens as the same disk, unless the open itself is struck or a cut image's last sector begins with the cookie; a handle on anything else is never taken over |
| Runs.WayBackOpens | src/reader.rs:143-196 | a recoverable image opens, and so does a cut one whose last sector does not begin with the cookie |
| Runs.ReopenedSame | src/reader.rs:472-487 | a handle on the same footer and layout with a tail no lower is ready, on the same contents, and keeps the order of allocation |
| Runs.ReopenedIsReady | src/reader.rs:143-487 | reopening gives the contents of the live handle and keeps the order of allocation |
| Runs.NeverReissued | src/reader.rs:1247-1281 | between any two points of a run, blocks named by table or cache stay where they are, disjoint, above the metadata and below the tail, and none is handed out again |
| Runs.EveryByteExplained | src/reader.rs:723-756 | over a recorded run, no acknowledged write is lost to anything but a later write over it |
| Runs.RunExplained | src/reader.rs:723-756 | the same in terms of the events and of what their caller was told |
| Writers.ChunkInterleaves | src/reader.rs:1029-1091 | a chunk of one writer, whole or in part, keeps what the others have written |
| Writers.AnyOrderIsSequential | src/reader.rs:712-722 | once all writers have finished, the disk is the one of applying them one after the other |
| Writers.OneChunkLess | src/reader.rs:1029-1034 | a chunk ends at its block's end or at the write's, and is one block less to reach |
| Writers.RoomSuffices | src/reader.rs:1100-1106 | with addresses for all the blocks the writers need, the next of them has one |
| Writers.RunChunk | src/reader.rs:1029-1091 | one writer's next chunk under the lock; with no operation struck and room for all it succeeds |
| Writers.Interleave | src/reader.rs:1005-1014 | any interleaving of the locked chunks: structure kept, no write lost, each needed block allocated once; every turn of a schedule takes its writer one chunk further, and with enough turns and no operation struck all finish if and only if there is room |
| Creation.LaidOutIsInOrder | src/reader.rs:597-628 | what creation lays out satisfies the invariant, is recoverable and reads zero |
| Creation.FillTable | src/reader.rs:618-626 | the chunked fill leaves every byte of the table 0xFF and touches nothing else |
| Creation.CreateDynamic | src/reader.rs:568-632 | accepts exactly the stated requests; the file is byte for byte an empty image with the given time and unique id, of the rounded size, and opens all zero, ready to be written, with its tail at the end of the metadata |
| Creation.AcceptsAsPublished | src/reader.rs:568-594 | the requests accepted: whole sectors, more than none, in blocks of a power of two from 512 bytes of which 16,777,216 suffice |
| Creation.EmptyImageAsPublished | src/reader.rs:597-628 | what is laid out is byte for byte the published empty image |
| Creation.CreateFixed | src/reader.rs:524-555 | accepts exactly the stated requests; the file is zeros and a footer with the given time and unique id, of the rounded size, and opens for writing |
| Cuts.MirrorIsChosen | src/reader.rs:158-196 | on an image cut by its footer the mirror is believed if and only if the last sector is not itself a footer |
| Cuts.CutOpens | src/reader.rs:331-385 | believed from the mirror, it opens if and only if its last sector does not begin with the cookie or no block reaches into it, with the tail past every block |
| Cuts.CutReopens | src/reader.rs:153-196 | where the last block ends the device, it reopens as itself if and only if the last sector does not begin with the cookie |
| Cuts.CutRecovers | src/reader.rs:331-391 | reopened, it has the same contents and may be written if and only if a block is allocated or a sector was to spare |
| Cuts.CutFullReopens | src/reader.rs:331-391 | a cut image whose last block ends it reopens as exactly that disk, cut as before |
| Cuts.KeepsRooted | src/reader.rs:1146-1284 | every step leaves a cut image cut, with its length and table, or, once the device has grown, recoverable |
| Cuts.GrownNeedsMirror | src/reader.rs:153-196 | right after a growth a footer is found if and only if the mirror parses as a sparse one, and it is the mirror |
| Cuts.GrownReopens | src/reader.rs:1206-1219 | right after a growth an image in order reopens as itself if and only if its mirror parses as a sparse footer and leads to the same layout |
| Recovery.TruncatedOpens | src/reader.rs:158-196 | cutting the footer off a whole image: when the mirror is believed and when the image opens from it |
| Recovery.TruncationRecovers | src/reader.rs:331-391 | unless the last sector left begins with the cookie, nothing is lost and the next allocation lies past every block |
| Recovery.GuestCookieIsOnDevice | src/reader.rs:158-164 | the cookie as the guest's own data at the start of the last sector is what open looks for |
| Recovery.CookieInPayload | src/reader.rs:1076-1080 | a payload covering those eight bytes decides it |
| Recovery.CookieAlreadyThere | src/reader.rs:1076-1080 | a write that stays clear of that sector leaves it as it was, published or not |
| Recovery.CookieOnTheWayIsExact | src/reader.rs:1072-1082 | for a write inside the last block, the cookie is on the way if and only if it stands there before, or after some part of the payload |
| Recovery.CookieWasOnTheWay | src/reader.rs:1066-1087 | a cookie seen in the last sector after a write that landed whole, in part or not at all was on the way |
| Recovery.WriteToCut | src/reader.rs:723-756 | after any outcome the cut image reopens as itself if and only if the device grew or its last sector does not begin with the cookie; if the cookie is not on the way, as the old contents and the payload tell before the call, it reopens whatever happens; once done, it reopens if and only if the write had to allocate or does not leave the cookie there |
| Recovery.EmptyImageCutToItsTable | src/reader.rs:344-391 | every freshly created image so cut opens with its tail inside its table, where a block would cover the table's last byte |
| Recovery.OpenedLow | src/reader.rs:344-391 | an opened dynamic image that is not ready has no block, and its tail one sector below the end of its metadata |
| Recovery.LowBlockUnopenable | src/reader.rs:351-373 | a block named below the data area makes the image refused while its header stands |
| Recovery.AllocateInsideMetadata | src/reader.rs:1146-1284 | the first allocation there zeroes the end of the metadata around its own entry; the image never reopens as itself, and is refused outright if its header lies below the tail and clear of the entry |

## Left out

- The C interface (src/capi.rs), the command-line tool (src/cli) and the file-system device: no algorithm of the image format.
- Paths and the file system: a directory is a map from the units of file names to devices.
- The clock and the random unique id: the timestamp and the id are inputs.
- The text of a parent name: it stays a sequence of units, of which `Names` decides whether they are UTF-16.
- Error messages and payloads: an error is its cause.
- Readers inside a writer's critical section: `read_sparse` releases the table's lock before it reads the device; only writers interleave here.
- Reordering of writes between two flushes by a cache: the code promises nothing about the payload against the bitmap, so a crash is a prefix of the operations in order with the last one torn. That flushes come where the code puts them is stated through what is on stable storage.
- A torn write of the four bytes of a BAT entry: it is all or nothing (`Devices.Device.WriteEntry`), because a torn entry can name any sector and the image may then be refused.
- Runs.Run: of a handle on an image that is neither recoverable nor cut (opened from its trailing footer with a mirror that is not that footer), a run may end at any restart; `Cuts.GrownReopens` states a crash right after a growth exactly.
- Recovery.WriteToCut: for a write that also reaches other blocks, the condition decided before the call is sufficient only, since an earlier chunk may have grown the device by then.
- Recovery.AllocateInsideMetadata: a header that reaches above the tail or under the new entry is not followed further than that the image does not reopen as itself.
- Readers.VhdReader.WriteAt: on a dynamic image whose tail lies inside its metadata it states which blocks are added and that success is flushed, not the contents, which no later open will show.
- Readers.VhdReader.ReadAt: on a chain over a fixed image shorter than its declared size, success with nothing failing is stated for that fixed image alone.
