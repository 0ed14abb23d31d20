# D64 image writer, modelled in Dafny

This project models the core of D64Writer, a C++ program that builds a
Commodore 1541 ".D64" disk image in memory. The image has 683 sectors of
256 bytes. It lays them out on 35 tracks in four zones of 21, 19, 18 and 17
sectors. The program writes (name, bytes) pairs into the image as follows.

- **Geometry** (module `Geometry`). Linear sector index ↔ zero-based
  (track, sector) coordinate, sectors per track, and the interleave step of
  each track.
- **The image** (module `Disk`). Sector 357 holds the Block Availability Map
  (BAM). Sector 358 is the first directory sector. Both lie on directory
  track 17.
- **The BAM** (modules `Bits`, `Bam`, `Format`). Each track has a 4-byte
  entry at offset 4 + 4·track.
  - Byte 0 is the number of free sectors on the track.
  - Bytes 1..3 are a little-endian bitmap in which a set bit marks a free
    sector.
  - The constructor zero-fills the image and formats the BAM. Formatting
    marks every sector free and then claims the BAM's own sector.
  - Claiming a sector clears its bit and lowers the count.
- **The allocator** (module `Allocator`). It finds the first free data
  sector. It also finds the next free sector after a given one, walking each
  track in interleave order. Both skip the directory track.
- **The payload writer** (module `Payload`). It stores a file in 254-byte
  chunks in sectors it claims one by one. Each full sector starts with a
  link (next track + 1, next sector). The last sector starts with
  (0, bytes used).
- **File names** (module `Names`). At most 16 characters. Digits, A–Z, `_`
  and `.` are kept, lower-case letters are upper-cased, and everything else
  becomes `_`.
- **The directory writer** (module `Directory`). A file takes the first of
  the 8 slots of sector 358 whose type byte is 0. It gets:
  - link bytes;
  - type 2 (PRG);
  - its 1-based start track and start sector;
  - its name padded with 0xA0 to 16 bytes;
  - its number of blocks, little endian.
- **The reference decoder** of the writer's test helper (module `Reader`).
  It finds a file's slot by name and walks the sector chain back. It checks
  every header and every BAM bit on the way.
- **The `Writer` object** (module `D64`, class `Writer`). It holds the flat
  683·256-byte buffer and updates it in place, byte by byte.
  - Each of its methods is proved to leave exactly the buffer that the
    functional model computes from the old one.
  - Each of its read-only loops is proved to answer what the model's
    function answers.
- **The writer's own test scenarios** (module `Scenarios`):
  - a small file;
  - a file filling the whole image;
  - eight files sharing the image.

The main results are the following.
- The geometry is a bijection, monotone in (track, sector) order, and the
  interleaved walk of each track is a permutation of its sectors.
- A claim occupies exactly one sector and keeps the BAM consistent. It
  lowers the free total by one and is idempotent.
- The allocator's answers are free data sectors. The first free sector is
  the lowest one. The next free sector is the first free sector met by the
  interleaved walk. The invalid sentinel comes back exactly when nothing is
  free.
- `writeFile` succeeds exactly when a slot is unused and the payload is
  non-empty and fits the free space. On failure nothing changes.
- On success the invariant `Directory.Holds` is kept with the new file
  appended. It says:
  - a consistent BAM;
  - the slots used in order;
  - each file stored along its own chain of occupied sectors;
  - no sector shared by two files.
- Every file reads back through the decoder as its payload, under its
  normalised name (`Directory.ReadBack`).

The source is mid-refactor and, as written, its writer cannot produce a
readable image. The model follows what its comments, its reader and its
tests call for. Each departure from the code as written is a row under
"## Findings". Each such row has a member modelling the code as written, a
lemma exhibiting an input on which it goes wrong, and the corrected member
the model uses.

Choices the model makes where the code leaves room, each grounded in the
code:
- The free total is the population count of the track bitmaps, as
  src/Writer.cpp:152-168 computes it. `Bam.CountByteIsFreeCount` proves it
  equals the count bytes on a consistent BAM.
- The first free sector is the lowest free data sector in (track, sector)
  order, the one the scan at src/Writer.cpp:248-274 looks for.
  `Allocator.FirstAndNextSameTrack` proves that it and the interleaved
  search from (0, 0) land on the same track.
- Claiming an occupied sector changes nothing, since `&=` at
  src/Writer.cpp:71 is idempotent (`Bam.ClaimIdempotent`).
- Slot 0 gets the link bytes (18, 4) and every other slot (0, 0), as at
  src/Writer.cpp:323-332.
- A claim also takes one off the track's count byte (`Bam.ClearEntryBit`).
  src/Writer.cpp:64-72 has no such store. The decrement is the model's own
  addition. With it the count byte stays equal to the population count of
  the bitmap, in the layout the reader uses (count in byte 0, bitmap in
  bytes 1..3, test/WriterTestHelper.cpp:14-18).

## Model

| member | source | states |
|---|---|---|
| Geometry.Equals | src/TrackSector.h:16-19 | `==` holds exactly when track and sector both agree |
| Geometry.NotEquals | src/TrackSector.h:21-24 | `!=` is the negation of `==`, true exactly when the coordinates differ |
| Geometry.EqualsIsEquivalence | src/TrackSector.h:16-19 | `==` is reflexive, symmetric and transitive |
| Geometry.SectorsOnTrack | src/TrackSector.cpp:69-75 | a track has 17..21 sectors (never 20), and 21 exactly on tracks below 17 |
| Geometry.InterleaveOnTrack | src/TrackSector.cpp:77-97 | the step is between 1 and N-1 and coprime to the track's N sectors, so the `assert(0)` default is unreachable |
| Geometry.SectorIdx | src/TrackSector.cpp:7-27 | a valid coordinate maps below 683, and no coordinate maps to INVALID |
| Geometry.TrackAndSector | src/TrackSector.cpp:29-67 | for every index below 683 the coordinate is valid and getSectorIdx maps it back to the index |
| Geometry.InvalidOutsideRange | src/TrackSector.h:11 | INVALID (65535) is never the index of a valid coordinate, and mapping that index back never gives {255, 255} |
| Geometry.InvalidCoordinateIndex | src/TrackSector.cpp:7-27 | getSectorIdx of the {255, 255} coordinate is 4678: neither INVALID nor the index of a sector of the image |
| Geometry.TrackSectorInvalidIsInvalid | src/Writer.h:47 | TRACK_SECTOR_INVALID {255, 255} is not a valid coordinate |
| Geometry.TrackAndSectorOfSectorIdx | src/TrackSector.cpp:7-67 | for a valid coordinate, getTrackAndSector(getSectorIdx(ts)) == ts and the index is below 683 |
| Geometry.SectorIdxInjective | src/TrackSector.cpp:7-27 | two valid coordinates share an index exactly when they are equal |
| Geometry.SectorIdxMonotone | src/TrackSector.cpp:7-27 | getSectorIdx is strictly increasing in lexicographic (track, sector) order, in both directions |
| Geometry.SectorsBeforeIsFirstIdx | src/TrackSector.cpp:7-27 | a track's first index is the sum of the sector counts of the tracks below it, and all 35 counts add up to 683 |
| Geometry.AllSectorsSum | src/TrackSector.cpp:69-75 | the sector counts of tracks 0..34 add up to 683 |
| Geometry.InterleaveCovers | src/Writer.cpp:179-180 | from any start, the first N steps of `(start + i·k) mod N` reach every sector of the track |
| Geometry.InterleaveInjective | src/Writer.cpp:288-290 | no two of the first N steps of the interleaved walk land on the same sector, so the walk is a permutation |
| Bits.Popcount64c | src/Writer.cpp:13-24 | the population count is zero exactly for zero and never exceeds its argument |
| Bits.PopcountCountsBits | src/Writer.cpp:13-24 | for x below 2^n, popcount64c(x) is the number of set bits among bits 0..n-1 |
| Bits.PopcountClear | src/Writer.cpp:13-24 | clearing a set bit lowers the population count by exactly one |
| Bits.AllOnes | src/Writer.cpp:40 | `(1 << n) - 1` has exactly bits 0..n-1 set, and its population count is n |
| Disk.ByteOffset | src/Writer.h:60-61 | getSector(idx)[j] lies in bytes [256·idx, 256·idx + 256) of the 683·256-byte buffer |
| Disk.ByteOffsetInjective | src/Writer.h:60-61 | sector views of distinct indices never overlap: two (sector, byte) pairs share an offset exactly when they are equal |
| Disk.SectorsOf | src/Writer.h:84 | byte j of sector idx in the sector view is buffer byte 256·idx + j |
| Disk.Flatten | src/Writer.h:84 | the serialised image is the buffer itself: viewing it sector by sector gives the image back |
| Disk.ZeroSector | src/Writer.h:51 | a sector of 256 zero bytes |
| Disk.ZeroImage | src/Writer.h:51 | after `fill(0x00)` every sector is all zero |
| Disk.PutByte | src/Writer.h:60 | a store through getSector(idx)[j] sets that byte and leaves every other byte of the image alone |
| Disk.WriteString | src/Writer.cpp:230-237 | the string's bytes land at offset off onwards, and every byte outside that range is kept |
| Disk.Padded | src/Writer.cpp:239-246 | the string followed by pad bytes up to len bytes (none when it is already that long): its length, its prefix and its padding |
| Disk.WriteStringWithPadding | src/Writer.cpp:239-246 | the string padded to len written at off, with the rest of the sector kept; meaning: Disk.Padded, D64.Writer.WriteStringWithPadding |
| Disk.DirectoryTrackLayout | src/Writer.h:35-44 | indices 357 and 358 are sectors 0 and 1 of directory track 17, and eight 32-byte entries exactly fill a sector |
| Bam.EntryOffset | test/WriterTestHelper.cpp:17 | a track's 4-byte entry lies within the BAM's bytes 0x04..0x8F |
| Bam.LittleEndian24 | test/WriterTestHelper.cpp:18 | three little-endian bytes make a value below 2^24 |
| Bam.EntryBits | test/WriterTestHelper.cpp:14-19 | the bitmap read from entry bytes 1..3 is a 24-bit value |
| Bam.SectorBitsOfTrack | test/WriterTestHelper.cpp:14-19 | the track's bitmap in the image's BAM sector is a 24-bit value |
| Bam.BytesBit | test/WriterTestHelper.cpp:21-25 | bit s of the bitmap is bit s % 8 of entry byte 1 + s / 8 |
| Bam.ClearEntryBit | src/Writer.cpp:64-72 | only the count byte and the bitmap byte holding the sector change; the bitmap loses exactly 2^sector and the count drops by one (8-bit); the count store is the model's own addition |
| Bam.IsFree | test/WriterTestHelper.cpp:21-25 | isTrackSectorAvailable: a sector is free when its bit in the track's bitmap is set; meaning: Bam.ClaimIsFree, Bam.FreeIsValid, Format.InitImageIsFree |
| Bam.ClaimSector | src/Writer.cpp:64-72 | only the claimed track's entry in the BAM sector can change; every other byte of the image is kept |
| Bam.SetSectorOccupied | src/Writer.cpp:64-72 | setSectorOccupied changes nothing outside the entry of the sector's track |
| Bam.ClaimKeeps | src/Writer.cpp:64-72 | the bitmap and count of every other track are kept, and so are those of an occupied sector's own track |
| Bam.ClaimClears | src/Writer.cpp:64-72 | claiming a free sector takes exactly its bit off its track's bitmap and one off the count byte |
| Bam.ClaimOtherTracks | src/Writer.cpp:64-72 | a claim keeps the bitmap and count byte of every track but the claimed one |
| Bam.ClaimBits | src/Writer.cpp:64-72 | the claimed track's new bitmap is the old one with the sector's bit cleared, if it was set |
| Bam.ClaimIsFree | src/Writer.cpp:64-72 | after a claim, a sector is free exactly when it was free before and is not the claimed sector |
| Bam.ClaimIdempotent | src/Writer.cpp:64-72 | claiming a sector twice is claiming it once |
| Bam.ClaimTrackConsistent | src/Writer.cpp:64-72 | a track whose count byte is its bitmap's population count keeps that property across a claim |
| Bam.ClaimConsistent | src/Writer.cpp:64-72 | a claim keeps the whole BAM consistent |
| Bam.ClaimFreeCount | src/Writer.cpp:64-72 | claiming a free data sector lowers the free total by one; any other claim keeps it |
| Bam.SetSectorOccupiedEffect | src/Writer.cpp:64-72 | setSectorOccupied(i) occupies exactly sector i, keeps the BAM consistent, is idempotent, and lowers the free total by one when i was a free data sector |
| Bam.FreeIsValid | src/Writer.cpp:38-39 | in a consistent BAM, a set bit always names an existing sector of its track |
| Bam.FreeBelowPositive | src/Writer.cpp:152-168 | the free count over the data tracks below n is positive exactly when one of them has a free sector |
| Bam.TrackFreeSector | src/Writer.cpp:152-168 | a data track with a positive free count has a free sector |
| Bam.FreeTrackCounts | src/Writer.cpp:152-168 | a free sector makes its track's free count positive |
| Bam.NoFreeSectors | src/Writer.cpp:152-168 | the free total is zero exactly when no data sector is free |
| Bam.NumberOfFreeSectors | src/Writer.cpp:152-168 | the free total: the population counts of the bitmaps of every track but the directory track; meaning: Bam.NoFreeSectors, Bam.CountByteIsFreeCount, Bam.FreeTotalAtMost, D64.Writer.GetNumberOfFreeSectors |
| Bam.CountByteIsFreeCount | src/Writer.cpp:152-168 | on a consistent BAM the count byte of each track equals the population count of its bitmap, which is at most its number of sectors |
| Bam.BamOnly | src/Writer.cpp:152-168 | bitmaps, free sectors, the free total and consistency depend on the BAM sector alone |
| Bam.FreeTotalAtMost | src/Writer.cpp:152-168 | on a consistent BAM the free total never exceeds 683 |
| Format.FormatEntry | src/Writer.cpp:36-44 | a formatted entry holds the track's full sector count and a bitmap with exactly its sectors set |
| Format.FormattedBits | src/Writer.cpp:36-44 | after the entry loop each track's bitmap is `(1 << N) - 1` and its count byte is N |
| Format.FormatBam | src/Writer.cpp:26-62 | the BAM sector as initImage formats it, before the claim of sector 357; meaning: Format.FormattedBits, D64.BamInSourceOrder |
| Format.Formatted | src/Writer.cpp:26-62 | the image with its BAM sector formatted and every other sector kept; meaning: Format.FormattedConsistent, Format.InitImageIsClaim |
| Format.FormattedConsistent | src/Writer.cpp:36-44 | the formatted BAM is consistent |
| Format.InitImage | src/Writer.cpp:26-62 | initImage changes no sector but the BAM |
| Format.InitImageIsClaim | src/Writer.cpp:26-62 | initImage is the formatting followed by the claim of directory track 17's sector 0 |
| Format.InitImageIsFree | src/Writer.cpp:36-46 | after initImage a sector is free exactly when it exists and is not the BAM sector itself |
| Format.InitImageBam | src/Writer.cpp:36-46 | after initImage the BAM is consistent with 664 = 683 - 19 free data sectors |
| Format.InitImageDiskName | src/Writer.cpp:48 | bytes 0x90..0x9F of the BAM hold "DISK" padded with 0xA0 |
| Format.FreshImage | src/Writer.h:49-53 | the image of a new Writer: the zeroed buffer after initImage; meaning: Format.FreshSectorsZero, Format.FreshBam, D64.Writer.constructor |
| Format.FreshSectorsZero | src/Writer.h:49-53 | in a new Writer every sector but the BAM is zero |
| Format.FreshBam | src/Writer.h:49-53 | a new Writer has a consistent BAM with 664 free data sectors |
| Format.FreshImageFacts | src/Writer.h:49-53 | a new Writer: all sectors but the BAM zero, the BAM consistent, 664 free sectors, and every sector free except the BAM |
| Allocator.FirstFreeOnTrack | src/Writer.cpp:258-266 | the lowest free sector of the track at or above s, or none when all of them are occupied |
| Allocator.FirstFreeFrom | src/Writer.cpp:253-271 | the first free data sector from track t on in (track, sector) order; invalid exactly when every data track from t on is full |
| Allocator.FirstFreeTrackSector | src/Writer.cpp:248-274 | invalid exactly when every data track is full; otherwise a free sector off the directory track |
| Allocator.FirstFreeIsLowest | src/Writer.cpp:248-274 | whenever some data sector is free, the answer is valid and its index is at most that sector's |
| Allocator.Step | src/Writer.cpp:290 | `(start + i·interleave) mod N` is a sector of the track |
| Allocator.NextFreeStep | src/Writer.cpp:288-295 | the first step at or after i of the interleaved walk that lands on a free sector, or none when every later step lands on an occupied one |
| Allocator.WalkMissesNothing | src/Writer.cpp:288-299 | the interleaved walk of a track finds nothing exactly when the track is full |
| Allocator.NextFreeFrom | src/Writer.cpp:280-300 | a free data sector on track t or later, invalid exactly when every data track from t on is full, and every data track between t and the answer's track is full |
| Allocator.NextFreeTrackSector | src/Writer.cpp:276-303 | invalid exactly when every data track from prev's on is full; otherwise a free data sector on prev's track or later |
| Allocator.NextFreeInterleaveOrder | src/Writer.cpp:276-303 | the answer is met at some step i of its track's walk (from prev's sector on prev's track, from 0 after it), and every earlier step lands on an occupied sector |
| Allocator.NoFreeSectorIffInvalid | src/Writer.cpp:248-303 | on a consistent BAM both searches answer invalid exactly when the free total is zero |
| Allocator.FirstAndNextSameTrack | src/Writer.cpp:248-303 | the first free sector and the interleaved search from (0, 0) land on the same track |
| Payload.Blocks | src/Writer.cpp:370-372 | ⌈L/254⌉: enough 254-byte sectors for L bytes, one fewer would not do, and at least one for a non-empty file |
| Payload.NumberOfAvailableBytes | src/Writer.h:75 | 254 bytes per free sector, zero exactly when no sector is free |
| Payload.Min254 | src/Writer.cpp:388 | the chunk is 254 bytes or the rest of the data, whichever is smaller |
| Payload.WriteDataToSector | src/Writer.cpp:385-405 | writeDataToSector answers the chunk length min(length, 254) |
| Payload.WriteData | src/Writer.cpp:359-382 | writeData answers TRACK_SECTOR_INVALID or a valid sector off the directory track |
| Payload.ChainLength | src/Writer.cpp:370-378 | a stored chain has exactly one sector per 254-byte block |
| Payload.LinkTo | src/Writer.cpp:385-405 | the previous sector's header made to point at sector idx, 1-based track first; meaning: Payload.StoreChunkBytes, Payload.LinkToKeepsData |
| Payload.StoreChunk | src/Writer.cpp:385-405 | the stores of writeDataToSector: link, chunk and, on the last sector, the (0, n) header; meaning: Payload.StoreChunkBytes, D64.StoreChunkSteps |
| Payload.StoreChunkBytes | src/Writer.cpp:390-400 | the previous sector's link points at sector idx and keeps its data bytes; sector idx holds the chunk behind its header, closed with (0, n) when it is the last; no other sector changes |
| Payload.WriteDataToSectorBytes | src/Writer.cpp:385-405 | writeDataToSector changes only the previous sector's link, sector idx and the BAM, and sector idx holds the chunk |
| Payload.WriteDataToSectorBam | src/Writer.cpp:401-402 | in the BAM exactly sector idx becomes occupied, the BAM stays consistent and the free total drops by one |
| Payload.NextFreeFound | src/Writer.cpp:377 | with sectors still free and none below prev's track, the search finds one, with no free data sector on an earlier track |
| Payload.ChainStep | src/Writer.cpp:370-378 | after one sector is written with more bytes to go, the loop is ready to write the rest at the sector the search finds |
| Payload.WriteDataToSectorAllocates | src/Writer.cpp:385-405 | writing one sector allocates exactly that sector |
| Payload.WriteChain | src/Writer.cpp:370-378 | the writeData loop from sector idx: the image after the rest is stored and the sectors used; meaning: Payload.WriteChainAllocates, Payload.WriteChainWrites |
| Payload.WriteChainAllocates | src/Writer.cpp:370-378 | the loop claims Blocks(L) distinct free data sectors starting at idx; exactly those become occupied, the BAM stays consistent and the free total drops by their number |
| Payload.WriteChainWrites | src/Writer.cpp:370-378 | the loop stores the bytes as a linked chain from idx, links the previous sector to idx, and leaves every other sector but the BAM alone |
| Payload.LastRoundWrites | src/Writer.cpp:385-405 | the last round writes a one-sector chain closed with (0, bytes used) |
| Payload.FirstSectorReady | src/Writer.cpp:363-365 | with room for the bytes the first free sector is a free data sector with no free data sector on an earlier track |
| Payload.WriteDataAccepts | src/Writer.cpp:359-382 | writeData fails, changing nothing, exactly when the length is zero or exceeds the available bytes; otherwise it answers the first free sector |
| Payload.WriteDataStores | src/Writer.cpp:359-405 | an accepted write stores the bytes as a chain of Blocks(L) formerly free sectors from the answered sector; only they become occupied, and no other sector but the BAM changes |
| Reader.Entry | test/WriterTestHelper.cpp:51 | a directory slot is 32 bytes of sector 358 |
| Reader.FileNameFrom | test/WriterTestHelper.cpp:32-39 | the name read from character i on: bytes of the name field, none of them 0xA0 or 0x00, at most 16 - i of them |
| Reader.FileName | test/WriterTestHelper.cpp:27-42 | getFileName reads at most 16 bytes |
| Reader.FindEntry | test/WriterTestHelper.cpp:44-67 | the first slot whose name matches, none when no slot of the 8 matches |
| Reader.StartingTrackSector | test/WriterTestHelper.cpp:82-88 | a start is read exactly when byte 3 is at least 1 and (byte 3 - 1, byte 4) is an existing sector, and then it is that coordinate |
| Reader.NumberOfSectors | test/WriterTestHelper.cpp:90-93 | bytes 30-31, little endian, a 16-bit count |
| Reader.ReadProg | test/WriterTestHelper.cpp:147-161 | assertProgOnImage's read: a payload comes back only for a name some slot holds, and it is never empty; meaning: Directory.ReadBack, Scenarios.ReadTestFile |
| Reader.Walk | test/WriterTestHelper.cpp:95-145 | a successful walk of n sectors yields between 254·(n-1)+1 and 254·n bytes |
| Reader.WalkStoredChain | test/WriterTestHelper.cpp:95-145 | a stored chain of occupied sectors reads back as its data when walked with its own length as sector count |
| Reader.WalkLast | test/WriterTestHelper.cpp:113-124 | an occupied sector with header (0, n) reads back as its first n data bytes |
| Reader.WalkLink | test/WriterTestHelper.cpp:104-112 | a sector linking to an occupied sector reads back as its 254 bytes followed by the rest of the chain |
| Reader.FileNameFromStored | test/WriterTestHelper.cpp:32-39 | a stored name of disk characters that is 16 bytes long or is followed by padding or a zero byte reads back as written |
| Names.D64Char | src/Writer.cpp:211-224 | each output character is a digit, A–Z, `_` or `.` |
| Names.D64Name | src/Writer.cpp:209 | the name has min(length, 16) characters |
| Names.MakeD64FileName | src/Writer.cpp:205-228 | the character loop builds exactly the normalised name |
| Names.D64NameChars | src/Writer.cpp:205-228 | character i of the result is character i of the input normalised, and no character is 0xA0 or 0x00 |
| Names.D64CharUpper | src/Writer.cpp:216-220 | a lower-case letter becomes its capital |
| Names.D64NameIdempotent | src/Writer.cpp:205-228 | normalising twice is normalising once |
| Names.HollarieName | test/WriterTest.cpp:53-61 | "hollarie.txt" becomes "HOLLARIE.TXT" |
| Directory.FirstFreeSlot | src/Writer.cpp:312-318 | the first slot from k on whose type byte is 0, or 8 when every one is used |
| Directory.WriteEntry | src/Writer.cpp:323-347 | filling in a slot changes no byte outside it |
| Directory.WriteFile | src/Writer.cpp:306-356 | a failed writeFile leaves the image as it was |
| Directory.WriteEntryReads | src/Writer.cpp:323-347 | the filled-in slot reads back as a used slot with the given start, name and block count, and the other slots read as before |
| Directory.WriteEntryBytes | src/Writer.cpp:323-347 | the slot holds the link bytes, type 2, the 1-based start track, the start sector, the name padded to 16 bytes with 0xA0 and the little-endian block count |
| Directory.EntryDecodes | test/WriterTestHelper.cpp:82-93 | an entry holding a start, a padded name and a block count decodes to exactly those |
| Directory.EmptyHolds | src/Writer.cpp:314 | an all-zero directory sector with a consistent BAM holds no file |
| Directory.FreshHolds | src/Writer.h:49-53 | a new Writer holds no file |
| Directory.WriteDataKeepsDirectory | src/Writer.cpp:359-405 | writeData never touches the directory sector |
| Directory.FirstFreeSlotIsNext | src/Writer.cpp:312-318 | with n files in the first n slots the scan answers slot n |
| Directory.SlotScanFinds | src/Writer.cpp:314-318 | when exactly slots 0..n-1 are used, the scan from any k <= n stops at n |
| Directory.WriteFileUnfold | src/Writer.cpp:321-350 | with a free slot and an accepted payload, writeFile is the payload image with the slot filled in |
| Directory.WriteFileEntry | src/Writer.cpp:334-347 | the slot a successful writeFile fills reads back as the new file, and the other slots read as before |
| Directory.OldFilesKept | src/Writer.cpp:306-356 | files already on the image stay held and share no sector with the new chain |
| Directory.WriteFileSectors | src/Writer.cpp:335 | outside the directory sector the result is the payload image: the chain's sectors become occupied and nothing else changes state |
| Directory.WriteFileNewHeld | src/Writer.cpp:306-356 | after a successful writeFile the new file is held by its slot |
| Directory.WriteFileOldHeld | src/Writer.cpp:306-356 | after a successful writeFile the old files are still held and share no sector with the new one |
| Directory.WriteFileHolds | src/Writer.cpp:306-356 | a successful writeFile keeps the invariant with the new file appended |
| Directory.WriteFilePreserves | src/Writer.cpp:306-356 | writeFile succeeds exactly when a slot is unused and 0 < L <= available bytes; then the files are held with the new one appended and the free total drops by Blocks(L); otherwise nothing changes |
| Directory.ReadBack | test/WriterTestHelper.cpp:147-161 | every file of the image reads back as its payload under its normalised name, unless an earlier file has the same name |
| D64.SectorsOfUpdate | src/Writer.h:60 | a store into the flat buffer is the same store into the sector view |
| D64.SectorsOfZero | src/Writer.h:51 | the zero-filled buffer is the all-zero image |
| D64.ClaimAsStores | src/Writer.cpp:64-72 | when the sector's bit is set, setSectorOccupied is exactly two byte stores: the bit cleared and the count decremented |
| D64.ClaimedStays | src/Writer.cpp:71 | when the sector's bit is already clear, setSectorOccupied leaves the image as it is |
| D64.FormatDiskName | src/Writer.cpp:48 | the disk name stored with its padding is bytes 0x90..0x9F of the formatted BAM |
| D64.FormatDiskId | src/Writer.cpp:49-59 | the id bytes are bytes 0xA0..0xAA of the formatted BAM |
| D64.FormattedTail | src/Writer.cpp:61 | bytes 0xAB..0xFE of the formatted BAM are zero |
| D64.BamInSourceOrder | src/Writer.cpp:36-61 | the source's order (entries, claim, then name, id and tail) gives the formatted BAM with the claim, because the claim only touches bytes below 0x90 |
| D64.InitImageInSourceOrder | src/Writer.cpp:26-62 | initImage's stores in source order give the formatted image with the BAM's sector claimed |
| D64.NextFreeAt | src/Writer.cpp:288-294 | a free sector met at step i of a data track's walk, with no free sector at earlier steps, is the search's answer |
| D64.StoreChunkSteps | src/Writer.cpp:390-400 | the link store followed by the chunk stores into sector idx give the image StoreChunk describes |
| D64.EntryInRuns | src/Writer.cpp:323-347 | filling in a slot as three runs of stores (header, padded name, block count) gives WriteEntry |
| D64.Writer.Sectors | src/Writer.h:84 | the buffer viewed as 683 sectors of 256 bytes |
| D64.Writer.SetSectorByte | src/Writer.h:60 | a store through getSector(idx)[j] changes exactly that byte |
| D64.Writer.GetSectorByte | src/Writer.h:61 | a load through getSector(idx)[j] answers that byte |
| D64.Writer.WriteString | src/Writer.cpp:230-237 | the loop stores the string from offset off of the sector and changes nothing else |
| D64.Writer.WriteStringWithPadding | src/Writer.cpp:239-246 | the string, then pad bytes up to len, and nothing else changed |
| D64.Writer.PadFrom | src/Writer.cpp:241-245 | the padding loop turns the sector holding str at off into the sector holding str padded to len |
| D64.Writer.SetSectorOccupied | src/Writer.cpp:64-72 | the buffer afterwards is the claim of sector idx |
| D64.Writer.GetSectorBitsOfTrack | src/Writer.cpp:140-150 | the answer is the little-endian bitmap in bytes 1..3 of the track's entry |
| D64.Writer.GetNumberOfFreeSectors | src/Writer.cpp:152-168 | the loop sums the population counts of all track bitmaps but the directory track's |
| D64.Writer.GetNumberOfAvailableBytes | src/Writer.h:75 | 254 bytes per free sector |
| D64.Writer.GetFirstFreeTrackSector | src/Writer.cpp:248-274 | the loop answers the first free data sector in (track, sector) order, or invalid |
| D64.Writer.FirstFreeSectorOfTrack | src/Writer.cpp:258-266 | the inner loop answers the lowest free sector of the track, or the sector count when there is none |
| D64.Writer.GetNextFreeTrackSector | src/Writer.cpp:276-303 | the loops answer the first free sector of the interleaved search from prev, or invalid |
| D64.Writer.NextFreeSectorOfTrack | src/Writer.cpp:284-295 | the inner loop finds the search's answer on this track, or reports that the search continues on the next track |
| D64.Writer.WriteDataToSector | src/Writer.cpp:385-405 | the buffer afterwards is the previous sector linked, the chunk stored and closed if last, and sector idx claimed; answers min(length, 254) |
| D64.Writer.WriteData | src/Writer.cpp:359-382 | the loop leaves the buffer and answers the first sector as the model's writeData does |
| D64.Writer.WriteEntry | src/Writer.cpp:323-347 | the stores leave the directory sector with the slot filled in and every other sector unchanged |
| D64.Writer.WriteFile | src/Writer.cpp:306-356 | the slot scan, writeData and the entry stores leave the buffer and answer success as the model's writeFile does |
| D64.Writer.WriteBamEntries | src/Writer.cpp:28-44 | the header and the entry loop leave the BAM's bytes 0..0x8F as formatted and the rest as they were |
| D64.Writer.WriteBamEntry | src/Writer.cpp:36-44 | one round of the entry loop extends the formatted prefix of the BAM by one track's 4-byte entry |
| D64.Writer.WriteBamTail | src/Writer.cpp:48-61 | the name, id and zeroed tail leave bytes 0x90..0xFE as formatted |
| D64.Writer.InitImage | src/Writer.cpp:26-62 | the buffer afterwards is the formatted BAM with its own sector claimed |
| D64.Writer.constructor | src/Writer.h:49-53 | a new Writer holds the zero-filled image after initImage |
| Scenarios.FreshCapacity | test/WriterTest.cpp:92-97 | a new image holds no file and offers 664 · 254 = 168656 bytes |
| Scenarios.FreshImageAccepts | test/WriterTest.cpp:52-57 | a new image accepts exactly the payloads of 1 to 168656 bytes, and a refused write changes nothing |
| Scenarios.FreshImageReadBack | test/WriterTest.cpp:52-61 | any payload written to a new image reads back under the file's normalised name |
| Scenarios.SmallFile | test/WriterTest.cpp:38-62 | "Small file": the write succeeds and "HOLLARIE.TXT" reads back as the 13-byte program |
| Scenarios.LargeFile | test/WriterTest.cpp:64-90 | "Large file": a payload filling all 664 data sectors is written as "big" and reads back as "BIG" |
| Scenarios.BigName | test/WriterTest.cpp:79-89 | "big" becomes "BIG" |
| Scenarios.TestFileName | test/WriterTest.cpp:22-27 | "FILE_k" has six characters, the last one the digit k |
| Scenarios.TestFileContent | test/WriterTest.cpp:29-36 | byte i of the content is i modulo 256 |
| Scenarios.TestFileNames | test/WriterTest.cpp:22-27 | "FILE_k" is its own normalised name and differs from every other "FILE_j" |
| Scenarios.WriteTestFile | test/WriterTest.cpp:103-113 | each of the eight writes succeeds, appends the file to the held files, and takes 83 sectors |
| Scenarios.MaxSupportedFiles | test/WriterTest.cpp:92-125 | eight files of 21082 bytes all succeed and each reads back under its own name |
| Scenarios.NinthFileRefused | src/Writer.cpp:312-321 | not part of the test: after the same eight files a ninth writeFile finds no unused slot and fails |
| Scenarios.WriteOneMore | src/Writer.cpp:321 | with all eight slots used, writeFile fails and the image is unchanged |
| Scenarios.WriteTestFiles | test/WriterTest.cpp:103-113 | the writing loop ends with the eight files held, in order |
| Scenarios.ReadTestFiles | test/WriterTest.cpp:118-124 | the reading loop finds every "FILE_k" with its content |
| Scenarios.ReadTestFile | test/WriterTest.cpp:118-124 | "FILE_k" reads back as its payload |
| Findings.TrackAndSectorAsWritten | src/Writer.cpp:76-114 | Writer's own geometry copy agrees with the real one only below index 357 |
| Findings.GeometryCopyCollides | src/Writer.cpp:76-114 | the copy maps the BAM's index 357 and index 0 both to (0, 0) |
| Findings.InitEntryAsWritten | src/Writer.cpp:36-44 | initImage stores the all-free bitmap from entry byte 0 on |
| Findings.InitEntryMisread | src/Writer.cpp:36-44 | read the standard way (bitmap in bytes 1..3), track 0's bitmap is 0x1FFF instead of 0x1FFFFF, so sector 13 looks occupied |
| Findings.SetSectorOccupiedAsWritten | src/Writer.cpp:64-72 | setSectorOccupied as written clears bit sector % 8 of entry byte sector / 8, counted from byte 0, and changes no other byte of the image |
| Findings.SetSectorOccupiedAsWrittenMisses | src/Writer.cpp:64-72 | for a sector numbered 0..7 the as-written store changes no track bitmap, so a free sector stays free, while the corrected claim makes it occupied |
| Findings.SectorBitsAsWritten | src/Writer.cpp:140-150 | getSectorBitsOfTrack as written is a 32-bit value |
| Findings.SectorBitsAsWrittenIsZero | src/Writer.cpp:140-150 | as written the bitmap is always 0, so every sector looks occupied |
| Findings.ScanAsWritten | src/Writer.cpp:262-266 | the inner scan as written stops at once on a non-zero bitmap and otherwise runs to the sector count |
| Findings.FirstFreeAsWritten | src/Writer.cpp:248-274 | getFirstFreeTrackSector as written always answers on track 0 |
| Findings.FirstFreeAsWrittenOccupied | src/Writer.cpp:248-274 | with (0, 0) occupied and another sector of track 0 free, the answer as written is still (0, 0) |
| Findings.FirstFreeAsWrittenFullTrack | src/Writer.cpp:248-274 | with track 0 full the answer as written is (0, 21), no sector at all |
| Findings.NextFreeAsWritten | src/Writer.cpp:276-303 | getNextFreeTrackSector as written answers prev whenever the search finds something |
| Findings.NextFreeAsWrittenRepeats | src/Writer.cpp:276-303 | after claiming prev, the search as written hands prev back, an occupied sector |
| Findings.FullPayloadRefused | src/Writer.cpp:363 | a payload exactly as large as the free space is refused by `<` and accepted by the corrected check |
| Findings.AvailableBytesAsWritten | src/Writer.h:75 | the available bytes as written are cut to 16 bits |
| Findings.AvailableBytesWrap | src/Writer.h:75 | on a new image 168656 wraps to 37584 |
| Findings.WriteDataAsWritten | src/Writer.cpp:359-382 | writeData as written stores what the corrected one stores, but always answers invalid |
| Findings.CompleteSlot | src/Writer.cpp:337-354 | an invalid answer from writeData makes writeFile return false with the payload's sectors still claimed |
| Findings.WriteFileShadowedAsWritten | src/Writer.cpp:306-382 | writeFile over the as-written writeData, whose answer is shadowed; meaning: Findings.WriteFileAlwaysFails |
| Findings.WriteFileAlwaysFails | src/Writer.cpp:306-382 | as written every writeFile fails, and with a slot free the payload's sectors stay claimed |
| Findings.StoreChunkAsWritten | src/Writer.cpp:399-400 | with the copy running from the sector into the caller's buffer, sector idx is not written |
| Findings.PayloadNeverStored | src/Writer.cpp:399-400 | in a zero sector, a non-zero first payload byte is not stored as written and is stored by the corrected chunk store |
| Findings.StoreChunkUnclosedAsWritten | src/Writer.cpp:385-405 | as written the last sector's header bytes are left as they were |
| Findings.UnclosedChainUnreadable | src/Writer.cpp:385-405 | a one-sector file in a zero sector does not read back as written, and is closed with (0, n) when corrected |
| Findings.ChunksAsWritten | src/Writer.cpp:370-378 | with pData never advanced, every chunk is a prefix of the data |
| Findings.SecondChunkRepeats | src/Writer.cpp:370-378 | for a 255-byte payload the second sector gets byte 0 again instead of byte 254 |
| Findings.LengthFieldAsWritten | src/Writer.cpp:344-347 | entry bytes 30-31 as written hold the length in bytes |
| Findings.FewerBlocksThanBytes | src/Writer.cpp:344-347 | from two bytes on, a file has fewer blocks than bytes |
| Findings.WalkNeedsExactCount | test/WriterTestHelper.cpp:137-144 | the decoder reads a stored chain only with its exact length as sector count |
| Findings.LengthFieldUnreadable | src/Writer.cpp:344-347 | a stored file of 2..65535 bytes whose entry holds its length in bytes does not read back, and does with its block count |
| Findings.WriteFileEarlyAsWritten | src/Writer.cpp:323-335 | writeFile as written answers as the corrected one does |
| Findings.WriteDataSameAnswer | src/Writer.cpp:359-382 | writeData answers the same on two images with the same BAM |
| Findings.FirstFreeSameBam | src/Writer.cpp:248-274 | the first free sector from track t on depends on the BAM sector alone |
| Findings.FirstFreeOnTrackSameBam | src/Writer.cpp:258-266 | the first free sector of a track depends on the BAM sector alone |
| Findings.FailedWriteUsesSlot | src/Writer.cpp:323-335 | an empty payload fails but as written leaves the slot looking used; the corrected writeFile leaves the image unchanged |
| Findings.NameFieldAsWritten | src/Writer.cpp:341-343 | the name field as written gets the name's bytes and no padding |
| Findings.ShortNameMisread | src/Writer.cpp:341-343 | as written, a one-character name over a slot holding an old name reads back with at least two characters; padded to 16 bytes it reads back as the one character (such a slot comes only from an image this writer did not build) |
| Findings.UnpaddedNameOnZeroField | src/Writer.cpp:341-343 | on a zeroed name field, the only kind this writer fills, the unpadded name reads back as written |
| Findings.Decimal2 | src/Writer.cpp:219 | the two decimal digits of a number in 10..99 |
| Findings.D64CharAsWritten | src/Writer.cpp:216-220 | as written a lower-case letter becomes two digit characters and every other character is normalised as intended |
| Findings.D64NameAsWritten | src/Writer.cpp:205-228 | makeD64FileName as written, from character i on; meaning: Findings.D64CharAsWritten, Findings.HollarieAsWritten |
| Findings.HollarieAsWritten | src/Writer.cpp:216-220 | as written "hollarie.txt" becomes "7279767665827369.848884", not "HOLLARIE.TXT" |
| Findings.StartingTrackSectorAsWritten | test/WriterTestHelper.cpp:82-88 | the start as written keeps the sector byte as it is |
| Findings.StartTrackCheckOff | test/WriterTestHelper.cpp:69-88 | as written a start on the last track (35) is refused and a start track of 0 is taken for track 255; the corrected check does the opposite |

## Left out

- The bit trick of popcount64c (src/Writer.cpp:15-23): `Bits.Popcount64c` counts bits one at a time, which is what the masks and the multiplication compute on 64-bit values.
- Fixed integer widths: the model computes with unbounded integers. It writes out the widths that matter:
  - the 8-bit count byte (`Geometry.Dec8`);
  - the truncating track cast of getTrackAndSector (`Geometry.ToByte`);
  - the two bytes of the block count.
  The 16-bit available-bytes count appears only as a finding. `size_t` lengths and the `uint8_t` loop counters never reach their limits on the paths modelled.
- Undefined shifts: shifts by 32 bits or more in the as-written getSectorBitsOfTrack are read as mathematical shifts.
- The second geometry in src/Writer.cpp:76-136 and 171-201: the model uses the geometry of src/TrackSector.cpp everywhere.
  - Writer's getSectorIdx, getSectorsOnTrack and getInterleaveOnTrack are identical to it.
  - Writer's getTrackAndSector appears only as a finding.
  - The two `TrackSector` types (src/Writer.h:12-28, src/TrackSector.h:8-30) are one datatype.
- Payload.WriteChain: stops when the next index is not a sector of the image. The source's loop tests `sectorIdx != INVALID` instead. After the capacity check the search never fails while bytes remain (`Payload.WriteChainAllocates`), so neither test fires. The source's test could not fire in any case: a failed search answers {255, 255}, whose index is 4678 and not INVALID (`Geometry.InvalidCoordinateIndex`), so the loop would go on with an index past the buffer.
- Further directory sectors: as in the source, only the 8 slots of sector 358 are used. The link bytes of slot 0 point at a sector that is never written.
- Failures of the decoder: its `FAIL(...)` calls are an absent result (`None`). Catch2 and the test cases themselves are modelled as the `Scenarios` members.
- The program driver src/main.cpp:
  - directory listing;
  - reading `.PRG` files;
  - writing the image file;
  - usage output.
  It is I/O and is not part of this model.
- The image stream: `operator<<` for `Writer` and the `D64ImageStreamBuf` of test/WriterTestHelper.h are not defined in the sources modelled. The serialised image is the buffer itself (`Disk.Flatten`).
- BAM header and id bytes: modelled as constants that are stored, with no property beyond where they land.

## Findings

| source | as written | input that shows it | evidently intended | confidence | as-written member | corrected member |
|---|---|---|---|---|---|---|
| src/Writer.cpp:76-114 | Writer's getTrackAndSector never adds the zone's first track (17, 24, 30) | index 357 (the BAM) and index 0 both map to (0, 0) | the zone offsets as in src/TrackSector.cpp:46,56,64, so the map is a bijection | high, not executed | Findings.TrackAndSectorAsWritten, Findings.GeometryCopyCollides | Geometry.TrackAndSector, Geometry.TrackAndSectorOfSectorIdx |
| src/Writer.cpp:36-44 | the all-free bitmap goes into entry bytes 0..2, with no count byte | track 0, read by the decoder's layout (bytes 1..3): the bitmap is 0x1FFF, so sectors 13..20 read occupied, and byte 0 reads 255 | count in byte 0, bitmap in bytes 1..3, as test/WriterTestHelper.cpp:17-18 reads it | high, not executed | Findings.InitEntryAsWritten, Findings.InitEntryMisread | Format.FormatEntry, Format.InitImageIsFree |
| src/Writer.cpp:64-72 | setSectorOccupied clears bit s % 8 of entry byte s / 8, counted from byte 0 as initImage lays out the bitmap, and stores no count byte | any free sector numbered 0..7, such as (0, 0): the store lands on the byte the decoder reads as the count, no bitmap changes, and the sector still reads free | clear bit s % 8 of entry byte 1 + s / 8, the bitmap bytes test/WriterTestHelper.cpp:14-18 reads | high, not executed | Findings.SetSectorOccupiedAsWritten, Findings.SetSectorOccupiedAsWrittenMisses | Bam.ClearEntryBit, Bam.ClaimBits |
| src/Writer.cpp:143-147 | `a + b << 8 + c << 16 + d << 24` parses as `((a + b) << (8 + c)) << (16 + d) << 24` | any BAM: the 32-bit result is 0 | the little-endian sum of the three bitmap bytes | high, not executed | Findings.SectorBitsAsWritten, Findings.SectorBitsAsWrittenIsZero | D64.Writer.GetSectorBitsOfTrack, Bam.BytesBit |
| src/Writer.cpp:263-269 | `sectorBits && (0x01 << sectorIdx)` is a logical and, and the loop breaks after track 0 | sector (0, 0) occupied and (0, 1) free answers (0, 0); track 0 full answers (0, 21) | `&`, and the scan goes on to later tracks | high, not executed | Findings.FirstFreeAsWritten, Findings.FirstFreeAsWrittenOccupied, Findings.FirstFreeAsWrittenFullTrack | Allocator.FirstFreeIsLowest, D64.Writer.GetFirstFreeTrackSector |
| src/Writer.cpp:293 | the search answers `previous` when it meets a free sector | any prev just claimed by writeDataToSector, with a free sector left: prev comes back | the sector met, `{trackIdx, sectorOnTrack}` | high, not executed | Findings.NextFreeAsWritten, Findings.NextFreeAsWrittenRepeats | Allocator.NextFreeInterleaveOrder, D64.Writer.GetNextFreeTrackSector |
| src/Writer.cpp:363 | `length < getNumberOfAvailableBytes()` refuses a payload that exactly fills the free space | each of the eight 21082-byte files of test/WriterTest.cpp:92-125 once 83 sectors are left for the last one | `<=`, so that payloads of exactly the capacity are accepted | high, not executed | Findings.FullPayloadRefused | Payload.WriteDataAccepts |
| src/Writer.h:75 | getNumberOfAvailableBytes returns uint16_t, and 664 · 254 wraps | a new image: 168656 becomes 37584, so the large-file payload is refused | the full count of available bytes | high, not executed | Findings.AvailableBytesAsWritten, Findings.AvailableBytesWrap | Payload.NumberOfAvailableBytes, Scenarios.FreshCapacity |
| src/Writer.cpp:365 | the inner `TrackSector ret` shadows the result, so writeData always answers invalid | any write to a new image: writeFile answers false with the payload's sectors claimed | assign the outer `ret` | high, not executed | Findings.WriteDataAsWritten, Findings.WriteFileAlwaysFails | Scenarios.FreshImageAccepts, Directory.WriteFilePreserves |
| src/Writer.cpp:400 | `std::copy(&pSector[2], &pSector[2 + ret], pData)` copies from the sector into the caller's buffer | any payload into a zero sector whose first byte is not 0: the sector keeps 0 | copy the data into the sector behind its header | high, not executed | Findings.StoreChunkAsWritten, Findings.PayloadNeverStored | Payload.StoreChunkBytes |
| src/Writer.cpp:385-405 | the last sector of a file never gets its (0, bytes used) header | a one-sector file in a zero sector: the decoder meets header (0, 0) and fails | close the chain with (0, n) as test/WriterTestHelper.cpp:113-124 expects | high, not executed | Findings.StoreChunkUnclosedAsWritten, Findings.UnclosedChainUnreadable | Payload.LastRoundWrites, Reader.WalkStoredChain |
| src/Writer.cpp:372 | `pData` is never advanced, so every chunk starts at the payload's first byte | a 255-byte payload whose bytes 0 and 254 differ: the second sector gets byte 0 | advance by the bytes written | high, not executed | Findings.ChunksAsWritten, Findings.SecondChunkRepeats | Payload.WriteChainWrites, Payload.WriteDataStores |
| src/Writer.cpp:344-347 | entry bytes 30-31 hold the length in bytes | any stored file of 2 to 65535 bytes: the decoder walks that many sectors and fails | the number of blocks, as test/WriterTestHelper.cpp:90-93 reads it | high, not executed | Findings.LengthFieldAsWritten, Findings.LengthFieldUnreadable | Directory.WriteEntryReads, Directory.ReadBack |
| src/Writer.cpp:323-335 | link and type bytes are stored before writeData is known to succeed | an empty payload: writeFile fails, but the slot's type byte is 2 and later files skip it | fill the slot in only after writeData succeeds | medium, not executed | Findings.WriteFileEarlyAsWritten, Findings.FailedWriteUsesSlot | Directory.WriteFile, Directory.WriteFilePreserves |
| src/Writer.cpp:343 | the name is padded only up to its own length, so no 0xA0 is stored in the rest of the 16-byte name field | only a slot that already holds a longer name, which this writer never builds: it starts from a zeroed image and fills each slot once, and on a zeroed field the name reads back as written (Findings.UnpaddedNameOnZeroField); an image from elsewhere whose slot holds an old name reads the old tail as part of the new name | pad with 0xA0 to 16 bytes, as the pad argument of writeStringWithPadding suggests and the 1541 directory entry lays out its name field | low, not executed | Findings.NameFieldAsWritten, Findings.ShortNameMisread | Directory.WriteEntryReads, Reader.FileNameFromStored |
| src/Writer.cpp:219 | `strm << (ch - 'a') + 'A'` streams an int, the decimal code of the capital | "hollarie.txt" becomes "7279767665827369.848884" | stream the capital as a character | high, not executed | Findings.D64CharAsWritten, Findings.HollarieAsWritten | Names.HollarieName, Names.D64CharUpper |
| test/WriterTestHelper.cpp:86 | the raw 1-based start track is checked against 0-based bounds | a file starting on track 35 (raw) is refused; a raw track of 0 is accepted as track 255 | check track - 1 and refuse a raw track of 0 | high, not executed | Findings.StartingTrackSectorAsWritten, Findings.StartTrackCheckOff | Reader.StartingTrackSector, Directory.EntryDecodes |
