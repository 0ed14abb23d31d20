/**
 * Places where the writer's code, as written, departs from what its own
 * comments, its reader and its tests call for.  Each as-written member
 * models the code line for line with every other defect repaired, and the
 * lemma beside it exhibits an input on which it goes wrong.  The corrected
 * behaviour is the one the rest of the model uses.
 */
module Findings {
  import opened Geometry
  import opened Bits
  import opened Disk
  import opened Bam
  import opened Format
  import opened Allocator
  import opened Payload
  import opened Names
  import opened Reader
  import opened Directory

  // ---------------------------------------------------------------------
  // The second copy of the geometry (src/Writer.cpp:76-114)

  /** Writer's own getTrackAndSector: the first track of the zone is never added. */
  function TrackAndSectorAsWritten(idx: u16): (ts: TrackSector)
    ensures idx < 357 ==> ts == TrackAndSector(idx)
  {
    if idx < 357 then TrackSector(idx / 21, idx % 21)
    else if idx < 490 then TrackSector((idx - 357) / 19, (idx - 357) % 19)
    else if idx < 598 then TrackSector((idx - 490) / 18, (idx - 490) % 18)
    else TrackSector(ToByte((idx - 598) / 17), ToByte((idx - 598) % 17))
  }

  /** The BAM sector 357 and sector 0 get the same coordinate; SectorIdx does not undo it. */
  lemma GeometryCopyCollides()
    ensures TrackAndSectorAsWritten(357) == TrackAndSectorAsWritten(0) == TrackSector(0, 0)
    ensures SectorIdx(TrackAndSectorAsWritten(357)) != 357
    ensures TrackAndSector(357) == TrackSector(DIRECTORY_TRACK, 0) && SectorIdx(TrackAndSector(357)) == 357
  {
  }

  // ---------------------------------------------------------------------
  // The BAM entry layout of initImage (src/Writer.cpp:36-44, 64-72)

  /** The four bytes initImage stores for a track: the all-free bitmap from entry byte 0 on. */
  function InitEntryAsWritten(track: byte): (e: seq<byte>)
    ensures |e| == 4
    ensures e[0] as int + 256 * e[1] as int + 65536 * e[2] as int == Mask(SectorsOnTrack(track))
  {
    var bits := Pow2(SectorsOnTrack(track)) - 1;
    Pow2Bytes();
    Pow2Monotone(SectorsOnTrack(track), 24);
    [bits % 256, (bits / 256) % 256, (bits / 65536) % 256, (bits / 16777216) % 256]
  }

  /**
   * Read the standard way (count in byte 0, bitmap in bytes 1..3), the entry
   * of track 0 shows 13 free sectors where 21 are free: sector 13 reads as
   * occupied.  The corrected entry reads as all 21 sectors free.
   */
  lemma InitEntryMisread()
    ensures var e := InitEntryAsWritten(0);
            LittleEndian24(e[1], e[2], e[3]) == 0x1FFF && !Bit(LittleEndian24(e[1], e[2], e[3]), 13)
    ensures Mask(SectorsOnTrack(0)) == 0x1F_FFFF
  {
    Pow2Bytes();
    Pow2Add(16, 5);
    Pow2Add(8, 5);
    assert Pow2(5) == 32;
    var e := InitEntryAsWritten(0);
    assert e == [0xFF, 0xFF, 0x1F, 0];
    BitOfSmall(0x1FFF, 13);
  }

  /**
   * setSectorOccupied as written: bit sector % 8 is cleared in entry byte
   * sector / 8 counted from byte 0 of the entry, the layout initImage
   * writes, and no count byte changes.  The sector's coordinate is taken
   * from the corrected geometry, so that this defect is seen on its own.
   */
  function SetSectorOccupiedAsWritten(img: Image, idx: nat): (r: Image)
    requires WellFormed(img) && idx < NUM_SECTORS
    ensures WellFormed(r)
    ensures var ts := TrackAndSector(idx);
            var j := EntryOffset(ts.track) + ts.sector / 8;
            var m := ts.sector % 8;
            j < BYTES_PER_SECTOR && !Bit(r[BAM_SECTOR_IDX][j], m) &&
            (forall u: nat :: u != m ==> (Bit(r[BAM_SECTOR_IDX][j], u) <==> Bit(img[BAM_SECTOR_IDX][j], u))) &&
            (forall k, i :: 0 <= k < NUM_SECTORS && 0 <= i < BYTES_PER_SECTOR && (k != BAM_SECTOR_IDX || i != j) ==>
               r[k][i] == img[k][i])
  {
    var ts := TrackAndSector(idx);
    var j := EntryOffset(ts.track) + ts.sector / 8;
    var m := ts.sector % 8;
    var b := img[BAM_SECTOR_IDX][j];
    if Bit(b, m) then
      BitClear(b, m);
      BitCleared(b, m);
      img[BAM_SECTOR_IDX := img[BAM_SECTOR_IDX][j := b - Pow2(m)]]
    else
      img
  }

  /**
   * For a sector numbered 0..7 the store lands on the byte the reader takes
   * for the track's count: no bitmap changes, so a free sector stays free,
   * where the corrected claim makes it occupied.
   */
  lemma SetSectorOccupiedAsWrittenMisses(img: Image, idx: nat)
    requires WellFormed(img) && idx < NUM_SECTORS && TrackAndSector(idx).sector < 8
    ensures var r := SetSectorOccupiedAsWritten(img, idx);
            forall t: nat :: t < NUM_TRACKS ==> SectorBitsOfTrack(r, t) == SectorBitsOfTrack(img, t)
    ensures var ts := TrackAndSector(idx);
            IsFree(img, ts.track, ts.sector) ==>
              IsFree(SetSectorOccupiedAsWritten(img, idx), ts.track, ts.sector) &&
              !IsFree(SetSectorOccupied(img, idx), ts.track, ts.sector)
  {
    var r := SetSectorOccupiedAsWritten(img, idx);
    var ts := TrackAndSector(idx);
    assert ts.sector / 8 == 0;
    var o := EntryOffset(ts.track);
    forall t: nat | t < NUM_TRACKS ensures SectorBitsOfTrack(r, t) == SectorBitsOfTrack(img, t) {
      var p := EntryOffset(t);
      assert p + 1 != o && p + 2 != o && p + 3 != o;
      assert r[BAM_SECTOR_IDX][p + 1] == img[BAM_SECTOR_IDX][p + 1];
      assert r[BAM_SECTOR_IDX][p + 2] == img[BAM_SECTOR_IDX][p + 2];
      assert r[BAM_SECTOR_IDX][p + 3] == img[BAM_SECTOR_IDX][p + 3];
    }
    ClaimBits(img, ts.track, ts.sector);
  }

  /** A number below 2^s has bit s clear. */
  lemma {:induction false} BitOfSmall(x: nat, s: nat)
    requires x < Pow2(s)
    ensures !Bit(x, s)
    decreases s
  {
    if s > 0 {
      BitOfSmall(x / 2, s - 1);
    }
  }

  // ---------------------------------------------------------------------
  // getSectorBitsOfTrack (src/Writer.cpp:140-150)

  /**
   * The bitmap as written: '+' binds tighter than '<<', so the sum of bytes 0
   * and 1 is shifted by 8 + byte 2, then by 16 + byte 3, then by 24, and the
   * result kept to 32 bits.  (Shifts of 32 and more are undefined in C++;
   * they are read here as the mathematical shift.)
   */
  function SectorBitsAsWritten(b0: byte, b1: byte, b2: byte, b3: byte): (bits: nat)
    ensures bits < 0x1_0000_0000
  {
    ((b0 + b1) * Pow2(8 + b2) * Pow2(16 + b3) * Pow2(24)) % 0x1_0000_0000
  }

  /** Whatever the BAM holds, the bitmap as written is 0: every sector looks occupied. */
  lemma SectorBitsAsWrittenIsZero(b0: byte, b1: byte, b2: byte, b3: byte, s: nat)
    ensures SectorBitsAsWritten(b0, b1, b2, b3) == 0
    ensures !Bit(SectorBitsAsWritten(b0, b1, b2, b3), s)
  {
    var p1, p2, p3 := Pow2(8 + b2), Pow2(16 + b3), Pow2(24);
    var q := Pow2(16 + b2 + b3);
    Pow2Add(8 + b2, 16 + b3);
    assert p1 * p2 == Pow2(24 + b2 + b3);
    Pow2Add(24 + b2 + b3, 24);
    assert Pow2(24 + b2 + b3) * p3 == Pow2(48 + b2 + b3);
    Pow2Add(32, 16 + b2 + b3);
    Pow2Of32();
    assert Pow2(48 + b2 + b3) == 0x1_0000_0000 * q;
    var x := (b0 + b1) * p1 * p2 * p3;
    assert x == (b0 + b1) * (p1 * p2 * p3) by {
      MulAssoc(b0 + b1, p1, p2, p3);
    }
    var k := (b0 + b1) * q;
    assert x == k * 0x1_0000_0000 by {
      MulAssoc3(b0 + b1, 0x1_0000_0000, q);
    }
    WholeWords(k);
    assert SectorBitsAsWritten(b0, b1, b2, b3) == x % 0x1_0000_0000;
    ZeroHasNoBit(s);
  }

  lemma MulAssoc(a: nat, b: nat, c: nat, d: nat)
    ensures a * b * c * d == a * (b * c * d)
  {
  }

  lemma MulAssoc3(a: nat, m: nat, q: nat)
    ensures a * (m * q) == (a * q) * m
  {
  }

  /** A multiple of 2^32 is 0 in 32 bits. */
  lemma WholeWords(k: int)
    ensures (k * 0x1_0000_0000) % 0x1_0000_0000 == 0
  {
  }

  lemma Pow2Of32()
    ensures Pow2(32) == 0x1_0000_0000
  {
    assert Pow2(4) == 16;
    assert Pow2(8) == 256 by {
      Pow2Add(4, 4);
    }
    assert Pow2(16) == 0x1_0000 by {
      Pow2Add(8, 8);
    }
    Pow2Add(16, 16);
  }

  // ---------------------------------------------------------------------
  // getFirstFreeTrackSector (src/Writer.cpp:248-274)

  /**
   * The inner scan as written: it goes on while the sector is below count
   * and not (bits && (1 << sector)), a logical and of two numbers.
   */
  function ScanAsWritten(bits: nat, count: nat, sector: nat): (r: nat)
    ensures r == if sector >= count || bits != 0 then sector else count
    decreases count - sector
  {
    if sector < count && !(bits != 0 && Pow2(sector) != 0) then ScanAsWritten(bits, count, sector + 1)
    else sector
  }

  /** getFirstFreeTrackSector as written: track 0 only, since the loop breaks after the first data track. */
  function FirstFreeAsWritten(img: Image): (r: TrackSector)
    requires WellFormed(img)
    ensures r.track == 0
  {
    TrackSector(0, ScanAsWritten(SectorBitsOfTrack(img, 0), SectorsOnTrack(0), 0))
  }

  /** Once sector (0, 0) is claimed, the answer is still (0, 0): an occupied sector. */
  lemma FirstFreeAsWrittenOccupied(img: Image)
    requires WellFormed(img) && SectorBitsOfTrack(img, 0) != 0 && !IsFree(img, 0, 0)
    ensures FirstFreeAsWritten(img) == TrackSector(0, 0) && !IsFree(img, 0, 0)
    ensures FirstFreeTrackSector(img) != FirstFreeAsWritten(img)
  {
  }

  /** With track 0 full the answer is (0, 21), which is no sector at all. */
  lemma FirstFreeAsWrittenFullTrack(img: Image)
    requires WellFormed(img) && SectorBitsOfTrack(img, 0) == 0
    ensures FirstFreeAsWritten(img) == TrackSector(0, 21) && !ValidTs(FirstFreeAsWritten(img))
  {
  }

  // ---------------------------------------------------------------------
  // getNextFreeTrackSector (src/Writer.cpp:276-303)

  /** getNextFreeTrackSector as written: the same walk, but it answers previous when it meets a free sector. */
  function NextFreeAsWritten(img: Image, prev: TrackSector): (r: TrackSector)
    requires WellFormed(img)
    ensures r == TRACK_SECTOR_INVALID <==> NextFreeTrackSector(img, prev) == TRACK_SECTOR_INVALID
    ensures r != TRACK_SECTOR_INVALID ==> r == prev
  {
    if NextFreeTrackSector(img, prev) != TRACK_SECTOR_INVALID then prev else TRACK_SECTOR_INVALID
  }

  /**
   * writeData asks for the sector after the one it just filled and claimed;
   * as written it gets that same occupied sector back, where the corrected
   * search answers a free one.
   */
  lemma NextFreeAsWrittenRepeats(img: Image, prev: TrackSector)
    requires WellFormed(img) && prev.track < NUM_TRACKS && !IsFree(img, prev.track, prev.sector)
    requires NextFreeTrackSector(img, prev) != TRACK_SECTOR_INVALID
    ensures NextFreeAsWritten(img, prev) == prev && !IsFree(img, prev.track, prev.sector)
    ensures var r := NextFreeTrackSector(img, prev);
            r != prev && IsFree(img, r.track, r.sector)
  {
  }

  // ---------------------------------------------------------------------
  // The capacity check of writeData (src/Writer.cpp:363) and
  // getNumberOfAvailableBytes (src/Writer.h:75)

  /** writeData's guard as written: the length strictly below the available bytes. */
  predicate AcceptsAsWritten(img: Image, length: nat)
    requires WellFormed(img)
  {
    length < NumberOfAvailableBytes(img) && length > 0
  }

  /**
   * A payload exactly as large as the free space is refused as written and
   * accepted by the corrected writeData.  The eighth file of the
   * maximum-files test is such a payload: 83 sectors of 254 bytes.
   */
  lemma FullPayloadRefused(img: Image, data: seq<byte>)
    requires WellFormed(img) && BamConsistent(img) && |data| == NumberOfAvailableBytes(img) && |data| > 0
    ensures !AcceptsAsWritten(img, |data|)
    ensures WriteData(img, data).1 != TRACK_SECTOR_INVALID
  {
    WriteDataAccepts(img, data);
  }

  /** getNumberOfAvailableBytes as written: 254 bytes per free sector, cut to 16 bits. */
  function AvailableBytesAsWritten(img: Image): (n: nat)
    requires WellFormed(img)
    ensures n < 0x1_0000
    ensures n == NumberOfAvailableBytes(img) % 0x1_0000
  {
    (NumberOfFreeSectors(img) * DATA_BYTES_PER_SECTOR) % 0x1_0000
  }

  /** On a new image the 168656 free bytes wrap to 37584, so the large-file test's payload is refused. */
  lemma AvailableBytesWrap()
    ensures NumberOfAvailableBytes(FreshImage()) == 168656
    ensures AvailableBytesAsWritten(FreshImage()) == 37584
    ensures !(168656 < AvailableBytesAsWritten(FreshImage()))
  {
    FreshImageFacts();
  }

  // ---------------------------------------------------------------------
  // The result of writeData (src/Writer.cpp:361-368)

  /** writeData as written: the inner ret shadows the outer one, so the answer is always invalid. */
  function WriteDataAsWritten(img: Image, data: seq<byte>): (res: (Image, TrackSector))
    requires WellFormed(img)
    ensures res.0 == WriteData(img, data).0
    ensures res.1 == TRACK_SECTOR_INVALID
  {
    (WriteData(img, data).0, TRACK_SECTOR_INVALID)
  }

  /** writeFile on top of that writeData: the slot is never completed and the answer is false. */
  function WriteFileShadowedAsWritten(img: Image, name: seq<byte>, data: seq<byte>): (res: (Image, bool))
    requires WellFormed(img)
  {
    var slot := FirstFreeSlot(img, 0);
    if slot == DIR_ENTRIES_PER_SECTOR then (img, false)
    else
      CompleteSlot(WriteDataAsWritten(img, data), slot, name, data)
  }

  /**
   * The end of writeFile as written: given writeData's image and answer, an
   * invalid answer returns false with the payload's sectors still claimed,
   * any other fills the slot in.
   */
  function CompleteSlot(written: (Image, TrackSector), slot: nat, name: seq<byte>, data: seq<byte>): (res: (Image, bool))
    requires WellFormed(written.0) && slot < DIR_ENTRIES_PER_SECTOR
    requires written.1 == TRACK_SECTOR_INVALID || ValidTs(written.1)
    ensures res.1 <==> written.1 != TRACK_SECTOR_INVALID
    ensures !res.1 ==> res.0 == written.0
  {
    var (img1, first) := written;
    if first == TRACK_SECTOR_INVALID then (img1, false)
    else (img1[FIRST_DIR_SECTOR_IDX := WriteEntry(img1[FIRST_DIR_SECTOR_IDX], slot, first, D64Name(name), Blocks(|data|))], true)
  }

  /**
   * Every writeFile fails as written, whatever the image and the payload:
   * once a directory slot is free, the payload's sectors stay claimed and
   * the answer is false.
   */
  lemma WriteFileAlwaysFails(img: Image, name: seq<byte>, data: seq<byte>)
    requires WellFormed(img)
    ensures !WriteFileShadowedAsWritten(img, name, data).1
    ensures FirstFreeSlot(img, 0) < DIR_ENTRIES_PER_SECTOR ==>
              WriteFileShadowedAsWritten(img, name, data).0 == WriteDataAsWritten(img, data).0
  {
  }

  // ---------------------------------------------------------------------
  // The copy of writeDataToSector (src/Writer.cpp:399-400) and the link
  // header of the last sector (src/Writer.cpp:385-405)

  /**
   * writeDataToSector's stores as written: the previous sector is linked,
   * and std::copy runs from the sector into the caller's buffer, so sector
   * idx is not written.
   */
  function StoreChunkAsWritten(img: Image, idx: nat, data: seq<byte>, prev: nat): (r: Image)
    requires WellFormed(img) && idx < NUM_SECTORS && (prev == INVALID || prev < NUM_SECTORS)
    ensures WellFormed(r)
    ensures prev != idx ==> r[idx] == img[idx]
  {
    if prev != INVALID then img[prev := LinkTo(img[prev], idx)] else img
  }

  /** No payload byte reaches the image: a zero sector stays zero where the chunk should be. */
  lemma PayloadNeverStored(img: Image, idx: nat, data: seq<byte>, prev: nat)
    requires WellFormed(img) && idx < NUM_SECTORS && (prev == INVALID || (prev < NUM_SECTORS && prev != idx))
    requires img[idx] == ZeroSector() && |data| > 0 && data[0] != 0
    ensures StoreChunkAsWritten(img, idx, data, prev)[idx][2] != data[0]
    ensures StoreChunk(img, idx, data, prev)[idx][2] == data[0]
  {
    StoreChunkBytes(img, idx, data, prev);
    assert StoreChunk(img, idx, data, prev)[idx][2..2 + Min254(|data|)][0] == data[0];
  }

  /** The stores with the copy turned round but the last sector left without its (0, count) header. */
  function StoreChunkUnclosedAsWritten(img: Image, idx: nat, data: seq<byte>, prev: nat): (r: Image)
    requires WellFormed(img) && idx < NUM_SECTORS && (prev == INVALID || prev < NUM_SECTORS)
    ensures WellFormed(r)
    ensures prev != idx ==> r[idx][..2] == img[idx][..2]
  {
    var linked := if prev != INVALID then img[prev := LinkTo(img[prev], idx)] else img;
    linked[idx := WriteString(linked[idx], 2, data[..Min254(|data|)])]
  }

  /** A one-sector file stored in a zero sector does not read back: its header reads as (0, 0). */
  lemma UnclosedChainUnreadable(img: Image, idx: nat, data: seq<byte>)
    requires WellFormed(img) && idx < NUM_SECTORS && img[idx] == ZeroSector()
    requires 0 < |data| <= DATA_BYTES_PER_SECTOR
    ensures Walk(StoreChunkUnclosedAsWritten(img, idx, data, INVALID), TrackAndSector(idx), 1) == None
    ensures StoreChunk(img, idx, data, INVALID)[idx][0] == 0 && StoreChunk(img, idx, data, INVALID)[idx][1] == |data|
  {
    var r := StoreChunkUnclosedAsWritten(img, idx, data, INVALID);
    assert SectorIdx(TrackAndSector(idx)) == idx;
    assert r[idx][0] == img[idx][..2][0] == 0;
    assert r[idx][1] == img[idx][..2][1] == 0;
    StoreChunkBytes(img, idx, data, INVALID);
  }

  // ---------------------------------------------------------------------
  // The read position pData of writeData (src/Writer.cpp:370-378)

  /** The bytes each writeDataToSector call receives as written: pData stays put, only length shrinks. */
  function ChunksAsWritten(data: seq<byte>, length: nat): (chunks: seq<seq<byte>>)
    requires length <= |data|
    ensures |chunks| == Blocks(length)
    ensures forall i :: 0 <= i < |chunks| ==> 0 < |chunks[i]| <= length && chunks[i] == data[..|chunks[i]|]
    decreases length
  {
    if length == 0 then []
    else
      var n := Min254(length);
      BlocksMin(length);
      [data[..n]] + ChunksAsWritten(data, length - n)
  }

  /** One sector's worth of bytes less is one block less. */
  lemma BlocksMin(length: nat)
    requires length > 0
    ensures Blocks(length) == 1 + Blocks(length - Min254(length))
  {
    if length > DATA_BYTES_PER_SECTOR {
      BlocksStep(length);
    }
  }

  /**
   * For a 255-byte payload the second sector gets byte 0 again where the
   * corrected chain stores byte 254.
   */
  lemma SecondChunkRepeats(data: seq<byte>)
    requires |data| == DATA_BYTES_PER_SECTOR + 1 && data[0] != data[DATA_BYTES_PER_SECTOR]
    ensures ChunksAsWritten(data, |data|) == [data[..DATA_BYTES_PER_SECTOR], data[..1]]
    ensures ChunksAsWritten(data, |data|)[1] != data[DATA_BYTES_PER_SECTOR..]
  {
    assert ChunksAsWritten(data, 1) == [data[..1]];
  }

  // ---------------------------------------------------------------------
  // Bytes 30-31 of the directory entry (src/Writer.cpp:344-347)

  /** Entry bytes 30-31 as written: the payload length in bytes. */
  function LengthFieldAsWritten(length: nat): (f: seq<byte>)
    ensures |f| == 2
    ensures length < 0x1_0000 ==> f[0] as int + 256 * f[1] as int == length
  {
    [length % 256, (length / 256) % 256]
  }

  /** From two bytes on, a payload has fewer sectors than bytes. */
  lemma FewerBlocksThanBytes(length: nat)
    requires length >= 2
    ensures Blocks(length) < length
  {
  }

  /** The decoder walks a stored chain only with its exact length as sector count. */
  lemma {:induction false} WalkNeedsExactCount(img: Image, chain: seq<nat>, data: seq<byte>, sectors: nat)
    requires WellFormed(img) && ChainStored(img, chain, data)
    requires sectors != |chain|
    ensures Walk(img, TrackAndSector(chain[0]), sectors) == None
    decreases |chain|
  {
    if |chain| == 1 {
      WalkLastNone(img, chain[0], sectors);
    } else if sectors > 0 {
      if sectors > 1 {
        WalkNeedsExactCount(img, chain[1..], data[DATA_BYTES_PER_SECTOR..], sectors - 1);
        assert chain[1..][0] == chain[1];
      }
      WalkLinkNone(img, chain[0], chain[1], sectors);
    }
  }

  /** A last sector (header track 0) reads back only as a one-sector walk. */
  lemma WalkLastNone(img: Image, idx: nat, sectors: nat)
    requires WellFormed(img) && idx < NUM_SECTORS && img[idx][0] == 0 && sectors != 1
    ensures Walk(img, TrackAndSector(idx), sectors) == None
  {
    assert SectorIdx(TrackAndSector(idx)) == idx;
  }

  /** A linked sector fails to read when the walk from its successor fails or no sector is left for it. */
  lemma WalkLinkNone(img: Image, idx: nat, next: nat, sectors: nat)
    requires WellFormed(img) && idx < NUM_SECTORS && next < NUM_SECTORS && sectors > 0
    requires img[idx][0] == TrackAndSector(next).track + 1 && img[idx][1] == TrackAndSector(next).sector
    requires sectors == 1 || Walk(img, TrackAndSector(next), sectors - 1) == None
    ensures Walk(img, TrackAndSector(idx), sectors) == None
  {
    assert SectorIdx(TrackAndSector(idx)) == idx;
    assert TrackSector(img[idx][0] - 1, img[idx][1]) == TrackAndSector(next);
  }

  /**
   * A stored file of 2 .. 65535 bytes whose entry carries its length does
   * not read back: the length is not its number of sectors.
   */
  lemma LengthFieldUnreadable(img: Image, chain: seq<nat>, data: seq<byte>)
    requires WellFormed(img) && ChainStored(img, chain, data)
    requires forall i :: 0 <= i < |chain| ==> chain[i] < NUM_SECTORS && Occupied(img, chain[i])
    requires 2 <= |data| < 0x1_0000
    ensures var f := LengthFieldAsWritten(|data|);
            Walk(img, TrackAndSector(chain[0]), f[0] as int + 256 * f[1] as int) == None
    ensures Walk(img, TrackAndSector(chain[0]), Blocks(|data|)) == Some(data)
  {
    ChainLength(img, chain, data);
    FewerBlocksThanBytes(|data|);
    WalkNeedsExactCount(img, chain, data, |data|);
    WalkStoredChain(img, chain, data);
  }

  // ---------------------------------------------------------------------
  // The slot bytes written before writeData (src/Writer.cpp:323-334)

  /** writeFile as written: link and type bytes stored before writeData is known to succeed. */
  function WriteFileEarlyAsWritten(img: Image, name: seq<byte>, data: seq<byte>): (res: (Image, bool))
    requires WellFormed(img)
    ensures res.1 == WriteFile(img, name, data).1
  {
    var slot := FirstFreeSlot(img, 0);
    if slot == DIR_ENTRIES_PER_SECTOR then (img, false)
    else
      var o := BYTES_PER_DIR_ENTRY * slot;
      var dir := img[FIRST_DIR_SECTOR_IDX];
      var linked := if slot == 0 then dir[o := DIR_LINK_TRACK][o + 1 := DIR_LINK_SECTOR] else dir[o := 0][o + 1 := 0];
      var typed: Sector := linked[o + TYPE_OFFSET := PRG_TYPE];
      var pre := img[FIRST_DIR_SECTOR_IDX := typed];
      WriteDataSameAnswer(img, pre, data);
      var (img1, first) := WriteData(pre, data);
      if first == TRACK_SECTOR_INVALID then (img1, false)
      else (img1[FIRST_DIR_SECTOR_IDX := WriteEntry(img1[FIRST_DIR_SECTOR_IDX], slot, first, D64Name(name), Blocks(|data|))], true)
  }

  /** writeData answers the same on two images with the same BAM. */
  lemma WriteDataSameAnswer(img: Image, img': Image, data: seq<byte>)
    requires WellFormed(img) && WellFormed(img') && img'[BAM_SECTOR_IDX] == img[BAM_SECTOR_IDX]
    ensures WriteData(img', data).1 == WriteData(img, data).1
  {
    BamOnly(img, img');
    FirstFreeSameBam(img, img', 0);
  }

  /** The first free sector from track t on depends on the BAM sector alone. */
  lemma {:induction false} FirstFreeSameBam(img: Image, img': Image, t: nat)
    requires WellFormed(img) && WellFormed(img') && img'[BAM_SECTOR_IDX] == img[BAM_SECTOR_IDX]
    ensures FirstFreeFrom(img', t) == FirstFreeFrom(img, t)
    decreases NUM_TRACKS - t
  {
    BamOnly(img, img');
    if t < NUM_TRACKS {
      FirstFreeSameBam(img, img', t + 1);
      if t != DIRECTORY_TRACK {
        FirstFreeOnTrackSameBam(img, img', t, 0);
      }
    }
  }

  lemma {:induction false} FirstFreeOnTrackSameBam(img: Image, img': Image, t: nat, s: nat)
    requires WellFormed(img) && WellFormed(img') && img'[BAM_SECTOR_IDX] == img[BAM_SECTOR_IDX] && t < NUM_TRACKS
    ensures FirstFreeOnTrack(img', t, s) == FirstFreeOnTrack(img, t, s)
    decreases SectorsOnTrack(t) - s
  {
    BamOnly(img, img');
    if s < SectorsOnTrack(t) {
      FirstFreeOnTrackSameBam(img, img', t, s + 1);
    }
  }

  /**
   * An empty payload fails, and as written leaves the slot looking used, so
   * the next writeFile skips it; the corrected writeFile leaves the image as
   * it was.
   */
  lemma FailedWriteUsesSlot(img: Image, name: seq<byte>)
    requires WellFormed(img) && FirstFreeSlot(img, 0) < DIR_ENTRIES_PER_SECTOR
    ensures var res := WriteFileEarlyAsWritten(img, name, []);
            !res.1 && SlotUsed(res.0, FirstFreeSlot(img, 0)) && !SlotUsed(img, FirstFreeSlot(img, 0))
    ensures WriteFile(img, name, []) == (img, false)
  {
    var slot := FirstFreeSlot(img, 0);
    var res := WriteFileEarlyAsWritten(img, name, []);
    assert Entry(res.0, slot)[TYPE_OFFSET] == res.0[FIRST_DIR_SECTOR_IDX][BYTES_PER_DIR_ENTRY * slot + TYPE_OFFSET];
  }

  // ---------------------------------------------------------------------
  // The padding of the name (src/Writer.cpp:341-343)

  /** The name field of a slot as written: padded only up to the name's own length, so no 0xA0 is stored. */
  function NameFieldAsWritten(dir: Sector, slot: nat, name: seq<byte>): (r: Sector)
    requires |dir| == BYTES_PER_SECTOR && slot < DIR_ENTRIES_PER_SECTOR && |name| <= NAME_LENGTH
    ensures r == WriteString(dir, BYTES_PER_DIR_ENTRY * slot + NAME_OFFSET, name)
  {
    assert Padded(name, |name|, NAME_PADDING) == name;
    WriteStringWithPadding(dir, BYTES_PER_DIR_ENTRY * slot + NAME_OFFSET, name, |name|, NAME_PADDING)
  }

  /**
   * A one-character name written into a slot whose old name goes on reads
   * back longer than written; padded to 16 bytes it reads back as written.
   * This writer never builds such a slot itself: it starts from a zeroed
   * image and fills each slot once (see UnpaddedNameOnZeroField).  Only an
   * image whose slot already holds a name would show it.
   */
  lemma ShortNameMisread(img: Image, slot: nat, ch: byte)
    requires WellFormed(img) && slot < DIR_ENTRIES_PER_SECTOR && Kept(ch)
    requires var old1 := img[FIRST_DIR_SECTOR_IDX][BYTES_PER_DIR_ENTRY * slot + NAME_OFFSET + 1];
             old1 != NAME_PADDING && old1 != 0
    ensures var r := img[FIRST_DIR_SECTOR_IDX := NameFieldAsWritten(img[FIRST_DIR_SECTOR_IDX], slot, [ch])];
            |FileName(Entry(r, slot))| >= 2
    ensures var dir := img[FIRST_DIR_SECTOR_IDX];
            var r := img[FIRST_DIR_SECTOR_IDX := WriteStringWithPadding(dir, BYTES_PER_DIR_ENTRY * slot + NAME_OFFSET, [ch], NAME_LENGTH, NAME_PADDING)];
            FileName(Entry(r, slot)) == [ch]
  {
    var o := BYTES_PER_DIR_ENTRY * slot;
    var dir := img[FIRST_DIR_SECTOR_IDX];
    var a := Entry(img[FIRST_DIR_SECTOR_IDX := NameFieldAsWritten(dir, slot, [ch])], slot);
    assert a[NAME_OFFSET] == ch && a[NAME_OFFSET + 1] == dir[o + NAME_OFFSET + 1];
    assert FileNameFrom(a, 0) == [ch] + FileNameFrom(a, 1);
    assert FileNameFrom(a, 1) == [a[NAME_OFFSET + 1]] + FileNameFrom(a, 2);
    var b := Entry(img[FIRST_DIR_SECTOR_IDX := WriteStringWithPadding(dir, o + NAME_OFFSET, [ch], NAME_LENGTH, NAME_PADDING)], slot);
    assert b[NAME_OFFSET] == ch && b[NAME_OFFSET + 1] == NAME_PADDING;
    assert FileNameFrom(b, 1) == [];
  }

  /**
   * On a slot whose name field is still zero, as every slot this writer
   * fills is, the unpadded name reads back as written: the 0x00 after it
   * ends the read.
   */
  lemma UnpaddedNameOnZeroField(img: Image, slot: nat, name: seq<byte>)
    requires WellFormed(img) && slot < DIR_ENTRIES_PER_SECTOR && |name| <= NAME_LENGTH
    requires forall j :: 0 <= j < |name| ==> name[j] != NAME_PADDING && name[j] != 0
    requires |name| < NAME_LENGTH ==> img[FIRST_DIR_SECTOR_IDX][BYTES_PER_DIR_ENTRY * slot + NAME_OFFSET + |name|] == 0
    ensures var r := img[FIRST_DIR_SECTOR_IDX := NameFieldAsWritten(img[FIRST_DIR_SECTOR_IDX], slot, name)];
            FileName(Entry(r, slot)) == name
  {
    var o := BYTES_PER_DIR_ENTRY * slot;
    var dir := img[FIRST_DIR_SECTOR_IDX];
    var e := Entry(img[FIRST_DIR_SECTOR_IDX := NameFieldAsWritten(dir, slot, name)], slot);
    forall j | 0 <= j < |name| ensures e[NAME_OFFSET + j] == name[j] {
      assert e[NAME_OFFSET + j] == WriteString(dir, o + NAME_OFFSET, name)[o + NAME_OFFSET + j];
    }
    if |name| < NAME_LENGTH {
      assert e[NAME_OFFSET + |name|] == dir[o + NAME_OFFSET + |name|];
    }
    FileNameFromStored(e, name, 0);
  }

  // ---------------------------------------------------------------------
  // Upper-casing in makeD64FileName (src/Writer.cpp:216-220)

  /** The two decimal digits of a number in 10..99. */
  function Decimal2(n: nat): (d: seq<byte>)
    requires 10 <= n < 100
    ensures |d| == 2 && 0x30 <= d[0] <= 0x39 && 0x30 <= d[1] <= 0x39
  {
    [0x30 + n / 10, 0x30 + n % 10]
  }

  /** One character as written: a lower-case letter is streamed as the int code of its capital. */
  function D64CharAsWritten(ch: byte): (s: seq<byte>)
    ensures !LowerCase(ch) ==> s == [D64Char(ch)]
    ensures LowerCase(ch) ==> |s| == 2
  {
    if Kept(ch) then [ch]
    else if LowerCase(ch) then Decimal2(ch - 0x61 + 0x41)
    else [UNDERSCORE]
  }

  /** makeD64FileName as written, from character i on. */
  function D64NameAsWritten(name: seq<byte>, i: nat): (r: seq<byte>)
    requires i <= |name|
    decreases |name| - i
  {
    if i == |name| || i >= MAX_NAME_LENGTH then []
    else D64CharAsWritten(name[i]) + D64NameAsWritten(name, i + 1)
  }

  /** ".txt" comes out as ".848884". */
  lemma HollarieTail()
    ensures D64NameAsWritten(HOLLARIE, 8) == [0x2E, 0x38, 0x34, 0x38, 0x38, 0x38, 0x34]
  {
    assert D64NameAsWritten(HOLLARIE, 12) == [];
    assert D64NameAsWritten(HOLLARIE, 11) == [0x38, 0x34];
    assert D64NameAsWritten(HOLLARIE, 10) == [0x38, 0x38, 0x38, 0x34];
    assert D64NameAsWritten(HOLLARIE, 9) == [0x38, 0x34, 0x38, 0x38, 0x38, 0x34];
  }

  /** "arie" comes out as "65827369". */
  lemma HollarieMiddle()
    ensures D64NameAsWritten(HOLLARIE, 4) == [0x36, 0x35, 0x38, 0x32, 0x37, 0x33, 0x36, 0x39] + D64NameAsWritten(HOLLARIE, 8)
  {
    var tail := D64NameAsWritten(HOLLARIE, 8);
    assert D64NameAsWritten(HOLLARIE, 7) == [0x36, 0x39] + tail;
    assert D64NameAsWritten(HOLLARIE, 6) == [0x37, 0x33, 0x36, 0x39] + tail;
    assert D64NameAsWritten(HOLLARIE, 5) == [0x38, 0x32, 0x37, 0x33, 0x36, 0x39] + tail;
  }

  /** "ll" comes out as "7676". */
  lemma HollarieLl()
    ensures D64NameAsWritten(HOLLARIE, 2) == [0x37, 0x36, 0x37, 0x36] + D64NameAsWritten(HOLLARIE, 4)
  {
    var mid := D64NameAsWritten(HOLLARIE, 4);
    assert D64CharAsWritten(HOLLARIE[3]) == [0x37, 0x36];
    assert D64NameAsWritten(HOLLARIE, 3) == [0x37, 0x36] + mid;
    assert D64CharAsWritten(HOLLARIE[2]) == [0x37, 0x36];
  }

  /** "ho" comes out as "7279". */
  lemma HollarieHo()
    ensures D64NameAsWritten(HOLLARIE, 0) == [0x37, 0x32, 0x37, 0x39] + D64NameAsWritten(HOLLARIE, 2)
  {
    var rest := D64NameAsWritten(HOLLARIE, 2);
    assert D64CharAsWritten(HOLLARIE[1]) == [0x37, 0x39];
    assert D64NameAsWritten(HOLLARIE, 1) == [0x37, 0x39] + rest;
    assert D64CharAsWritten(HOLLARIE[0]) == [0x37, 0x32];
  }

  /** "holl" comes out as "72797676". */
  lemma HollarieHead()
    ensures D64NameAsWritten(HOLLARIE, 0) == [0x37, 0x32, 0x37, 0x39, 0x37, 0x36, 0x37, 0x36] + D64NameAsWritten(HOLLARIE, 4)
  {
    HollarieHo();
    HollarieLl();
  }

  /**
   * "hollarie.txt" comes out as "7279767665827369.848884" (23 bytes, past
   * the 16 a name may have), not as "HOLLARIE.TXT".
   */
  lemma HollarieAsWritten()
    ensures D64NameAsWritten(HOLLARIE, 0)
         == [0x37, 0x32, 0x37, 0x39, 0x37, 0x36, 0x37, 0x36, 0x36, 0x35, 0x38, 0x32,
             0x37, 0x33, 0x36, 0x39, 0x2E, 0x38, 0x34, 0x38, 0x38, 0x38, 0x34]
  {
    HollarieHead();
    HollarieMiddle();
    HollarieTail();
  }

  // ---------------------------------------------------------------------
  // The start track check of the decoder (test/WriterTestHelper.cpp:69-88)

  /** getStartingTrackSector as written: the raw 1-based track is checked against 0-based bounds. */
  function StartingTrackSectorAsWritten(e: seq<byte>): (r: Option<TrackSector>)
    requires |e| == BYTES_PER_DIR_ENTRY
    ensures r.Some? ==> r.value.sector == e[4]
  {
    if e[3] > 34 || e[4] >= SectorsOnTrack(e[3]) then None
    else Some(TrackSector(ToByte((e[3] as int + 255) % 256), e[4]))
  }

  /**
   * A file starting on the last track (stored as 35) is refused, and a
   * start track of 0 is taken for track 255; the corrected check does the
   * opposite in both cases.
   */
  lemma StartTrackCheckOff(e: seq<byte>)
    requires |e| == BYTES_PER_DIR_ENTRY
    ensures e[3] == 35 && e[4] == 0 ==> StartingTrackSectorAsWritten(e) == None && StartingTrackSector(e) == Some(TrackSector(34, 0))
    ensures e[3] == 0 && e[4] == 0 ==> StartingTrackSectorAsWritten(e) == Some(TrackSector(255, 0)) && StartingTrackSector(e) == None
  {
  }
}
