/**
 * The Block Availability Map in sector 357 (src/Writer.cpp:26-72,140-168 and
 * the reader's view, test/WriterTestHelper.cpp:14-25).  Each of the 35 tracks
 * owns a 4-byte entry at offset 4 + 4 * track: byte 0 is the number of free
 * sectors on the track, bytes 1..3 the little-endian bitmap in which a set
 * bit marks a free sector.
 */
module Bam {
  import opened Geometry
  import opened Bits
  import opened Disk

  /** Offset of a track's entry inside the BAM sector. */
  function EntryOffset(track: nat): (o: nat)
    requires track < NUM_TRACKS
    ensures 4 <= o && o + 4 <= 0x90
  {
    4 + 4 * track
  }

  /** A 3-byte little-endian value. */
  function LittleEndian24(b1: byte, b2: byte, b3: byte): (v: nat)
    ensures v < Pow2(24)
  {
    Pow2Bytes();
    b1 as int + 256 * b2 as int + 65536 * b3 as int
  }

  /** Bitmap of a track read from a BAM sector: bytes 1..3 of its entry. */
  function EntryBits(bam: Sector, track: nat): (bits: nat)
    requires |bam| == BYTES_PER_SECTOR && track < NUM_TRACKS
    ensures bits < Pow2(24)
  {
    var o := EntryOffset(track);
    LittleEndian24(bam[o + 1], bam[o + 2], bam[o + 3])
  }

  /** getSectorBitsOfTrack: the track's bitmap in the image's BAM sector. */
  function SectorBitsOfTrack(img: Image, track: nat): (bits: nat)
    requires WellFormed(img) && track < NUM_TRACKS
    ensures bits < Pow2(24)
  {
    EntryBits(img[BAM_SECTOR_IDX], track)
  }

  /** Byte 0 of the track's entry. */
  function FreeCountByte(img: Image, track: nat): byte
    requires WellFormed(img) && track < NUM_TRACKS
  {
    img[BAM_SECTOR_IDX][EntryOffset(track)]
  }

  /** isTrackSectorAvailable: the sector's bit is set in its track's bitmap. */
  predicate IsFree(img: Image, track: nat, sector: nat)
    requires WellFormed(img) && track < NUM_TRACKS
  {
    Bit(SectorBitsOfTrack(img, track), sector)
  }

  /** Free sectors of one track: the population count of its bitmap. */
  function FreeOnTrack(img: Image, track: nat): nat
    requires WellFormed(img) && track < NUM_TRACKS
  {
    Popcount64c(SectorBitsOfTrack(img, track))
  }

  /** Free sectors on tracks below n, the directory track not counted. */
  function FreeSectorsBelow(img: Image, n: nat): nat
    requires WellFormed(img) && n <= NUM_TRACKS
  {
    if n == 0 then 0
    else FreeSectorsBelow(img, n - 1) + (if n - 1 == DIRECTORY_TRACK then 0 else FreeOnTrack(img, n - 1))
  }

  /** getNumberOfFreeSectors */
  function NumberOfFreeSectors(img: Image): nat
    requires WellFormed(img)
  {
    FreeSectorsBelow(img, NUM_TRACKS)
  }

  /**
   * The BAM describes the tracks consistently: no bit is set at or beyond a
   * track's sector count, and each count byte is its bitmap's population count.
   */
  predicate BamConsistent(img: Image)
    requires WellFormed(img)
  {
    forall t: nat :: t < NUM_TRACKS ==>
      SectorBitsOfTrack(img, t) < Pow2(SectorsOnTrack(t)) &&
      FreeCountByte(img, t) == Popcount64c(SectorBitsOfTrack(img, t))
  }

  /** A data sector: a valid coordinate off the directory track. */
  predicate DataSector(t: nat, s: nat) {
    t < NUM_TRACKS && t != DIRECTORY_TRACK && s < SectorsOnTrack(t)
  }

  // ---------------------------------------------------------------------
  // Bits of a 3-byte little-endian value

  lemma Pow2Bytes()
    ensures Pow2(8) == 256 && Pow2(16) == 65536 && Pow2(24) == 16777216
  {
    assert Pow2(4) == 16;
    Pow2Add(4, 4);
    Pow2Add(8, 8);
    Pow2Add(16, 8);
  }

  /** Byte and bit position of bit s of a 3-byte value. */
  lemma ByteOfBit(s: nat)
    requires s < 24
    ensures s < 8 ==> s / 8 == 0 && s % 8 == s
    ensures 8 <= s < 16 ==> s / 8 == 1 && s % 8 == s - 8
    ensures 16 <= s ==> s / 8 == 2 && s % 8 == s - 16
  {
  }

  /** The bits of a + 256 * b: the low 8 are a's, the rest are b's. */
  lemma BitSplit8(a: byte, b: nat, s: nat)
    ensures Bit(a + 256 * b, s) <==> if s < 8 then Bit(a, s) else Bit(b, s - 8)
  {
    Pow2Bytes();
    BitSplit(a, b, 8, s);
  }

  /** Bit s of a 3-byte value is bit s % 8 of byte s / 8. */
  lemma BytesBit(b1: byte, b2: byte, b3: byte, s: nat)
    requires s < 24
    ensures Bit(LittleEndian24(b1, b2, b3), s) <==>
            Bit(if s < 8 then b1 else if s < 16 then b2 else b3, s % 8)
  {
    ByteOfBit(s);
    var hi := b2 + 256 * b3;
    assert LittleEndian24(b1, b2, b3) == b1 + 256 * hi;
    BitSplit8(b1, hi, s);
    if s >= 8 {
      BitSplit8(b2, b3, s - 8);
    }
  }

  /** 2^s split into its byte position and its bit inside the byte. */
  lemma Pow2ByteSplit(s: nat)
    requires s < 24
    ensures Pow2(s) == Pow2(s % 8) * (if s < 8 then 1 else if s < 16 then 256 else 65536)
  {
    ByteOfBit(s);
    Pow2Bytes();
    if s >= 16 {
      Pow2Add(16, s - 16);
    } else if s >= 8 {
      Pow2Add(8, s - 8);
    }
  }

  // ---------------------------------------------------------------------
  // setSectorOccupied

  /**
   * Clear a set bit in a track's entry: the bitmap byte holding the sector
   * loses the bit and the count byte goes down by one (an 8-bit decrement).
   */
  function ClearEntryBit(bam: Sector, track: nat, sector: nat): (r: Sector)
    requires |bam| == BYTES_PER_SECTOR && track < NUM_TRACKS && sector < 24
    requires Bit(EntryBits(bam, track), sector)
    ensures |r| == BYTES_PER_SECTOR
    ensures forall j :: (0 <= j < BYTES_PER_SECTOR && j != EntryOffset(track) &&
                         j != EntryOffset(track) + 1 + sector / 8) ==> r[j] == bam[j]
    ensures r[EntryOffset(track)] == Dec8(bam[EntryOffset(track)])
    ensures EntryBits(bam, track) >= Pow2(sector)
    ensures EntryBits(r, track) == EntryBits(bam, track) - Pow2(sector)
  {
    var o := EntryOffset(track);
    var i := o + 1 + sector / 8;
    ClearStores(bam, track, sector);
    bam[i := bam[i] - Pow2(sector % 8)][o := Dec8(bam[o])]
  }

  /** The two stores of ClearEntryBit take 2^sector off the track's bitmap. */
  lemma ClearStores(bam: Sector, track: nat, sector: nat)
    requires |bam| == BYTES_PER_SECTOR && track < NUM_TRACKS && sector < 24
    requires Bit(EntryBits(bam, track), sector)
    ensures var o := EntryOffset(track);
            var i := o + 1 + sector / 8;
            o < i < BYTES_PER_SECTOR && bam[i] >= Pow2(sector % 8) &&
            EntryBits(bam, track) >= Pow2(sector) &&
            EntryBits(bam[i := bam[i] - Pow2(sector % 8)][o := Dec8(bam[o])], track) ==
              EntryBits(bam, track) - Pow2(sector)
  {
    var o := EntryOffset(track);
    var i := o + 1 + sector / 8;
    var m := sector % 8;
    ByteOfBit(sector);
    BytesBit(bam[o + 1], bam[o + 2], bam[o + 3], sector);
    Pow2ByteSplit(sector);
    var scale := ByteScale(o, i);
    assert Bit(bam[i], m) && Pow2(sector) == Pow2(m) * scale by {
      if sector < 8 {
        assert i == o + 1;
      } else if sector < 16 {
        assert i == o + 2;
      } else {
        assert i == o + 3;
      }
    }
    BitAtLeast(bam[i], m);
    StoreInEntry(bam, o, i, Pow2(m), Dec8(bam[o]));
  }

  /** Weight of entry byte i (one of o + 1 .. o + 3) in the track's bitmap. */
  function ByteScale(o: nat, i: nat): (scale: nat)
    ensures scale >= 1
  {
    if i == o + 1 then 1 else if i == o + 2 then 256 else 65536
  }

  /** Taking q off bitmap byte i and storing c in the count byte takes q times the byte's weight off the bitmap. */
  lemma StoreInEntry(bam: Sector, o: nat, i: nat, q: nat, c: byte)
    requires |bam| == BYTES_PER_SECTOR && o + 4 <= BYTES_PER_SECTOR && o < i <= o + 3 && bam[i] >= q
    ensures var r := bam[i := bam[i] - q][o := c];
            LittleEndian24(r[o + 1], r[o + 2], r[o + 3]) ==
              LittleEndian24(bam[o + 1], bam[o + 2], bam[o + 3]) - q * ByteScale(o, i)
  {
    var r := bam[i := bam[i] - q][o := c];
    if i == o + 1 {
      assert r[o + 1] == bam[o + 1] - q && r[o + 2] == bam[o + 2] && r[o + 3] == bam[o + 3];
    } else if i == o + 2 {
      assert r[o + 1] == bam[o + 1] && r[o + 2] == bam[o + 2] - q && r[o + 3] == bam[o + 3];
    } else {
      assert r[o + 1] == bam[o + 1] && r[o + 2] == bam[o + 2] && r[o + 3] == bam[o + 3] - q;
    }
  }

  /**
   * Claim the sector at (track, sector): clear its bit in the track's entry.
   * A sector already occupied is left as it is.  Only the claimed track's
   * entry in the BAM sector can change.
   */
  function ClaimSector(img: Image, track: nat, sector: nat): (r: Image)
    requires WellFormed(img) && track < NUM_TRACKS && sector < SectorsOnTrack(track)
    ensures WellFormed(r)
    ensures forall k, j :: (0 <= k < NUM_SECTORS && 0 <= j < BYTES_PER_SECTOR &&
                            (k != BAM_SECTOR_IDX || j < EntryOffset(track) || j >= EntryOffset(track) + 4)) ==>
              r[k][j] == img[k][j]
  {
    if IsFree(img, track, sector) then
      img[BAM_SECTOR_IDX := ClearEntryBit(img[BAM_SECTOR_IDX], track, sector)]
    else
      img
  }

  /** setSectorOccupied: claim the sector with linear index idx. */
  function SetSectorOccupied(img: Image, idx: nat): (r: Image)
    requires WellFormed(img) && idx < NUM_SECTORS
    ensures WellFormed(r)
    ensures forall k, j :: (0 <= k < NUM_SECTORS && 0 <= j < BYTES_PER_SECTOR &&
                            (k != BAM_SECTOR_IDX || j < EntryOffset(TrackAndSector(idx).track) ||
                             j >= EntryOffset(TrackAndSector(idx).track) + 4)) ==>
              r[k][j] == img[k][j]
  {
    var ts := TrackAndSector(idx);
    ClaimSector(img, ts.track, ts.sector)
  }

  /** A BAM sector changed only inside one track's entry keeps every other entry. */
  lemma OtherEntriesKept(bam: Sector, r: Sector, track: nat, t: nat)
    requires |bam| == BYTES_PER_SECTOR && |r| == BYTES_PER_SECTOR && track < NUM_TRACKS
    requires forall j :: 0 <= j < BYTES_PER_SECTOR && (j < EntryOffset(track) || j >= EntryOffset(track) + 4) ==>
               r[j] == bam[j]
    requires t < NUM_TRACKS && t != track
    ensures EntryBits(r, t) == EntryBits(bam, t) && r[EntryOffset(t)] == bam[EntryOffset(t)]
  {
    var o := EntryOffset(t);
    assert r[o + 1] == bam[o + 1] && r[o + 2] == bam[o + 2] && r[o + 3] == bam[o + 3];
  }

  /** A claim leaves the entry of every track but the claimed one, and of a claimed one if it was occupied. */
  lemma ClaimKeeps(img: Image, track: nat, sector: nat, t: nat)
    requires WellFormed(img) && track < NUM_TRACKS && sector < SectorsOnTrack(track) && t < NUM_TRACKS
    requires t != track || !IsFree(img, track, sector)
    ensures SectorBitsOfTrack(ClaimSector(img, track, sector), t) == SectorBitsOfTrack(img, t)
    ensures FreeCountByte(ClaimSector(img, track, sector), t) == FreeCountByte(img, t)
  {
    if IsFree(img, track, sector) {
      var bam := img[BAM_SECTOR_IDX];
      OtherEntriesKept(bam, ClearEntryBit(bam, track, sector), track, t);
    }
  }

  /** Claiming a free sector takes its bit off the bitmap and one off the count byte. */
  lemma ClaimClears(img: Image, track: nat, sector: nat)
    requires WellFormed(img) && track < NUM_TRACKS && sector < SectorsOnTrack(track)
    requires IsFree(img, track, sector)
    ensures SectorBitsOfTrack(img, track) >= Pow2(sector)
    ensures SectorBitsOfTrack(ClaimSector(img, track, sector), track) == SectorBitsOfTrack(img, track) - Pow2(sector)
    ensures FreeCountByte(ClaimSector(img, track, sector), track) == Dec8(FreeCountByte(img, track))
  {
    var r := ClaimSector(img, track, sector);
    assert r[BAM_SECTOR_IDX] == ClearEntryBit(img[BAM_SECTOR_IDX], track, sector);
  }

  /** Clearing bit s, seen from bit u. */
  lemma BitClearAt(x: nat, s: nat, u: nat)
    requires Bit(x, s)
    ensures x >= Pow2(s) && (Bit(x - Pow2(s), u) <==> u != s && Bit(x, u))
  {
    BitClear(x, s);
  }

  /** Claiming changes the claimed track's bitmap by exactly the sector's bit. */
  /** Claiming a sector keeps the bitmaps and count bytes of every other track. */
  lemma ClaimOtherTracks(img: Image, track: nat, sector: nat)
    requires WellFormed(img) && track < NUM_TRACKS && sector < SectorsOnTrack(track)
    ensures var r := ClaimSector(img, track, sector);
            forall t: nat :: t < NUM_TRACKS && t != track ==>
              SectorBitsOfTrack(r, t) == SectorBitsOfTrack(img, t) &&
              FreeCountByte(r, t) == FreeCountByte(img, t)
  {
    forall t: nat | t < NUM_TRACKS && t != track
      ensures SectorBitsOfTrack(ClaimSector(img, track, sector), t) == SectorBitsOfTrack(img, t)
      ensures FreeCountByte(ClaimSector(img, track, sector), t) == FreeCountByte(img, t)
    {
      ClaimKeeps(img, track, sector, t);
    }
  }

  lemma ClaimBits(img: Image, track: nat, sector: nat)
    requires WellFormed(img) && track < NUM_TRACKS && sector < SectorsOnTrack(track)
    ensures var r := ClaimSector(img, track, sector);
            (forall t: nat :: t < NUM_TRACKS && t != track ==>
               SectorBitsOfTrack(r, t) == SectorBitsOfTrack(img, t) &&
               FreeCountByte(r, t) == FreeCountByte(img, t)) &&
            (IsFree(img, track, sector) ==>
               SectorBitsOfTrack(img, track) >= Pow2(sector) &&
               SectorBitsOfTrack(r, track) == SectorBitsOfTrack(img, track) - Pow2(sector) &&
               FreeCountByte(r, track) == Dec8(FreeCountByte(img, track))) &&
            (!IsFree(img, track, sector) ==> r == img) &&
            !IsFree(r, track, sector)
  {
    var r := ClaimSector(img, track, sector);
    ClaimOtherTracks(img, track, sector);
    if IsFree(img, track, sector) {
      var x := SectorBitsOfTrack(img, track);
      ClaimClears(img, track, sector);
      BitCleared(x, sector);
      assert SectorBitsOfTrack(r, track) == x - Pow2(sector);
    } else {
      assert r == img;
    }
  }

  /**
   * After claiming, exactly the claimed sector has become occupied; every
   * other sector of every track keeps its state.
   */
  lemma ClaimIsFree(img: Image, track: nat, sector: nat, t: nat, s: nat)
    requires WellFormed(img) && track < NUM_TRACKS && sector < SectorsOnTrack(track) && t < NUM_TRACKS
    ensures IsFree(ClaimSector(img, track, sector), t, s) <==>
            IsFree(img, t, s) && !(t == track && s == sector)
  {
    if t == track && IsFree(img, track, sector) {
      ClaimClears(img, track, sector);
      BitClearAt(SectorBitsOfTrack(img, t), sector, s);
    } else {
      ClaimKeeps(img, track, sector, t);
    }
  }

  /** Claiming twice is claiming once. */
  lemma ClaimIdempotent(img: Image, track: nat, sector: nat)
    requires WellFormed(img) && track < NUM_TRACKS && sector < SectorsOnTrack(track)
    ensures ClaimSector(ClaimSector(img, track, sector), track, sector) == ClaimSector(img, track, sector)
  {
    if IsFree(img, track, sector) {
      ClaimClears(img, track, sector);
      BitCleared(SectorBitsOfTrack(img, track), sector);
    }
  }

  /** A consistent bitmap and count stay consistent when a set bit is cleared and the count decremented. */
  lemma EntryAfterClear(x: nat, n: nat, c: byte, s: nat, x': nat, c': byte)
    requires x < Pow2(n) && c == Popcount64c(x) && Bit(x, s)
    requires x' == x - Pow2(s) && c' == Dec8(c)
    ensures x' < Pow2(n) && c' == Popcount64c(x')
  {
    PopcountClear(x, s);
    assert c >= 1;
  }

  /** The entry of one track stays consistent across a claim. */
  lemma ClaimTrackConsistent(img: Image, track: nat, sector: nat, t: nat)
    requires WellFormed(img) && track < NUM_TRACKS && sector < SectorsOnTrack(track) && t < NUM_TRACKS
    requires SectorBitsOfTrack(img, t) < Pow2(SectorsOnTrack(t))
    requires FreeCountByte(img, t) == Popcount64c(SectorBitsOfTrack(img, t))
    ensures SectorBitsOfTrack(ClaimSector(img, track, sector), t) < Pow2(SectorsOnTrack(t))
    ensures FreeCountByte(ClaimSector(img, track, sector), t) ==
            Popcount64c(SectorBitsOfTrack(ClaimSector(img, track, sector), t))
  {
    if t == track && IsFree(img, track, sector) {
      ClaimClears(img, track, sector);
      var r := ClaimSector(img, track, sector);
      EntryAfterClear(SectorBitsOfTrack(img, track), SectorsOnTrack(track), FreeCountByte(img, track), sector,
                      SectorBitsOfTrack(r, track), FreeCountByte(r, track));
    } else {
      ClaimKeeps(img, track, sector, t);
    }
  }

  /** Claiming keeps the BAM consistent. */
  lemma ClaimConsistent(img: Image, track: nat, sector: nat)
    requires WellFormed(img) && track < NUM_TRACKS && sector < SectorsOnTrack(track) && BamConsistent(img)
    ensures BamConsistent(ClaimSector(img, track, sector))
  {
    forall t: nat | t < NUM_TRACKS
      ensures SectorBitsOfTrack(ClaimSector(img, track, sector), t) < Pow2(SectorsOnTrack(t))
      ensures FreeCountByte(ClaimSector(img, track, sector), t) ==
              Popcount64c(SectorBitsOfTrack(ClaimSector(img, track, sector), t))
    {
      ClaimTrackConsistent(img, track, sector, t);
    }
  }

  /** One more track in the free count. */
  lemma FreeBelowStep(img: Image, track: nat)
    requires WellFormed(img) && track < NUM_TRACKS
    ensures FreeSectorsBelow(img, track + 1) ==
            FreeSectorsBelow(img, track) + (if track == DIRECTORY_TRACK then 0 else Popcount64c(SectorBitsOfTrack(img, track)))
  {
  }

  /** Free sectors below n after a claim that did not change tracks below n. */
  lemma {:induction false} FreeBelowUnchanged(img: Image, r: Image, n: nat)
    requires WellFormed(img) && WellFormed(r) && n <= NUM_TRACKS
    requires forall t: nat :: t < n ==> SectorBitsOfTrack(r, t) == SectorBitsOfTrack(img, t)
    ensures FreeSectorsBelow(r, n) == FreeSectorsBelow(img, n)
    decreases n
  {
    if n > 0 {
      FreeBelowUnchanged(img, r, n - 1);
    }
  }

  /** Free sectors below n after a claim on track tr: one fewer if tr counts. */
  lemma {:induction false} FreeBelowAfterClaim(img: Image, r: Image, n: nat, tr: nat)
    requires WellFormed(img) && WellFormed(r) && n <= NUM_TRACKS && tr < NUM_TRACKS
    requires forall t: nat :: t < NUM_TRACKS && t != tr ==> FreeOnTrack(r, t) == FreeOnTrack(img, t)
    requires FreeOnTrack(r, tr) + 1 == FreeOnTrack(img, tr)
    ensures FreeSectorsBelow(r, n) ==
            FreeSectorsBelow(img, n) - (if tr < n && tr != DIRECTORY_TRACK then 1 else 0)
    ensures tr < n && tr != DIRECTORY_TRACK ==> FreeSectorsBelow(img, n) >= 1
    decreases n
  {
    if n > 0 {
      FreeBelowAfterClaim(img, r, n - 1, tr);
    }
  }

  /** Claiming a free data sector lowers the free total by one; anything else keeps it. */
  lemma ClaimFreeCount(img: Image, track: nat, sector: nat)
    requires WellFormed(img) && track < NUM_TRACKS && sector < SectorsOnTrack(track)
    ensures NumberOfFreeSectors(ClaimSector(img, track, sector)) ==
            NumberOfFreeSectors(img) - (if IsFree(img, track, sector) && track != DIRECTORY_TRACK then 1 else 0)
  {
    var r := ClaimSector(img, track, sector);
    if IsFree(img, track, sector) {
      ClaimClears(img, track, sector);
      PopcountClear(SectorBitsOfTrack(img, track), sector);
      forall t: nat | t < NUM_TRACKS && t != track
        ensures FreeOnTrack(r, t) == FreeOnTrack(img, t)
      {
        ClaimKeeps(img, track, sector, t);
      }
      FreeBelowAfterClaim(img, r, NUM_TRACKS, track);
    }
  }

  /**
   * setSectorOccupied(idx) marks exactly sector idx occupied, keeps the BAM
   * consistent, is idempotent, and lowers the free total by one when idx was
   * a free data sector.
   */
  lemma SetSectorOccupiedEffect(img: Image, idx: nat)
    requires WellFormed(img) && idx < NUM_SECTORS
    ensures var ts := TrackAndSector(idx);
            var r := SetSectorOccupied(img, idx);
            (forall t: nat, s: nat :: t < NUM_TRACKS ==>
               (IsFree(r, t, s) <==> IsFree(img, t, s) && !(t == ts.track && s == ts.sector))) &&
            (BamConsistent(img) ==> BamConsistent(r)) &&
            SetSectorOccupied(r, idx) == r &&
            NumberOfFreeSectors(r) ==
              NumberOfFreeSectors(img) - (if IsFree(img, ts.track, ts.sector) && ts.track != DIRECTORY_TRACK then 1 else 0)
  {
    var ts := TrackAndSector(idx);
    ClaimFreeCount(img, ts.track, ts.sector);
    ClaimIdempotent(img, ts.track, ts.sector);
    if BamConsistent(img) {
      ClaimConsistent(img, ts.track, ts.sector);
    }
    forall t: nat, s: nat | t < NUM_TRACKS
      ensures IsFree(SetSectorOccupied(img, idx), t, s) <==>
              IsFree(img, t, s) && !(t == ts.track && s == ts.sector)
    {
      ClaimIsFree(img, ts.track, ts.sector, t, s);
    }
  }

  // ---------------------------------------------------------------------
  // The free total and where the free sectors are

  /** With a consistent BAM, a set bit is a valid sector of its track. */
  lemma FreeIsValid(img: Image, t: nat, s: nat)
    requires WellFormed(img) && BamConsistent(img) && t < NUM_TRACKS
    requires IsFree(img, t, s)
    ensures s < SectorsOnTrack(t)
  {
    BitBelow(SectorBitsOfTrack(img, t), SectorsOnTrack(t), s);
  }

  /** Some data sector on a track below n is free exactly when the total below n is positive. */
  lemma {:induction false} FreeBelowPositive(img: Image, n: nat)
    requires WellFormed(img) && BamConsistent(img) && n <= NUM_TRACKS
    ensures FreeSectorsBelow(img, n) > 0 <==>
            exists t: nat, s: nat :: t < n && DataSector(t, s) && IsFree(img, t, s)
    decreases n
  {
    if n > 0 {
      var t := n - 1;
      FreeBelowPositive(img, t);
      if FreeSectorsBelow(img, n) > 0 {
        if FreeSectorsBelow(img, t) > 0 {
          var u: nat, s: nat :| u < t && DataSector(u, s) && IsFree(img, u, s);
          assert u < n;
        } else {
          var s := TrackFreeSector(img, t);
          assert DataSector(t, s) && IsFree(img, t, s);
        }
      }
      if exists u: nat, s: nat :: u < n && DataSector(u, s) && IsFree(img, u, s) {
        var u: nat, s: nat :| u < n && DataSector(u, s) && IsFree(img, u, s);
        if u == t {
          FreeTrackCounts(img, t, s);
        } else {
          assert u < t;
        }
      }
    }
  }

  /** A data track with a positive free count has a free sector. */
  lemma TrackFreeSector(img: Image, t: nat) returns (s: nat)
    requires WellFormed(img) && BamConsistent(img) && t < NUM_TRACKS && t != DIRECTORY_TRACK
    requires FreeOnTrack(img, t) > 0
    ensures s < SectorsOnTrack(t) && IsFree(img, t, s)
  {
    s := SomeBitSet(SectorBitsOfTrack(img, t), SectorsOnTrack(t));
  }

  /** A free sector on a data track makes its free count positive. */
  lemma FreeTrackCounts(img: Image, t: nat, s: nat)
    requires WellFormed(img) && t < NUM_TRACKS && IsFree(img, t, s)
    ensures FreeOnTrack(img, t) > 0
  {
    if SectorBitsOfTrack(img, t) == 0 {
      ZeroHasNoBit(s);
    }
  }

  /** The free total is zero exactly when no data sector is free. */
  lemma NoFreeSectors(img: Image)
    requires WellFormed(img) && BamConsistent(img)
    ensures NumberOfFreeSectors(img) == 0 <==>
            forall t: nat, s: nat :: DataSector(t, s) ==> !IsFree(img, t, s)
  {
    FreeBelowPositive(img, NUM_TRACKS);
  }

  /** With a consistent BAM, the count byte of each track is its free count. */
  lemma CountByteIsFreeCount(img: Image, t: nat)
    requires WellFormed(img) && BamConsistent(img) && t < NUM_TRACKS
    ensures FreeCountByte(img, t) == FreeOnTrack(img, t) == CountBits(SectorBitsOfTrack(img, t), SectorsOnTrack(t))
    ensures FreeOnTrack(img, t) <= SectorsOnTrack(t)
  {
    PopcountCountsBits(SectorBitsOfTrack(img, t), SectorsOnTrack(t));
    CountBitsAtMost(SectorBitsOfTrack(img, t), SectorsOnTrack(t));
  }

  lemma {:induction false} CountBitsAtMost(x: nat, n: nat)
    ensures CountBits(x, n) <= n
    decreases n
  {
    if n > 0 {
      CountBitsAtMost(x, n - 1);
    }
  }

  /** Everything the BAM says depends on the BAM sector alone. */
  lemma BamOnly(a: Image, b: Image)
    requires WellFormed(a) && WellFormed(b) && a[BAM_SECTOR_IDX] == b[BAM_SECTOR_IDX]
    ensures forall t: nat :: t < NUM_TRACKS ==>
              SectorBitsOfTrack(a, t) == SectorBitsOfTrack(b, t) && FreeCountByte(a, t) == FreeCountByte(b, t)
    ensures forall t: nat, s: nat :: t < NUM_TRACKS ==> (IsFree(a, t, s) <==> IsFree(b, t, s))
    ensures NumberOfFreeSectors(a) == NumberOfFreeSectors(b)
    ensures BamConsistent(a) <==> BamConsistent(b)
  {
    FreeBelowUnchanged(b, a, NUM_TRACKS);
  }

  /** With a consistent BAM, tracks below n hold at most their sectors free. */
  lemma {:induction false} FreeBelowAtMost(img: Image, n: nat)
    requires WellFormed(img) && BamConsistent(img) && n <= NUM_TRACKS
    ensures FreeSectorsBelow(img, n) <= SectorsBefore(n)
    decreases n
  {
    if n > 0 {
      FreeBelowAtMost(img, n - 1);
      CountByteIsFreeCount(img, n - 1);
    }
  }

  /** The free total never exceeds the 683 sectors of the disk. */
  lemma FreeTotalAtMost(img: Image)
    requires WellFormed(img) && BamConsistent(img)
    ensures NumberOfFreeSectors(img) <= NUM_SECTORS
  {
    FreeBelowAtMost(img, NUM_TRACKS);
    AllSectorsSum();
  }
}
