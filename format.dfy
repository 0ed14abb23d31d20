/**
 * Formatting a blank image (src/Writer.h:49-53, src/Writer.cpp:26-62): the
 * constructor zero-fills the buffer and initImage writes the BAM sector:
 * header bytes, one entry per track with every sector free, the BAM's own
 * sector claimed, the disk name "DISK" and the fixed id bytes.
 */
module Format {
  import opened Geometry
  import opened Bits
  import opened Disk
  import opened Bam

  /** "DISK" */
  const DISK_NAME: seq<byte> := [0x44, 0x49, 0x53, 0x4B]
  const DISK_NAME_OFFSET: nat := 0x90
  const DISK_NAME_LENGTH: nat := 16
  const PADDING: byte := 0xA0
  /** Bytes 0xA0..0xAA: disk id and DOS type. */
  const DISK_ID: seq<byte> := [0xA0, 0xA0, 0x56, 0x54, 0xA0, 0x2A, 0x2A, 0xA0, 0xA0, 0xA0, 0xA0]

  /** Byte j (0..3) of the formatted entry of a track: its sector count, then the all-free bitmap. */
  function FormatEntryByte(track: nat, j: nat): byte
    requires track < NUM_TRACKS && j < 4
  {
    var n := SectorsOnTrack(track);
    if j == 0 then n
    else if j == 1 then Mask(n) % 256
    else if j == 2 then (Mask(n) / 256) % 256
    else (Mask(n) / 65536) % 256
  }

  /** Byte j of the BAM sector as initImage writes it, before claiming its own sector. */
  function FormatBamByte(j: nat, prev: byte): byte
    requires j < BYTES_PER_SECTOR
  {
    if j == 0 then TrackAndSector(BAM_SECTOR_IDX).track + 1
    else if j == 1 then 0x01
    else if j == 2 then 0x41
    else if j == 3 then 0x00
    else if j < 0x90 then FormatEntryByte((j - 4) / 4, (j - 4) % 4)
    else if j < 0xA0 then Padded(DISK_NAME, DISK_NAME_LENGTH, PADDING)[j - 0x90]
    else if j < 0xAB then DISK_ID[j - 0xA0]
    else if j < 0xFF then 0x00
    else prev
  }

  function FormatBam(bam: Sector): (r: Sector)
    requires |bam| == BYTES_PER_SECTOR
    ensures |r| == BYTES_PER_SECTOR
  {
    seq(BYTES_PER_SECTOR, j requires 0 <= j < BYTES_PER_SECTOR => FormatBamByte(j, bam[j]))
  }

  /** initImage on a buffer: the BAM sector formatted, then sector 357 claimed. */
  function InitImage(img: Image): (r: Image)
    requires WellFormed(img)
    ensures WellFormed(r)
    ensures forall k :: 0 <= k < NUM_SECTORS && k != BAM_SECTOR_IDX ==> r[k] == img[k]
  {
    SetSectorOccupied(img[BAM_SECTOR_IDX := FormatBam(img[BAM_SECTOR_IDX])], BAM_SECTOR_IDX)
  }

  /** The image a new Writer holds. */
  function FreshImage(): (r: Image)
    ensures WellFormed(r)
  {
    InitImage(ZeroImage())
  }

  // ---------------------------------------------------------------------

  /** The all-free bitmap of an n-sector track and its three bytes, for the four zone sizes. */
  lemma MaskBytes(n: nat)
    requires n == 17 || n == 18 || n == 19 || n == 21
    ensures Mask(n) < Pow2(24)
    ensures LittleEndian24(Mask(n) % 256, (Mask(n) / 256) % 256, (Mask(n) / 65536) % 256) == Mask(n)
  {
    Pow2Bytes();
    if n == 17 {
      assert Mask(17) == 0x1_FFFF;
    } else if n == 18 {
      assert Mask(18) == 0x3_FFFF;
    } else if n == 19 {
      assert Mask(19) == 0x7_FFFF;
    } else {
      assert Mask(21) == 0x1F_FFFF;
    }
  }

  /** A formatted entry: the full sector count and exactly the track's sectors free. */
  lemma FormatEntry(track: nat)
    requires track < NUM_TRACKS
    ensures var n := SectorsOnTrack(track);
            FormatEntryByte(track, 0) == n &&
            LittleEndian24(FormatEntryByte(track, 1), FormatEntryByte(track, 2), FormatEntryByte(track, 3)) == Mask(n)
  {
    MaskBytes(SectorsOnTrack(track));
  }

  /** The BAM sector after formatting, before the claim of sector 357. */
  function Formatted(img: Image): (r: Image)
    requires WellFormed(img)
    ensures WellFormed(r)
  {
    img[BAM_SECTOR_IDX := FormatBam(img[BAM_SECTOR_IDX])]
  }

  /** Byte j of a track's entry in the formatted BAM sector is the formatted entry byte. */
  lemma FormattedEntryByte(img: Image, track: nat, j: nat)
    requires WellFormed(img) && track < NUM_TRACKS && j < 4
    ensures Formatted(img)[BAM_SECTOR_IDX][EntryOffset(track) + j] == FormatEntryByte(track, j)
  {
    FormatBamEntryByte(img[BAM_SECTOR_IDX], track, j);
  }

  /** Byte j of a track's entry in a formatted BAM sector is the formatted entry byte. */
  lemma FormatBamEntryByte(bam: Sector, track: nat, j: nat)
    requires |bam| == BYTES_PER_SECTOR && track < NUM_TRACKS && j < 4
    ensures FormatBam(bam)[EntryOffset(track) + j] == FormatEntryByte(track, j)
  {
    var p := EntryOffset(track) + j;
    assert (p - 4) / 4 == track && (p - 4) % 4 == j;
  }

  lemma FormattedBits(img: Image, track: nat)
    requires WellFormed(img) && track < NUM_TRACKS
    ensures SectorBitsOfTrack(Formatted(img), track) == Mask(SectorsOnTrack(track))
    ensures FreeCountByte(Formatted(img), track) == SectorsOnTrack(track)
  {
    FormatEntry(track);
    FormattedEntryByte(img, track, 0);
    FormattedEntryByte(img, track, 1);
    FormattedEntryByte(img, track, 2);
    FormattedEntryByte(img, track, 3);
  }

  lemma FormattedConsistent(img: Image)
    requires WellFormed(img)
    ensures BamConsistent(Formatted(img))
  {
    forall t: nat | t < NUM_TRACKS
      ensures SectorBitsOfTrack(Formatted(img), t) < Pow2(SectorsOnTrack(t))
      ensures FreeCountByte(Formatted(img), t) == Popcount64c(SectorBitsOfTrack(Formatted(img), t))
    {
      FormattedBits(img, t);
      AllOnes(SectorsOnTrack(t));
    }
  }

  lemma {:induction false} FormattedFreeBelow(img: Image, n: nat)
    requires WellFormed(img) && n <= NUM_TRACKS
    ensures FreeSectorsBelow(Formatted(img), n) ==
            SectorsBefore(n) - (if n > DIRECTORY_TRACK then SectorsOnTrack(DIRECTORY_TRACK) else 0)
    decreases n
  {
    if n > 0 {
      FormattedFreeBelow(img, n - 1);
      FreeBelowStep(Formatted(img), n - 1);
      SectorsBeforeIsFirstIdx(n - 1);
      FormattedBits(img, n - 1);
      AllOnes(SectorsOnTrack(n - 1));
    }
  }

  /** initImage is formatting followed by the claim of the directory track's sector 0. */
  lemma InitImageIsClaim(img: Image)
    requires WellFormed(img)
    ensures InitImage(img) == ClaimSector(Formatted(img), DIRECTORY_TRACK, 0)
  {
    DirectoryTrackLayout();
  }

  /** After initImage every sector is free except the directory track's sector 0, the BAM itself. */
  lemma InitImageIsFree(img: Image, t: nat, s: nat)
    requires WellFormed(img) && t < NUM_TRACKS
    ensures IsFree(InitImage(img), t, s) <==> s < SectorsOnTrack(t) && !(t == DIRECTORY_TRACK && s == 0)
  {
    InitImageIsClaim(img);
    FormattedBits(img, t);
    AllOnes(SectorsOnTrack(t));
    ClaimIsFree(Formatted(img), DIRECTORY_TRACK, 0, t, s);
  }

  /** initImage leaves a consistent BAM with 664 = 683 - 19 free data sectors. */
  lemma InitImageBam(img: Image)
    requires WellFormed(img)
    ensures BamConsistent(InitImage(img))
    ensures NumberOfFreeSectors(InitImage(img)) == 664
  {
    InitImageIsClaim(img);
    FormattedConsistent(img);
    ClaimConsistent(Formatted(img), DIRECTORY_TRACK, 0);
    FormattedFreeBelow(img, NUM_TRACKS);
    AllSectorsSum();
    ClaimFreeCount(Formatted(img), DIRECTORY_TRACK, 0);
  }

  /** The disk name field holds "DISK" padded with 0xA0 to 16 bytes. */
  lemma InitImageDiskName(img: Image)
    requires WellFormed(img)
    ensures InitImage(img)[BAM_SECTOR_IDX][DISK_NAME_OFFSET..DISK_NAME_OFFSET + DISK_NAME_LENGTH] ==
            [0x44, 0x49, 0x53, 0x4B] + seq(12, _ => 0xA0)
  {
    InitImageIsClaim(img);
    var r := InitImage(img)[BAM_SECTOR_IDX];
    var f := Formatted(img)[BAM_SECTOR_IDX];
    assert forall j :: DISK_NAME_OFFSET <= j < DISK_NAME_OFFSET + DISK_NAME_LENGTH ==> r[j] == f[j];
    assert r[DISK_NAME_OFFSET..DISK_NAME_OFFSET + DISK_NAME_LENGTH] == f[DISK_NAME_OFFSET..DISK_NAME_OFFSET + DISK_NAME_LENGTH];
  }

  /** A fresh image: all sectors but the BAM are zero. */
  lemma FreshSectorsZero(k: nat)
    requires k < NUM_SECTORS && k != BAM_SECTOR_IDX
    ensures FreshImage()[k] == ZeroSector()
  {
    assert FreshImage()[k] == ZeroImage()[k];
  }

  /** A fresh image has a consistent BAM with 664 free sectors. */
  lemma FreshBam()
    ensures BamConsistent(FreshImage())
    ensures NumberOfFreeSectors(FreshImage()) == 664
  {
    InitImageBam(ZeroImage());
  }

  /** A fresh image: all sectors but the BAM are zero, the BAM is consistent, 664 sectors are free. */
  lemma FreshImageFacts()
    ensures forall k :: 0 <= k < NUM_SECTORS && k != BAM_SECTOR_IDX ==> FreshImage()[k] == ZeroSector()
    ensures BamConsistent(FreshImage())
    ensures NumberOfFreeSectors(FreshImage()) == 664
    ensures forall t: nat, s: nat :: t < NUM_TRACKS ==>
              (IsFree(FreshImage(), t, s) <==> s < SectorsOnTrack(t) && !(t == DIRECTORY_TRACK && s == 0))
  {
    FreshBam();
    forall k | 0 <= k < NUM_SECTORS && k != BAM_SECTOR_IDX ensures FreshImage()[k] == ZeroSector() {
      FreshSectorsZero(k);
    }
    forall t: nat, s: nat | t < NUM_TRACKS
      ensures IsFree(FreshImage(), t, s) <==> s < SectorsOnTrack(t) && !(t == DIRECTORY_TRACK && s == 0)
    {
      InitImageIsFree(ZeroImage(), t, s);
    }
  }
}
