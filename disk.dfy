/**
 * The disk image buffer and its layout constants (src/Writer.h).  The
 * writer keeps the image as one flat array of 683 * 256 bytes and hands out
 * sector views by linear index; the functional model below sees the same
 * bytes as 683 sectors of 256 bytes each.
 */
module Disk {
  import opened Geometry

  const BYTES_PER_SECTOR: nat := 256
  const DATA_BYTES_PER_SECTOR: nat := 254
  const DIRECTORY_TRACK: nat := 17
  const BAM_SECTOR_IDX: nat := 357
  const FIRST_DIR_SECTOR_IDX: nat := 358
  const DIR_ENTRIES_PER_SECTOR: nat := 8
  const BYTES_PER_DIR_ENTRY: nat := 32
  const IMAGE_BYTES: nat := NUM_SECTORS * BYTES_PER_SECTOR

  datatype Option<T> = None | Some(value: T)

  type Sector = seq<byte>

  /** The image, sector by sector in linear-index order. */
  type Image = seq<Sector>

  predicate WellFormed(img: Image) {
    |img| == NUM_SECTORS && forall k :: 0 <= k < |img| ==> |img[k]| == BYTES_PER_SECTOR
  }

  /** Offset in the flat buffer of byte j of sector idx (getSector(idx) + j). */
  function ByteOffset(idx: nat, j: nat): (off: nat)
    requires idx < NUM_SECTORS && j < BYTES_PER_SECTOR
    ensures idx * BYTES_PER_SECTOR <= off < idx * BYTES_PER_SECTOR + BYTES_PER_SECTOR
    ensures off < IMAGE_BYTES
  {
    idx * BYTES_PER_SECTOR + j
  }

  /** Sector views by distinct indices never overlap, and each byte has one home. */
  lemma ByteOffsetInjective(i: nat, a: nat, k: nat, b: nat)
    requires i < NUM_SECTORS && a < BYTES_PER_SECTOR
    requires k < NUM_SECTORS && b < BYTES_PER_SECTOR
    ensures ByteOffset(i, a) == ByteOffset(k, b) <==> i == k && a == b
  {
  }

  /** The flat buffer seen sector by sector. */
  function SectorsOf(bytes: seq<byte>): (img: Image)
    requires |bytes| == IMAGE_BYTES
    ensures WellFormed(img)
    ensures forall idx, j :: 0 <= idx < NUM_SECTORS && 0 <= j < BYTES_PER_SECTOR ==>
              img[idx][j] == bytes[ByteOffset(idx, j)]
  {
    seq(NUM_SECTORS, idx requires 0 <= idx < NUM_SECTORS =>
      bytes[idx * BYTES_PER_SECTOR .. idx * BYTES_PER_SECTOR + BYTES_PER_SECTOR])
  }

  /** The serialised image: the sectors back to back. */
  function Flatten(img: Image): (bytes: seq<byte>)
    requires WellFormed(img)
    ensures |bytes| == IMAGE_BYTES
    ensures SectorsOf(bytes) == img
  {
    var bytes := seq(IMAGE_BYTES, i requires 0 <= i < IMAGE_BYTES => img[i / BYTES_PER_SECTOR][i % BYTES_PER_SECTOR]);
    assert forall idx, j :: 0 <= idx < NUM_SECTORS && 0 <= j < BYTES_PER_SECTOR ==>
      ByteOffset(idx, j) / BYTES_PER_SECTOR == idx && ByteOffset(idx, j) % BYTES_PER_SECTOR == j;
    assert SectorsOf(bytes) == img by {
      forall idx | 0 <= idx < NUM_SECTORS ensures SectorsOf(bytes)[idx] == img[idx] {
        assert forall j :: 0 <= j < BYTES_PER_SECTOR ==> SectorsOf(bytes)[idx][j] == img[idx][j];
      }
    }
    bytes
  }

  /** A sector of zero bytes. */
  function ZeroSector(): (s: Sector)
    ensures |s| == BYTES_PER_SECTOR && forall j :: 0 <= j < |s| ==> s[j] == 0
  {
    seq(BYTES_PER_SECTOR, _ => 0)
  }

  /** The buffer right after diskBytes.fill(0x00). */
  function ZeroImage(): (img: Image)
    ensures WellFormed(img)
    ensures forall k :: 0 <= k < NUM_SECTORS ==> img[k] == ZeroSector()
  {
    seq(NUM_SECTORS, _ => ZeroSector())
  }

  /** Replace one byte of one sector (a write through getSector(idx)). */
  function PutByte(img: Image, idx: nat, j: nat, v: byte): (r: Image)
    requires WellFormed(img) && idx < NUM_SECTORS && j < BYTES_PER_SECTOR
    ensures WellFormed(r)
    ensures r[idx][j] == v
    ensures forall k, m :: 0 <= k < NUM_SECTORS && 0 <= m < BYTES_PER_SECTOR && (k != idx || m != j) ==>
              r[k][m] == img[k][m]
  {
    var s: Sector := img[idx][j := v];
    img[idx := s]
  }

  /** writeString: the bytes of str stored from offset off of a sector. */
  function WriteString(sec: Sector, off: nat, str: seq<byte>): (r: Sector)
    requires |sec| == BYTES_PER_SECTOR && off + |str| <= BYTES_PER_SECTOR
    ensures |r| == BYTES_PER_SECTOR
    ensures forall k :: 0 <= k < |str| ==> r[off + k] == str[k]
    ensures forall j :: (0 <= j < BYTES_PER_SECTOR && (j < off || j >= off + |str|)) ==> r[j] == sec[j]
  {
    sec[..off] + str + sec[off + |str|..]
  }

  /** The string followed by pad bytes up to len bytes in all (none when it is already as long). */
  function Padded(str: seq<byte>, len: nat, pad: byte): (p: seq<byte>)
    ensures |p| == if |str| < len then len else |str|
    ensures p[..|str|] == str
    ensures forall k :: |str| <= k < |p| ==> p[k] == pad
  {
    str + seq(if |str| < len then len - |str| else 0, _ => pad)
  }

  /** writeStringWithPadding: writeString, then pad bytes up to len. */
  function WriteStringWithPadding(sec: Sector, off: nat, str: seq<byte>, len: nat, pad: byte): (r: Sector)
    requires |sec| == BYTES_PER_SECTOR && off + |Padded(str, len, pad)| <= BYTES_PER_SECTOR
    ensures |r| == BYTES_PER_SECTOR
  {
    WriteString(sec, off, Padded(str, len, pad))
  }

  /**
   * The BAM and the first directory sector are sectors 0 and 1 of the
   * directory track, and eight 32-byte entries exactly fill one sector.
   */
  lemma DirectoryTrackLayout()
    ensures TrackAndSector(BAM_SECTOR_IDX) == TrackSector(DIRECTORY_TRACK, 0)
    ensures TrackAndSector(FIRST_DIR_SECTOR_IDX) == TrackSector(DIRECTORY_TRACK, 1)
    ensures SectorIdx(TrackSector(DIRECTORY_TRACK, 0)) == BAM_SECTOR_IDX
    ensures DIR_ENTRIES_PER_SECTOR * BYTES_PER_DIR_ENTRY == BYTES_PER_SECTOR
  {
  }
}
