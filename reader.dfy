/**
 * The reference decoder (test/WriterTestHelper.cpp): it finds a file's
 * directory entry by name in the first directory sector, reads its start
 * sector and block count, and follows the sector chain, checking every
 * header and every BAM bit on the way.  A failed check of the decoder is a
 * None here.
 */
module Reader {
  import opened Geometry
  import opened Disk
  import opened Bam
  import opened Payload

  const NAME_OFFSET: nat := 5
  const NAME_LENGTH: nat := 16
  const NAME_PADDING: byte := 0xA0

  /** The 32-byte directory entry in slot k of the first directory sector. */
  function Entry(img: Image, k: nat): (e: seq<byte>)
    requires WellFormed(img) && k < DIR_ENTRIES_PER_SECTOR
    ensures |e| == BYTES_PER_DIR_ENTRY
  {
    img[FIRST_DIR_SECTOR_IDX][BYTES_PER_DIR_ENTRY * k .. BYTES_PER_DIR_ENTRY * k + BYTES_PER_DIR_ENTRY]
  }

  /** getFileName from character i on: up to 16 bytes from offset 5, ending at 0xA0 or 0x00. */
  function FileNameFrom(e: seq<byte>, i: nat): (name: seq<byte>)
    requires |e| == BYTES_PER_DIR_ENTRY && i <= NAME_LENGTH
    ensures |name| <= NAME_LENGTH - i
    ensures forall j :: 0 <= j < |name| ==> name[j] == e[NAME_OFFSET + i + j] && name[j] != NAME_PADDING && name[j] != 0
    decreases NAME_LENGTH - i
  {
    if i == NAME_LENGTH then []
    else
      var ch := e[NAME_OFFSET + i];
      if ch == NAME_PADDING || ch == 0x00 then [] else [ch] + FileNameFrom(e, i + 1)
  }

  /** getFileName */
  function FileName(e: seq<byte>): (name: seq<byte>)
    requires |e| == BYTES_PER_DIR_ENTRY
    ensures |name| <= NAME_LENGTH
  {
    FileNameFrom(e, 0)
  }

  /** getFileEntry from slot k on: the first slot whose name matches, None if no slot does. */
  function FindEntry(img: Image, name: seq<byte>, k: nat): (r: Option<nat>)
    requires WellFormed(img) && k <= DIR_ENTRIES_PER_SECTOR
    ensures r.Some? ==> k <= r.value < DIR_ENTRIES_PER_SECTOR && FileName(Entry(img, r.value)) == name
    ensures r.Some? ==> forall j :: k <= j < r.value ==> FileName(Entry(img, j)) != name
    ensures r.None? ==> forall j :: k <= j < DIR_ENTRIES_PER_SECTOR ==> FileName(Entry(img, j)) != name
    decreases DIR_ENTRIES_PER_SECTOR - k
  {
    if k == DIR_ENTRIES_PER_SECTOR then None
    else if FileName(Entry(img, k)) == name then Some(k)
    else FindEntry(img, name, k + 1)
  }

  /**
   * getStartingTrackSector: byte 3 is the 1-based start track, byte 4 the
   * start sector; the zero-based coordinate must name an existing sector.
   */
  function StartingTrackSector(e: seq<byte>): (r: Option<TrackSector>)
    requires |e| == BYTES_PER_DIR_ENTRY
    ensures r.Some? <==> 1 <= e[3] && ValidTs(TrackSector(e[3] - 1, e[4]))
    ensures r.Some? ==> r.value == TrackSector(e[3] - 1, e[4])
  {
    if e[3] == 0 then None
    else
      var ts := TrackSector(e[3] - 1, e[4]);
      if ValidTs(ts) then Some(ts) else None
  }

  /** getNumberOfSectors: bytes 30 and 31, little endian. */
  function NumberOfSectors(e: seq<byte>): (n: nat)
    requires |e| == BYTES_PER_DIR_ENTRY
    ensures n < 0x1_0000
  {
    e[30] as int + 256 * e[31] as int
  }

  /**
   * getFilePayload from sector cur with the given number of sectors still
   * expected.  A sector whose header track is at least 1 contributes its 254
   * data bytes and links to (track - 1, sector), which must be an existing,
   * occupied sector; a header track of 0 ends the chain, its sector byte in
   * 1..254 counting the bytes used, and the sector itself must be occupied.
   * The chain must be exactly as long as expected.
   */
  function Walk(img: Image, cur: TrackSector, sectors: nat): (r: Option<seq<byte>>)
    requires WellFormed(img) && ValidTs(cur)
    ensures r.Some? ==> 0 < |r.value| && (sectors - 1) * DATA_BYTES_PER_SECTOR < |r.value| <= sectors * DATA_BYTES_PER_SECTOR
    decreases sectors
  {
    if sectors == 0 then None
    else
      var sec := img[SectorIdx(cur)];
      if sec[0] >= 1 then
        var next := TrackSector(sec[0] - 1, sec[1]);
        if !ValidTs(next) || IsFree(img, next.track, next.sector) || sectors == 1 then None
        else match Walk(img, next, sectors - 1)
          case None => None
          case Some(rest) => Some(sec[2..] + rest)
      else if sec[1] < 1 || sec[1] > DATA_BYTES_PER_SECTOR || IsFree(img, cur.track, cur.sector) || sectors > 1 then None
      else Some(sec[2..2 + sec[1]])
  }

  /** assertProgOnImage: the payload of the file with the given disk name, if it reads back. */
  function ReadProg(img: Image, name: seq<byte>): (r: Option<seq<byte>>)
    requires WellFormed(img)
    ensures r.Some? ==> FindEntry(img, name, 0).Some? && 0 < |r.value|
  {
    match FindEntry(img, name, 0)
    case None => None
    case Some(k) =>
      var e := Entry(img, k);
      match StartingTrackSector(e)
      case None => None
      case Some(ts) => Walk(img, ts, NumberOfSectors(e))
  }

  // ---------------------------------------------------------------------
  // Reading back what the writer stores

  /**
   * A stored chain of occupied sectors reads back as its data, walking
   * exactly as many sectors as the chain has.
   */
  lemma {:induction false} WalkStoredChain(img: Image, chain: seq<nat>, data: seq<byte>)
    requires WellFormed(img) && ChainStored(img, chain, data)
    requires forall i :: 0 <= i < |chain| ==> chain[i] < NUM_SECTORS && Occupied(img, chain[i])
    ensures Walk(img, TrackAndSector(chain[0]), |chain|) == Some(data)
    decreases |chain|
  {
    if |chain| == 1 {
      WalkLast(img, chain[0], data);
    } else {
      WalkStoredChain(img, chain[1..], data[DATA_BYTES_PER_SECTOR..]);
      WalkLink(img, chain[0], chain[1], |chain|, data);
    }
  }

  /** The last sector of a stored chain reads back as the bytes its header counts. */
  lemma WalkLast(img: Image, idx: nat, data: seq<byte>)
    requires WellFormed(img) && idx < NUM_SECTORS && Occupied(img, idx)
    requires 0 < |data| <= DATA_BYTES_PER_SECTOR && img[idx][0] == 0 && img[idx][1] == |data|
    requires img[idx][2..2 + |data|] == data
    ensures Walk(img, TrackAndSector(idx), 1) == Some(data)
  {
    assert SectorIdx(TrackAndSector(idx)) == idx;
  }

  /** A linked sector reads back as its 254 data bytes followed by what the rest of the chain reads. */
  lemma WalkLink(img: Image, idx: nat, next: nat, n: nat, data: seq<byte>)
    requires WellFormed(img) && idx < NUM_SECTORS && next < NUM_SECTORS && n > 1
    requires Occupied(img, next) && |data| > DATA_BYTES_PER_SECTOR
    requires img[idx][0] == TrackAndSector(next).track + 1 && img[idx][1] == TrackAndSector(next).sector
    requires img[idx][2..] == data[..DATA_BYTES_PER_SECTOR]
    requires Walk(img, TrackAndSector(next), n - 1) == Some(data[DATA_BYTES_PER_SECTOR..])
    ensures Walk(img, TrackAndSector(idx), n) == Some(data)
  {
    var sec := img[idx];
    assert SectorIdx(TrackAndSector(idx)) == idx;
    assert TrackSector(sec[0] - 1, sec[1]) == TrackAndSector(next);
    assert sec[2..] + data[DATA_BYTES_PER_SECTOR..] == data;
  }

  /** The name read from a slot is the stored name when it is 16 disk characters or is followed by padding or a zero byte. */
  lemma {:induction false} FileNameFromStored(e: seq<byte>, name: seq<byte>, i: nat)
    requires |e| == BYTES_PER_DIR_ENTRY && i <= |name| <= NAME_LENGTH
    requires forall j :: 0 <= j < |name| ==> e[NAME_OFFSET + j] == name[j] && name[j] != NAME_PADDING && name[j] != 0
    requires |name| < NAME_LENGTH ==> e[NAME_OFFSET + |name|] == NAME_PADDING || e[NAME_OFFSET + |name|] == 0
    ensures FileNameFrom(e, i) == name[i..]
    decreases NAME_LENGTH - i
  {
    if i < |name| {
      FileNameFromStored(e, name, i + 1);
      assert name[i..] == [name[i]] + name[i + 1..];
    }
  }
}
