/**
 * The payload writer (src/Writer.cpp:359-405): a file's bytes go in 254-byte
 * chunks into sectors claimed from the allocator.  Every sector starts with a
 * 2-byte link: (next track + 1, next sector) while more sectors follow, and
 * (0, bytes used) in the last one.
 */
module Payload {
  import opened Geometry
  import opened Bits
  import opened Disk
  import opened Bam
  import opened Allocator

  /** Number of 254-byte sectors a file of the given length occupies. */
  function Blocks(length: nat): (b: nat)
    ensures length > 0 ==> b >= 1
    ensures b * DATA_BYTES_PER_SECTOR >= length
    ensures length > 0 ==> (b - 1) * DATA_BYTES_PER_SECTOR < length
  {
    (length + DATA_BYTES_PER_SECTOR - 1) / DATA_BYTES_PER_SECTOR
  }

  lemma BlocksStep(length: nat)
    requires length > DATA_BYTES_PER_SECTOR
    ensures Blocks(length) == 1 + Blocks(length - DATA_BYTES_PER_SECTOR)
  {
  }

  /**
   * getNumberOfAvailableBytes: 254 bytes for every free sector, the whole of
   * what its one-line definition says.  What the number means is proved
   * elsewhere: WriteDataAccepts (a payload is accepted exactly when it fits
   * in it), FreshCapacity (168656 on a new image) and, for the 16-bit return
   * of the source, AvailableBytesWrap.
   */
  function NumberOfAvailableBytes(img: Image): (n: nat)
    requires WellFormed(img)
    ensures n == DATA_BYTES_PER_SECTOR * NumberOfFreeSectors(img)
    ensures n == 0 <==> NumberOfFreeSectors(img) == 0
  {
    NumberOfFreeSectors(img) * DATA_BYTES_PER_SECTOR
  }

  function Min254(length: nat): (n: nat)
    ensures n <= DATA_BYTES_PER_SECTOR && n <= length
    ensures n == DATA_BYTES_PER_SECTOR || n == length
  {
    if length < DATA_BYTES_PER_SECTOR then length else DATA_BYTES_PER_SECTOR
  }

  /** The 2-byte link to sector idx: its track, 1-based, and its sector. */
  function LinkTo(sec: Sector, idx: nat): (r: Sector)
    requires |sec| == BYTES_PER_SECTOR && idx < NUM_SECTORS
    ensures |r| == BYTES_PER_SECTOR
  {
    var ts := TrackAndSector(idx);
    var t: byte := ts.track + 1;
    sec[0 := t][1 := ts.sector]
  }

  /**
   * The bytes writeDataToSector stores: the previous sector (if any) linked
   * to sector idx, the next chunk of at most 254 bytes copied behind the link
   * header of sector idx, and the chain closed with (0, chunk length) when
   * the chunk is the last one.
   */
  function StoreChunk(img: Image, idx: nat, data: seq<byte>, prev: nat): (r: Image)
    requires WellFormed(img) && idx < NUM_SECTORS && (prev == INVALID || prev < NUM_SECTORS)
    ensures WellFormed(r)
  {
    var n := Min254(|data|);
    var linked := if prev != INVALID then img[prev := LinkTo(img[prev], idx)] else img;
    var copied := WriteString(linked[idx], 2, data[..n]);
    var closed := if |data| <= DATA_BYTES_PER_SECTOR then copied[0 := 0][1 := n] else copied;
    linked[idx := closed]
  }

  /**
   * writeDataToSector: store the chunk and claim the sector.  Answers the new
   * image and the chunk length.
   */
  function WriteDataToSector(img: Image, idx: nat, data: seq<byte>, prev: nat): (res: (Image, nat))
    requires WellFormed(img) && idx < NUM_SECTORS && (prev == INVALID || prev < NUM_SECTORS)
    ensures WellFormed(res.0)
    ensures res.1 == Min254(|data|)
  {
    (SetSectorOccupied(StoreChunk(img, idx, data, prev), idx), Min254(|data|))
  }

  /** The linear index of the sector the allocator picks after sector idx. */
  function NextSector(img: Image, idx: nat): nat
    requires WellFormed(img) && idx < NUM_SECTORS
  {
    SectorIdx(NextFreeTrackSector(img, TrackAndSector(idx)))
  }

  /**
   * The loop of writeData from sector idx on, the previous sector being prev:
   * the image after the remaining bytes are stored, and the sectors used.
   */
  function WriteChain(img: Image, data: seq<byte>, idx: nat, prev: nat): (res: (Image, seq<nat>))
    requires WellFormed(img) && (prev == INVALID || prev < NUM_SECTORS)
    ensures WellFormed(res.0)
    decreases |data|
  {
    if |data| == 0 || idx >= NUM_SECTORS then (img, [])
    else
      var (img1, n) := WriteDataToSector(img, idx, data, prev);
      var (r, rest) := WriteChain(img1, data[n..], NextSector(img1, idx), idx);
      (r, [idx] + rest)
  }

  /**
   * writeData: when the length is positive and fits the free space, store the
   * bytes from the first free sector on and answer that sector; otherwise
   * change nothing and answer TRACK_SECTOR_INVALID.
   */
  function WriteData(img: Image, data: seq<byte>): (res: (Image, TrackSector))
    requires WellFormed(img)
    ensures WellFormed(res.0)
    ensures res.1 == TRACK_SECTOR_INVALID || (ValidTs(res.1) && res.1.track != DIRECTORY_TRACK)
  {
    if 0 < |data| <= NumberOfAvailableBytes(img) then
      var first := FirstFreeTrackSector(img);
      (WriteChain(img, data, SectorIdx(first), INVALID).0, first)
    else
      (img, TRACK_SECTOR_INVALID)
  }

  /** The sectors writeData uses, in chain order. */
  function DataChain(img: Image, data: seq<byte>): seq<nat>
    requires WellFormed(img)
  {
    WriteChain(img, data, SectorIdx(FirstFreeTrackSector(img)), INVALID).1
  }

  // ---------------------------------------------------------------------
  // What a stored chain looks like

  /**
   * The sectors of chain hold data: each but the last links to its successor
   * and carries 254 bytes, the last carries the remaining 1..254 bytes behind
   * the header (0, count).
   */
  predicate ChainStored(img: Image, chain: seq<nat>, data: seq<byte>)
    requires WellFormed(img)
    decreases |chain|
  {
    |chain| > 0 && chain[0] < NUM_SECTORS &&
    var sec := img[chain[0]];
    if |chain| == 1 then
      0 < |data| <= DATA_BYTES_PER_SECTOR && sec[0] == 0 && sec[1] == |data| && sec[2..2 + |data|] == data
    else
      |data| > DATA_BYTES_PER_SECTOR && chain[1] < NUM_SECTORS &&
      sec[0] == TrackAndSector(chain[1]).track + 1 && sec[1] == TrackAndSector(chain[1]).sector &&
      sec[2..] == data[..DATA_BYTES_PER_SECTOR] &&
      ChainStored(img, chain[1..], data[DATA_BYTES_PER_SECTOR..])
  }

  /** A stored chain has exactly one sector per 254-byte block. */
  lemma {:induction false} ChainLength(img: Image, chain: seq<nat>, data: seq<byte>)
    requires WellFormed(img) && ChainStored(img, chain, data)
    ensures |chain| == Blocks(|data|)
    decreases |chain|
  {
    if |chain| > 1 {
      ChainLength(img, chain[1..], data[DATA_BYTES_PER_SECTOR..]);
      BlocksStep(|data|);
    }
  }

  /** A chain stays stored while its sectors keep their bytes. */
  lemma {:induction false} ChainStoredFrame(img: Image, img': Image, chain: seq<nat>, data: seq<byte>)
    requires WellFormed(img) && WellFormed(img') && ChainStored(img, chain, data)
    requires forall i :: 0 <= i < |chain| && chain[i] < NUM_SECTORS ==> img'[chain[i]] == img[chain[i]]
    ensures ChainStored(img', chain, data)
    decreases |chain|
  {
    if |chain| > 1 {
      ChainStoredFrame(img, img', chain[1..], data[DATA_BYTES_PER_SECTOR..]);
    }
  }

  /** A data sector of the image: a valid index off the directory track. */
  predicate DataIdx(idx: nat) {
    idx < NUM_SECTORS && TrackAndSector(idx).track != DIRECTORY_TRACK
  }

  predicate Occupied(img: Image, idx: nat)
    requires WellFormed(img) && idx < NUM_SECTORS
  {
    !IsFree(img, TrackAndSector(idx).track, TrackAndSector(idx).sector)
  }

  predicate Free(img: Image, idx: nat)
    requires WellFormed(img) && idx < NUM_SECTORS
  {
    IsFree(img, TrackAndSector(idx).track, TrackAndSector(idx).sector)
  }

  /** No data track below t has a free sector. */
  predicate AllFullBelow(img: Image, t: nat)
    requires WellFormed(img)
  {
    forall u: nat :: u < t && u < NUM_TRACKS && u != DIRECTORY_TRACK ==> TrackFull(img, u)
  }

  /** Every sector free in img' was free in img. */
  ghost predicate FreeShrinks(img: Image, img': Image)
    requires WellFormed(img) && WellFormed(img')
  {
    forall t: nat, s: nat :: t < NUM_TRACKS && IsFree(img', t, s) ==> IsFree(img, t, s)
  }

  // ---------------------------------------------------------------------
  // One sector written

  /** StoreChunk changes the previous sector's link and sector idx, nothing else. */
  lemma StoreChunkBytes(img: Image, idx: nat, data: seq<byte>, prev: nat)
    requires WellFormed(img) && idx < NUM_SECTORS && |data| > 0
    requires prev == INVALID || (prev < NUM_SECTORS && prev != idx)
    ensures var r := StoreChunk(img, idx, data, prev);
            var n := Min254(|data|);
            (forall k :: 0 <= k < NUM_SECTORS && k != idx && k != prev ==> r[k] == img[k]) &&
            (prev != INVALID ==> r[prev] == LinkTo(img[prev], idx)) &&
            r[idx][2..2 + n] == data[..n] &&
            (|data| <= DATA_BYTES_PER_SECTOR ==> r[idx][0] == 0 && r[idx][1] == n)
  {
    var n := Min254(|data|);
    var linked := if prev != INVALID then img[prev := LinkTo(img[prev], idx)] else img;
    var copied := WriteString(linked[idx], 2, data[..n]);
    assert copied[2..2 + n] == data[..n];
  }

  /**
   * writeDataToSector changes the previous sector's link, sector idx and the
   * BAM, nothing else; sector idx holds the chunk, and the last chunk's
   * sector is closed.
   */
  lemma WriteDataToSectorBytes(img: Image, idx: nat, data: seq<byte>, prev: nat)
    requires WellFormed(img) && DataIdx(idx) && |data| > 0
    requires prev == INVALID || (prev < NUM_SECTORS && prev != idx && prev != BAM_SECTOR_IDX)
    ensures var (r, n) := WriteDataToSector(img, idx, data, prev);
            (forall k :: 0 <= k < NUM_SECTORS && k != idx && k != prev && k != BAM_SECTOR_IDX ==> r[k] == img[k]) &&
            (prev != INVALID ==> r[prev] == LinkTo(img[prev], idx)) &&
            r[idx][2..2 + n] == data[..n] &&
            (|data| <= DATA_BYTES_PER_SECTOR ==> r[idx][0] == 0 && r[idx][1] == n)
  {
    DirectoryTrackLayout();
    StoreChunkBytes(img, idx, data, prev);
    var x := StoreChunk(img, idx, data, prev);
    var r := SetSectorOccupied(x, idx);
    assert forall k :: 0 <= k < NUM_SECTORS && k != BAM_SECTOR_IDX ==> r[k] == x[k] by {
      forall k | 0 <= k < NUM_SECTORS && k != BAM_SECTOR_IDX ensures r[k] == x[k] {
        assert forall j :: 0 <= j < BYTES_PER_SECTOR ==> r[k][j] == x[k][j];
      }
    }
  }

  /** In the BAM, writeDataToSector occupies exactly sector idx. */
  lemma WriteDataToSectorBam(img: Image, idx: nat, data: seq<byte>, prev: nat)
    requires WellFormed(img) && DataIdx(idx) && |data| > 0
    requires prev == INVALID || (prev < NUM_SECTORS && prev != idx && prev != BAM_SECTOR_IDX)
    ensures var r := WriteDataToSector(img, idx, data, prev).0;
            var ts := TrackAndSector(idx);
            (forall t: nat, s: nat :: t < NUM_TRACKS ==>
               (IsFree(r, t, s) <==> IsFree(img, t, s) && !(t == ts.track && s == ts.sector))) &&
            (BamConsistent(img) ==> BamConsistent(r)) &&
            (Free(img, idx) ==> NumberOfFreeSectors(r) + 1 == NumberOfFreeSectors(img))
  {
    DirectoryTrackLayout();
    StoreChunkBytes(img, idx, data, prev);
    var x := StoreChunk(img, idx, data, prev);
    BamOnly(x, img);
    SetSectorOccupiedEffect(x, idx);
  }

  // ---------------------------------------------------------------------
  // The whole chain written

  /** The previous sector, if any, is an occupied data sector other than idx. */
  predicate PrevOccupied(img: Image, idx: nat, prev: nat)
    requires WellFormed(img)
  {
    prev == INVALID || (prev < NUM_SECTORS && prev != BAM_SECTOR_IDX && prev != idx && Occupied(img, prev))
  }

  /**
   * The state in which writeData's loop may write the remaining bytes into
   * sector idx: a consistent BAM, a free data sector idx with no free data
   * sector on an earlier track, the previous sector (if any) an occupied data
   * sector, and room for the bytes.
   */
  predicate ReadyToWrite(img: Image, data: seq<byte>, idx: nat, prev: nat)
    requires WellFormed(img)
  {
    BamConsistent(img) && |data| > 0 &&
    DataIdx(idx) && Free(img, idx) && AllFullBelow(img, TrackAndSector(idx).track) &&
    PrevOccupied(img, idx, prev) &&
    |data| <= NumberOfAvailableBytes(img)
  }

  /**
   * With free sectors left, and none on a data track below t, the search
   * from track t finds one, and no data track below the one it finds has a
   * free sector.
   */
  lemma NextFreeFound(img: Image, prev: TrackSector)
    requires WellFormed(img) && BamConsistent(img) && NumberOfFreeSectors(img) > 0
    requires AllFullBelow(img, prev.track)
    ensures var next := NextFreeTrackSector(img, prev);
            next != TRACK_SECTOR_INVALID && ValidTs(next) && TrackAndSector(SectorIdx(next)) == next &&
            DataIdx(SectorIdx(next)) && Free(img, SectorIdx(next)) && AllFullBelow(img, next.track)
  {
    NoFreeSectors(img);
    var u: nat, s: nat :| DataSector(u, s) && IsFree(img, u, s);
    assert !TrackFull(img, u);
    assert !AllFullFrom(img, prev.track);
    var next := NextFreeTrackSector(img, prev);
    assert next == NextFreeFrom(img, prev.track, prev.sector);
    TrackAndSectorOfSectorIdx(next);
    forall v: nat | v < next.track && v < NUM_TRACKS && v != DIRECTORY_TRACK
      ensures TrackFull(img, v)
    {
      if v >= prev.track {
        assert prev.track <= v < next.track;
      }
    }
  }

  /** A data track full before a write that only occupies sectors stays full. */
  lemma AllFullBelowShrinks(img: Image, img1: Image, t: nat)
    requires WellFormed(img) && WellFormed(img1) && FreeShrinks(img, img1) && AllFullBelow(img, t)
    ensures AllFullBelow(img1, t)
  {
    forall u: nat | u < t && u < NUM_TRACKS && u != DIRECTORY_TRACK ensures TrackFull(img1, u) {
      assert TrackFull(img, u);
    }
  }

  /**
   * After one sector is written with more bytes to go, the allocator finds a
   * next sector and the loop is ready to write the rest there, with the
   * sector just written as the previous one.
   */
  lemma ChainStep(img: Image, data: seq<byte>, idx: nat, prev: nat)
    requires WellFormed(img) && ReadyToWrite(img, data, idx, prev) && |data| > DATA_BYTES_PER_SECTOR
    ensures var img1 := WriteDataToSector(img, idx, data, prev).0;
            ReadyToWrite(img1, data[DATA_BYTES_PER_SECTOR..], NextSector(img1, idx), idx)
  {
    var img1 := WriteDataToSector(img, idx, data, prev).0;
    var ts := TrackAndSector(idx);
    var rest := data[DATA_BYTES_PER_SECTOR..];
    WriteDataToSectorShrinks(img, idx, data, prev);
    WriteDataToSectorBam(img, idx, data, prev);
    var f := NumberOfFreeSectors(img);
    assert NumberOfFreeSectors(img1) == f - 1;
    assert f >= 2 && |rest| <= DATA_BYTES_PER_SECTOR * (f - 1);
    AllFullBelowShrinks(img, img1, ts.track);
    NextFreeFound(img1, ts);
    var next := NextSector(img1, idx);
    assert Free(img1, next) && Occupied(img1, idx);
    assert PrevOccupied(img1, next, idx);
  }

  /** Every sector free after writing sector idx was free before. */
  lemma WriteDataToSectorShrinks(img: Image, idx: nat, data: seq<byte>, prev: nat)
    requires WellFormed(img) && DataIdx(idx) && |data| > 0
    requires prev == INVALID || (prev < NUM_SECTORS && prev != idx && prev != BAM_SECTOR_IDX)
    ensures var img1 := WriteDataToSector(img, idx, data, prev).0;
            FreeShrinks(img, img1) && Occupied(img1, idx) &&
            forall k :: 0 <= k < NUM_SECTORS ==> (Free(img1, k) <==> Free(img, k) && k != idx)
  {
    WriteDataToSectorBam(img, idx, data, prev);
  }

  /**
   * From img to r exactly the sectors of chain, distinct data sectors that
   * were free, became occupied: the BAM stays consistent, nothing else
   * changes state and the free total drops by their number.
   */
  ghost predicate Allocation(img: Image, r: Image, chain: seq<nat>)
    requires WellFormed(img) && WellFormed(r)
  {
    (forall i :: 0 <= i < |chain| ==> DataIdx(chain[i]) && Free(img, chain[i])) &&
    (forall i, j :: 0 <= i < j < |chain| ==> chain[i] != chain[j]) &&
    BamConsistent(r) && FreeShrinks(img, r) &&
    (forall k :: 0 <= k < NUM_SECTORS ==> (Free(r, k) <==> Free(img, k) && k !in chain)) &&
    NumberOfFreeSectors(r) == NumberOfFreeSectors(img) - |chain|
  }

  /** Two allocations in a row are one allocation of both chains. */
  lemma AllocationTrans(a: Image, b: Image, c: Image, c1: seq<nat>, c2: seq<nat>)
    requires WellFormed(a) && WellFormed(b) && WellFormed(c)
    requires Allocation(a, b, c1) && Allocation(b, c, c2)
    ensures Allocation(a, c, c1 + c2)
  {
    var ch := c1 + c2;
    forall i | 0 <= i < |c2| ensures c2[i] !in c1 && Free(a, c2[i]) {
      assert Free(b, c2[i]);
    }
    forall i, j | 0 <= i < j < |ch| ensures ch[i] != ch[j] {
      if j >= |c1| && i < |c1| {
        assert ch[j] == c2[j - |c1|];
      }
    }
  }

  /** Writing one sector allocates exactly that sector. */
  lemma WriteDataToSectorAllocates(img: Image, idx: nat, data: seq<byte>, prev: nat)
    requires WellFormed(img) && ReadyToWrite(img, data, idx, prev)
    ensures Allocation(img, WriteDataToSector(img, idx, data, prev).0, [idx])
  {
    WriteDataToSectorBam(img, idx, data, prev);
    WriteDataToSectorShrinks(img, idx, data, prev);
  }

  /** What the loop of writeData does from sector idx on, allocation-wise. */
  ghost predicate ChainAllocates(img: Image, data: seq<byte>, idx: nat, prev: nat)
    requires WellFormed(img) && (prev == INVALID || prev < NUM_SECTORS)
  {
    var res := WriteChain(img, data, idx, prev);
    |res.1| == Blocks(|data|) && |res.1| > 0 && res.1[0] == idx && Allocation(img, res.0, res.1)
  }

  /** The loop's first round with more to write: the rest is written from the next sector. */
  lemma WriteChainUnfold(img: Image, data: seq<byte>, idx: nat, prev: nat)
    requires WellFormed(img) && idx < NUM_SECTORS && (prev == INVALID || prev < NUM_SECTORS)
    requires |data| > DATA_BYTES_PER_SECTOR
    ensures var img1 := WriteDataToSector(img, idx, data, prev).0;
            var res1 := WriteChain(img1, data[DATA_BYTES_PER_SECTOR..], NextSector(img1, idx), idx);
            WriteChain(img, data, idx, prev) == (res1.0, [idx] + res1.1)
  {
  }

  /** An allocation of one sector followed by an allocation of a chain. */
  lemma AllocationCons(img: Image, img1: Image, r: Image, idx: nat, tail: seq<nat>, length: nat)
    requires WellFormed(img) && WellFormed(img1) && WellFormed(r)
    requires length > DATA_BYTES_PER_SECTOR
    requires Allocation(img, img1, [idx])
    requires |tail| == Blocks(length - DATA_BYTES_PER_SECTOR) && Allocation(img1, r, tail)
    ensures |[idx] + tail| == Blocks(length) && ([idx] + tail)[0] == idx && Allocation(img, r, [idx] + tail)
  {
    BlocksStep(length);
    AllocationTrans(img, img1, r, [idx], tail);
  }

  /** One round of the loop followed by the rest allocates the whole chain. */
  lemma ChainAllocatesStep(img: Image, data: seq<byte>, idx: nat, prev: nat)
    requires WellFormed(img) && idx < NUM_SECTORS && (prev == INVALID || prev < NUM_SECTORS)
    requires |data| > DATA_BYTES_PER_SECTOR
    requires var img1 := WriteDataToSector(img, idx, data, prev).0;
             Allocation(img, img1, [idx]) &&
             ChainAllocates(img1, data[DATA_BYTES_PER_SECTOR..], NextSector(img1, idx), idx)
    ensures ChainAllocates(img, data, idx, prev)
  {
    var img1 := WriteDataToSector(img, idx, data, prev).0;
    var res1 := WriteChain(img1, data[DATA_BYTES_PER_SECTOR..], NextSector(img1, idx), idx);
    WriteChainUnfold(img, data, idx, prev);
    AllocationCons(img, img1, res1.0, idx, res1.1, |data|);
  }

  /**
   * The loop of writeData uses Blocks(|data|) distinct data sectors that were
   * free, starting at idx; exactly those become occupied, the BAM stays
   * consistent and the free total drops by their number.
   */
  lemma {:induction false} WriteChainAllocates(img: Image, data: seq<byte>, idx: nat, prev: nat)
    requires WellFormed(img) && ReadyToWrite(img, data, idx, prev)
    ensures ChainAllocates(img, data, idx, prev)
    decreases |data|
  {
    if |data| > DATA_BYTES_PER_SECTOR {
      var img1 := WriteDataToSector(img, idx, data, prev).0;
      ChainStep(img, data, idx, prev);
      WriteChainAllocates(img1, data[DATA_BYTES_PER_SECTOR..], NextSector(img1, idx), idx);
      WriteDataToSectorAllocates(img, idx, data, prev);
      ChainAllocatesStep(img, data, idx, prev);
    } else {
      WriteDataToSectorAllocates(img, idx, data, prev);
    }
  }

  /**
   * What the loop of writeData does from sector idx on, byte-wise: the chain
   * holds the data, the previous sector links to idx, and every other sector
   * but the BAM keeps its bytes.
   */
  ghost predicate ChainWrites(img: Image, data: seq<byte>, idx: nat, prev: nat)
    requires WellFormed(img) && (prev == INVALID || prev < NUM_SECTORS)
  {
    var res := WriteChain(img, data, idx, prev);
    idx < NUM_SECTORS &&
    ChainStored(res.0, res.1, data) &&
    (forall k :: 0 <= k < NUM_SECTORS && k !in res.1 && k != BAM_SECTOR_IDX && k != prev ==> res.0[k] == img[k]) &&
    (prev != INVALID ==> res.0[prev] == LinkTo(img[prev], idx))
  }

  /** Linking a sector keeps its data bytes. */
  lemma LinkToKeepsData(sec: Sector, idx: nat)
    requires |sec| == BYTES_PER_SECTOR && idx < NUM_SECTORS
    ensures LinkTo(sec, idx)[2..] == sec[2..]
    ensures LinkTo(sec, idx)[0] == TrackAndSector(idx).track + 1 && LinkTo(sec, idx)[1] == TrackAndSector(idx).sector
  {
  }

  /** A sector holding a full chunk, linked to a stored chain, extends the chain. */
  lemma StoredCons(img: Image, img1: Image, r: Image, idx: nat, prev: nat, tail: seq<nat>, data: seq<byte>)
    requires WellFormed(img) && WellFormed(img1) && WellFormed(r)
    requires idx < NUM_SECTORS && idx != BAM_SECTOR_IDX && |data| > DATA_BYTES_PER_SECTOR
    requires prev == INVALID || (prev < NUM_SECTORS && prev != idx && prev != BAM_SECTOR_IDX)
    requires forall k :: 0 <= k < NUM_SECTORS && k != idx && k != prev && k != BAM_SECTOR_IDX ==> img1[k] == img[k]
    requires prev != INVALID ==> img1[prev] == LinkTo(img[prev], idx)
    requires img1[idx][2..2 + DATA_BYTES_PER_SECTOR] == data[..DATA_BYTES_PER_SECTOR]
    requires |tail| > 0 && tail[0] < NUM_SECTORS && idx !in tail && prev !in tail
    requires ChainStored(r, tail, data[DATA_BYTES_PER_SECTOR..])
    requires forall k :: 0 <= k < NUM_SECTORS && k !in tail && k != BAM_SECTOR_IDX && k != idx ==> r[k] == img1[k]
    requires r[idx] == LinkTo(img1[idx], tail[0])
    ensures ChainStored(r, [idx] + tail, data)
    ensures forall k :: 0 <= k < NUM_SECTORS && k !in [idx] + tail && k != BAM_SECTOR_IDX && k != prev ==> r[k] == img[k]
    ensures prev != INVALID ==> r[prev] == LinkTo(img[prev], idx)
  {
    LinkToKeepsData(img1[idx], tail[0]);
    assert ([idx] + tail)[1..] == tail;
    assert r[idx][2..] == img1[idx][2..2 + DATA_BYTES_PER_SECTOR];
  }

  /** The sectors of an allocation were free, so an occupied sector is not among them. */
  lemma OccupiedNotAllocated(img: Image, r: Image, chain: seq<nat>, k: nat)
    requires WellFormed(img) && WellFormed(r) && Allocation(img, r, chain)
    requires k < NUM_SECTORS && Occupied(img, k)
    ensures k !in chain
  {
    forall i | 0 <= i < |chain| ensures chain[i] != k {
      assert Free(img, chain[i]);
    }
  }

  /** The first round of the loop, as the rest of the chain sees it. */
  lemma FirstRound(img: Image, data: seq<byte>, idx: nat, prev: nat)
    requires WellFormed(img) && DataIdx(idx) && |data| > DATA_BYTES_PER_SECTOR && PrevOccupied(img, idx, prev)
    ensures var img1 := WriteDataToSector(img, idx, data, prev).0;
            (forall k :: 0 <= k < NUM_SECTORS && k != idx && k != prev && k != BAM_SECTOR_IDX ==> img1[k] == img[k]) &&
            (prev != INVALID ==> img1[prev] == LinkTo(img[prev], idx)) &&
            img1[idx][2..2 + DATA_BYTES_PER_SECTOR] == data[..DATA_BYTES_PER_SECTOR] &&
            Occupied(img1, idx) && (prev != INVALID ==> Occupied(img1, prev))
  {
    WriteDataToSectorBytes(img, idx, data, prev);
    WriteDataToSectorShrinks(img, idx, data, prev);
  }

  /** One round of the loop followed by the rest writes the whole chain. */
  lemma ChainWritesStep(img: Image, data: seq<byte>, idx: nat, prev: nat)
    requires WellFormed(img) && DataIdx(idx) && |data| > DATA_BYTES_PER_SECTOR && PrevOccupied(img, idx, prev)
    requires var img1 := WriteDataToSector(img, idx, data, prev).0;
             var next := NextSector(img1, idx);
             ChainAllocates(img1, data[DATA_BYTES_PER_SECTOR..], next, idx) &&
             ChainWrites(img1, data[DATA_BYTES_PER_SECTOR..], next, idx)
    ensures ChainWrites(img, data, idx, prev)
  {
    var img1 := WriteDataToSector(img, idx, data, prev).0;
    var next := NextSector(img1, idx);
    var res1 := WriteChain(img1, data[DATA_BYTES_PER_SECTOR..], next, idx);
    WriteChainUnfold(img, data, idx, prev);
    FirstRound(img, data, idx, prev);
    ChainAvoids(img1, data[DATA_BYTES_PER_SECTOR..], next, idx, prev);
    StoredCons(img, img1, res1.0, idx, prev, res1.1, data);
  }

  /** The rest of the chain uses neither the sector just written nor the one before it. */
  lemma ChainAvoids(img1: Image, rest: seq<byte>, next: nat, idx: nat, prev: nat)
    requires WellFormed(img1) && idx < NUM_SECTORS && (prev == INVALID || prev < NUM_SECTORS)
    requires ChainAllocates(img1, rest, next, idx)
    requires Occupied(img1, idx) && (prev != INVALID ==> Occupied(img1, prev))
    ensures var chain := WriteChain(img1, rest, next, idx).1;
            idx !in chain && prev !in chain
  {
    var res1 := WriteChain(img1, rest, next, idx);
    OccupiedNotAllocated(img1, res1.0, res1.1, idx);
    if prev != INVALID {
      OccupiedNotAllocated(img1, res1.0, res1.1, prev);
    }
  }

  /**
   * The loop of writeData stores the bytes as a chain from sector idx,
   * links the previous sector to idx, and leaves every other sector but the
   * BAM as it was.
   */
  lemma {:induction false} WriteChainWrites(img: Image, data: seq<byte>, idx: nat, prev: nat)
    requires WellFormed(img) && ReadyToWrite(img, data, idx, prev)
    ensures ChainWrites(img, data, idx, prev)
    decreases |data|
  {
    if |data| > DATA_BYTES_PER_SECTOR {
      var img1 := WriteDataToSector(img, idx, data, prev).0;
      ChainStep(img, data, idx, prev);
      WriteChainAllocates(img1, data[DATA_BYTES_PER_SECTOR..], NextSector(img1, idx), idx);
      WriteChainWrites(img1, data[DATA_BYTES_PER_SECTOR..], NextSector(img1, idx), idx);
      ChainWritesStep(img, data, idx, prev);
    } else {
      LastRoundWrites(img, data, idx, prev);
    }
  }

  /** The last round of the loop writes the whole (one-sector) chain. */
  lemma LastRoundWrites(img: Image, data: seq<byte>, idx: nat, prev: nat)
    requires WellFormed(img) && ReadyToWrite(img, data, idx, prev) && |data| <= DATA_BYTES_PER_SECTOR
    ensures ChainWrites(img, data, idx, prev)
  {
    WriteDataToSectorBytes(img, idx, data, prev);
    assert data[..|data|] == data;
  }

  // ---------------------------------------------------------------------
  // writeData

  /** With room for the bytes, the loop starts ready at the first free sector. */
  lemma FirstSectorReady(img: Image, data: seq<byte>)
    requires WellFormed(img) && BamConsistent(img) && 0 < |data| <= NumberOfAvailableBytes(img)
    ensures var first := FirstFreeTrackSector(img);
            first != TRACK_SECTOR_INVALID && TrackAndSector(SectorIdx(first)) == first &&
            ReadyToWrite(img, data, SectorIdx(first), INVALID)
  {
    NoFreeSectorIffInvalid(img);
    var first := FirstFreeTrackSector(img);
    TrackAndSectorOfSectorIdx(first);
    forall u: nat | u < first.track && u < NUM_TRACKS && u != DIRECTORY_TRACK ensures TrackFull(img, u) {
      forall s: nat | s < SectorsOnTrack(u) ensures !IsFree(img, u, s) {
        assert DataSector(u, s);
      }
    }
  }

  /**
   * writeData fails, changing nothing, exactly when the length is zero or
   * exceeds the free space; otherwise it answers the first free sector.
   */
  lemma WriteDataAccepts(img: Image, data: seq<byte>)
    requires WellFormed(img) && BamConsistent(img)
    ensures var res := WriteData(img, data);
            (res.1 == TRACK_SECTOR_INVALID <==> !(0 < |data| <= NumberOfAvailableBytes(img))) &&
            (res.1 == TRACK_SECTOR_INVALID ==> res.0 == img) &&
            (res.1 != TRACK_SECTOR_INVALID ==> res.1 == FirstFreeTrackSector(img))
  {
    if 0 < |data| <= NumberOfAvailableBytes(img) {
      NoFreeSectorIffInvalid(img);
    }
  }

  /**
   * An accepted writeData stores the bytes as a chain of Blocks(|data|)
   * sectors from the sector it answers; they were free and now are the only
   * sectors newly occupied, and apart from the BAM no other sector changes.
   */
  lemma WriteDataStores(img: Image, data: seq<byte>)
    requires WellFormed(img) && BamConsistent(img) && 0 < |data| <= NumberOfAvailableBytes(img)
    ensures var res := WriteData(img, data);
            var chain := DataChain(img, data);
            ValidTs(res.1) && |chain| == Blocks(|data|) && TrackAndSector(chain[0]) == res.1 &&
            Allocation(img, res.0, chain) && ChainStored(res.0, chain, data) &&
            (forall k :: 0 <= k < NUM_SECTORS && k !in chain && k != BAM_SECTOR_IDX ==> res.0[k] == img[k])
  {
    FirstSectorReady(img, data);
    var first := FirstFreeTrackSector(img);
    WriteChainAllocates(img, data, SectorIdx(first), INVALID);
    WriteChainWrites(img, data, SectorIdx(first), INVALID);
  }
}
