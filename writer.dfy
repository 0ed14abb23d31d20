/**
 * The Writer object (src/Writer.h:30-85, src/Writer.cpp): one flat buffer of
 * 683 * 256 bytes that every operation reads and updates in place through
 * sector views.  Each method is proved against the functional model of the
 * other modules: its new buffer, seen sector by sector, is what the model
 * function computes from the old one.
 */
module D64 {
  import opened Geometry
  import opened Bits
  import opened Disk
  import opened Bam
  import opened Format
  import opened Allocator
  import opened Payload
  import opened Names
  import opened Reader
  import opened Directory

  /** Writing one byte of the flat buffer is writing that byte of its sector. */
  lemma SectorsOfUpdate(bytes: seq<byte>, idx: nat, j: nat, v: byte)
    requires |bytes| == IMAGE_BYTES && idx < NUM_SECTORS && j < BYTES_PER_SECTOR
    ensures SectorsOf(bytes[ByteOffset(idx, j) := v]) == PutByte(SectorsOf(bytes), idx, j, v)
  {
    var a := SectorsOf(bytes[ByteOffset(idx, j) := v]);
    var b := PutByte(SectorsOf(bytes), idx, j, v);
    forall k | 0 <= k < NUM_SECTORS ensures a[k] == b[k] {
      forall m | 0 <= m < BYTES_PER_SECTOR ensures a[k][m] == b[k][m] {
        ByteOffsetInjective(idx, j, k, m);
      }
    }
  }

  /** The buffer after fill(0x00) is the all-zero image. */
  lemma SectorsOfZero(bytes: seq<byte>)
    requires |bytes| == IMAGE_BYTES && forall i :: 0 <= i < |bytes| ==> bytes[i] == 0
    ensures SectorsOf(bytes) == ZeroImage()
  {
    var a := SectorsOf(bytes);
    forall k | 0 <= k < NUM_SECTORS ensures a[k] == ZeroImage()[k] {
      forall m | 0 <= m < BYTES_PER_SECTOR ensures a[k][m] == ZeroSector()[m] {
        assert a[k][m] == bytes[ByteOffset(k, m)];
      }
    }
  }

  /** Sector sec with bytes str[..i] stored from offset off, one byte more. */
  lemma WriteStringStep(sec: Sector, off: nat, str: seq<byte>, i: nat)
    requires |sec| == BYTES_PER_SECTOR && off + |str| <= BYTES_PER_SECTOR && i < |str|
    ensures WriteString(sec, off, str[..i + 1]) == WriteString(sec, off, str[..i])[off + i := str[i]]
  {
    var a := WriteString(sec, off, str[..i + 1]);
    var b := WriteString(sec, off, str[..i])[off + i := str[i]];
    assert forall j :: 0 <= j < BYTES_PER_SECTOR ==> a[j] == b[j];
  }

  /** Nothing written: the sector is as it was. */
  lemma WriteStringNone(img: Image, idx: nat, off: nat, str: seq<byte>)
    requires WellFormed(img) && idx < NUM_SECTORS && off + |str| <= BYTES_PER_SECTOR
    ensures img[idx := WriteString(img[idx], off, str[..0])] == img
  {
    assert WriteString(img[idx], off, str[..0]) == img[idx];
  }

  /** One more byte of str stored through getSector(idx) extends the stored prefix. */
  lemma PutAfterWrite(img: Image, idx: nat, off: nat, str: seq<byte>, i: nat)
    requires WellFormed(img) && idx < NUM_SECTORS && off + |str| <= BYTES_PER_SECTOR && i < |str|
    ensures var before := img[idx := WriteString(img[idx], off, str[..i])];
            WellFormed(before) &&
            PutByte(before, idx, off + i, str[i]) == img[idx := WriteString(img[idx], off, str[..i + 1])]
  {
    WriteStringStep(img[idx], off, str, i);
  }

  /** The sector's bit in its track's bitmap is bit sector % 8 of entry byte 1 + sector / 8. */
  lemma BitInByte(bam: Sector, track: nat, sector: nat)
    requires |bam| == BYTES_PER_SECTOR && track < NUM_TRACKS && sector < SectorsOnTrack(track)
    ensures EntryOffset(track) + 1 + sector / 8 < BYTES_PER_SECTOR
    ensures Bit(EntryBits(bam, track), sector) <==> Bit(bam[EntryOffset(track) + 1 + sector / 8], sector % 8)
  {
    var o := EntryOffset(track);
    assert EntryBits(bam, track) == LittleEndian24(bam[o + 1], bam[o + 2], bam[o + 3]);
    BytesBit(bam[o + 1], bam[o + 2], bam[o + 3], sector);
    if sector < 8 {
      assert sector / 8 == 0;
    } else if sector < 16 {
      assert sector / 8 == 1;
    } else {
      assert sector / 8 == 2;
    }
  }

  /**
   * Clearing a sector's bit in a BAM sector is two byte stores: the bitmap
   * byte holding the bit loses it, the count byte goes down by one.
   */
  lemma ClearAsStores(bam: Sector, track: nat, sector: nat)
    requires |bam| == BYTES_PER_SECTOR && track < NUM_TRACKS && sector < SectorsOnTrack(track)
    requires EntryOffset(track) + 1 + sector / 8 < BYTES_PER_SECTOR && Bit(EntryBits(bam, track), sector)
    requires bam[EntryOffset(track) + 1 + sector / 8] >= Pow2(sector % 8)
    ensures ClearEntryBit(bam, track, sector) ==
            StoreCleared(bam, EntryOffset(track), EntryOffset(track) + 1 + sector / 8, sector % 8)
  {
    var o := EntryOffset(track);
    var i := o + 1 + sector / 8;
    var s1: Sector := bam[i := bam[i] - Pow2(sector % 8)];
    assert s1[o] == bam[o];
  }

  /** The two stores: bit m of byte i cleared, then the count byte at o decremented. */
  function StoreCleared(sec: Sector, o: nat, i: nat, m: nat): (r: Sector)
    requires |sec| == BYTES_PER_SECTOR && o < BYTES_PER_SECTOR && i < BYTES_PER_SECTOR && sec[i] >= Pow2(m)
    ensures |r| == BYTES_PER_SECTOR
  {
    var s1: Sector := sec[i := sec[i] - Pow2(m)];
    s1[o := Dec8(s1[o])]
  }

  /** Two stores through PutByte are StoreCleared. */
  lemma StoresAreCleared(img: Image, o: nat, i: nat, m: nat)
    requires WellFormed(img) && o < BYTES_PER_SECTOR && i < BYTES_PER_SECTOR && img[BAM_SECTOR_IDX][i] >= Pow2(m)
    ensures var img1 := PutByte(img, BAM_SECTOR_IDX, i, img[BAM_SECTOR_IDX][i] - Pow2(m));
            PutByte(img1, BAM_SECTOR_IDX, o, Dec8(img1[BAM_SECTOR_IDX][o])) ==
              img[BAM_SECTOR_IDX := StoreCleared(img[BAM_SECTOR_IDX], o, i, m)]
  {
    var img1 := PutByte(img, BAM_SECTOR_IDX, i, img[BAM_SECTOR_IDX][i] - Pow2(m));
    assert img1[BAM_SECTOR_IDX] == img[BAM_SECTOR_IDX][i := img[BAM_SECTOR_IDX][i] - Pow2(m)];
  }

  /**
   * Claiming a sector is those two stores into the BAM sector when its bit
   * is set; o is the offset of the track's entry, i that of the bitmap byte
   * holding the sector's bit m.
   */
  lemma ClaimAsStores(img: Image, idx: nat, o: nat, i: nat, m: nat)
    requires WellFormed(img) && idx < NUM_SECTORS
    requires o == EntryOffset(TrackAndSector(idx).track)
    requires i == o + 1 + TrackAndSector(idx).sector / 8 && m == TrackAndSector(idx).sector % 8
    requires Bit(img[BAM_SECTOR_IDX][i], m)
    ensures i < BYTES_PER_SECTOR && o < BYTES_PER_SECTOR && img[BAM_SECTOR_IDX][i] >= Pow2(m)
    ensures Bam.SetSectorOccupied(img, idx) == img[BAM_SECTOR_IDX := StoreCleared(img[BAM_SECTOR_IDX], o, i, m)]
  {
    var ts := TrackAndSector(idx);
    BitInByte(img[BAM_SECTOR_IDX], ts.track, ts.sector);
    BitAtLeast(img[BAM_SECTOR_IDX][i], m);
    ClearAsStores(img[BAM_SECTOR_IDX], ts.track, ts.sector);
  }

  /** A sector whose bit is clear is already claimed: nothing changes. */
  lemma ClaimedStays(img: Image, idx: nat, o: nat, i: nat, m: nat)
    requires WellFormed(img) && idx < NUM_SECTORS
    requires o == EntryOffset(TrackAndSector(idx).track)
    requires i == o + 1 + TrackAndSector(idx).sector / 8 && m == TrackAndSector(idx).sector % 8
    requires !Bit(img[BAM_SECTOR_IDX][i], m)
    ensures Bam.SetSectorOccupied(img, idx) == img
  {
    var ts := TrackAndSector(idx);
    BitInByte(img[BAM_SECTOR_IDX], ts.track, ts.sector);
  }

  // ---------------------------------------------------------------------
  // initImage, one store at a time

  /** Sector sec with bytes lo..hi-1 taken from tgt. */
  ghost function Overlay(sec: Sector, tgt: Sector, lo: nat, hi: nat): (r: Sector)
    requires |sec| == BYTES_PER_SECTOR && |tgt| == BYTES_PER_SECTOR && lo <= hi <= BYTES_PER_SECTOR
    ensures |r| == BYTES_PER_SECTOR
    ensures forall j :: 0 <= j < BYTES_PER_SECTOR ==> r[j] == if lo <= j < hi then tgt[j] else sec[j]
  {
    seq(BYTES_PER_SECTOR, j requires 0 <= j < BYTES_PER_SECTOR => if lo <= j < hi then tgt[j] else sec[j])
  }

  lemma OverlayEmpty(sec: Sector, tgt: Sector, lo: nat)
    requires |sec| == BYTES_PER_SECTOR && |tgt| == BYTES_PER_SECTOR && lo <= BYTES_PER_SECTOR
    ensures Overlay(sec, tgt, lo, lo) == sec
  {
    assert forall j :: 0 <= j < BYTES_PER_SECTOR ==> Overlay(sec, tgt, lo, lo)[j] == sec[j];
  }

  /** One more byte taken from tgt, as a store into sector 357 of an image. */
  lemma OverlayStore(img: Image, sec: Sector, tgt: Sector, lo: nat, k: nat)
    requires WellFormed(img) && |sec| == BYTES_PER_SECTOR && |tgt| == BYTES_PER_SECTOR && lo <= k < BYTES_PER_SECTOR
    ensures PutByte(img[BAM_SECTOR_IDX := Overlay(sec, tgt, lo, k)], BAM_SECTOR_IDX, k, tgt[k]) ==
            img[BAM_SECTOR_IDX := Overlay(sec, tgt, lo, k + 1)]
  {
    var x := Overlay(sec, tgt, lo, k);
    var a := x[k := tgt[k]];
    assert forall j :: 0 <= j < BYTES_PER_SECTOR ==> a[j] == Overlay(sec, tgt, lo, k + 1)[j];
    assert a == Overlay(sec, tgt, lo, k + 1);
    assert img[BAM_SECTOR_IDX := x][BAM_SECTOR_IDX := a] == img[BAM_SECTOR_IDX := a];
  }

  /** The header bytes of the formatted BAM sector. */
  lemma FormattedHeader(bam: Sector)
    requires |bam| == BYTES_PER_SECTOR
    ensures var f := FormatBam(bam);
            f[0] == TrackAndSector(BAM_SECTOR_IDX).track + 1 && f[1] == 0x01 && f[2] == 0x41 && f[3] == 0x00
  {
  }

  /** The four bytes of a track's entry in the formatted BAM sector. */
  lemma FormattedBytes(bam: Sector, track: nat)
    requires |bam| == BYTES_PER_SECTOR && track < NUM_TRACKS
    ensures var o := EntryOffset(track);
            var count := SectorsOnTrack(track);
            var bits := Pow2(count) - 1;
            var f := FormatBam(bam);
            f[o] == count && f[o + 1] == bits % 256 && f[o + 2] == (bits / 256) % 256 && f[o + 3] == (bits / 65536) % 256
  {
    FormatBamEntryByte(bam, track, 0);
    FormatBamEntryByte(bam, track, 1);
    FormatBamEntryByte(bam, track, 2);
    FormatBamEntryByte(bam, track, 3);
  }

  /** Storing a run of bytes of the formatted sector takes that run from it. */
  lemma OverlayRun(sec: Sector, tgt: Sector, lo: nat, k: nat, run: seq<byte>)
    requires |sec| == BYTES_PER_SECTOR && |tgt| == BYTES_PER_SECTOR && lo <= k && k + |run| <= BYTES_PER_SECTOR
    requires forall i :: 0 <= i < |run| ==> run[i] == tgt[k + i]
    ensures Disk.WriteString(Overlay(sec, tgt, lo, k), k, run) == Overlay(sec, tgt, lo, k + |run|)
  {
    var a := Disk.WriteString(Overlay(sec, tgt, lo, k), k, run);
    assert forall j :: 0 <= j < BYTES_PER_SECTOR ==> a[j] == Overlay(sec, tgt, lo, k + |run|)[j];
  }

  /** Storing the header bytes extends the formatted prefix to the first track entry. */
  lemma HeaderStep(bam: Sector, header: seq<byte>)
    requires |bam| == BYTES_PER_SECTOR
    requires header == [TrackAndSector(BAM_SECTOR_IDX).track + 1, 0x01, 0x41, 0x00]
    ensures Disk.WriteString(bam, 0, header) == Overlay(bam, FormatBam(bam), 0, EntryOffset(0))
  {
    FormattedHeader(bam);
    OverlayEmpty(bam, FormatBam(bam), 0);
    OverlayRun(bam, FormatBam(bam), 0, 0, header);
  }

  /** Four bytes equal one by one are a run of the sector. */
  lemma FourBytes(f: Sector, o: nat, run: seq<byte>)
    requires |f| == BYTES_PER_SECTOR && o + 4 <= BYTES_PER_SECTOR && |run| == 4
    requires run[0] == f[o] && run[1] == f[o + 1] && run[2] == f[o + 2] && run[3] == f[o + 3]
    ensures forall i :: 0 <= i < |run| ==> run[i] == f[o + i]
  {
  }

  /** Storing the entry of one track extends the formatted prefix by four bytes. */
  lemma EntryStep(bam: Sector, track: nat, entry: seq<byte>)
    requires |bam| == BYTES_PER_SECTOR && track < NUM_TRACKS
    requires var count := SectorsOnTrack(track);
             var bits := Pow2(count) - 1;
             entry == [count, bits % 256, (bits / 256) % 256, (bits / 65536) % 256]
    ensures EntryOffset(track) + |entry| <= BYTES_PER_SECTOR
    ensures Disk.WriteString(Overlay(bam, FormatBam(bam), 0, EntryOffset(track)), EntryOffset(track), entry) ==
            Overlay(bam, FormatBam(bam), 0, EntryOffset(0) + 4 * (track + 1))
  {
    var f := FormatBam(bam);
    var o := EntryOffset(track);
    FormattedBytes(bam, track);
    FourBytes(f, o, entry);
    OverlayRun(bam, f, 0, o, entry);
  }

  /** EntryStep, seen on the whole image: one more track entry of the formatted BAM is in place. */
  lemma EntryStepImage(img: Image, bam: Sector, track: nat, entry: seq<byte>)
    requires WellFormed(img) && |bam| == BYTES_PER_SECTOR && track < NUM_TRACKS
    requires var count := SectorsOnTrack(track);
             var bits := Pow2(count) - 1;
             entry == [count, bits % 256, (bits / 256) % 256, (bits / 65536) % 256]
    ensures EntryOffset(track) + |entry| <= BYTES_PER_SECTOR
    ensures var cur := img[BAM_SECTOR_IDX := Overlay(bam, FormatBam(bam), 0, EntryOffset(0) + 4 * track)];
            cur[BAM_SECTOR_IDX := Disk.WriteString(cur[BAM_SECTOR_IDX], EntryOffset(track), entry)] ==
            img[BAM_SECTOR_IDX := Overlay(bam, FormatBam(bam), 0, EntryOffset(0) + 4 * (track + 1))]
  {
    EntryStep(bam, track, entry);
    var cur := img[BAM_SECTOR_IDX := Overlay(bam, FormatBam(bam), 0, EntryOffset(0) + 4 * track)];
    assert cur[BAM_SECTOR_IDX] == Overlay(bam, FormatBam(bam), 0, EntryOffset(track));
  }

  /** The disk name stored with its padding is bytes 0x90..0x9F of the formatted sector. */
  lemma FormatDiskName(sec: Sector, bam: Sector)
    requires |sec| == BYTES_PER_SECTOR && |bam| == BYTES_PER_SECTOR
    ensures Disk.WriteStringWithPadding(sec, DISK_NAME_OFFSET, DISK_NAME, DISK_NAME_LENGTH, PADDING) ==
            Overlay(sec, FormatBam(bam), DISK_NAME_OFFSET, 0xA0)
  {
    var a := Disk.WriteStringWithPadding(sec, DISK_NAME_OFFSET, DISK_NAME, DISK_NAME_LENGTH, PADDING);
    assert forall j :: 0 <= j < BYTES_PER_SECTOR ==> a[j] == Overlay(sec, FormatBam(bam), DISK_NAME_OFFSET, 0xA0)[j];
  }

  /** The id bytes stored after the name are bytes 0xA0..0xAA of the formatted sector. */
  lemma FormatDiskId(sec: Sector, bam: Sector)
    requires |sec| == BYTES_PER_SECTOR && |bam| == BYTES_PER_SECTOR
    ensures Disk.WriteString(Overlay(sec, FormatBam(bam), DISK_NAME_OFFSET, 0xA0), 0xA0, DISK_ID) ==
            Overlay(sec, FormatBam(bam), DISK_NAME_OFFSET, 0xAB)
  {
    var f := FormatBam(bam);
    var a := Disk.WriteString(Overlay(sec, f, DISK_NAME_OFFSET, 0xA0), 0xA0, DISK_ID);
    assert forall j :: 0 <= j < BYTES_PER_SECTOR ==> a[j] == Overlay(sec, f, DISK_NAME_OFFSET, 0xAB)[j];
  }

  /** Bytes 0xAB..0xFE of the formatted sector are zero. */
  lemma FormattedTail(bam: Sector, j: nat)
    requires |bam| == BYTES_PER_SECTOR && 0xAB <= j < 0xFF
    ensures FormatBam(bam)[j] == 0
  {
  }

  /**
   * The BAM sector as initImage leaves it: the entries taken from the
   * formatted sector, then the claim of the directory track's sector 0, then
   * the name, id and tail taken from the formatted sector, is the formatted
   * sector with the claim.  The claim only touches the directory track's
   * entry, below offset 0x90, so the order does not matter.
   */
  lemma BamInSourceOrder(bam: Sector)
    requires |bam| == BYTES_PER_SECTOR
    ensures var o := EntryOffset(DIRECTORY_TRACK);
            var f := FormatBam(bam);
            var a := Overlay(bam, f, 0, DISK_NAME_OFFSET);
            a[o + 1] == f[o + 1] && a[o + 1] >= Pow2(0) &&
            Overlay(StoreCleared(a, o, o + 1, 0), f, DISK_NAME_OFFSET, 0xFF) == StoreCleared(f, o, o + 1, 0)
  {
    var o := EntryOffset(DIRECTORY_TRACK);
    var f := FormatBam(bam);
    var a := Overlay(bam, f, 0, DISK_NAME_OFFSET);
    FormattedBytes(bam, DIRECTORY_TRACK);
    Pow2Bytes();
    var l := Overlay(StoreCleared(a, o, o + 1, 0), f, DISK_NAME_OFFSET, 0xFF);
    var r := StoreCleared(f, o, o + 1, 0);
    assert f[0xFF] == bam[0xFF];
    assert forall j :: 0 <= j < BYTES_PER_SECTOR ==> l[j] == r[j];
  }

  /** initImage in the source's order of stores is the formatting followed by the claim. */
  lemma InitImageInSourceOrder(img: Image)
    requires WellFormed(img)
    ensures var f := FormatBam(img[BAM_SECTOR_IDX]);
            var c := Bam.SetSectorOccupied(img[BAM_SECTOR_IDX := Overlay(img[BAM_SECTOR_IDX], f, 0, DISK_NAME_OFFSET)], BAM_SECTOR_IDX);
            c[BAM_SECTOR_IDX := Overlay(c[BAM_SECTOR_IDX], f, DISK_NAME_OFFSET, 0xFF)] == Format.InitImage(img)
  {
    var bam := img[BAM_SECTOR_IDX];
    var f := FormatBam(bam);
    var a := img[BAM_SECTOR_IDX := Overlay(bam, f, 0, DISK_NAME_OFFSET)];
    var b := Formatted(img);
    DirectoryTrackLayout();
    var o := EntryOffset(DIRECTORY_TRACK);
    BamInSourceOrder(bam);
    Pow2Bytes();
    assert Bit(a[BAM_SECTOR_IDX][o + 1], 0);
    ClaimAsStores(a, BAM_SECTOR_IDX, o, o + 1, 0);
    ClaimAsStores(b, BAM_SECTOR_IDX, o, o + 1, 0);
  }

  /** A free sector met at step i of the walk of a data track is the one the search answers. */
  lemma NextFreeAt(img: Image, track: nat, start: nat, i: nat)
    requires WellFormed(img) && track < NUM_TRACKS && track != DIRECTORY_TRACK && i < SectorsOnTrack(track)
    requires IsFree(img, track, Step(track, start, i))
    requires NextFreeStep(img, track, start, i) == NextFreeStep(img, track, start, 0)
    ensures NextFreeFrom(img, track, start) == TrackSector(track, Step(track, start, i))
  {
    assert NextFreeStep(img, track, start, i) == Some(i);
  }

  /** Two byte stores into a sector just replaced are one replacement. */
  lemma PutBytePair(img: Image, idx: nat, sec: Sector, a: nat, va: byte, b: nat, vb: byte)
    requires WellFormed(img) && idx < NUM_SECTORS && |sec| == BYTES_PER_SECTOR
    requires a < BYTES_PER_SECTOR && b < BYTES_PER_SECTOR
    ensures PutByte(PutByte(img[idx := sec], idx, a, va), idx, b, vb) == img[idx := sec[a := va][b := vb]]
  {
    var s1: Sector := sec[a := va];
    var s2: Sector := s1[b := vb];
    assert PutByte(img[idx := sec], idx, a, va) == img[idx := s1];
    assert PutByte(img[idx := s1], idx, b, vb) == img[idx := s2];
  }

  /** The image StoreChunk describes, given the linked image and the final contents of sector idx. */
  lemma StoreChunkSteps(img: Image, idx: nat, data: seq<byte>, prev: nat, linked: Image, last: Sector)
    requires WellFormed(img) && idx < NUM_SECTORS && (prev == INVALID || prev < NUM_SECTORS)
    requires linked == if prev != INVALID then img[prev := LinkTo(img[prev], idx)] else img
    requires var n := Min254(|data|);
             var copied := Disk.WriteString(linked[idx], 2, data[..n]);
             last == if |data| <= DATA_BYTES_PER_SECTOR then copied[0 := 0][1 := n] else copied
    ensures StoreChunk(img, idx, data, prev) == linked[idx := last]
  {
  }

  /** A byte store into a sector just replaced is one replacement. */
  lemma PutByteOver(img: Image, idx: nat, sec: Sector, j: nat, v: byte)
    requires WellFormed(img) && idx < NUM_SECTORS && |sec| == BYTES_PER_SECTOR && j < BYTES_PER_SECTOR
    ensures PutByte(img[idx := sec], idx, j, v) == img[idx := sec[j := v]]
  {
    var s1: Sector := sec[j := v];
    assert img[idx := sec][idx := s1] == img[idx := s1];
  }

  /** A directory slot filled in as three runs of bytes: header, padded name, block count. */
  lemma EntryInRuns(dir: Sector, slot: nat, first: TrackSector, name: seq<byte>, blocks: nat, head: seq<byte>, count: seq<byte>)
    requires |dir| == BYTES_PER_SECTOR && slot < DIR_ENTRIES_PER_SECTOR && ValidTs(first) && |name| <= NAME_LENGTH
    requires head == (if slot == 0 then [DIR_LINK_TRACK, DIR_LINK_SECTOR] else [0, 0]) + [PRG_TYPE, first.track + 1, first.sector]
    requires count == [blocks % 256, (blocks / 256) % 256]
    ensures var o := BYTES_PER_DIR_ENTRY * slot;
            var s1 := Disk.WriteString(dir, o, head);
            var s2 := Disk.WriteStringWithPadding(s1, o + NAME_OFFSET, name, NAME_LENGTH, NAME_PADDING);
            Disk.WriteString(s2, o + BLOCKS_OFFSET, count) == Directory.WriteEntry(dir, slot, first, name, blocks)
  {
    var o := BYTES_PER_DIR_ENTRY * slot;
    var s1 := Disk.WriteString(dir, o, head);
    var s2 := Disk.WriteStringWithPadding(s1, o + NAME_OFFSET, name, NAME_LENGTH, NAME_PADDING);
    var s3 := Disk.WriteString(s2, o + BLOCKS_OFFSET, count);
    var linked := if slot == 0 then dir[o := DIR_LINK_TRACK][o + 1 := DIR_LINK_SECTOR] else dir[o := 0][o + 1 := 0];
    var t: byte := first.track + 1;
    var typed := linked[o + TYPE_OFFSET := PRG_TYPE][o + 3 := t][o + 4 := first.sector];
    assert s1 == typed;
  }

  class Writer {
    /** The image, sector idx occupying bytes 256 * idx .. 256 * idx + 255. */
    var diskBytes: array<byte>

    ghost predicate Valid()
      reads this
    {
      diskBytes.Length == IMAGE_BYTES
    }

    /** The buffer seen sector by sector. */
    function Sectors(): (img: Image)
      reads this, diskBytes
      requires Valid()
      ensures WellFormed(img)
    {
      SectorsOf(diskBytes[..])
    }

    /** A store through getSector(idx)[j]. */
    method SetSectorByte(idx: nat, j: nat, v: byte)
      requires Valid() && idx < NUM_SECTORS && j < BYTES_PER_SECTOR
      modifies diskBytes
      ensures Valid() && Sectors() == PutByte(old(Sectors()), idx, j, v)
    {
      SectorsOfUpdate(diskBytes[..], idx, j, v);
      diskBytes[ByteOffset(idx, j)] := v;
    }

    /** A load of getSector(idx)[j]. */
    method GetSectorByte(idx: nat, j: nat) returns (v: byte)
      requires Valid() && idx < NUM_SECTORS && j < BYTES_PER_SECTOR
      ensures v == Sectors()[idx][j]
    {
      v := diskBytes[ByteOffset(idx, j)];
    }

    /** writeString: str stored from byte off of sector idx. */
    method WriteString(idx: nat, off: nat, str: seq<byte>)
      requires Valid() && idx < NUM_SECTORS && off + |str| <= BYTES_PER_SECTOR
      modifies diskBytes
      ensures Valid() && Sectors() == old(Sectors())[idx := Disk.WriteString(old(Sectors())[idx], off, str)]
    {
      ghost var img := Sectors();
      var i := 0;
      WriteStringNone(img, idx, off, str);
      while i < |str|
        invariant Valid() && 0 <= i <= |str|
        invariant Sectors() == img[idx := Disk.WriteString(img[idx], off, str[..i])]
      {
        PutAfterWrite(img, idx, off, str, i);
        SetSectorByte(idx, off + i, str[i]);
        i := i + 1;
      }
      assert str[..i] == str;
    }

    /** writeStringWithPadding: str, then pad bytes up to len, from byte off of sector idx. */
    method WriteStringWithPadding(idx: nat, off: nat, str: seq<byte>, len: nat, pad: byte)
      requires Valid() && idx < NUM_SECTORS && off + |Padded(str, len, pad)| <= BYTES_PER_SECTOR
      modifies diskBytes
      ensures Valid() && Sectors() == old(Sectors())[idx := Disk.WriteStringWithPadding(old(Sectors())[idx], off, str, len, pad)]
    {
      ghost var img := Sectors();
      WriteString(idx, off, str);
      PadFrom(idx, off, str, len, pad, img);
    }

    /** The loop of writeStringWithPadding: pad bytes from the end of str up to len. */
    method PadFrom(idx: nat, off: nat, str: seq<byte>, len: nat, pad: byte, ghost img: Image)
      requires Valid() && WellFormed(img) && idx < NUM_SECTORS && off + |Padded(str, len, pad)| <= BYTES_PER_SECTOR
      requires Sectors() == img[idx := Disk.WriteString(img[idx], off, str)]
      modifies diskBytes
      ensures Valid() && Sectors() == img[idx := Disk.WriteStringWithPadding(img[idx], off, str, len, pad)]
    {
      ghost var p := Padded(str, len, pad);
      var i := |str|;
      assert p[..i] == str;
      while i < len
        invariant Valid() && |str| <= i <= |p|
        invariant Sectors() == img[idx := Disk.WriteString(img[idx], off, p[..i])]
      {
        assert p[i] == pad;
        PutAfterWrite(img, idx, off, p, i);
        SetSectorByte(idx, off + i, pad);
        i := i + 1;
      }
      assert p[..i] == p;
    }

    /**
     * setSectorOccupied: clear the sector's bit in its track's BAM entry; the
     * entry's free count goes down with it.  An occupied sector stays as it is.
     */
    method SetSectorOccupied(idx: nat)
      requires Valid() && idx < NUM_SECTORS
      modifies diskBytes
      ensures Valid() && Sectors() == Bam.SetSectorOccupied(old(Sectors()), idx)
    {
      ghost var img := Sectors();
      var ts := TrackAndSector(idx);
      var o := EntryOffset(ts.track);
      var i := o + 1 + ts.sector / 8;
      var m := ts.sector % 8;
      var b := GetSectorByte(BAM_SECTOR_IDX, i);
      if Bit(b, m) {
        ClaimAsStores(img, idx, o, i, m);
        assert b == img[BAM_SECTOR_IDX][i];
        StoresAreCleared(img, o, i, m);
        ghost var img1 := PutByte(img, BAM_SECTOR_IDX, i, b - Pow2(m));
        SetSectorByte(BAM_SECTOR_IDX, i, b - Pow2(m));
        assert Sectors() == img1;
        var c := GetSectorByte(BAM_SECTOR_IDX, o);
        assert c == img1[BAM_SECTOR_IDX][o];
        SetSectorByte(BAM_SECTOR_IDX, o, Dec8(c));
        assert Sectors() == PutByte(img1, BAM_SECTOR_IDX, o, Dec8(img1[BAM_SECTOR_IDX][o]));
      } else {
        ClaimedStays(img, idx, o, i, m);
        assert Sectors() == img;
      }
    }

    /** getSectorBitsOfTrack: the track's bitmap, bytes 1..3 of its BAM entry. */
    method GetSectorBitsOfTrack(track: nat) returns (bits: nat)
      requires Valid() && track < NUM_TRACKS
      ensures bits == SectorBitsOfTrack(Sectors(), track)
    {
      var o := EntryOffset(track);
      var b1 := GetSectorByte(BAM_SECTOR_IDX, o + 1);
      var b2 := GetSectorByte(BAM_SECTOR_IDX, o + 2);
      var b3 := GetSectorByte(BAM_SECTOR_IDX, o + 3);
      bits := b1 as int + 256 * b2 as int + 65536 * b3 as int;
    }

    /** getNumberOfFreeSectors: the set bits of every track's bitmap but the directory track's. */
    method GetNumberOfFreeSectors() returns (n: nat)
      requires Valid()
      ensures n == NumberOfFreeSectors(Sectors())
    {
      ghost var img := Sectors();
      n := 0;
      var track := 0;
      while track < NUM_TRACKS
        invariant 0 <= track <= NUM_TRACKS && Sectors() == img
        invariant n == FreeSectorsBelow(img, track)
      {
        FreeBelowStep(img, track);
        if track != DIRECTORY_TRACK {
          var bits := GetSectorBitsOfTrack(track);
          assert bits == SectorBitsOfTrack(img, track);
          n := n + Popcount64c(bits);
        }
        assert n == FreeSectorsBelow(img, track + 1);
        track := track + 1;
      }
    }

    /** getNumberOfAvailableBytes: 254 payload bytes per free sector. */
    method GetNumberOfAvailableBytes() returns (n: nat)
      requires Valid()
      ensures n == DATA_BYTES_PER_SECTOR * NumberOfFreeSectors(Sectors())
    {
      var free := GetNumberOfFreeSectors();
      n := free * DATA_BYTES_PER_SECTOR;
    }

    /**
     * getFirstFreeTrackSector: the first free data sector in (track, sector)
     * order, or TRACK_SECTOR_INVALID when every data sector is occupied.
     */
    method GetFirstFreeTrackSector() returns (r: TrackSector)
      requires Valid()
      ensures r == FirstFreeTrackSector(Sectors())
    {
      ghost var img := Sectors();
      var track := 0;
      while track < NUM_TRACKS
        invariant track <= NUM_TRACKS
        invariant FirstFreeFrom(img, track) == FirstFreeFrom(img, 0)
      {
        if track != DIRECTORY_TRACK {
          var sector := FirstFreeSectorOfTrack(track);
          if sector < SectorsOnTrack(track) {
            return TrackSector(track, sector);
          }
        }
        track := track + 1;
      }
      return TRACK_SECTOR_INVALID;
    }

    /** The inner loop of getFirstFreeTrackSector: the lowest set bit of a track's bitmap. */
    method FirstFreeSectorOfTrack(track: nat) returns (sector: nat)
      requires Valid() && track < NUM_TRACKS
      ensures FirstFreeOnTrack(Sectors(), track, 0) == if sector < SectorsOnTrack(track) then Some(sector) else None
    {
      ghost var img := Sectors();
      var bits := GetSectorBitsOfTrack(track);
      var count := SectorsOnTrack(track);
      sector := 0;
      while sector < count && !Bit(bits, sector)
        invariant sector <= count
        invariant FirstFreeOnTrack(img, track, sector) == FirstFreeOnTrack(img, track, 0)
      {
        sector := sector + 1;
      }
    }

    /**
     * getNextFreeTrackSector: from prev's track on, each data track walked in
     * interleave order, from prev's sector on prev's track and from sector 0
     * after it; the first free sector met, or TRACK_SECTOR_INVALID.
     */
    method GetNextFreeTrackSector(prev: TrackSector) returns (r: TrackSector)
      requires Valid()
      ensures r == NextFreeTrackSector(Sectors(), prev)
    {
      ghost var img := Sectors();
      var start: nat := prev.sector;
      var track: nat := prev.track;
      while track < NUM_TRACKS
        invariant NextFreeFrom(img, track, start) == NextFreeTrackSector(img, prev)
        decreases NUM_TRACKS - track
      {
        if track != DIRECTORY_TRACK {
          var found, sector := NextFreeSectorOfTrack(track, start);
          if found {
            return TrackSector(track, sector);
          }
        }
        start := 0;
        track := track + 1;
      }
      return TRACK_SECTOR_INVALID;
    }

    /**
     * The inner loop of getNextFreeTrackSector: the track walked in
     * interleave order from start, the first free sector met.
     */
    method NextFreeSectorOfTrack(track: nat, start: nat) returns (found: bool, sector: nat)
      requires Valid() && track < NUM_TRACKS && track != DIRECTORY_TRACK
      ensures found ==> sector < SectorsOnTrack(track) && NextFreeFrom(Sectors(), track, start) == TrackSector(track, sector)
      ensures !found ==> NextFreeFrom(Sectors(), track, start) == NextFreeFrom(Sectors(), track + 1, 0)
    {
      ghost var img := Sectors();
      var interleave := InterleaveOnTrack(track);
      var count := SectorsOnTrack(track);
      var bits := GetSectorBitsOfTrack(track);
      var i := 0;
      while i < count
        invariant i <= count
        invariant NextFreeStep(img, track, start, i) == NextFreeStep(img, track, start, 0)
      {
        sector := InterleaveStep(start, i, interleave, count);
        if Bit(bits, sector) {
          NextFreeAt(img, track, start, i);
          return true, sector;
        }
        i := i + 1;
      }
      WalkMissesNothing(img, track, start);
      return false, 0;
    }

    /**
     * writeDataToSector: the previous sector (if any) linked to sector idx,
     * the next chunk of at most 254 bytes copied behind sector idx's link
     * bytes, the chain closed when the chunk is the last, and sector idx
     * claimed.  Answers the chunk length.
     */
    method WriteDataToSector(idx: nat, data: seq<byte>, prev: nat) returns (n: nat)
      requires Valid() && idx < NUM_SECTORS && (prev == INVALID || prev < NUM_SECTORS)
      modifies diskBytes
      ensures Valid() && n == Min254(|data|)
      ensures Sectors() == Payload.WriteDataToSector(old(Sectors()), idx, data, prev).0
    {
      ghost var img := Sectors();
      n := if |data| < DATA_BYTES_PER_SECTOR then |data| else DATA_BYTES_PER_SECTOR;
      if prev != INVALID {
        var ts := TrackAndSector(idx);
        SetSectorByte(prev, 0, ts.track + 1);
        SetSectorByte(prev, 1, ts.sector);
        PutBytePair(img, prev, img[prev], 0, ts.track + 1, 1, ts.sector);
        assert img[prev := img[prev]] == img;
      }
      ghost var linked := Sectors();
      assert linked == if prev != INVALID then img[prev := LinkTo(img[prev], idx)] else img;
      WriteString(idx, 2, data[..n]);
      ghost var copied := Disk.WriteString(linked[idx], 2, data[..n]);
      if |data| <= DATA_BYTES_PER_SECTOR {
        SetSectorByte(idx, 0, 0);
        SetSectorByte(idx, 1, n);
        PutBytePair(linked, idx, copied, 0, 0, 1, n);
        StoreChunkSteps(img, idx, data, prev, linked, copied[0 := 0][1 := n]);
      } else {
        StoreChunkSteps(img, idx, data, prev, linked, copied);
      }
      SetSectorOccupied(idx);
    }

    /**
     * writeData: when the length is positive and fits the free space, the
     * bytes stored chunk by chunk from the first free sector on, each next
     * sector found by the interleaved search after the current one; answers
     * the first sector, or TRACK_SECTOR_INVALID with nothing changed.
     */
    method WriteData(data: seq<byte>) returns (first: TrackSector)
      requires Valid()
      modifies diskBytes
      ensures Valid() && (Sectors(), first) == Payload.WriteData(old(Sectors()), data)
    {
      ghost var img := Sectors();
      var available := GetNumberOfAvailableBytes();
      if 0 < |data| <= available {
        first := GetFirstFreeTrackSector();
        var idx: nat := SectorIdx(first);
        var prev: nat := INVALID;
        var rest := data;
        while |rest| > 0 && idx < NUM_SECTORS
          invariant Valid() && (prev == INVALID || prev < NUM_SECTORS)
          invariant WriteChain(Sectors(), rest, idx, prev).0 == WriteChain(img, data, SectorIdx(first), INVALID).0
          decreases |rest|
        {
          var n := WriteDataToSector(idx, rest, prev);
          prev := idx;
          var next := GetNextFreeTrackSector(TrackAndSector(idx));
          idx := SectorIdx(next);
          rest := rest[n..];
        }
      } else {
        first := TRACK_SECTOR_INVALID;
      }
    }

    /**
     * The directory slot of a file starting at first filled in: the link
     * bytes, the PRG type, the 1-based start track and the start sector, the
     * name padded with 0xA0 to 16 bytes and the block count, little endian.
     */
    method WriteEntry(slot: nat, first: TrackSector, name: seq<byte>, blocks: nat)
      requires Valid() && slot < DIR_ENTRIES_PER_SECTOR && ValidTs(first) && |name| <= NAME_LENGTH
      modifies diskBytes
      ensures Valid()
      ensures var img := old(Sectors());
              Sectors() == img[FIRST_DIR_SECTOR_IDX := Directory.WriteEntry(img[FIRST_DIR_SECTOR_IDX], slot, first, name, blocks)]
    {
      ghost var img := Sectors();
      ghost var dir := img[FIRST_DIR_SECTOR_IDX];
      var o := BYTES_PER_DIR_ENTRY * slot;
      var link: seq<byte> := if slot == 0 then [DIR_LINK_TRACK, DIR_LINK_SECTOR] else [0, 0];
      var head: seq<byte> := link + [PRG_TYPE, first.track + 1, first.sector];
      WriteString(FIRST_DIR_SECTOR_IDX, o, head);
      ghost var s1 := Disk.WriteString(dir, o, head);
      WriteStringWithPadding(FIRST_DIR_SECTOR_IDX, o + NAME_OFFSET, name, NAME_LENGTH, NAME_PADDING);
      ghost var s2 := Disk.WriteStringWithPadding(s1, o + NAME_OFFSET, name, NAME_LENGTH, NAME_PADDING);
      assert img[FIRST_DIR_SECTOR_IDX := s1][FIRST_DIR_SECTOR_IDX := s2] == img[FIRST_DIR_SECTOR_IDX := s2];
      var count: seq<byte> := [blocks % 256, (blocks / 256) % 256];
      WriteString(FIRST_DIR_SECTOR_IDX, o + BLOCKS_OFFSET, count);
      ghost var s3 := Disk.WriteString(s2, o + BLOCKS_OFFSET, count);
      assert img[FIRST_DIR_SECTOR_IDX := s2][FIRST_DIR_SECTOR_IDX := s3] == img[FIRST_DIR_SECTOR_IDX := s3];
      EntryInRuns(dir, slot, first, name, blocks, head, count);
    }

    /**
     * writeFile: the first unused slot of the first directory sector; when
     * there is one and writeData accepts the payload, the slot is filled in
     * for the normalised name and the payload's block count.
     */
    method WriteFile(name: seq<byte>, data: seq<byte>) returns (success: bool)
      requires Valid()
      modifies diskBytes
      ensures Valid() && (Sectors(), success) == Directory.WriteFile(old(Sectors()), name, data)
    {
      ghost var img := Sectors();
      success := false;
      var slot := 0;
      while slot < DIR_ENTRIES_PER_SECTOR
        invariant Valid() && Sectors() == img && slot <= DIR_ENTRIES_PER_SECTOR
        invariant FirstFreeSlot(img, slot) == FirstFreeSlot(img, 0)
      {
        var kind := GetSectorByte(FIRST_DIR_SECTOR_IDX, BYTES_PER_DIR_ENTRY * slot + TYPE_OFFSET);
        assert kind == Entry(img, slot)[TYPE_OFFSET];
        if kind == 0 {
          break;
        }
        slot := slot + 1;
      }
      if slot < DIR_ENTRIES_PER_SECTOR {
        var first := WriteData(data);
        if first != TRACK_SECTOR_INVALID {
          var diskName := MakeD64FileName(name);
          WriteEntry(slot, first, diskName, Blocks(|data|));
          success := true;
        }
      }
    }

    /**
     * initImage, first part: the BAM sector's header and one entry per track
     * with every sector of the track free (src/Writer.cpp:30-44).
     */
    method WriteBamEntries()
      requires Valid()
      modifies diskBytes
      ensures Valid()
      ensures var bam := old(Sectors())[BAM_SECTOR_IDX];
              Sectors() == old(Sectors())[BAM_SECTOR_IDX := Overlay(bam, FormatBam(bam), 0, DISK_NAME_OFFSET)]
    {
      ghost var img := Sectors();
      ghost var bam := img[BAM_SECTOR_IDX];
      ghost var f := FormatBam(bam);
      var header: seq<byte> := [TrackAndSector(BAM_SECTOR_IDX).track + 1, 0x01, 0x41, 0x00];
      HeaderStep(bam, header);
      WriteString(BAM_SECTOR_IDX, 0, header);
      var track := 0;
      while track < NUM_TRACKS
        invariant Valid() && track <= NUM_TRACKS
        invariant Sectors() == img[BAM_SECTOR_IDX := Overlay(bam, f, 0, EntryOffset(0) + 4 * track)]
      {
        WriteBamEntry(track, img, bam);
        track := track + 1;
      }
    }

    /** One round of the entry loop: the track's free count and its all-free bitmap. */
    method WriteBamEntry(track: nat, ghost img: Image, ghost bam: Sector)
      requires Valid() && WellFormed(img) && |bam| == BYTES_PER_SECTOR && track < NUM_TRACKS
      requires Sectors() == img[BAM_SECTOR_IDX := Overlay(bam, FormatBam(bam), 0, EntryOffset(0) + 4 * track)]
      modifies diskBytes
      ensures Valid() && Sectors() == img[BAM_SECTOR_IDX := Overlay(bam, FormatBam(bam), 0, EntryOffset(0) + 4 * (track + 1))]
    {
      var count := SectorsOnTrack(track);
      var bits := Pow2(count) - 1;
      var entry: seq<byte> := [count, bits % 256, (bits / 256) % 256, (bits / 65536) % 256];
      EntryStepImage(img, bam, track, entry);
      WriteString(BAM_SECTOR_IDX, EntryOffset(track), entry);
    }

    /**
     * initImage, last part: the disk name with its padding, the id bytes and
     * the zeroed bytes up to 0xFE (src/Writer.cpp:48-61).
     */
    method WriteBamTail(ghost bam: Sector)
      requires Valid() && |bam| == BYTES_PER_SECTOR
      modifies diskBytes
      ensures Valid()
      ensures var c := old(Sectors());
              Sectors() == c[BAM_SECTOR_IDX := Overlay(c[BAM_SECTOR_IDX], FormatBam(bam), DISK_NAME_OFFSET, 0xFF)]
    {
      ghost var c := Sectors();
      ghost var f := FormatBam(bam);
      WriteStringWithPadding(BAM_SECTOR_IDX, DISK_NAME_OFFSET, DISK_NAME, DISK_NAME_LENGTH, PADDING);
      FormatDiskName(c[BAM_SECTOR_IDX], bam);
      WriteString(BAM_SECTOR_IDX, 0xA0, DISK_ID);
      FormatDiskId(c[BAM_SECTOR_IDX], bam);
      var j := 0xAB;
      while j < 0xFF
        invariant Valid() && 0xAB <= j <= 0xFF
        invariant Sectors() == c[BAM_SECTOR_IDX := Overlay(c[BAM_SECTOR_IDX], f, DISK_NAME_OFFSET, j)]
      {
        FormattedTail(bam, j);
        OverlayStore(c, c[BAM_SECTOR_IDX], f, DISK_NAME_OFFSET, j);
        SetSectorByte(BAM_SECTOR_IDX, j, 0x00);
        j := j + 1;
      }
    }

    /**
     * initImage: the BAM sector's header, one entry per track with every
     * sector free, the claim of the BAM's own sector, the disk name, the id
     * bytes and the zeroed tail up to byte 0xFE.
     */
    method InitImage()
      requires Valid()
      modifies diskBytes
      ensures Valid() && Sectors() == Format.InitImage(old(Sectors()))
    {
      ghost var img := Sectors();
      ghost var bam := img[BAM_SECTOR_IDX];
      WriteBamEntries();
      SetSectorOccupied(BAM_SECTOR_IDX);
      WriteBamTail(bam);
      InitImageInSourceOrder(img);
    }

    /** Writer(): the buffer zero-filled, then initImage. */
    constructor()
      ensures Valid() && fresh(diskBytes)
      ensures Sectors() == FreshImage()
    {
      diskBytes := new byte[IMAGE_BYTES](_ => 0);
      new;
      SectorsOfZero(diskBytes[..]);
      InitImage();
    }
  }
}
