/**
 * writeFile (src/Writer.cpp:306-356): a file gets the first unused of the
 * eight 32-byte slots of the first directory sector.  Its payload is stored
 * by writeData; only when that succeeds is the slot filled in: link bytes,
 * file type 2 (PRG), the 1-based start track and start sector, the disk name
 * padded with 0xA0 to 16 bytes, and the number of blocks in bytes 30-31.
 */
module Directory {
  import opened Geometry
  import opened Disk
  import opened Bam
  import opened Payload
  import opened Names
  import opened Reader
  import opened Format

  const TYPE_OFFSET: nat := 2
  /** File type byte of a program file. */
  const PRG_TYPE: byte := 2
  /** Link bytes of slot 0: the next directory sector, track 18 (1-based) sector 4. */
  const DIR_LINK_TRACK: byte := 18
  const DIR_LINK_SECTOR: byte := 4
  const BLOCKS_OFFSET: nat := 30

  /** A slot is used when its type byte is not zero. */
  predicate SlotUsed(img: Image, k: nat)
    requires WellFormed(img) && k < DIR_ENTRIES_PER_SECTOR
  {
    Entry(img, k)[TYPE_OFFSET] != 0
  }

  /** The slot scan of writeFile from slot k: the first unused slot, or 8 when all are used. */
  function FirstFreeSlot(img: Image, k: nat): (r: nat)
    requires WellFormed(img) && k <= DIR_ENTRIES_PER_SECTOR
    ensures k <= r <= DIR_ENTRIES_PER_SECTOR
    ensures forall j :: k <= j < r ==> SlotUsed(img, j)
    ensures r < DIR_ENTRIES_PER_SECTOR ==> !SlotUsed(img, r)
    decreases DIR_ENTRIES_PER_SECTOR - k
  {
    if k == DIR_ENTRIES_PER_SECTOR || !SlotUsed(img, k) then k
    else FirstFreeSlot(img, k + 1)
  }

  /** The directory sector with slot filled in for a file starting at first. */
  function WriteEntry(dir: Sector, slot: nat, first: TrackSector, name: seq<byte>, blocks: nat): (r: Sector)
    requires |dir| == BYTES_PER_SECTOR && slot < DIR_ENTRIES_PER_SECTOR && ValidTs(first) && |name| <= NAME_LENGTH
    ensures |r| == BYTES_PER_SECTOR
    ensures forall j :: 0 <= j < BYTES_PER_SECTOR && (j < BYTES_PER_DIR_ENTRY * slot || j >= BYTES_PER_DIR_ENTRY * slot + BYTES_PER_DIR_ENTRY) ==>
              r[j] == dir[j]
  {
    var o := BYTES_PER_DIR_ENTRY * slot;
    var linked := if slot == 0 then dir[o := DIR_LINK_TRACK][o + 1 := DIR_LINK_SECTOR] else dir[o := 0][o + 1 := 0];
    var t: byte := first.track + 1;
    var typed := linked[o + TYPE_OFFSET := PRG_TYPE][o + 3 := t][o + 4 := first.sector];
    var named := WriteStringWithPadding(typed, o + NAME_OFFSET, name, NAME_LENGTH, NAME_PADDING);
    named[o + BLOCKS_OFFSET := blocks % 256][o + BLOCKS_OFFSET + 1 := (blocks / 256) % 256]
  }

  /**
   * writeFile: with an unused slot and a payload writeData accepts, the
   * payload stored and the slot filled in; otherwise the image unchanged and
   * false.
   */
  function WriteFile(img: Image, name: seq<byte>, data: seq<byte>): (res: (Image, bool))
    requires WellFormed(img)
    ensures WellFormed(res.0)
    ensures !res.1 ==> res.0 == img
  {
    var slot := FirstFreeSlot(img, 0);
    if slot == DIR_ENTRIES_PER_SECTOR then (img, false)
    else
      var (img1, first) := WriteData(img, data);
      if first == TRACK_SECTOR_INVALID then (img, false)
      else
        var dir := WriteEntry(img1[FIRST_DIR_SECTOR_IDX], slot, first, D64Name(name), Blocks(|data|));
        (img1[FIRST_DIR_SECTOR_IDX := dir], true)
  }

  // ---------------------------------------------------------------------
  // The entry written

  /**
   * The filled-in slot reads back as a used slot of a file starting at
   * first, with the given name and block count; the other slots are as
   * they were.
   */
  lemma WriteEntryReads(img: Image, slot: nat, first: TrackSector, name: seq<byte>, blocks: nat)
    requires WellFormed(img) && slot < DIR_ENTRIES_PER_SECTOR && ValidTs(first)
    requires |name| <= NAME_LENGTH && forall j :: 0 <= j < |name| ==> name[j] != NAME_PADDING && name[j] != 0
    requires blocks < 0x1_0000
    ensures var r := img[FIRST_DIR_SECTOR_IDX := WriteEntry(img[FIRST_DIR_SECTOR_IDX], slot, first, name, blocks)];
            var e := Entry(r, slot);
            e[TYPE_OFFSET] == PRG_TYPE && StartingTrackSector(e) == Some(first) &&
            FileName(e) == name && NumberOfSectors(e) == blocks &&
            forall k :: 0 <= k < DIR_ENTRIES_PER_SECTOR && k != slot ==> Entry(r, k) == Entry(img, k)
  {
    var w := WriteEntry(img[FIRST_DIR_SECTOR_IDX], slot, first, name, blocks);
    var r := img[FIRST_DIR_SECTOR_IDX := w];
    var o := BYTES_PER_DIR_ENTRY * slot;
    WriteEntryBytes(img[FIRST_DIR_SECTOR_IDX], slot, first, name, blocks);
    var e := Entry(r, slot);
    assert forall j :: 0 <= j < BYTES_PER_DIR_ENTRY ==> e[j] == w[o + j];
    EntryDecodes(e, first, name, blocks);
    forall k | 0 <= k < DIR_ENTRIES_PER_SECTOR && k != slot ensures Entry(r, k) == Entry(img, k) {
      OtherSlotKept(img[FIRST_DIR_SECTOR_IDX], w, slot, k);
    }
  }

  /** The bytes of the slot WriteEntry fills in. */
  lemma WriteEntryBytes(dir: Sector, slot: nat, first: TrackSector, name: seq<byte>, blocks: nat)
    requires |dir| == BYTES_PER_SECTOR && slot < DIR_ENTRIES_PER_SECTOR && ValidTs(first) && |name| <= NAME_LENGTH
    ensures var r := WriteEntry(dir, slot, first, name, blocks);
            var o := BYTES_PER_DIR_ENTRY * slot;
            var p := Padded(name, NAME_LENGTH, NAME_PADDING);
            r[o + TYPE_OFFSET] == PRG_TYPE && r[o + 3] as int == first.track + 1 && r[o + 4] == first.sector &&
            r[o + BLOCKS_OFFSET] == blocks % 256 && r[o + BLOCKS_OFFSET + 1] == (blocks / 256) % 256 &&
            forall j :: 0 <= j < NAME_LENGTH ==> r[o + NAME_OFFSET + j] == p[j]
  {
  }

  /** An entry holding a start, a padded name and a block count reads them back. */
  lemma EntryDecodes(e: seq<byte>, first: TrackSector, name: seq<byte>, blocks: nat)
    requires |e| == BYTES_PER_DIR_ENTRY && ValidTs(first) && blocks < 0x1_0000
    requires |name| <= NAME_LENGTH && forall j :: 0 <= j < |name| ==> name[j] != NAME_PADDING && name[j] != 0
    requires e[3] as int == first.track + 1 && e[4] == first.sector
    requires e[BLOCKS_OFFSET] == blocks % 256 && e[BLOCKS_OFFSET + 1] == (blocks / 256) % 256
    requires forall j :: 0 <= j < NAME_LENGTH ==> e[NAME_OFFSET + j] == Padded(name, NAME_LENGTH, NAME_PADDING)[j]
    ensures StartingTrackSector(e) == Some(first) && FileName(e) == name && NumberOfSectors(e) == blocks
  {
    var p := Padded(name, NAME_LENGTH, NAME_PADDING);
    assert forall j :: 0 <= j < |name| ==> p[j] == name[j];
    assert |name| < NAME_LENGTH ==> p[|name|] == NAME_PADDING;
    FileNameFromStored(e, name, 0);
  }

  /** A slot other than the one written keeps its bytes. */
  lemma OtherSlotKept(dir: Sector, w: Sector, slot: nat, k: nat)
    requires |dir| == BYTES_PER_SECTOR && |w| == BYTES_PER_SECTOR
    requires slot < DIR_ENTRIES_PER_SECTOR && k < DIR_ENTRIES_PER_SECTOR && k != slot
    requires forall j :: 0 <= j < BYTES_PER_SECTOR && (j < BYTES_PER_DIR_ENTRY * slot || j >= BYTES_PER_DIR_ENTRY * slot + BYTES_PER_DIR_ENTRY) ==>
               w[j] == dir[j]
    ensures w[BYTES_PER_DIR_ENTRY * k .. BYTES_PER_DIR_ENTRY * k + BYTES_PER_DIR_ENTRY] ==
            dir[BYTES_PER_DIR_ENTRY * k .. BYTES_PER_DIR_ENTRY * k + BYTES_PER_DIR_ENTRY]
  {
    var o := BYTES_PER_DIR_ENTRY * k;
    var a, b := w[o .. o + BYTES_PER_DIR_ENTRY], dir[o .. o + BYTES_PER_DIR_ENTRY];
    assert forall j :: 0 <= j < BYTES_PER_DIR_ENTRY ==> a[j] == b[j];
  }

  // ---------------------------------------------------------------------
  // The directory invariant

  /** A file as written: its original name, its payload and the sectors holding it. */
  datatype FileRec = FileRec(name: seq<byte>, data: seq<byte>, chain: seq<nat>)

  /**
   * The file's payload is stored along its chain of occupied data sectors,
   * and the directory entry e names it and points at the chain's start with
   * the chain's length as block count.
   */
  predicate FileHeld(img: Image, f: FileRec, e: seq<byte>)
    requires WellFormed(img) && |e| == BYTES_PER_DIR_ENTRY
  {
    ChainStored(img, f.chain, f.data) &&
    (forall a :: 0 <= a < |f.chain| ==> DataIdx(f.chain[a]) && Occupied(img, f.chain[a])) &&
    e[TYPE_OFFSET] == PRG_TYPE && StartingTrackSector(e) == Some(TrackAndSector(f.chain[0])) &&
    FileName(e) == D64Name(f.name) && NumberOfSectors(e) == |f.chain|
  }

  /**
   * The image holds the files in order in the first slots: a consistent BAM,
   * slot k used exactly for k < |files|, every file held by its slot, and no
   * sector shared by two files.
   */
  ghost predicate Holds(img: Image, files: seq<FileRec>)
  {
    WellFormed(img) && BamConsistent(img) && |files| <= DIR_ENTRIES_PER_SECTOR &&
    (forall k :: 0 <= k < DIR_ENTRIES_PER_SECTOR ==> (SlotUsed(img, k) <==> k < |files|)) &&
    (forall i :: 0 <= i < |files| ==> FileHeld(img, files[i], Entry(img, i))) &&
    (forall i, j, a, b :: 0 <= i < j < |files| && 0 <= a < |files[i].chain| && 0 <= b < |files[j].chain| ==>
       files[i].chain[a] != files[j].chain[b])
  }

  /** An image with a consistent BAM and an all-zero directory sector holds no file. */
  lemma EmptyHolds(img: Image)
    requires WellFormed(img) && BamConsistent(img) && img[FIRST_DIR_SECTOR_IDX] == ZeroSector()
    ensures Holds(img, [])
  {
    forall k | 0 <= k < DIR_ENTRIES_PER_SECTOR ensures !SlotUsed(img, k) {
      assert Entry(img, k)[TYPE_OFFSET] == img[FIRST_DIR_SECTOR_IDX][BYTES_PER_DIR_ENTRY * k + TYPE_OFFSET];
    }
  }

  /** A new Writer holds no file: the directory sector is all zero. */
  lemma FreshHolds()
    ensures Holds(FreshImage(), [])
  {
    FreshBam();
    FreshSectorsZero(FIRST_DIR_SECTOR_IDX);
    EmptyHolds(FreshImage());
  }

  /** writeData never touches the directory sector. */
  lemma WriteDataKeepsDirectory(img: Image, data: seq<byte>)
    requires WellFormed(img) && BamConsistent(img) && 0 < |data| <= NumberOfAvailableBytes(img)
    ensures WriteData(img, data).0[FIRST_DIR_SECTOR_IDX] == img[FIRST_DIR_SECTOR_IDX]
  {
    WriteDataStores(img, data);
    DirectoryTrackLayout();
    assert !DataIdx(FIRST_DIR_SECTOR_IDX);
  }

  /** A held file stays held while its sectors keep their bytes and stay occupied. */
  lemma FileHeldFrame(img: Image, r: Image, f: FileRec, e: seq<byte>)
    requires WellFormed(img) && WellFormed(r) && |e| == BYTES_PER_DIR_ENTRY && FileHeld(img, f, e)
    requires forall a :: 0 <= a < |f.chain| ==> r[f.chain[a]] == img[f.chain[a]] && Occupied(r, f.chain[a])
    ensures FileHeld(r, f, e)
  {
    ChainStoredFrame(img, r, f.chain, f.data);
  }

  /** With the files in the first slots, the slot scan finds the slot after them. */
  lemma FirstFreeSlotIsNext(img: Image, files: seq<FileRec>)
    requires Holds(img, files)
    ensures FirstFreeSlot(img, 0) == |files|
  {
    SlotScanFinds(img, |files|, 0);
  }

  /** When exactly the first n slots are used, the scan from any k <= n stops at n. */
  lemma {:induction false} SlotScanFinds(img: Image, n: nat, k: nat)
    requires WellFormed(img) && k <= n <= DIR_ENTRIES_PER_SECTOR
    requires forall j :: 0 <= j < DIR_ENTRIES_PER_SECTOR ==> (SlotUsed(img, j) <==> j < n)
    ensures FirstFreeSlot(img, k) == n
    decreases n - k
  {
    if k < n {
      SlotScanFinds(img, n, k + 1);
    }
  }

  /** writeFile with an unused slot and an accepted payload: the payload image with the slot filled in. */
  lemma WriteFileUnfold(img: Image, name: seq<byte>, data: seq<byte>)
    requires WellFormed(img) && BamConsistent(img) && 0 < |data| <= NumberOfAvailableBytes(img)
    requires FirstFreeSlot(img, 0) < DIR_ENTRIES_PER_SECTOR
    ensures var img1 := WriteData(img, data).0;
            var first := WriteData(img, data).1;
            ValidTs(first) &&
            WriteFile(img, name, data) ==
              (img1[FIRST_DIR_SECTOR_IDX := WriteEntry(img1[FIRST_DIR_SECTOR_IDX], FirstFreeSlot(img, 0), first, D64Name(name), Blocks(|data|))], true)
  {
    WriteDataAccepts(img, data);
  }

  /**
   * The slot a successful writeFile fills reads back as the new file; the
   * other slots read as before.
   */
  lemma WriteFileEntry(img: Image, name: seq<byte>, data: seq<byte>)
    requires WellFormed(img) && BamConsistent(img) && 0 < |data| <= NumberOfAvailableBytes(img)
    requires FirstFreeSlot(img, 0) < DIR_ENTRIES_PER_SECTOR
    ensures var r := WriteFile(img, name, data).0;
            var slot := FirstFreeSlot(img, 0);
            var chain := DataChain(img, data);
            Entry(r, slot)[TYPE_OFFSET] == PRG_TYPE && StartingTrackSector(Entry(r, slot)) == Some(TrackAndSector(chain[0])) &&
            FileName(Entry(r, slot)) == D64Name(name) && NumberOfSectors(Entry(r, slot)) == |chain| &&
            (forall k :: 0 <= k < DIR_ENTRIES_PER_SECTOR && k != slot ==> Entry(r, k) == Entry(img, k))
  {
    WriteFileUnfold(img, name, data);
    WriteDataStores(img, data);
    WriteDataKeepsDirectory(img, data);
    var img1 := WriteData(img, data).0;
    var chain := DataChain(img, data);
    assert NumberOfFreeSectors(img1) == NumberOfFreeSectors(img) - |chain|;
    FreeTotalAtMost(img);
    D64NameChars(name);
    WriteEntryReads(img1, FirstFreeSlot(img, 0), WriteData(img, data).1, D64Name(name), Blocks(|data|));
    forall k | 0 <= k < DIR_ENTRIES_PER_SECTOR ensures Entry(img1, k) == Entry(img, k) {
    }
  }

  /** The files already on the image stay held by their slots. */
  lemma OldFilesKept(img: Image, r: Image, files: seq<FileRec>, chain: seq<nat>, slot: nat)
    requires Holds(img, files) && WellFormed(r) && slot == |files| < DIR_ENTRIES_PER_SECTOR
    requires forall k :: 0 <= k < NUM_SECTORS && k !in chain && k != BAM_SECTOR_IDX && k != FIRST_DIR_SECTOR_IDX ==> r[k] == img[k]
    requires forall k :: 0 <= k < NUM_SECTORS ==> (Free(r, k) <==> Free(img, k) && k !in chain)
    requires forall i :: 0 <= i < |chain| ==> chain[i] < NUM_SECTORS && Free(img, chain[i])
    requires forall k :: 0 <= k < DIR_ENTRIES_PER_SECTOR && k != slot ==> Entry(r, k) == Entry(img, k)
    ensures forall i :: 0 <= i < |files| ==> FileHeld(r, files[i], Entry(r, i))
    ensures forall i, a, b :: 0 <= i < |files| && 0 <= a < |files[i].chain| && 0 <= b < |chain| ==>
              files[i].chain[a] != chain[b]
  {
    DirectoryTrackLayout();
    forall i | 0 <= i < |files| ensures FileHeld(r, files[i], Entry(r, i)) {
      var f := files[i];
      assert FileHeld(img, f, Entry(img, i));
      forall a | 0 <= a < |f.chain| ensures r[f.chain[a]] == img[f.chain[a]] && Occupied(r, f.chain[a]) {
        var c := f.chain[a];
        assert DataIdx(c) && Occupied(img, c);
      }
      FileHeldFrame(img, r, f, Entry(img, i));
    }
    forall i, a, b | 0 <= i < |files| && 0 <= a < |files[i].chain| && 0 <= b < |chain|
      ensures files[i].chain[a] != chain[b]
    {
      assert FileHeld(img, files[i], Entry(img, i));
      assert Occupied(img, files[i].chain[a]);
      assert Free(img, chain[b]);
    }
  }

  /** A file held by the next slot, sharing no sector with the others, extends the invariant. */
  lemma HoldsAppend(img: Image, r: Image, files: seq<FileRec>, f: FileRec)
    requires Holds(img, files) && |files| < DIR_ENTRIES_PER_SECTOR
    requires WellFormed(r) && BamConsistent(r)
    requires forall k :: 0 <= k < DIR_ENTRIES_PER_SECTOR && k != |files| ==> Entry(r, k) == Entry(img, k)
    requires forall i :: 0 <= i < |files| ==> FileHeld(r, files[i], Entry(r, i))
    requires FileHeld(r, f, Entry(r, |files|))
    requires forall i, a, b :: 0 <= i < |files| && 0 <= a < |files[i].chain| && 0 <= b < |f.chain| ==>
               files[i].chain[a] != f.chain[b]
    ensures Holds(r, files + [f])
  {
    var files' := files + [f];
    forall k | 0 <= k < DIR_ENTRIES_PER_SECTOR ensures SlotUsed(r, k) <==> k < |files'| {
      if k != |files| {
        assert Entry(r, k) == Entry(img, k);
        assert SlotUsed(img, k) <==> k < |files|;
      } else {
        assert Entry(r, k)[TYPE_OFFSET] == PRG_TYPE;
      }
    }
    forall i | 0 <= i < |files'| ensures FileHeld(r, files'[i], Entry(r, i)) {
      if i < |files| {
        assert files'[i] == files[i];
      }
    }
  }

  /**
   * Writing a directory entry over a payload image: outside the directory
   * sector the result is the payload image, so the chain stays stored and
   * occupied and the BAM is the payload's.
   */
  lemma EntryOverPayload(img: Image, img1: Image, r: Image, chain: seq<nat>, data: seq<byte>)
    requires WellFormed(img) && WellFormed(img1) && WellFormed(r)
    requires Allocation(img, img1, chain) && ChainStored(img1, chain, data)
    requires forall k :: 0 <= k < NUM_SECTORS && k !in chain && k != BAM_SECTOR_IDX ==> img1[k] == img[k]
    requires forall k :: 0 <= k < NUM_SECTORS && k != FIRST_DIR_SECTOR_IDX ==> r[k] == img1[k]
    ensures forall k :: 0 <= k < NUM_SECTORS && k !in chain && k != BAM_SECTOR_IDX && k != FIRST_DIR_SECTOR_IDX ==> r[k] == img[k]
    ensures forall k :: 0 <= k < NUM_SECTORS ==> (Free(r, k) <==> Free(img, k) && k !in chain)
    ensures forall i :: 0 <= i < |chain| ==> chain[i] < NUM_SECTORS && DataIdx(chain[i]) && Free(img, chain[i]) && Occupied(r, chain[i])
    ensures BamConsistent(r) && NumberOfFreeSectors(r) == NumberOfFreeSectors(img) - |chain|
    ensures ChainStored(r, chain, data)
  {
    DirectoryTrackLayout();
    assert r[BAM_SECTOR_IDX] == img1[BAM_SECTOR_IDX];
    BamOnly(r, img1);
    forall i | 0 <= i < |chain| ensures Occupied(r, chain[i]) {
      assert chain[i] in chain;
    }
    forall i | 0 <= i < |chain| && chain[i] < NUM_SECTORS ensures r[chain[i]] == img1[chain[i]] {
      assert DataIdx(chain[i]);
    }
    ChainStoredFrame(img1, r, chain, data);
  }

  /** An image with one sector replaced keeps every other sector. */
  lemma OneSectorChanged(img: Image, r: Image, idx: nat)
    requires WellFormed(img) && idx < NUM_SECTORS && |r| == NUM_SECTORS && r == img[idx := r[idx]]
    ensures forall k :: 0 <= k < NUM_SECTORS && k != idx ==> r[k] == img[k]
  {
  }

  /**
   * Outside the directory sector a successful writeFile leaves the payload
   * image: the chain's sectors become occupied and nothing else changes state.
   */
  lemma WriteFileSectors(img: Image, name: seq<byte>, data: seq<byte>)
    requires WellFormed(img) && BamConsistent(img) && 0 < |data| <= NumberOfAvailableBytes(img)
    requires FirstFreeSlot(img, 0) < DIR_ENTRIES_PER_SECTOR
    ensures var r := WriteFile(img, name, data).0;
            var chain := DataChain(img, data);
            (forall k :: 0 <= k < NUM_SECTORS && k !in chain && k != BAM_SECTOR_IDX && k != FIRST_DIR_SECTOR_IDX ==> r[k] == img[k]) &&
            (forall k :: 0 <= k < NUM_SECTORS ==> (Free(r, k) <==> Free(img, k) && k !in chain)) &&
            (forall i :: 0 <= i < |chain| ==> chain[i] < NUM_SECTORS && DataIdx(chain[i]) && Free(img, chain[i]) && Occupied(r, chain[i])) &&
            BamConsistent(r) && NumberOfFreeSectors(r) == NumberOfFreeSectors(img) - Blocks(|data|) &&
            ChainStored(r, chain, data)
  {
    var img1 := WriteData(img, data).0;
    var r := WriteFile(img, name, data).0;
    WriteFileUnfold(img, name, data);
    WriteDataStores(img, data);
    OneSectorChanged(img1, r, FIRST_DIR_SECTOR_IDX);
    EntryOverPayload(img, img1, r, DataChain(img, data), data);
  }

  /** After a successful writeFile the new file is held by its slot. */
  lemma WriteFileNewHeld(img: Image, name: seq<byte>, data: seq<byte>)
    requires WellFormed(img) && BamConsistent(img) && 0 < |data| <= NumberOfAvailableBytes(img)
    requires FirstFreeSlot(img, 0) < DIR_ENTRIES_PER_SECTOR
    ensures var r := WriteFile(img, name, data).0;
            FileHeld(r, FileRec(name, data, DataChain(img, data)), Entry(r, FirstFreeSlot(img, 0)))
  {
    WriteFileSectors(img, name, data);
    WriteFileEntry(img, name, data);
  }

  /** After a successful writeFile the old files are still held and share no sector with the new one. */
  lemma WriteFileOldHeld(img: Image, files: seq<FileRec>, name: seq<byte>, data: seq<byte>)
    requires Holds(img, files) && |files| < DIR_ENTRIES_PER_SECTOR && 0 < |data| <= NumberOfAvailableBytes(img)
    ensures var r := WriteFile(img, name, data).0;
            var chain := DataChain(img, data);
            (forall i :: 0 <= i < |files| ==> FileHeld(r, files[i], Entry(r, i))) &&
            (forall i, a, b :: 0 <= i < |files| && 0 <= a < |files[i].chain| && 0 <= b < |chain| ==>
               files[i].chain[a] != chain[b])
  {
    FirstFreeSlotIsNext(img, files);
    WriteFileSectors(img, name, data);
    WriteFileEntry(img, name, data);
    OldFilesKept(img, WriteFile(img, name, data).0, files, DataChain(img, data), |files|);
  }

  /** A successful writeFile keeps the invariant with the new file appended. */
  lemma WriteFileHolds(img: Image, files: seq<FileRec>, name: seq<byte>, data: seq<byte>)
    requires Holds(img, files) && |files| < DIR_ENTRIES_PER_SECTOR && 0 < |data| <= NumberOfAvailableBytes(img)
    ensures var r := WriteFile(img, name, data).0;
            Holds(r, files + [FileRec(name, data, DataChain(img, data))]) &&
            NumberOfFreeSectors(r) == NumberOfFreeSectors(img) - Blocks(|data|)
  {
    FirstFreeSlotIsNext(img, files);
    WriteFileSectors(img, name, data);
    WriteFileEntry(img, name, data);
    WriteFileNewHeld(img, name, data);
    WriteFileOldHeld(img, files, name, data);
    HoldsAppend(img, WriteFile(img, name, data).0, files, FileRec(name, data, DataChain(img, data)));
  }

  /**
   * writeFile succeeds exactly when a slot is unused and the payload is
   * non-empty and fits the free space.  On success the image holds the new
   * file after the old ones, and the free total drops by the file's blocks;
   * on failure nothing changes.
   */
  lemma WriteFilePreserves(img: Image, files: seq<FileRec>, name: seq<byte>, data: seq<byte>)
    requires Holds(img, files)
    ensures var res := WriteFile(img, name, data);
            (res.1 <==> |files| < DIR_ENTRIES_PER_SECTOR && 0 < |data| <= NumberOfAvailableBytes(img)) &&
            (!res.1 ==> res.0 == img) &&
            (res.1 ==> Holds(res.0, files + [FileRec(name, data, DataChain(img, data))]) &&
                       NumberOfFreeSectors(res.0) == NumberOfFreeSectors(img) - Blocks(|data|))
  {
    FirstFreeSlotIsNext(img, files);
    WriteDataAccepts(img, data);
    if |files| < DIR_ENTRIES_PER_SECTOR && 0 < |data| <= NumberOfAvailableBytes(img) {
      WriteFileHolds(img, files, name, data);
    }
  }

  /**
   * A file of the image reads back as its payload under its disk name, as
   * long as no earlier file has the same disk name.
   */
  lemma ReadBack(img: Image, files: seq<FileRec>, i: nat)
    requires Holds(img, files) && i < |files|
    requires forall j :: 0 <= j < i ==> D64Name(files[j].name) != D64Name(files[i].name)
    ensures ReadProg(img, D64Name(files[i].name)) == Some(files[i].data)
  {
    var f := files[i];
    assert FileHeld(img, f, Entry(img, i));
    forall j | 0 <= j < i ensures FileName(Entry(img, j)) != D64Name(f.name) {
      assert FileHeld(img, files[j], Entry(img, j));
    }
    assert FindEntry(img, D64Name(f.name), 0) == Some(i);
    WalkStoredChain(img, f.chain, f.data);
  }
}
