/**
 * The writer's own test scenarios (test/WriterTest.cpp): a small program on
 * a new image, one file filling the whole image, and eight files sharing it,
 * each read back through the reference decoder.
 */
module Scenarios {
  import opened Geometry
  import opened Disk
  import opened Bam
  import opened Format
  import opened Payload
  import opened Reader
  import opened Names
  import opened Directory
  import opened D64

  /** The payload of the small-file test: a 6502 loop with its load address 0xC000. */
  const SMALL_PROG: seq<byte> := [0x00, 0xC0, 0xA0, 0x00, 0x8C, 0x20, 0xD0, 0xC8, 0xD0, 0xFA, 0xEA, 0x60, 0x00]

  /** "big" and "BIG", the names of the large-file test. */
  const BIG: seq<byte> := [0x62, 0x69, 0x67]
  const BIG_DISK_NAME: seq<byte> := [0x42, 0x49, 0x47]

  /** The room a new image offers: 664 data sectors of 254 bytes. */
  const FRESH_CAPACITY: nat := 168656

  /** A new image offers 664 free data sectors, 168656 bytes. */
  lemma FreshCapacity()
    ensures Holds(FreshImage(), [])
    ensures NumberOfAvailableBytes(FreshImage()) == FRESH_CAPACITY
  {
    FreshHolds();
    FreshImageFacts();
  }

  /**
   * A new image accepts any payload of 1 to 168656 bytes under any name; a
   * larger or empty payload is refused and leaves the image as it was.
   */
  lemma FreshImageAccepts(name: seq<byte>, data: seq<byte>)
    ensures WriteFile(FreshImage(), name, data).1 <==> 0 < |data| <= FRESH_CAPACITY
    ensures !WriteFile(FreshImage(), name, data).1 ==> WriteFile(FreshImage(), name, data).0 == FreshImage()
  {
    FreshCapacity();
    WriteFilePreserves(FreshImage(), [], name, data);
  }

  /** A payload written to a new image reads back under the file's disk name. */
  lemma FreshImageReadBack(name: seq<byte>, data: seq<byte>)
    requires 0 < |data| <= FRESH_CAPACITY
    ensures ReadProg(WriteFile(FreshImage(), name, data).0, D64Name(name)) == Some(data)
  {
    FreshCapacity();
    WriteFilePreserves(FreshImage(), [], name, data);
    var f := FileRec(name, data, DataChain(FreshImage(), data));
    assert [] + [f] == [f];
    ReadBack(WriteFile(FreshImage(), name, data).0, [f], 0);
  }

  /** Test "Small file": "hollarie.txt" is written and reads back as "HOLLARIE.TXT". */
  method SmallFile() returns (success: bool, prog: Option<seq<byte>>)
    ensures success && prog == Some(SMALL_PROG)
  {
    var w := new Writer();
    success := w.WriteFile(HOLLARIE, SMALL_PROG);
    prog := ReadProg(w.Sectors(), HOLLARIE_DISK_NAME);
    FreshImageAccepts(HOLLARIE, SMALL_PROG);
    FreshImageReadBack(HOLLARIE, SMALL_PROG);
    HollarieName();
  }

  /** Test "Large file": a payload of all 664 data sectors is written as "big" and reads back as "BIG". */
  method LargeFile(data: seq<byte>) returns (success: bool, prog: Option<seq<byte>>)
    requires |data| == FRESH_CAPACITY
    ensures success && prog == Some(data)
  {
    var w := new Writer();
    success := w.WriteFile(BIG, data);
    prog := ReadProg(w.Sectors(), BIG_DISK_NAME);
    FreshImageAccepts(BIG, data);
    FreshImageReadBack(BIG, data);
    BigName();
  }

  /** "big" is stored as "BIG". */
  lemma BigName()
    ensures D64Name(BIG) == BIG_DISK_NAME
  {
    var n := D64Name(BIG);
    assert forall i :: 0 <= i < 3 ==> n[i] == BIG_DISK_NAME[i];
  }

  // ---------------------------------------------------------------------
  // Test "Maximum Supported Files"

  /** "FILE_k" as bytes. */
  function TestFileName(k: nat): (name: seq<byte>)
    requires k < 10
    ensures |name| == 6 && name[5] == 0x30 + k
  {
    [0x46, 0x49, 0x4C, 0x45, UNDERSCORE, 0x30 + k]
  }

  /** makeFileContent: byte i is i modulo 256. */
  function TestFileContent(length: nat): (data: seq<byte>)
    ensures |data| == length && forall i :: 0 <= i < length ==> data[i] == i % 256
  {
    seq(length, i => i % 256)
  }

  /** The eight-file length: the room of a new image divided by eight. */
  const MAX_FILES_LENGTH: nat := FRESH_CAPACITY / 8

  /** "FILE_k" reads back under its own name, and differs from every other "FILE_j". */
  lemma TestFileNames(k: nat)
    requires k < 10
    ensures D64Name(TestFileName(k)) == TestFileName(k)
    ensures forall j :: 0 <= j < 10 && j != k ==> TestFileName(j) != TestFileName(k)
  {
    var n := D64Name(TestFileName(k));
    assert forall i :: 0 <= i < 6 ==> n[i] == TestFileName(k)[i];
  }

  /**
   * One round of the eight-file test: "FILE_k" with its payload is written
   * successfully while room remains, and the image holds it after the
   * earlier files.
   */
  method WriteTestFile(w: Writer, k: nat, content: seq<byte>, ghost files: seq<FileRec>) returns (ok: bool, ghost files': seq<FileRec>)
    requires k < 8 && |files| == k && |content| == MAX_FILES_LENGTH
    requires forall i :: 0 <= i < k ==> files[i].name == TestFileName(i) && files[i].data == content
    requires w.Valid() && Holds(w.Sectors(), files) && NumberOfFreeSectors(w.Sectors()) == 664 - 83 * k
    modifies w.diskBytes
    ensures ok && w.Valid() && Holds(w.Sectors(), files') && NumberOfFreeSectors(w.Sectors()) == 664 - 83 * (k + 1)
    ensures files' == files + [FileRec(TestFileName(k), content, DataChain(old(w.Sectors()), content))]
    ensures forall i :: 0 <= i < k + 1 ==> files'[i].name == TestFileName(i) && files'[i].data == content
  {
    ghost var img := w.Sectors();
    assert Blocks(|content|) == 83;
    WriteFilePreserves(img, files, TestFileName(k), content);
    ok := w.WriteFile(TestFileName(k), content);
    files' := files + [FileRec(TestFileName(k), content, DataChain(img, content))];
    NamesAppend(files, k, content, files'[k]);
  }

  /** Appending "FILE_k" keeps the files named "FILE_0", "FILE_1", ... in order. */
  lemma NamesAppend(files: seq<FileRec>, k: nat, content: seq<byte>, f: FileRec)
    requires k < 10 && |files| == k && f.name == TestFileName(k) && f.data == content
    requires forall i :: 0 <= i < k ==> files[i].name == TestFileName(i) && files[i].data == content
    ensures forall i :: 0 <= i < k + 1 ==> (files + [f])[i].name == TestFileName(i) && (files + [f])[i].data == content
  {
  }

  /**
   * Test "Maximum Supported Files": eight files of 21082 bytes, "FILE_0" to
   * "FILE_7", fill a new image (83 sectors each, 664 in all) and each reads
   * back under its own name.
   */
  method MaxSupportedFiles() returns (success: bool, progs: seq<Option<seq<byte>>>)
    ensures success
    ensures |progs| == 8 && forall k :: 0 <= k < 8 ==> progs[k] == Some(TestFileContent(MAX_FILES_LENGTH))
  {
    var content := TestFileContent(MAX_FILES_LENGTH);
    var w := new Writer();
    ghost var files;
    success, files := WriteTestFiles(w, content);
    progs := ReadTestFiles(w.Sectors(), files, content);
  }

  /**
   * Not a step of the test: after the same eight files, a ninth write of
   * "FILE_8" finds no unused directory slot, so writeFile fails.
   */
  method NinthFileRefused() returns (ninth: bool)
    ensures !ninth
  {
    var content := TestFileContent(MAX_FILES_LENGTH);
    var w := new Writer();
    var success;
    ghost var files;
    success, files := WriteTestFiles(w, content);
    ninth := WriteOneMore(w, files, TestFileName(8), content);
  }

  /** Once eight files are on the image every further writeFile fails, and the image stays as it was. */
  method WriteOneMore(w: Writer, ghost files: seq<FileRec>, name: seq<byte>, data: seq<byte>) returns (success: bool)
    requires w.Valid() && Holds(w.Sectors(), files) && |files| == DIR_ENTRIES_PER_SECTOR
    modifies w.diskBytes
    ensures w.Valid() && !success && w.Sectors() == old(w.Sectors())
  {
    WriteFilePreserves(w.Sectors(), files, name, data);
    success := w.WriteFile(name, data);
  }

  /** The writing loop of the eight-file test. */
  method WriteTestFiles(w: Writer, content: seq<byte>) returns (success: bool, ghost files: seq<FileRec>)
    requires |content| == MAX_FILES_LENGTH
    requires w.Valid() && w.Sectors() == FreshImage()
    modifies w.diskBytes
    ensures w.Valid()
    ensures success && Holds(w.Sectors(), files) && |files| == 8
    ensures forall i :: 0 <= i < 8 ==> files[i].name == TestFileName(i) && files[i].data == content
  {
    FreshCapacity();
    files := [];
    success := true;
    var k := 0;
    while k < 8
      invariant 0 <= k <= 8 && w.Valid()
      invariant Holds(w.Sectors(), files) && |files| == k
      invariant forall i :: 0 <= i < k ==> files[i].name == TestFileName(i) && files[i].data == content
      invariant NumberOfFreeSectors(w.Sectors()) == 664 - 83 * k
      invariant success
    {
      var ok;
      ok, files := WriteTestFile(w, k, content, files);
      success := success && ok;
      k := k + 1;
    }
  }

  /** The reading loop of the eight-file test: each "FILE_k" as the decoder finds it. */
  method ReadTestFiles(img: Image, ghost files: seq<FileRec>, content: seq<byte>) returns (progs: seq<Option<seq<byte>>>)
    requires Holds(img, files) && |files| == 8
    requires forall i :: 0 <= i < 8 ==> files[i].name == TestFileName(i) && files[i].data == content
    ensures |progs| == 8 && forall k :: 0 <= k < 8 ==> progs[k] == Some(content)
  {
    progs := [];
    var k := 0;
    while k < 8
      invariant 0 <= k <= 8 && |progs| == k
      invariant forall i :: 0 <= i < k ==> progs[i] == Some(content)
    {
      ReadTestFile(img, files, k, content);
      progs := progs + [ReadProg(img, TestFileName(k))];
      k := k + 1;
    }
  }

  /** "FILE_k" of the eight reads back as its payload. */
  lemma ReadTestFile(img: Image, files: seq<FileRec>, k: nat, content: seq<byte>)
    requires Holds(img, files) && |files| == 8 && k < 8
    requires forall i :: 0 <= i < 8 ==> files[i].name == TestFileName(i) && files[i].data == content
    ensures ReadProg(img, TestFileName(k)) == Some(content)
  {
    TestFileNames(k);
    forall j | 0 <= j < k
      ensures D64Name(files[j].name) != D64Name(files[k].name)
    {
      TestFileNames(j);
    }
    ReadBack(img, files, k);
  }
}
