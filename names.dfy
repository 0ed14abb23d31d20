/**
 * File name normalisation (src/Writer.cpp:205-228): at most 16 characters;
 * digits, upper-case letters, '_' and '.' are kept, lower-case letters are
 * upper-cased and every other character becomes '_'.
 */
module Names {
  import opened Geometry

  const MAX_NAME_LENGTH: nat := 16
  const UNDERSCORE: byte := 0x5F

  /** Characters the disk directory keeps as they are. */
  predicate Kept(ch: byte) {
    (0x30 <= ch <= 0x39) || (0x41 <= ch <= 0x5A) || ch == UNDERSCORE || ch == 0x2E
  }

  predicate LowerCase(ch: byte) {
    0x61 <= ch <= 0x7A
  }

  /** One character of a disk file name. */
  function D64Char(ch: byte): (c: byte)
    ensures Kept(c)
  {
    if Kept(ch) then ch
    else if LowerCase(ch) then ch - 0x61 + 0x41
    else UNDERSCORE
  }

  /** The normalised name of a file. */
  function D64Name(name: seq<byte>): (r: seq<byte>)
    ensures |r| == if |name| < MAX_NAME_LENGTH then |name| else MAX_NAME_LENGTH
  {
    seq(if |name| < MAX_NAME_LENGTH then |name| else MAX_NAME_LENGTH,
        i requires 0 <= i < |name| && i < MAX_NAME_LENGTH => D64Char(name[i]))
  }

  /** makeD64FileName: the name built character by character. */
  method MakeD64FileName(name: seq<byte>) returns (r: seq<byte>)
    ensures r == D64Name(name)
  {
    r := [];
    var n := if |name| < MAX_NAME_LENGTH then |name| else MAX_NAME_LENGTH;
    var idx := 0;
    while idx < n
      invariant 0 <= idx <= n
      invariant r == D64Name(name)[..idx]
    {
      var ch := name[idx];
      if (0x30 <= ch <= 0x39) || (0x41 <= ch <= 0x5A) || ch == UNDERSCORE || ch == 0x2E {
        r := r + [ch];
      } else if 0x61 <= ch <= 0x7A {
        r := r + [ch - 0x61 + 0x41];
      } else {
        r := r + [UNDERSCORE];
      }
      idx := idx + 1;
    }
  }

  /**
   * A normalised name keeps the position of every character, holds only disk
   * characters, and so never contains the 0xA0 padding byte or a zero byte.
   */
  lemma D64NameChars(name: seq<byte>)
    ensures forall i :: 0 <= i < |D64Name(name)| ==> D64Name(name)[i] == D64Char(name[i])
    ensures forall i :: 0 <= i < |D64Name(name)| ==>
              Kept(D64Name(name)[i]) && D64Name(name)[i] != 0xA0 && D64Name(name)[i] != 0x00
  {
  }

  /** Lower-case letters become their upper-case counterparts. */
  lemma D64CharUpper(ch: byte)
    requires LowerCase(ch)
    ensures D64Char(ch) == ch - 32 && 0x41 <= D64Char(ch) <= 0x5A
  {
  }

  /** Normalising twice is normalising once. */
  lemma D64NameIdempotent(name: seq<byte>)
    ensures D64Name(D64Name(name)) == D64Name(name)
  {
    var r := D64Name(name);
    assert forall i :: 0 <= i < |r| ==> D64Char(r[i]) == r[i];
  }

  /** "hollarie.txt", the name of the small-file test. */
  const HOLLARIE: seq<byte> := [0x68, 0x6F, 0x6C, 0x6C, 0x61, 0x72, 0x69, 0x65, 0x2E, 0x74, 0x78, 0x74]

  /** "HOLLARIE.TXT" */
  const HOLLARIE_DISK_NAME: seq<byte> := [0x48, 0x4F, 0x4C, 0x4C, 0x41, 0x52, 0x49, 0x45, 0x2E, 0x54, 0x58, 0x54]

  /** The name of the small-file test: "hollarie.txt" is stored as "HOLLARIE.TXT". */
  lemma HollarieName()
    ensures D64Name(HOLLARIE) == HOLLARIE_DISK_NAME
  {
    var n := D64Name(HOLLARIE);
    assert forall i :: 0 <= i < 12 ==> n[i] == HOLLARIE_DISK_NAME[i];
  }
}
