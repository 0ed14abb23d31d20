/**
 * Track/sector geometry of a 35-track Commodore 1541 disk (src/TrackSector.h,
 * src/TrackSector.cpp).  Tracks are zero-based here, as in the source; the
 * on-disk link bytes add one to the track.
 *
 * The tracks fall into four zones of 21, 19, 18 and 17 sectors; a linear
 * sector index 0..682 enumerates all sectors track by track.
 */
module Geometry {

  /** An unsigned 8-bit value (uint8_t). */
  type byte = b: int | 0 <= b < 256

  /** An unsigned 16-bit value (uint16_t). */
  type u16 = x: int | 0 <= x < 0x1_0000

  const NUM_TRACKS: nat := 35
  const NUM_SECTORS: nat := 683

  /** The "no sector" index (TrackSector::INVALID). */
  const INVALID: u16 := 65535

  /** A zero-based (track, sector) coordinate; both fields are bytes. */
  datatype TrackSector = TrackSector(track: byte, sector: byte)

  /** The "no sector" coordinate {255, 255}. */
  const TRACK_SECTOR_INVALID := TrackSector(255, 255)

  /** The truncating conversion static_cast<uint8_t>. */
  function ToByte(x: nat): (b: byte)
    ensures x < 256 ==> b == x
  {
    x % 256
  }

  /** The 8-bit decrement of an unsigned byte: 0 wraps round to 255. */
  function Dec8(c: byte): byte
  {
    if c == 0 then 255 else c - 1
  }

  /** operator ==: both fields agree. */
  function Equals(a: TrackSector, b: TrackSector): (r: bool)
    ensures r <==> a == b
  {
    a.track == b.track && a.sector == b.sector
  }

  /** operator !=: the negation of operator ==. */
  function NotEquals(a: TrackSector, b: TrackSector): (r: bool)
    ensures r <==> !Equals(a, b)
    ensures r <==> a != b
  {
    !Equals(a, b)
  }

  /** operator == is an equivalence relation. */
  lemma EqualsIsEquivalence(a: TrackSector, b: TrackSector, c: TrackSector)
    ensures Equals(a, a)
    ensures Equals(a, b) == Equals(b, a)
    ensures Equals(a, b) && Equals(b, c) ==> Equals(a, c)
  {
  }

  /** Sectors on a zero-based track: 21, 19, 18 or 17 by zone. */
  function SectorsOnTrack(track: byte): (n: nat)
    ensures 17 <= n <= 21 && n != 20
    ensures track < 17 <==> n == 21
  {
    if track < 17 then 21
    else if track < 24 then 19
    else if track < 30 then 18
    else 17
  }

  /** Greatest common divisor (Euclid). */
  function Gcd(a: nat, b: nat): nat
    decreases b
  {
    if b == 0 then a else Gcd(b, a % b)
  }

  /**
   * The interleave step of a track: 10 for 21 or 19 sectors, 7 for 18, 9 for
   * 17.  The fall-through case of the source's switch (an assert(0)) cannot
   * be reached.
   */
  function InterleaveOnTrack(track: byte): (k: int)
    ensures 0 < k < SectorsOnTrack(track)
    ensures Gcd(k, SectorsOnTrack(track)) == 1
  {
    var n := SectorsOnTrack(track);
    assert Gcd(10, 21) == Gcd(21, 10) == Gcd(10, 1) == Gcd(1, 0) == 1;
    assert Gcd(10, 19) == Gcd(19, 10) == Gcd(10, 9) == Gcd(9, 1) == Gcd(1, 0) == 1;
    assert Gcd(7, 18) == Gcd(18, 7) == Gcd(7, 4) == Gcd(4, 3) == Gcd(3, 1) == Gcd(1, 0) == 1;
    assert Gcd(9, 17) == Gcd(17, 9) == Gcd(9, 8) == Gcd(8, 1) == Gcd(1, 0) == 1;
    if n == 21 || n == 19 then 10
    else if n == 18 then 7
    else if n == 17 then 9
    else assert false; 0
  }

  /** A coordinate that names an existing sector. */
  predicate ValidTs(ts: TrackSector) {
    ts.track < NUM_TRACKS && ts.sector < SectorsOnTrack(ts.track)
  }

  /** Linear index of a coordinate, zone by zone. */
  function SectorIdx(ts: TrackSector): (idx: nat)
    ensures ValidTs(ts) ==> idx < NUM_SECTORS
    ensures idx < INVALID
  {
    if ts.track < 17 then ts.track * 21 + ts.sector
    else if ts.track < 24 then 17 * 21 + (ts.track - 17) * 19 + ts.sector
    else if ts.track < 30 then 17 * 21 + 7 * 19 + (ts.track - 24) * 18 + ts.sector
    else 17 * 21 + 7 * 19 + 6 * 18 + (ts.track - 30) * 17 + ts.sector
  }

  /** Coordinate of a linear index; the source truncates the track to a byte. */
  function TrackAndSector(idx: u16): (ts: TrackSector)
    ensures idx < NUM_SECTORS ==> ValidTs(ts) && SectorIdx(ts) == idx
  {
    if idx < 357 then TrackSector(idx / 21, idx % 21)
    else if idx < 490 then TrackSector((idx - 357) / 19 + 17, (idx - 357) % 19)
    else if idx < 598 then TrackSector((idx - 490) / 18 + 24, (idx - 490) % 18)
    else TrackSector(ToByte((idx - 598) / 17 + 30), (idx - 598) % 17)
  }

  /** The sentinel index lies outside the range of every valid coordinate. */
  lemma InvalidOutsideRange(ts: TrackSector)
    requires ValidTs(ts)
    ensures SectorIdx(ts) != INVALID
    ensures TrackAndSector(SectorIdx(ts)) != TRACK_SECTOR_INVALID
  {
    TrackAndSectorOfSectorIdx(ts);
  }

  /**
   * getSectorIdx of the {255, 255} coordinate is 4678: neither the INVALID
   * sentinel nor the index of a sector of the image.
   */
  lemma InvalidCoordinateIndex()
    ensures SectorIdx(TRACK_SECTOR_INVALID) == 4678
    ensures SectorIdx(TRACK_SECTOR_INVALID) != INVALID && SectorIdx(TRACK_SECTOR_INVALID) >= NUM_SECTORS
  {
  }

  /** The {255, 255} coordinate never names a sector. */
  lemma TrackSectorInvalidIsInvalid()
    ensures !ValidTs(TRACK_SECTOR_INVALID)
  {
  }

  /** For a valid coordinate, TrackAndSector undoes SectorIdx. */
  lemma TrackAndSectorOfSectorIdx(ts: TrackSector)
    requires ValidTs(ts)
    ensures SectorIdx(ts) < NUM_SECTORS
    ensures TrackAndSector(SectorIdx(ts)) == ts
  {
    var t: int, s: int := ts.track, ts.sector;
    if t < 17 {
      assert (t * 21 + s) / 21 == t && (t * 21 + s) % 21 == s;
    } else if t < 24 {
      var r := (t - 17) * 19 + s;
      assert r / 19 == t - 17 && r % 19 == s;
    } else if t < 30 {
      var r := (t - 24) * 18 + s;
      assert r / 18 == t - 24 && r % 18 == s;
    } else {
      var r := (t - 30) * 17 + s;
      assert r / 17 == t - 30 && r % 17 == s;
    }
  }

  /** SectorIdx is injective on valid coordinates. */
  lemma SectorIdxInjective(a: TrackSector, b: TrackSector)
    requires ValidTs(a) && ValidTs(b)
    ensures SectorIdx(a) == SectorIdx(b) <==> a == b
  {
    TrackAndSectorOfSectorIdx(a);
    TrackAndSectorOfSectorIdx(b);
  }

  /** Strict lexicographic order on coordinates. */
  predicate Before(a: TrackSector, b: TrackSector) {
    a.track < b.track || (a.track == b.track && a.sector < b.sector)
  }

  /** SectorIdx is strictly increasing in lexicographic (track, sector) order. */
  lemma SectorIdxMonotone(a: TrackSector, b: TrackSector)
    requires ValidTs(a) && ValidTs(b)
    ensures Before(a, b) <==> SectorIdx(a) < SectorIdx(b)
  {
    SectorsBeforeIsFirstIdx(a.track);
    SectorsBeforeIsFirstIdx(b.track);
    if a.track < b.track {
      SectorsBeforeGrows(a.track + 1, b.track);
    } else if b.track < a.track {
      SectorsBeforeGrows(b.track + 1, a.track);
    }
  }

  /** Number of sectors on the tracks below `t`. */
  function SectorsBefore(t: nat): nat
    requires t <= NUM_TRACKS
  {
    if t == 0 then 0 else SectorsBefore(t - 1) + SectorsOnTrack(t - 1)
  }

  lemma {:induction false} SectorsBeforeGrows(t: nat, u: nat)
    requires t <= u <= NUM_TRACKS
    ensures SectorsBefore(t) <= SectorsBefore(u)
    decreases u - t
  {
    if t < u {
      SectorsBeforeGrows(t, u - 1);
    }
  }

  /**
   * The first index of a track is the sum of the sector counts of all lower
   * tracks; over all 35 tracks the counts add up to 683.
   */
  lemma {:induction false} SectorsBeforeIsFirstIdx(t: nat)
    requires t <= NUM_TRACKS
    ensures t < NUM_TRACKS ==> SectorIdx(TrackSector(t, 0)) == SectorsBefore(t)
    ensures t < NUM_TRACKS ==> SectorsBefore(t) + SectorsOnTrack(t) == SectorsBefore(t + 1)
    ensures SectorsBefore(NUM_TRACKS) == NUM_SECTORS
  {
    if t > 0 {
      SectorsBeforeIsFirstIdx(t - 1);
    } else {
      AllSectorsSum();
    }
  }

  lemma AllSectorsSum()
    ensures SectorsBefore(NUM_TRACKS) == NUM_SECTORS
  {
    assert SectorsBefore(17) == 357 by { ZoneSum(0, 17); }
    assert SectorsBefore(24) == 490 by { ZoneSum(17, 24); }
    assert SectorsBefore(30) == 598 by { ZoneSum(24, 30); }
    ZoneSum(30, 35);
  }

  /** Within one zone the running sum grows by the zone's sector count. */
  lemma {:induction false} ZoneSum(lo: nat, hi: nat)
    requires lo <= hi <= NUM_TRACKS
    requires lo == 0 || lo == 17 || lo == 24 || lo == 30
    requires hi <= (if lo == 0 then 17 else if lo == 17 then 24 else if lo == 24 then 30 else 35)
    ensures SectorsBefore(hi) == SectorsBefore(lo) + (hi - lo) * SectorsOnTrack(lo)
    decreases hi - lo
  {
    if lo < hi {
      ZoneSum(lo, hi - 1);
      var n := SectorsOnTrack(lo);
      assert SectorsOnTrack(hi - 1) == n;
      if lo == 0 {
        assert (hi - lo) * 21 == (hi - 1 - lo) * 21 + 21;
      } else if lo == 17 {
        assert (hi - lo) * 19 == (hi - 1 - lo) * 19 + 19;
      } else if lo == 24 {
        assert (hi - lo) * 18 == (hi - 1 - lo) * 18 + 18;
      } else {
        assert (hi - lo) * 17 == (hi - 1 - lo) * 17 + 17;
      }
    }
  }

  /** Position of step i in the interleaved walk over a track of n sectors. */
  function InterleaveStep(start: nat, i: nat, k: nat, n: nat): (s: nat)
    requires n > 0
    ensures s < n
  {
    (start + i * k) % n
  }

  /**
   * Because the interleave is coprime to the sector count, the first N steps
   * of the walk reach every sector of the track, whatever the start ...
   */
  lemma InterleaveCovers(track: byte, start: nat, s: nat) returns (i: nat)
    requires s < SectorsOnTrack(track)
    ensures i < SectorsOnTrack(track)
    ensures InterleaveStep(start, i, InterleaveOnTrack(track), SectorsOnTrack(track)) == s
  {
    var n := SectorsOnTrack(track);
    if n == 21 {
      i := Covers21(start, s);
    } else if n == 19 {
      i := Covers19(start, s);
    } else if n == 18 {
      i := Covers18(start, s);
    } else {
      i := Covers17(start, s);
    }
  }

  /** With inv * k == 1 + c * n and d * inv == n * p + i, stepping i times by k lands d further modulo n. */
  lemma TimesInverse(d: int, i: int, p: int, inv: int, n: int, k: int, c: int)
    requires inv * k == 1 + c * n
    requires d * inv == n * p + i
    ensures i * k == d + n * (c * d - k * p)
  {
    calc {
      i * k;
      (d * inv - n * p) * k;
      d * (inv * k) - n * p * k;
      d * (1 + c * n) - n * p * k;
      d + n * (c * d - k * p);
    }
  }

  /** In the 21-sector zone, 19 is the inverse of the step 10 modulo 21: 10 * 19 == 1 + 9 * 21. */
  lemma Covers21(start: nat, s: nat) returns (i: nat)
    requires s < 21
    ensures i < 21 && (start + i * 10) % 21 == s
  {
    var r := start % 21;
    var d: nat := if s >= r then s - r else s + 21 - r;
    var p := (d * 19) / 21;
    i := (d * 19) % 21;
    TimesInverse(d, i, p, 19, 21, 10, 9);
    var m := start / 21 + 9 * d - 10 * p + (if s >= r then 0 else 1);
    assert start + i * 10 == s + 21 * m;
    ModShift21(s, m);
  }

  lemma ModShift21(s: nat, m: int)
    requires s < 21 && s + 21 * m >= 0
    ensures (s + 21 * m) % 21 == s
  {
  }

  /** In the 19-sector zone, 2 is the inverse of the step 10 modulo 19: 10 * 2 == 1 + 1 * 19. */
  lemma Covers19(start: nat, s: nat) returns (i: nat)
    requires s < 19
    ensures i < 19 && (start + i * 10) % 19 == s
  {
    var r := start % 19;
    var d: nat := if s >= r then s - r else s + 19 - r;
    var p := (d * 2) / 19;
    i := (d * 2) % 19;
    TimesInverse(d, i, p, 2, 19, 10, 1);
    var m := start / 19 + 1 * d - 10 * p + (if s >= r then 0 else 1);
    assert start + i * 10 == s + 19 * m;
    ModShift19(s, m);
  }

  lemma ModShift19(s: nat, m: int)
    requires s < 19 && s + 19 * m >= 0
    ensures (s + 19 * m) % 19 == s
  {
  }

  /** In the 18-sector zone, 13 is the inverse of the step 7 modulo 18: 7 * 13 == 1 + 5 * 18. */
  lemma Covers18(start: nat, s: nat) returns (i: nat)
    requires s < 18
    ensures i < 18 && (start + i * 7) % 18 == s
  {
    var r := start % 18;
    var d: nat := if s >= r then s - r else s + 18 - r;
    var p := (d * 13) / 18;
    i := (d * 13) % 18;
    TimesInverse(d, i, p, 13, 18, 7, 5);
    var m := start / 18 + 5 * d - 7 * p + (if s >= r then 0 else 1);
    assert start + i * 7 == s + 18 * m;
    ModShift18(s, m);
  }

  lemma ModShift18(s: nat, m: int)
    requires s < 18 && s + 18 * m >= 0
    ensures (s + 18 * m) % 18 == s
  {
  }

  /** In the 17-sector zone, 2 is the inverse of the step 9 modulo 17: 9 * 2 == 1 + 1 * 17. */
  lemma Covers17(start: nat, s: nat) returns (i: nat)
    requires s < 17
    ensures i < 17 && (start + i * 9) % 17 == s
  {
    var r := start % 17;
    var d: nat := if s >= r then s - r else s + 17 - r;
    var p := (d * 2) / 17;
    i := (d * 2) % 17;
    TimesInverse(d, i, p, 2, 17, 9, 1);
    var m := start / 17 + 1 * d - 9 * p + (if s >= r then 0 else 1);
    assert start + i * 9 == s + 17 * m;
    ModShift17(s, m);
  }

  lemma ModShift17(s: nat, m: int)
    requires s < 17 && s + 17 * m >= 0
    ensures (s + 17 * m) % 17 == s
  {
  }

  /** ... and no sector twice: the walk is a permutation of 0..N-1. */
  lemma InterleaveInjective(track: byte, start: nat, i: nat, j: nat)
    requires i < j < SectorsOnTrack(track)
    ensures InterleaveStep(start, i, InterleaveOnTrack(track), SectorsOnTrack(track))
         != InterleaveStep(start, j, InterleaveOnTrack(track), SectorsOnTrack(track))
  {
    var n := SectorsOnTrack(track);
    if n == 21 {
      Injective21(start, i, j);
    } else if n == 19 {
      Injective19(start, i, j);
    } else if n == 18 {
      Injective18(start, i, j);
    } else {
      Injective17(start, i, j);
    }
  }

  lemma Injective21(start: nat, i: nat, j: nat)
    requires i < j < 21
    ensures (start + i * 10) % 21 != (start + j * 10) % 21
  {
  }

  lemma Injective19(start: nat, i: nat, j: nat)
    requires i < j < 19
    ensures (start + i * 10) % 19 != (start + j * 10) % 19
  {
  }

  lemma Injective18(start: nat, i: nat, j: nat)
    requires i < j < 18
    ensures (start + i * 7) % 18 != (start + j * 7) % 18
  {
  }

  lemma Injective17(start: nat, i: nat, j: nat)
    requires i < j < 17
    ensures (start + i * 9) % 17 != (start + j * 9) % 17
  {
  }
}
