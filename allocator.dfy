/**
 * The free-sector allocator (src/Writer.cpp:248-303): the first free data
 * sector of the image, and the next free sector after a given one in
 * interleave order.  Both skip the directory track and answer
 * TRACK_SECTOR_INVALID when no free data sector is left.
 */
module Allocator {
  import opened Geometry
  import opened Disk
  import opened Bam

  /** No sector of the track is free. */
  predicate TrackFull(img: Image, t: nat)
    requires WellFormed(img) && t < NUM_TRACKS
  {
    forall s: nat :: s < SectorsOnTrack(t) ==> !IsFree(img, t, s)
  }

  /** Every data track from t on is full. */
  predicate AllFullFrom(img: Image, t: nat)
    requires WellFormed(img)
  {
    forall u: nat :: t <= u < NUM_TRACKS && u != DIRECTORY_TRACK ==> TrackFull(img, u)
  }

  // ---------------------------------------------------------------------
  // getFirstFreeTrackSector

  /** The lowest free sector at or above s on track t. */
  function FirstFreeOnTrack(img: Image, t: nat, s: nat): (r: Option<nat>)
    requires WellFormed(img) && t < NUM_TRACKS
    ensures r.Some? ==> s <= r.value < SectorsOnTrack(t) && IsFree(img, t, r.value) &&
                        forall s': nat :: s <= s' < r.value ==> !IsFree(img, t, s')
    ensures r.None? ==> forall s': nat :: s <= s' < SectorsOnTrack(t) ==> !IsFree(img, t, s')
    decreases SectorsOnTrack(t) - s
  {
    if s >= SectorsOnTrack(t) then None
    else if IsFree(img, t, s) then Some(s)
    else FirstFreeOnTrack(img, t, s + 1)
  }

  /** The first free data sector on tracks t and above, in (track, sector) order. */
  function FirstFreeFrom(img: Image, t: nat): (r: TrackSector)
    requires WellFormed(img)
    ensures r == TRACK_SECTOR_INVALID <==> AllFullFrom(img, t)
    ensures r != TRACK_SECTOR_INVALID ==>
              t <= r.track && DataSector(r.track, r.sector) && IsFree(img, r.track, r.sector) &&
              forall u: nat, s: nat :: t <= u && DataSector(u, s) && (u < r.track || (u == r.track && s < r.sector)) ==>
                !IsFree(img, u, s)
    decreases NUM_TRACKS - t
  {
    if t >= NUM_TRACKS then TRACK_SECTOR_INVALID
    else if t == DIRECTORY_TRACK then FirstFreeFrom(img, t + 1)
    else match FirstFreeOnTrack(img, t, 0)
      case Some(s) => assert !TrackFull(img, t); TrackSector(t, s)
      case None => FirstFreeFrom(img, t + 1)
  }

  /**
   * getFirstFreeTrackSector: the first free data sector in (track, sector)
   * order, or TRACK_SECTOR_INVALID when every data sector is occupied.
   */
  function FirstFreeTrackSector(img: Image): (r: TrackSector)
    requires WellFormed(img)
    ensures r == TRACK_SECTOR_INVALID <==> AllFullFrom(img, 0)
    ensures r != TRACK_SECTOR_INVALID ==> DataSector(r.track, r.sector) && IsFree(img, r.track, r.sector)
  {
    FirstFreeFrom(img, 0)
  }

  /** The first free sector has the lowest linear index of all free data sectors. */
  lemma FirstFreeIsLowest(img: Image, u: nat, s: nat)
    requires WellFormed(img) && DataSector(u, s) && IsFree(img, u, s)
    ensures FirstFreeTrackSector(img) != TRACK_SECTOR_INVALID
    ensures SectorIdx(FirstFreeTrackSector(img)) <= SectorIdx(TrackSector(u, s))
  {
    var r := FirstFreeTrackSector(img);
    assert !TrackFull(img, u);
    SectorIdxMonotone(TrackSector(u, s), r);
  }

  // ---------------------------------------------------------------------
  // getNextFreeTrackSector

  /** Sector visited at step i of the interleaved walk of track t from start. */
  function Step(t: nat, start: nat, i: nat): (s: nat)
    requires t < NUM_TRACKS
    ensures s < SectorsOnTrack(t)
  {
    InterleaveStep(start, i, InterleaveOnTrack(t), SectorsOnTrack(t))
  }

  /** The first step at or after i of the walk of track t from start that lands on a free sector. */
  function NextFreeStep(img: Image, t: nat, start: nat, i: nat): (r: Option<nat>)
    requires WellFormed(img) && t < NUM_TRACKS
    ensures r.Some? ==> i <= r.value < SectorsOnTrack(t) && IsFree(img, t, Step(t, start, r.value)) &&
                        forall j: nat :: i <= j < r.value ==> !IsFree(img, t, Step(t, start, j))
    ensures r.None? ==> forall j: nat :: i <= j < SectorsOnTrack(t) ==> !IsFree(img, t, Step(t, start, j))
    decreases SectorsOnTrack(t) - i
  {
    if i >= SectorsOnTrack(t) then None
    else if IsFree(img, t, Step(t, start, i)) then Some(i)
    else NextFreeStep(img, t, start, i + 1)
  }

  /** A walk that finds nothing has visited every sector: the track is full. */
  lemma WalkMissesNothing(img: Image, t: nat, start: nat)
    requires WellFormed(img) && t < NUM_TRACKS
    ensures NextFreeStep(img, t, start, 0).None? <==> TrackFull(img, t)
  {
    var r := NextFreeStep(img, t, start, 0);
    if r.None? {
      forall s: nat | s < SectorsOnTrack(t) ensures !IsFree(img, t, s) {
        var i := InterleaveCovers(t, start, s);
        assert Step(t, start, i) == s;
      }
    } else {
      assert IsFree(img, t, Step(t, start, r.value));
    }
  }

  /**
   * The next free data sector from track t on, walking track t in interleave
   * order from sector start and every later track from sector 0.
   */
  function NextFreeFrom(img: Image, t: nat, start: nat): (r: TrackSector)
    requires WellFormed(img)
    ensures r == TRACK_SECTOR_INVALID <==> AllFullFrom(img, t)
    ensures r != TRACK_SECTOR_INVALID ==>
              t <= r.track && DataSector(r.track, r.sector) && IsFree(img, r.track, r.sector) &&
              forall u: nat :: t <= u < r.track && u != DIRECTORY_TRACK ==> TrackFull(img, u)
    decreases NUM_TRACKS - t
  {
    if t >= NUM_TRACKS then TRACK_SECTOR_INVALID
    else if t == DIRECTORY_TRACK then NextFreeFrom(img, t + 1, 0)
    else
      WalkMissesNothing(img, t, start);
      match NextFreeStep(img, t, start, 0)
      case Some(i) => TrackSector(t, Step(t, start, i))
      case None => NextFreeFrom(img, t + 1, 0)
  }

  /**
   * getNextFreeTrackSector: the first free data sector at or after prev's
   * track, in interleave order starting at prev's sector on prev's track and
   * at sector 0 on the tracks after it; TRACK_SECTOR_INVALID exactly when
   * every data track from prev's on is full.
   */
  function NextFreeTrackSector(img: Image, prev: TrackSector): (r: TrackSector)
    requires WellFormed(img)
    ensures r == TRACK_SECTOR_INVALID <==> AllFullFrom(img, prev.track)
    ensures r != TRACK_SECTOR_INVALID ==>
              prev.track <= r.track && r.track != DIRECTORY_TRACK && ValidTs(r) && IsFree(img, r.track, r.sector)
  {
    NextFreeFrom(img, prev.track, prev.sector)
  }

  /**
   * The sector found is the first free one of its track's interleaved walk:
   * it is visited at some step i and every earlier step lands on an occupied
   * sector.  The walk starts at prev's sector on prev's track and at 0 after.
   */
  lemma NextFreeInterleaveOrder(img: Image, t: nat, start: nat) returns (i: nat)
    requires WellFormed(img)
    requires NextFreeFrom(img, t, start) != TRACK_SECTOR_INVALID
    ensures var r := NextFreeFrom(img, t, start);
            var st := if r.track == t then start else 0;
            i < SectorsOnTrack(r.track) && r.sector == Step(r.track, st, i) &&
            forall j: nat :: j < i ==> !IsFree(img, r.track, Step(r.track, st, j))
    decreases NUM_TRACKS - t
  {
    if t == DIRECTORY_TRACK {
      i := NextFreeInterleaveOrder(img, t + 1, 0);
    } else {
      match NextFreeStep(img, t, start, 0)
      case Some(k) => i := k;
      case None => i := NextFreeInterleaveOrder(img, t + 1, 0);
    }
  }

  /** With a consistent BAM, the search fails exactly when the free total is zero. */
  lemma NoFreeSectorIffInvalid(img: Image)
    requires WellFormed(img) && BamConsistent(img)
    ensures NumberOfFreeSectors(img) == 0 <==> FirstFreeTrackSector(img) == TRACK_SECTOR_INVALID
    ensures NumberOfFreeSectors(img) == 0 <==> NextFreeTrackSector(img, TrackSector(0, 0)) == TRACK_SECTOR_INVALID
  {
    NoFreeSectors(img);
    if NumberOfFreeSectors(img) == 0 {
      forall u: nat | u < NUM_TRACKS && u != DIRECTORY_TRACK ensures TrackFull(img, u) {
        forall s: nat | s < SectorsOnTrack(u) ensures !IsFree(img, u, s) {
          assert DataSector(u, s);
        }
      }
    } else {
      var u: nat, s: nat :| DataSector(u, s) && IsFree(img, u, s);
      assert !TrackFull(img, u);
    }
  }

  /** From track 0, the first free sector and the interleaved search end on the same track. */
  lemma FirstAndNextSameTrack(img: Image)
    requires WellFormed(img)
    ensures var f := FirstFreeTrackSector(img);
            var n := NextFreeTrackSector(img, TrackSector(0, 0));
            (f == TRACK_SECTOR_INVALID <==> n == TRACK_SECTOR_INVALID) &&
            (f != TRACK_SECTOR_INVALID ==> f.track == n.track)
  {
    var f := FirstFreeTrackSector(img);
    var n := NextFreeTrackSector(img, TrackSector(0, 0));
    if f != TRACK_SECTOR_INVALID {
      assert !TrackFull(img, f.track);
      assert !TrackFull(img, n.track);
    }
  }
}
