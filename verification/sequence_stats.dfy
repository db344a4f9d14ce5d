/**
 * Per-identity statistics over a finished sequence (getSequenceStats) and the choice of the
 * main face (getMainFaceID).
 *
 * The single pass of the source over frames and faces is split into two independent folds:
 * the per-frame totals (counted frames, summed frame sizes) and the per-occurrence updates of
 * the statistics table, which see the faces of the counted frames in the same order.
 * Floating point is modelled as `real`; the Euclidean norm (cv::norm, and std::sqrt of a sum
 * of squares) is a parameter.
 */
module SequenceStats {
  import opened Results
  import opened Seqs
  import opened Faces

  /** Below this a normalising denominator counts as zero. */
  const Epsilon: real := 0.000001

  /** FaceStat: the sums become averages and the ratios are filled in at the end. */
  datatype FaceStat = FaceStat(
    id: int,
    avgCenterDist: real,
    frameCount: nat,
    avgSize: real,
    centralRatio: real,
    frameRatio: real,
    sizeRatio: real)

  /** A default-constructed FaceStat labelled with an id: every other field is 0. */
  function NewStat(id: int): (s: FaceStat)
    ensures s.id == id && s.frameCount == 0
  {
    FaceStat(id, 0.0, 0, 0.0, 0.0, 0.0, 0.0)
  }

  // ---------------------------------------------------------------------------------------
  // Occurrences and totals
  // ---------------------------------------------------------------------------------------

  /** One face of a counted frame: its id, its distance to the frame centre and its size. */
  datatype Occurrence = Occurrence(id: int, dist: real, size: real)

  /** The frame centre, the midpoint of the box and the box size, as the source computes them. */
  function OccurrenceOf(norm: (real, real) -> real, frame: Frame, face: Face): (oc: Occurrence)
    ensures oc.id == face.id
    ensures oc.size == (face.bbox.width + face.bbox.height) as real * 0.5
  {
    var cx, cy := frame.width as real * 0.5, frame.height as real * 0.5;
    var px := (face.bbox.Tl().x + face.bbox.Br().x) as real * 0.5;
    var py := (face.bbox.Tl().y + face.bbox.Br().y) as real * 0.5;
    Occurrence(face.id, norm(px - cx, py - cy), (face.bbox.width + face.bbox.height) as real * 0.5)
  }

  function FrameOccurrences(norm: (real, real) -> real, frame: Frame): (r: seq<Occurrence>)
    ensures |r| == |frame.faces|
    ensures forall k :: 0 <= k < |r| ==> r[k] == OccurrenceOf(norm, frame, frame.faces[k])
  {
    seq(|frame.faces|, k requires 0 <= k < |frame.faces| => OccurrenceOf(norm, frame, frame.faces[k]))
  }

  /** All face occurrences of the sequence, frame by frame. */
  function Occurrences(norm: (real, real) -> real, frames: seq<Frame>): seq<Occurrence> {
    if |frames| == 0 then []
    else Occurrences(norm, frames[..|frames| - 1]) + FrameOccurrences(norm, frames[|frames| - 1])
  }

  /** Totals over the frames that have faces: their number and summed widths and heights. */
  datatype Totals = Totals(frames: nat, width: real, height: real)

  function Tally(frames: seq<Frame>): (t: Totals)
    ensures t.frames <= |frames|
  {
    if |frames| == 0 then Totals(0, 0.0, 0.0)
    else
      var t := Tally(frames[..|frames| - 1]);
      var f := frames[|frames| - 1];
      if |f.faces| == 0 then t
      else Totals(t.frames + 1, t.width + f.width as real, t.height + f.height as real)
  }

  /** A frame is counted exactly when it has a face. */
  predicate HasFaces(f: Frame) {
    |f.faces| > 0
  }

  /** The number of counted frames is the number of frames with faces. */
  lemma {:induction false} TallyCounts(frames: seq<Frame>)
    ensures Tally(frames).frames == |Filter(frames, HasFaces)|
  {
    if |frames| > 0 {
      var init := frames[..|frames| - 1];
      TallyCounts(init);
      FilterAppend(init, frames[|frames| - 1], HasFaces);
      assert frames == init + [frames[|frames| - 1]];
    }
  }

  lemma FilterAppend<T(!new)>(s: seq<T>, x: T, p: T -> bool)
    ensures Filter(s + [x], p) == Filter(s, p) + (if p(x) then [x] else [])
  {
    if |s| > 0 {
      assert (s + [x])[1..] == s[1..] + [x];
    }
  }

  // ---------------------------------------------------------------------------------------
  // Reference definitions over the occurrence list
  // ---------------------------------------------------------------------------------------

  function OccIds(occs: seq<Occurrence>): (ids: seq<int>)
    ensures |ids| == |occs|
    ensures forall k :: 0 <= k < |occs| ==> ids[k] == occs[k].id
  {
    seq(|occs|, k requires 0 <= k < |occs| => occs[k].id)
  }

  /** The distinct values of a list, in order of first appearance. */
  function FirstSeen(ids: seq<int>): seq<int> {
    if |ids| == 0 then []
    else if ids[|ids| - 1] in ids[..|ids| - 1] then FirstSeen(ids[..|ids| - 1])
    else FirstSeen(ids[..|ids| - 1]) + [ids[|ids| - 1]]
  }

  /** The first-appearance list holds exactly the values of the list. */
  lemma {:induction false} FirstSeenMember(ids: seq<int>, x: int)
    ensures x in FirstSeen(ids) <==> x in ids
  {
    if |ids| > 0 {
      var init := ids[..|ids| - 1];
      FirstSeenMember(init, x);
      assert ids == init + [ids[|ids| - 1]];
    }
  }

  lemma {:induction false} FirstSeenDistinct(ids: seq<int>)
    ensures Distinct(FirstSeen(ids))
  {
    if |ids| > 0 {
      var init := ids[..|ids| - 1];
      FirstSeenDistinct(init);
      FirstSeenMember(init, ids[|ids| - 1]);
    }
  }

  /** How many occurrences carry the id. */
  function Count(occs: seq<Occurrence>, id: int): nat {
    multiset(OccIds(occs))[id]
  }

  /** Summed centre distance of the occurrences carrying the id. */
  function DistSum(occs: seq<Occurrence>, id: int): real {
    if |occs| == 0 then 0.0
    else DistSum(occs[..|occs| - 1], id) + (if occs[|occs| - 1].id == id then occs[|occs| - 1].dist else 0.0)
  }

  /** Summed size of the occurrences carrying the id. */
  function SizeSum(occs: seq<Occurrence>, id: int): real {
    if |occs| == 0 then 0.0
    else SizeSum(occs[..|occs| - 1], id) + (if occs[|occs| - 1].id == id then occs[|occs| - 1].size else 0.0)
  }

  // ---------------------------------------------------------------------------------------
  // The statistics table
  // ---------------------------------------------------------------------------------------

  /** The statistics vector and `face_map`, from face id to position in the vector. */
  datatype Table = Table(stats: seq<FaceStat>, index: map<int, nat>)

  function AddOccurrence(s: FaceStat, oc: Occurrence): (s': FaceStat)
    ensures s'.id == s.id && s'.frameCount == s.frameCount + 1
  {
    s.(avgCenterDist := s.avgCenterDist + oc.dist, frameCount := s.frameCount + 1, avgSize := s.avgSize + oc.size)
  }

  /**
   * One face: `face_map[id]` (inserting 0 for an unseen id) names a slot; unless that slot
   * exists and holds this id, a new statistic is appended and the map points to it. The
   * occurrence is then added to the slot.
   */
  function Update(t: Table, oc: Occurrence): (t': Table)
    ensures |t.stats| <= |t'.stats| <= |t.stats| + 1
  {
    var i := if oc.id in t.index then t.index[oc.id] else 0;
    if i >= |t.stats| || t.stats[i].id != oc.id then
      Table(t.stats + [AddOccurrence(NewStat(oc.id), oc)], t.index[oc.id := |t.stats|])
    else
      Table(t.stats[i := AddOccurrence(t.stats[i], oc)], t.index[oc.id := i])
  }

  /** The table after the given occurrences, starting from an empty vector and map. */
  function Collect(occs: seq<Occurrence>): Table {
    if |occs| == 0 then Table([], map[])
    else Update(Collect(occs[..|occs| - 1]), occs[|occs| - 1])
  }

  function StatIds(stats: seq<FaceStat>): (ids: seq<int>)
    ensures |ids| == |stats|
    ensures forall k :: 0 <= k < |stats| ==> ids[k] == stats[k].id
  {
    seq(|stats|, k requires 0 <= k < |stats| => stats[k].id)
  }

  /** A statistic holds the raw sums of the occurrences of its id and no ratios yet. */
  ghost predicate Accumulated(s: FaceStat, occs: seq<Occurrence>) {
    && s.frameCount == Count(occs, s.id)
    && s.avgCenterDist == DistSum(occs, s.id)
    && s.avgSize == SizeSum(occs, s.id)
    && s.centralRatio == 0.0 && s.frameRatio == 0.0 && s.sizeRatio == 0.0
  }

  /**
   * The table invariant: one statistic per id in order of first appearance, the map points
   * every recorded id at its statistic, and every statistic holds its id's sums.
   */
  ghost predicate Summarises(t: Table, occs: seq<Occurrence>) {
    && StatIds(t.stats) == FirstSeen(OccIds(occs))
    && (forall x :: x in t.index ==> t.index[x] < |t.stats| && t.stats[t.index[x]].id == x)
    && (forall k :: 0 <= k < |t.stats| ==> t.stats[k].id in t.index)
    && (forall k :: 0 <= k < |t.stats| ==> Accumulated(t.stats[k], occs))
  }

  lemma OccIdsAppend(occs: seq<Occurrence>, oc: Occurrence)
    ensures OccIds(occs + [oc]) == OccIds(occs) + [oc.id]
    ensures OccIds(occs + [oc])[..|occs|] == OccIds(occs)
  {
  }

  /** Appending an occurrence adds to the sums of its own id and of no other. */
  lemma SumsAppend(occs: seq<Occurrence>, oc: Occurrence, id: int)
    ensures Count(occs + [oc], id) == Count(occs, id) + (if oc.id == id then 1 else 0)
    ensures DistSum(occs + [oc], id) == DistSum(occs, id) + (if oc.id == id then oc.dist else 0.0)
    ensures SizeSum(occs + [oc], id) == SizeSum(occs, id) + (if oc.id == id then oc.size else 0.0)
  {
    OccIdsAppend(occs, oc);
    assert (occs + [oc])[..|occs|] == occs;
  }

  /** An occurrence of an id seen before updates that id's statistic in place. */
  lemma UpdateSeen(t: Table, occs: seq<Occurrence>, oc: Occurrence)
    requires Summarises(t, occs) && oc.id in OccIds(occs)
    ensures Summarises(Update(t, oc), occs + [oc])
  {
    var ids := OccIds(occs);
    FirstSeenMember(ids, oc.id);
    FirstSeenDistinct(ids);
    OccIdsAppend(occs, oc);
    assert OccIds(occs + [oc])[..|occs|] == ids;
    var k :| 0 <= k < |t.stats| && StatIds(t.stats)[k] == oc.id;
    assert oc.id in t.index;
    var i := t.index[oc.id];
    assert i == k by {
      assert StatIds(t.stats)[i] == oc.id;
    }
    var t' := Update(t, oc);
    assert t'.stats == t.stats[i := AddOccurrence(t.stats[i], oc)];
    assert StatIds(t'.stats) == StatIds(t.stats);
    SeenAccumulated(t.stats, t'.stats, occs, oc, i);
  }

  /** Adding an occurrence to the statistic of its own id keeps every statistic's sums right. */
  lemma SeenAccumulated(stats: seq<FaceStat>, stats': seq<FaceStat>, occs: seq<Occurrence>, oc: Occurrence, i: nat)
    requires i < |stats| && stats[i].id == oc.id && Distinct(StatIds(stats))
    requires forall k :: 0 <= k < |stats| ==> Accumulated(stats[k], occs)
    requires stats' == stats[i := AddOccurrence(stats[i], oc)]
    ensures forall j :: 0 <= j < |stats'| ==> Accumulated(stats'[j], occs + [oc])
  {
    forall j | 0 <= j < |stats| ensures Accumulated(stats'[j], occs + [oc]) {
      SumsAppend(occs, oc, stats[j].id);
      if j != i {
        assert StatIds(stats)[j] != StatIds(stats)[i];
      }
    }
  }

  /** A new id is in neither the table nor its map, so Update appends a statistic for it. */
  lemma UnseenAppends(t: Table, occs: seq<Occurrence>, oc: Occurrence)
    requires Summarises(t, occs) && oc.id !in OccIds(occs)
    ensures oc.id !in StatIds(t.stats) && oc.id !in t.index
    ensures Update(t, oc) == Table(t.stats + [AddOccurrence(NewStat(oc.id), oc)], t.index[oc.id := |t.stats|])
  {
    FirstSeenMember(OccIds(occs), oc.id);
    assert oc.id !in StatIds(t.stats);
    assert oc.id !in t.index;
    if |t.stats| > 0 {
      assert StatIds(t.stats)[0] == t.stats[0].id;
    }
  }

  /** After appending for a new id, every statistic holds its id's sums over the longer list. */
  lemma UnseenAccumulated(t: Table, occs: seq<Occurrence>, oc: Occurrence)
    requires Summarises(t, occs) && oc.id !in OccIds(occs)
    ensures forall j :: 0 <= j < |Update(t, oc).stats| ==> Accumulated(Update(t, oc).stats[j], occs + [oc])
  {
    UnseenAppends(t, occs, oc);
    var t' := Update(t, oc);
    forall j | 0 <= j < |t'.stats| ensures Accumulated(t'.stats[j], occs + [oc]) {
      SumsAppend(occs, oc, t'.stats[j].id);
      if j < |t.stats| {
        assert t'.stats[j] == t.stats[j];
        assert StatIds(t.stats)[j] != oc.id;
      } else {
        NoneSummed(occs, oc.id);
      }
    }
  }

  /** An occurrence of a new id appends a statistic for it. */
  lemma UpdateUnseen(t: Table, occs: seq<Occurrence>, oc: Occurrence)
    requires Summarises(t, occs) && oc.id !in OccIds(occs)
    ensures Summarises(Update(t, oc), occs + [oc])
  {
    var ids := OccIds(occs);
    UnseenAppends(t, occs, oc);
    UnseenAccumulated(t, occs, oc);
    OccIdsAppend(occs, oc);
    assert OccIds(occs + [oc])[..|occs|] == ids;
    var t' := Update(t, oc);
    assert StatIds(t'.stats) == StatIds(t.stats) + [oc.id];
    forall x | x in t'.index ensures t'.index[x] < |t'.stats| && t'.stats[t'.index[x]].id == x {
      if x != oc.id {
        assert t'.index[x] == t.index[x];
      }
    }
  }

  /** An id that never occurs has empty sums. */
  lemma {:induction false} NoneSummed(occs: seq<Occurrence>, id: int)
    requires id !in OccIds(occs)
    ensures DistSum(occs, id) == 0.0 && SizeSum(occs, id) == 0.0
  {
    if |occs| > 0 {
      var init := occs[..|occs| - 1];
      assert OccIds(init) == OccIds(occs)[..|occs| - 1];
      assert OccIds(occs)[|occs| - 1] == occs[|occs| - 1].id;
      NoneSummed(init, id);
    }
  }

  /** The table after any prefix of occurrences summarises that prefix. */
  lemma {:induction false} CollectSummarises(occs: seq<Occurrence>)
    ensures Summarises(Collect(occs), occs)
  {
    if |occs| > 0 {
      var init, oc := occs[..|occs| - 1], occs[|occs| - 1];
      CollectSummarises(init);
      assert occs == init + [oc];
      if oc.id in OccIds(init) {
        UpdateSeen(Collect(init), init, oc);
      } else {
        UpdateUnseen(Collect(init), init, oc);
      }
    }
  }

  // ---------------------------------------------------------------------------------------
  // getSequenceStats
  // ---------------------------------------------------------------------------------------

  /** std::min(std::max(0, x), 1). */
  function Clamp(x: real): (r: real)
    ensures 0.0 <= r <= 1.0
    ensures 0.0 <= x <= 1.0 ==> r == x
  {
    var lo := if 0.0 < x then x else 0.0;
    if 1.0 < lo then 1.0 else lo
  }

  /**
   * The final pass over one statistic: the sums become averages over the count, and the
   * ratios are filled in: the central ratio falls from 1 as the average distance grows
   * towards maxDist, the size ratio rises with the average size up to maxSize, and the frame
   * ratio is the share of counted frames.
   */
  function Finalize(s: FaceStat, total: nat, maxDist: real, maxSize: real): (r: FaceStat)
    requires s.frameCount > 0 && total > 0
    ensures r.id == s.id && r.frameCount == s.frameCount
    ensures r.avgCenterDist * s.frameCount as real == s.avgCenterDist
    ensures r.avgSize * s.frameCount as real == s.avgSize
    ensures Epsilon <= maxDist ==> r.centralRatio == Clamp(1.0 - r.avgCenterDist / maxDist)
    ensures Epsilon <= maxSize ==> r.sizeRatio == Clamp(r.avgSize / maxSize)
    ensures 0.0 <= r.centralRatio <= 1.0 && 0.0 <= r.sizeRatio <= 1.0
    ensures maxDist < Epsilon ==> r.centralRatio == 1.0
    ensures maxSize < Epsilon ==> r.sizeRatio == 1.0
    ensures r.frameRatio * total as real == s.frameCount as real
  {
    var avgDist := s.avgCenterDist / s.frameCount as real;
    var avgSize := s.avgSize / s.frameCount as real;
    var central := if maxDist < Epsilon then 1.0 else 1.0 - avgDist / maxDist;
    var size := if maxSize < Epsilon then 1.0 else avgSize / maxSize;
    FaceStat(s.id, avgDist, s.frameCount, avgSize, Clamp(central), s.frameCount as real / total as real, Clamp(size))
  }

  /** The face ids of all frames, frame by frame. */
  function SequenceIds(frames: seq<Frame>): seq<int> {
    if |frames| == 0 then []
    else SequenceIds(frames[..|frames| - 1]) + FaceIds(frames[|frames| - 1].faces)
  }

  lemma {:induction false} OccurrenceIds(norm: (real, real) -> real, frames: seq<Frame>)
    ensures OccIds(Occurrences(norm, frames)) == SequenceIds(frames)
  {
    if |frames| > 0 {
      OccurrenceIds(norm, frames[..|frames| - 1]);
    }
  }

  /** A frame with faces was counted, so no faces at all means no counted frame. */
  lemma {:induction false} NoCountedFrames(norm: (real, real) -> real, frames: seq<Frame>)
    ensures Tally(frames).frames == 0 ==> |Occurrences(norm, frames)| == 0
  {
    if |frames| > 0 {
      NoCountedFrames(norm, frames[..|frames| - 1]);
    }
  }

  /** The statistic of an id after normalisation, against the ids of the sequence. */
  ghost predicate Normalised(s: FaceStat, ids: seq<int>, total: nat) {
    && s.frameCount == multiset(ids)[s.id]
    && s.frameCount > 0
    && 0.0 <= s.centralRatio <= 1.0
    && 0.0 <= s.sizeRatio <= 1.0
    && s.frameRatio * total as real == s.frameCount as real
  }

  /** max_dist: a quarter of the diagonal of the mean counted frame. */
  function MaxCenterDist(norm: (real, real) -> real, t: Totals): real
    requires t.frames > 0
  {
    0.25 * norm(t.width / t.frames as real, t.height / t.frames as real)
  }

  /** max_size: a quarter of the mean counted frame's width plus its mean height. */
  function MaxSize(t: Totals): real
    requires t.frames > 0
  {
    0.25 * (t.width / t.frames as real + t.height / t.frames as real)
  }

  /**
   * The values of a finished statistic: its averages are its id's summed distance and size
   * over its count, and its central and size ratios are the clamped formulas against the
   * two scales (1 when a scale is below 1e-6).
   */
  ghost predicate Averaged(s: FaceStat, occs: seq<Occurrence>, maxDist: real, maxSize: real) {
    && s.frameCount > 0
    && s.avgCenterDist == DistSum(occs, s.id) / s.frameCount as real
    && s.avgSize == SizeSum(occs, s.id) / s.frameCount as real
    && s.centralRatio == Clamp(if maxDist < Epsilon then 1.0 else 1.0 - s.avgCenterDist / maxDist)
    && s.sizeRatio == Clamp(if maxSize < Epsilon then 1.0 else s.avgSize / maxSize)
  }

  /** The raw table of a sequence: its ids in order of first appearance, each counted. */
  lemma TableOfSequence(norm: (real, real) -> real, frames: seq<Frame>)
    ensures var stats := Collect(Occurrences(norm, frames)).stats;
      && StatIds(stats) == FirstSeen(SequenceIds(frames))
      && forall k :: 0 <= k < |stats| ==>
        stats[k].frameCount == multiset(SequenceIds(frames))[stats[k].id] > 0
  {
    var occs := Occurrences(norm, frames);
    var stats := Collect(occs).stats;
    CollectSummarises(occs);
    OccurrenceIds(norm, frames);
    forall k | 0 <= k < |stats|
      ensures stats[k].frameCount == multiset(SequenceIds(frames))[stats[k].id] > 0
    {
      FirstSeenMember(OccIds(occs), StatIds(stats)[k]);
      assert StatIds(stats)[k] in OccIds(occs);
    }
  }

  /** The final pass over every statistic. */
  function FinalizeAll(stats: seq<FaceStat>, total: nat, maxDist: real, maxSize: real): (r: seq<FaceStat>)
    requires total > 0 && forall k :: 0 <= k < |stats| ==> stats[k].frameCount > 0
    ensures |r| == |stats| && StatIds(r) == StatIds(stats)
    ensures forall k :: 0 <= k < |stats| ==> r[k] == Finalize(stats[k], total, maxDist, maxSize)
  {
    seq(|stats|, k requires 0 <= k < |stats| => Finalize(stats[k], total, maxDist, maxSize))
  }

  /**
   * Finalizing statistics that hold their ids' counts and sums normalises each of them and
   * gives it the averages and ratios of its occurrences.
   */
  lemma FinalizeNormalises(stats: seq<FaceStat>, ids: seq<int>, occs: seq<Occurrence>,
                           total: nat, maxDist: real, maxSize: real)
    requires total > 0
    requires forall k :: 0 <= k < |stats| ==> stats[k].frameCount == multiset(ids)[stats[k].id] > 0
    requires forall k :: 0 <= k < |stats| ==>
      stats[k].avgCenterDist == DistSum(occs, stats[k].id) && stats[k].avgSize == SizeSum(occs, stats[k].id)
    ensures forall k :: 0 <= k < |stats| ==> Normalised(FinalizeAll(stats, total, maxDist, maxSize)[k], ids, total)
    ensures forall k :: 0 <= k < |stats| ==> Averaged(FinalizeAll(stats, total, maxDist, maxSize)[k], occs, maxDist, maxSize)
  {
    var r := FinalizeAll(stats, total, maxDist, maxSize);
    forall k | 0 <= k < |stats| ensures Normalised(r[k], ids, total) && Averaged(r[k], occs, maxDist, maxSize) {
      FinalizedValues(stats[k], r[k], occs, total, maxDist, maxSize);
    }
  }

  lemma FinalizedValues(s: FaceStat, r: FaceStat, occs: seq<Occurrence>, total: nat, maxDist: real, maxSize: real)
    requires s.frameCount > 0 && total > 0
    requires s.avgCenterDist == DistSum(occs, s.id) && s.avgSize == SizeSum(occs, s.id)
    requires r == Finalize(s, total, maxDist, maxSize)
    ensures Averaged(r, occs, maxDist, maxSize)
  {
  }

  /**
   * getSequenceStats from an empty vector: one statistic per face id in order of first
   * appearance, each counting the id's occurrences, with both clamped ratios in [0, 1]
   * and the frame ratio count / counted frames. Without any face the statistics are empty
   * and nothing is normalised.
   */
  function GetSequenceStats(norm: (real, real) -> real, frames: seq<Frame>): (stats: seq<FaceStat>)
    ensures StatIds(stats) == FirstSeen(SequenceIds(frames))
    ensures forall k :: 0 <= k < |stats| ==> Normalised(stats[k], SequenceIds(frames), Tally(frames).frames)
  {
    var totals := Tally(frames);
    var occs := Occurrences(norm, frames);
    var table := Collect(occs);
    TableOfSequence(norm, frames);
    CollectSummarises(occs);
    if totals.frames == 0 then
      NoCountedFrames(norm, frames);
      table.stats
    else
      var maxDist, maxSize := MaxCenterDist(norm, totals), MaxSize(totals);
      FinalizeNormalises(table.stats, SequenceIds(frames), occs, totals.frames, maxDist, maxSize);
      FinalizeAll(table.stats, totals.frames, maxDist, maxSize)
  }

  /**
   * The values getSequenceStats computes: a statistic exists only when some frame was
   * counted, and each holds its id's average distance to the frame centre and average size
   * over the sequence, with the central and size ratios against the mean frame's scales.
   */
  lemma StatsValues(norm: (real, real) -> real, frames: seq<Frame>)
    ensures |GetSequenceStats(norm, frames)| > 0 ==> Tally(frames).frames > 0
    ensures Tally(frames).frames > 0 ==> forall k :: 0 <= k < |GetSequenceStats(norm, frames)| ==>
      Averaged(GetSequenceStats(norm, frames)[k], Occurrences(norm, frames),
               MaxCenterDist(norm, Tally(frames)), MaxSize(Tally(frames)))
  {
    var totals := Tally(frames);
    var occs := Occurrences(norm, frames);
    var table := Collect(occs);
    TableOfSequence(norm, frames);
    CollectSummarises(occs);
    if totals.frames == 0 {
      NoCountedFrames(norm, frames);
    } else {
      var maxDist, maxSize := MaxCenterDist(norm, totals), MaxSize(totals);
      FinalizeNormalises(table.stats, SequenceIds(frames), occs, totals.frames, maxDist, maxSize);
    }
  }

  /** Each ratio is 1 when its denominator is below 1e-6. */
  lemma DegenerateRatios(norm: (real, real) -> real, frames: seq<Frame>)
    ensures var t := Tally(frames);
      t.frames > 0 ==>
        forall k :: 0 <= k < |GetSequenceStats(norm, frames)| ==>
          && (MaxCenterDist(norm, t) < Epsilon ==> GetSequenceStats(norm, frames)[k].centralRatio == 1.0)
          && (MaxSize(t) < Epsilon ==> GetSequenceStats(norm, frames)[k].sizeRatio == 1.0)
  {
    TableOfSequence(norm, frames);
  }

  /** Without a single face the statistics are empty. */
  lemma NoFacesNoStats(norm: (real, real) -> real, frames: seq<Frame>)
    requires forall k :: 0 <= k < |frames| ==> |frames[k].faces| == 0
    ensures GetSequenceStats(norm, frames) == []
  {
    NoFaceIds(frames);
  }

  lemma {:induction false} NoFaceIds(frames: seq<Frame>)
    requires forall k :: 0 <= k < |frames| ==> |frames[k].faces| == 0
    ensures SequenceIds(frames) == []
  {
    if |frames| > 0 {
      NoFaceIds(frames[..|frames| - 1]);
    }
  }

  /** With distinct ids inside every frame an id occurs at most once per counted frame. */
  lemma {:induction false} CountAtMostFrames(frames: seq<Frame>, id: int)
    requires forall k :: 0 <= k < |frames| ==> Distinct(FaceIds(frames[k].faces))
    ensures multiset(SequenceIds(frames))[id] <= Tally(frames).frames
  {
    if |frames| > 0 {
      var init, f := frames[..|frames| - 1], frames[|frames| - 1];
      CountAtMostFrames(init, id);
      DistinctNoDup(FaceIds(f.faces));
      if |f.faces| == 0 {
        assert FaceIds(f.faces) == [];
      }
    }
  }

  /** Then the frame ratio is at most 1. */
  lemma FrameRatioAtMostOne(norm: (real, real) -> real, frames: seq<Frame>)
    requires forall k :: 0 <= k < |frames| ==> Distinct(FaceIds(frames[k].faces))
    ensures forall k :: 0 <= k < |GetSequenceStats(norm, frames)| ==>
      0.0 < GetSequenceStats(norm, frames)[k].frameRatio <= 1.0
  {
    var stats := GetSequenceStats(norm, frames);
    var ids, total := SequenceIds(frames), Tally(frames).frames;
    forall k | 0 <= k < |stats| ensures multiset(ids)[stats[k].id] <= total {
      CountAtMostFrames(frames, stats[k].id);
    }
    RatiosAtMostOne(stats, ids, total);
  }

  lemma RatiosAtMostOne(stats: seq<FaceStat>, ids: seq<int>, total: nat)
    requires forall k :: 0 <= k < |stats| ==> Normalised(stats[k], ids, total)
    requires forall k :: 0 <= k < |stats| ==> multiset(ids)[stats[k].id] <= total
    ensures forall k :: 0 <= k < |stats| ==> 0.0 < stats[k].frameRatio <= 1.0
  {
    forall k | 0 <= k < |stats| ensures 0.0 < stats[k].frameRatio <= 1.0 {
      RatioBounds(stats[k].frameRatio, stats[k].frameCount as real, total as real);
    }
  }

  lemma RatioBounds(r: real, c: real, t: real)
    requires 0.0 < c <= t && r * t == c
    ensures 0.0 < r <= 1.0
  {
  }

  /** A one-frame sequence: its ids are the frame's, and it is counted when it has faces. */
  lemma SingleFrame(frame: Frame)
    ensures SequenceIds([frame]) == FaceIds(frame.faces)
    ensures Tally([frame]).frames == if |frame.faces| > 0 then 1 else 0
  {
    assert [frame][..0] == [];
  }

  lemma FirstSeenTwice(x: int)
    ensures FirstSeen([x, x]) == [x]
  {
    var s := [x, x];
    assert s[..1] == [x] && [x][..0] == [];
    assert FirstSeen([x]) == [x];
    assert s[1] in s[..1];
    assert FirstSeen(s) == FirstSeen(s[..1]);
  }

  lemma TwiceCounted(stats: seq<FaceStat>, x: int)
    requires StatIds(stats) == [x]
    requires forall k :: 0 <= k < |stats| ==> Normalised(stats[k], [x, x], 1)
    ensures |stats| == 1 && stats[0].frameRatio == 2.0
  {
    assert multiset([x, x])[x] == 2;
    assert stats[0].id == x;
  }

  /** The frame ratio is not clamped: a face repeated inside a frame drives it to 2. */
  lemma FrameRatioUnclamped(norm: (real, real) -> real, frame: Frame, face: Face)
    requires frame.faces == [face, face]
    ensures |GetSequenceStats(norm, [frame])| == 1
    ensures GetSequenceStats(norm, [frame])[0].frameRatio == 2.0
  {
    SingleFrame(frame);
    assert FaceIds(frame.faces) == [face.id, face.id];
    FirstSeenTwice(face.id);
    TwiceCounted(GetSequenceStats(norm, [frame]), face.id);
  }

  // ---------------------------------------------------------------------------------------
  // getMainFaceID
  // ---------------------------------------------------------------------------------------

  /** The unweighted mean of the three ratios. */
  function Score(s: FaceStat): real {
    (s.centralRatio + s.frameRatio + s.sizeRatio) / 3.0
  }

  /**
   * Statistic w is the main face among the first n: its score is positive, no earlier one
   * reaches it and no later one exceeds it.
   */
  ghost predicate MainAmong(stats: seq<FaceStat>, n: nat, w: int) {
    && 0 <= w < n <= |stats|
    && Score(stats[w]) > 0.0
    && (forall j :: 0 <= j < w ==> Score(stats[j]) < Score(stats[w]))
    && (forall j :: w <= j < n ==> Score(stats[j]) <= Score(stats[w]))
  }

  /** There is at most one main face. */
  lemma MainUnique(stats: seq<FaceStat>, v: int, w: int)
    requires MainAmong(stats, |stats|, v) && MainAmong(stats, |stats|, w)
    ensures v == w
  {
  }

  /**
   * getMainFaceID over statistics: the id of the first statistic with the greatest score,
   * provided that score is positive, else -1.
   */
  method GetMainFaceId(stats: seq<FaceStat>) returns (id: int)
    ensures (forall k :: 0 <= k < |stats| ==> Score(stats[k]) <= 0.0) ==> id == -1
    ensures (exists k :: 0 <= k < |stats| && Score(stats[k]) > 0.0) ==>
      exists w :: MainAmong(stats, |stats|, w) && id == stats[w].id
  {
    id := -1;
    var best := 0.0;
    ghost var w := -1;
    for i := 0 to |stats|
      invariant w == -1 <==> forall k :: 0 <= k < i ==> Score(stats[k]) <= 0.0
      invariant w == -1 ==> id == -1 && best == 0.0
      invariant w != -1 ==> MainAmong(stats, i, w) && best == Score(stats[w]) && id == stats[w].id
    {
      var score := Score(stats[i]);
      if score > best {
        best := score;
        id := stats[i].id;
        w := i;
      }
    }
  }

  /** Every statistic of a sequence has a positive score: it occurs in a counted frame. */
  lemma ScoresPositive(norm: (real, real) -> real, frames: seq<Frame>)
    ensures forall k :: 0 <= k < |GetSequenceStats(norm, frames)| ==>
      Score(GetSequenceStats(norm, frames)[k]) > 0.0
  {
    NormalisedScores(GetSequenceStats(norm, frames), SequenceIds(frames), Tally(frames).frames);
  }

  lemma NormalisedScores(stats: seq<FaceStat>, ids: seq<int>, total: nat)
    requires forall k :: 0 <= k < |stats| ==> Normalised(stats[k], ids, total)
    ensures forall k :: 0 <= k < |stats| ==> Score(stats[k]) > 0.0
  {
    forall k | 0 <= k < |stats| ensures Score(stats[k]) > 0.0 {
      PositiveRatio(stats[k].frameRatio, stats[k].frameCount as real, total as real);
    }
  }

  lemma PositiveRatio(r: real, c: real, t: real)
    requires 0.0 < c && 0.0 <= t && r * t == c
    ensures 0.0 < r
  {
  }

  /**
   * getMainFaceID over a sequence: -1 when no frame has a face, otherwise the id of the
   * main face of the sequence's statistics.
   */
  method MainFaceOfSequence(norm: (real, real) -> real, frames: seq<Frame>) returns (id: int)
    ensures SequenceIds(frames) == [] ==> id == -1
    ensures SequenceIds(frames) != [] ==>
      exists w :: MainAmong(GetSequenceStats(norm, frames), |GetSequenceStats(norm, frames)|, w)
        && id == GetSequenceStats(norm, frames)[w].id
  {
    var stats := GetSequenceStats(norm, frames);
    var ids := SequenceIds(frames);
    ScoresPositive(norm, frames);
    if ids != [] {
      FirstSeenMember(ids, ids[0]);
      assert ids[0] in FirstSeen(ids);
      assert |stats| > 0 && Score(stats[0]) > 0.0;
    }
    id := GetMainFaceId(stats);
  }
}
