/**
 * The per-face data of FaceTrackerBRISK: the detection mask, the keypoint scale, the list
 * pairing each kept descriptor with the landmark it was computed for, and the comparison of
 * two faces' descriptors over the landmarks they have in common.
 */
module BriskFeatures {
  import opened Results
  import opened Geometry
  import opened Vision

  // ---------------------------------------------------------------------------------------
  // Hamming distance (cv::NORM_HAMMING on 8-bit rows)
  // ---------------------------------------------------------------------------------------

  function Bit(b: bv8, mask: bv8): nat {
    if b & mask != 0 then 1 else 0
  }

  /** The number of set bits of a byte. */
  function PopCount(b: bv8): (n: nat)
    ensures n <= 8
    ensures n == 0 <==> b == 0
  {
    Bit(b, 1) + Bit(b, 2) + Bit(b, 4) + Bit(b, 8) + Bit(b, 16) + Bit(b, 32) + Bit(b, 64) + Bit(b, 128)
  }

  /** The number of differing bits of two equally long byte strings. */
  function Hamming(a: seq<bv8>, b: seq<bv8>): (d: nat)
    requires |a| == |b|
    ensures d <= 8 * |a|
    ensures d == 0 <==> a == b
  {
    if |a| == 0 then 0
    else
      var rest := Hamming(a[1..], b[1..]);
      assert a == [a[0]] + a[1..] && b == [b[0]] + b[1..];
      assert a[0] ^ b[0] == 0 <==> a[0] == b[0];
      PopCount(a[0] ^ b[0]) + rest
  }

  lemma {:induction false} HammingSymmetric(a: seq<bv8>, b: seq<bv8>)
    requires |a| == |b|
    ensures Hamming(a, b) == Hamming(b, a)
  {
    if |a| > 0 {
      HammingSymmetric(a[1..], b[1..]);
      assert a[0] ^ b[0] == b[0] ^ a[0];
    }
  }

  // ---------------------------------------------------------------------------------------
  // Keypoint scale and detection mask
  // ---------------------------------------------------------------------------------------

  /** The diameter given to landmark keypoints when detection finds nothing. */
  const DefaultScale: real := 10.0

  function Sum(xs: seq<real>): real {
    if |xs| == 0 then 0.0 else Sum(xs[..|xs| - 1]) + xs[|xs| - 1]
  }

  /** The mean size of the detected keypoints, or the default when none were detected. */
  function Scale(sizes: seq<real>): (s: real)
    ensures |sizes| == 0 ==> s == DefaultScale
    ensures |sizes| > 0 ==> s * |sizes| as real == Sum(sizes)
  {
    if |sizes| == 0 then DefaultScale else Sum(sizes) / |sizes| as real
  }

  lemma {:induction false} SumBounds(xs: seq<real>, lo: real, hi: real)
    requires forall i :: 0 <= i < |xs| ==> lo <= xs[i] <= hi
    ensures |xs| as real * lo <= Sum(xs) <= |xs| as real * hi
  {
    if |xs| > 0 {
      SumBounds(xs[..|xs| - 1], lo, hi);
    }
  }

  /** Multiplying by a positive factor keeps a strict order. */
  lemma MulStrict(a: real, b: real, n: real)
    requires n > 0.0
    ensures a < b ==> a * n < b * n
  {
  }

  /** The scale lies between the smallest and the largest detected size. */
  lemma ScaleWithin(sizes: seq<real>, lo: real, hi: real)
    requires |sizes| > 0 && forall i :: 0 <= i < |sizes| ==> lo <= sizes[i] <= hi
    ensures lo <= Scale(sizes) <= hi
  {
    SumBounds(sizes, lo, hi);
    var n := |sizes| as real;
    MulStrict(Scale(sizes), lo, n);
    MulStrict(hi, Scale(sizes), n);
  }

  /** cv::Rect(pt1, pt2): the rectangle spanned by two corners, in either order. */
  function Span(a: Point, b: Point): (r: Rect)
    ensures r.width >= 0 && r.height >= 0
    ensures r.x == Min(a.x, b.x) && r.x + r.width == Max(a.x, b.x)
    ensures r.y == Min(a.y, b.y) && r.y + r.height == Max(a.y, b.y)
  {
    Rect(Min(a.x, b.x), Min(a.y, b.y), Max(a.x, b.x) - Min(a.x, b.x), Max(a.y, b.y) - Min(a.y, b.y))
  }

  /**
   * The detection mask of a face box in a cols x rows image: the top-left corner clamped to
   * non-negative coordinates, the bottom-right corner to (cols - 1, rows - 1).
   */
  function MaskRegion(box: Rect, cols: int, rows: int): Rect {
    Span(Point(Max(box.x, 0), Max(box.y, 0)),
         Point(Min(box.x + box.width, cols - 1), Min(box.y + box.height, rows - 1)))
  }

  /** A region OpenCV accepts as a region of interest of a cols x rows matrix (it may be empty). */
  predicate Roi(r: Rect, cols: int, rows: int) {
    0 <= r.x && 0 <= r.width && r.x + r.width <= cols &&
    0 <= r.y && 0 <= r.height && r.y + r.height <= rows
  }

  /**
   * The mask is a valid region exactly when the image is not empty, the box does not end
   * left of or above the image and does not start beyond its right or bottom edge.
   */
  lemma MaskRegionValid(box: Rect, cols: int, rows: int)
    ensures Roi(MaskRegion(box, cols, rows), cols, rows) <==>
      && 1 <= cols && 0 <= box.x + box.width && box.x <= cols
      && 1 <= rows && 0 <= box.y + box.height && box.y <= rows
  {
  }

  /** A box whose bottom-right corner lies inside the image is its own mask once clamped to 0. */
  lemma MaskRegionInside(box: Rect, cols: int, rows: int)
    requires 0 <= box.x && 0 <= box.y && 0 <= box.width && 0 <= box.height
    requires box.x + box.width <= cols - 1 && box.y + box.height <= rows - 1
    ensures MaskRegion(box, cols, rows) == box
  {
  }

  /** The centroid of the landmarks; without landmarks the division is 0 / 0 (NaN, here None). */
  function Centroid(landmarks: seq<Point>): (c: Option<PointF>)
    ensures c.None? <==> |landmarks| == 0
    ensures c.Some? ==>
      c.value.x * |landmarks| as real == SumX(landmarks) as real &&
      c.value.y * |landmarks| as real == SumY(landmarks) as real
  {
    if |landmarks| == 0 then None else Some(Mean(landmarks))
  }

  // ---------------------------------------------------------------------------------------
  // Descriptor indices
  // ---------------------------------------------------------------------------------------

  /** std::round: to the nearest integer, halves away from zero. */
  function Round(x: real): (r: int)
    ensures x - 0.5 <= r as real <= x + 0.5
    ensures r == 0 <==> -0.5 < x < 0.5
  {
    if x >= 0.0 then (x + 0.5).Floor else -((0.5 - x).Floor)
  }

  /**
   * The test that pairs a kept keypoint with a landmark keypoint: the coordinate differences,
   * summed, round to 0.
   */
  predicate Aligned(landmark: KeyPoint, kept: KeyPoint) {
    Round(landmark.x - kept.x + landmark.y - kept.y) == 0
  }

  /** No landmark in [from, to) is aligned with the kept keypoint. */
  ghost predicate NoneAligned(landmarks: seq<KeyPoint>, from: nat, to: nat, kept: KeyPoint) {
    forall i :: from <= i < to && i < |landmarks| ==> !Aligned(landmarks[i], kept)
  }

  /** Where the search for the k-th kept keypoint starts: after the previous one's landmark. */
  function Start(w: seq<nat>, i: nat, k: nat): nat
    requires k <= |w|
  {
    if k == 0 then i else w[k - 1] + 1
  }

  /**
   * The written entries of desc_ind, scanning landmarks from i and kept keypoints from j:
   * a landmark aligned with the current kept keypoint is recorded for it, and both advance;
   * any other landmark is skipped.
   */
  function Written(landmarks: seq<KeyPoint>, kept: seq<KeyPoint>, i: nat, j: nat): (w: seq<nat>)
    requires j <= |kept|
    ensures |w| <= |kept| - j
    decreases |landmarks| - i
  {
    if i >= |landmarks| || j >= |kept| then []
    else if Aligned(landmarks[i], kept[j]) then [i] + Written(landmarks, kept, i + 1, j + 1)
    else Written(landmarks, kept, i + 1, j)
  }

  /** The written entries are strictly increasing landmark indices, each aligned with its kept keypoint. */
  lemma {:induction false} WrittenSound(landmarks: seq<KeyPoint>, kept: seq<KeyPoint>, i: nat, j: nat)
    requires j <= |kept|
    ensures forall k :: 0 <= k < |Written(landmarks, kept, i, j)| ==>
      i <= Written(landmarks, kept, i, j)[k] < |landmarks|
    ensures forall k :: 0 <= k < |Written(landmarks, kept, i, j)| ==>
      Written(landmarks, kept, i, j)[k] < |landmarks| &&
      Aligned(landmarks[Written(landmarks, kept, i, j)[k]], kept[j + k])
    ensures forall k, l :: 0 <= k < l < |Written(landmarks, kept, i, j)| ==>
      Written(landmarks, kept, i, j)[k] < Written(landmarks, kept, i, j)[l]
    decreases |landmarks| - i
  {
    var w := Written(landmarks, kept, i, j);
    if i < |landmarks| && j < |kept| {
      if Aligned(landmarks[i], kept[j]) {
        var rest := Written(landmarks, kept, i + 1, j + 1);
        WrittenSound(landmarks, kept, i + 1, j + 1);
        assert w == [i] + rest;
        forall k | 0 <= k < |w|
          ensures i <= w[k] < |landmarks| && Aligned(landmarks[w[k]], kept[j + k])
        {
          if k > 0 {
            assert w[k] == rest[k - 1] && j + k == (j + 1) + (k - 1);
          }
        }
        forall k, l | 0 <= k < l < |w| ensures w[k] < w[l] {
          assert w[l] == rest[l - 1];
          if k > 0 {
            assert w[k] == rest[k - 1];
          }
        }
      } else {
        var rest := Written(landmarks, kept, i + 1, j);
        WrittenSound(landmarks, kept, i + 1, j);
        assert w == rest;
      }
    }
  }


  /** The k-th kept keypoint is recorded at the first aligned landmark after the previous record. */
  lemma {:induction false} WrittenFirstFit(landmarks: seq<KeyPoint>, kept: seq<KeyPoint>, i: nat, j: nat, k: nat)
    requires j <= |kept| && k < |Written(landmarks, kept, i, j)|
    ensures var w := Written(landmarks, kept, i, j);
      NoneAligned(landmarks, Start(w, i, k), w[k], kept[j + k])
    decreases |landmarks| - i
  {
    var w := Written(landmarks, kept, i, j);
    if Aligned(landmarks[i], kept[j]) {
      var rest := Written(landmarks, kept, i + 1, j + 1);
      assert w == [i] + rest;
      if k > 0 {
        WrittenFirstFit(landmarks, kept, i + 1, j + 1, k - 1);
        assert Start(w, i, k) == Start(rest, i + 1, k - 1);
        assert w[k] == rest[k - 1] && j + k == (j + 1) + (k - 1);
      }
    } else {
      assert w == Written(landmarks, kept, i + 1, j);
      WrittenFirstFit(landmarks, kept, i + 1, j, k);
      if k == 0 {
        NoneAlignedFrom(landmarks, i, w[0], kept[j]);
      } else {
        assert Start(w, i, k) == Start(w, i + 1, k);
      }
    }
  }

  /** The scan stops short of the kept list only when the landmarks run out. */
  lemma {:induction false} WrittenExhausted(landmarks: seq<KeyPoint>, kept: seq<KeyPoint>, i: nat, j: nat)
    requires j <= |kept|
    ensures var w := Written(landmarks, kept, i, j);
      |w| < |kept| - j ==> NoneAligned(landmarks, Start(w, i, |w|), |landmarks|, kept[j + |w|])
    decreases |landmarks| - i
  {
    var w := Written(landmarks, kept, i, j);
    if i < |landmarks| && j < |kept| {
      if Aligned(landmarks[i], kept[j]) {
        var rest := Written(landmarks, kept, i + 1, j + 1);
        assert w == [i] + rest;
        WrittenExhausted(landmarks, kept, i + 1, j + 1);
        ExhaustedAfterRecord(landmarks, kept, i, j, rest);
      } else {
        assert w == Written(landmarks, kept, i + 1, j);
        WrittenExhausted(landmarks, kept, i + 1, j);
        ExhaustedAfterSkip(landmarks, kept, i, j, w);
      }
    }
  }

  /** Recording landmark i for kept keypoint j carries the property of the rest of the scan over. */
  lemma ExhaustedAfterRecord(landmarks: seq<KeyPoint>, kept: seq<KeyPoint>, i: nat, j: nat, rest: seq<nat>)
    requires j < |kept|
    requires |rest| < |kept| - (j + 1) ==>
      NoneAligned(landmarks, Start(rest, i + 1, |rest|), |landmarks|, kept[j + 1 + |rest|])
    ensures var w := [i] + rest;
      |w| < |kept| - j ==> NoneAligned(landmarks, Start(w, i, |w|), |landmarks|, kept[j + |w|])
  {
    var w := [i] + rest;
    if |rest| > 0 {
      assert w[|rest|] == rest[|rest| - 1];
    }
    assert Start(w, i, |w|) == Start(rest, i + 1, |rest|);
  }

  /** Skipping landmark i, not aligned with kept keypoint j, carries the property of the rest of the scan over. */
  lemma ExhaustedAfterSkip(landmarks: seq<KeyPoint>, kept: seq<KeyPoint>, i: nat, j: nat, w: seq<nat>)
    requires i < |landmarks| && j < |kept| && !Aligned(landmarks[i], kept[j])
    requires |w| < |kept| - j ==>
      NoneAligned(landmarks, Start(w, i + 1, |w|), |landmarks|, kept[j + |w|])
    ensures |w| < |kept| - j ==> NoneAligned(landmarks, Start(w, i, |w|), |landmarks|, kept[j + |w|])
  {
    if |w| > 0 {
      assert Start(w, i, |w|) == Start(w, i + 1, |w|);
    } else {
      NoneAlignedFrom(landmarks, i, |landmarks|, kept[j]);
    }
  }

  /** A landmark not aligned in front of a range with none aligned extends that range. */
  lemma NoneAlignedFrom(landmarks: seq<KeyPoint>, i: nat, to: nat, kp: KeyPoint)
    requires i < |landmarks| && !Aligned(landmarks[i], kp) && NoneAligned(landmarks, i + 1, to, kp)
    ensures NoneAligned(landmarks, i, to, kp)
  {
  }



  /**
   * desc_ind: one entry per kept keypoint, initialised to 0; the scan overwrites a prefix
   * of it with landmark indices.
   */
  function DescInd(landmarks: seq<KeyPoint>, kept: seq<KeyPoint>): (ind: seq<nat>)
    ensures |ind| == |kept|
    ensures var w := Written(landmarks, kept, 0, 0);
      && ind[..|w|] == w
      && forall k :: |w| <= k < |ind| ==> ind[k] == 0
  {
    var w := Written(landmarks, kept, 0, 0);
    w + seq(|kept| - |w|, _ => 0)
  }

  /** When every kept keypoint found its landmark, desc_ind is strictly increasing and in range. */
  lemma DescIndComplete(landmarks: seq<KeyPoint>, kept: seq<KeyPoint>)
    requires |Written(landmarks, kept, 0, 0)| == |kept|
    ensures var ind := DescInd(landmarks, kept);
      && (forall k, l :: 0 <= k < l < |ind| ==> ind[k] < ind[l])
      && (forall k :: 0 <= k < |ind| ==> ind[k] < |landmarks| && Aligned(landmarks[ind[k]], kept[k]))
  {
    var w := Written(landmarks, kept, 0, 0);
    WrittenSound(landmarks, kept, 0, 0);
    assert DescInd(landmarks, kept) == w;
  }

  // ---------------------------------------------------------------------------------------
  // Comparing two faces (FaceTrackerBRISK::match)
  // ---------------------------------------------------------------------------------------

  /** One descriptor row with its desc_ind entry. */
  datatype Feature = Feature(index: nat, desc: Descriptor)

  ghost predicate IndexIncreasing(fs: seq<Feature>) {
    forall x, y :: 0 <= x < y < |fs| ==> fs[x].index < fs[y].index
  }

  /**
   * The merge-join over two feature lists from rows i and j: the side with the smaller index
   * advances; equal indices are paired and both advance.
   */
  function MergePairs(a: seq<Feature>, b: seq<Feature>, i: nat, j: nat): (ps: seq<(nat, nat)>)
    requires i <= |a| && j <= |b|
    ensures forall p :: p in ps ==> i <= p.0 < |a| && j <= p.1 < |b| && a[p.0].index == b[p.1].index
    decreases |a| - i + |b| - j
  {
    if i == |a| || j == |b| then []
    else if a[i].index < b[j].index then MergePairs(a, b, i + 1, j)
    else if a[i].index > b[j].index then MergePairs(a, b, i, j + 1)
    else [(i, j)] + MergePairs(a, b, i + 1, j + 1)
  }

  /** With increasing indices on both sides every pair of rows with a common index is found. */
  lemma {:induction false} MergePairsComplete(a: seq<Feature>, b: seq<Feature>, i: nat, j: nat)
    requires i <= |a| && j <= |b| && IndexIncreasing(a) && IndexIncreasing(b)
    ensures forall x, y :: i <= x < |a| && j <= y < |b| && a[x].index == b[y].index ==>
      (x, y) in MergePairs(a, b, i, j)
    decreases |a| - i + |b| - j
  {
    if i < |a| && j < |b| {
      if a[i].index < b[j].index {
        MergePairsComplete(a, b, i + 1, j);
      } else if a[i].index > b[j].index {
        MergePairsComplete(a, b, i, j + 1);
      } else {
        MergePairsComplete(a, b, i + 1, j + 1);
      }
    }
  }

  /** The summed Hamming distances of the paired rows. */
  function PairSum(a: seq<Feature>, b: seq<Feature>, ps: seq<(nat, nat)>): (s: nat)
    requires forall p :: p in ps ==> p.0 < |a| && p.1 < |b|
    ensures s as real <= (8 * DescriptorBytes) as real * |ps| as real
  {
    if |ps| == 0 then 0
    else Hamming(a[ps[0].0].desc, b[ps[0].1].desc) + PairSum(a, b, ps[1..])
  }

  lemma DivBelow(s: real, n: real, c: real)
    requires n > 0.0 && 0.0 <= s <= c * n
    ensures 0.0 <= s / n <= c
  {
    MulStrict(c, s / n, n);
  }

  /**
   * The mean Hamming distance over the common landmarks; 0 / 0 (NaN, here None) without any.
   * SimilarityCommon, SimilaritySelf and SimilaritySymmetric state what the value means.
   */
  function Similarity(a: seq<Feature>, b: seq<Feature>): (r: Option<real>)
    ensures r.Some? ==> 0.0 <= r.value <= (8 * DescriptorBytes) as real
  {
    var ps := MergePairs(a, b, 0, 0);
    if |ps| == 0 then None
    else
      var s := PairSum(a, b, ps);
      DivBelow(s as real, |ps| as real, (8 * DescriptorBytes) as real);
      Some(s as real / |ps| as real)
  }

  /**
   * With increasing indices on both sides, the comparison is over exactly the common
   * landmark indices: it is NaN precisely when there is none.
   */
  lemma SimilarityCommon(a: seq<Feature>, b: seq<Feature>)
    requires IndexIncreasing(a) && IndexIncreasing(b)
    ensures var ps := MergePairs(a, b, 0, 0);
      && (forall x, y :: 0 <= x < |a| && 0 <= y < |b| ==> ((x, y) in ps <==> a[x].index == b[y].index))
      && (Similarity(a, b).None? <==> forall x, y :: 0 <= x < |a| && 0 <= y < |b| ==> a[x].index != b[y].index)
  {
    var ps := MergePairs(a, b, 0, 0);
    MergePairsComplete(a, b, 0, 0);
    if |ps| > 0 {
      assert ps[0] in ps;
    }
  }

  /** Pairs of rows with equal descriptors add nothing. */
  lemma {:induction false} PairSumSame(a: seq<Feature>, ps: seq<(nat, nat)>)
    requires forall p :: p in ps ==> p.0 < |a| && p.1 < |a| && p.0 == p.1
    ensures PairSum(a, a, ps) == 0
  {
    if |ps| > 0 {
      assert ps[0] in ps;
      PairSumSame(a, ps[1..]);
    }
  }

  /** A face with increasing indices and at least one descriptor is at distance 0 from itself. */
  lemma SimilaritySelf(a: seq<Feature>)
    requires IndexIncreasing(a) && |a| > 0
    ensures Similarity(a, a) == Some(0.0)
  {
    var ps := MergePairs(a, a, 0, 0);
    MergePairsComplete(a, a, 0, 0);
    assert (0, 0) in ps;
    PairSumSame(a, ps);
  }

  /** The comparison does not depend on the order of the two faces. */
  lemma {:induction false} MergePairsSwap(a: seq<Feature>, b: seq<Feature>, i: nat, j: nat)
    requires i <= |a| && j <= |b|
    ensures var ps, qs := MergePairs(a, b, i, j), MergePairs(b, a, j, i);
      |ps| == |qs| && forall k :: 0 <= k < |ps| ==> qs[k] == (ps[k].1, ps[k].0)
    decreases |a| - i + |b| - j
  {
    if i < |a| && j < |b| {
      if a[i].index < b[j].index {
        MergePairsSwap(a, b, i + 1, j);
      } else if a[i].index > b[j].index {
        MergePairsSwap(a, b, i, j + 1);
      } else {
        MergePairsSwap(a, b, i + 1, j + 1);
      }
    }
  }

  lemma {:induction false} PairSumSwap(a: seq<Feature>, b: seq<Feature>, ps: seq<(nat, nat)>, qs: seq<(nat, nat)>)
    requires forall p :: p in ps ==> p.0 < |a| && p.1 < |b|
    requires |ps| == |qs| && forall k :: 0 <= k < |ps| ==> qs[k] == (ps[k].1, ps[k].0)
    ensures forall q :: q in qs ==> q.0 < |b| && q.1 < |a|
    ensures PairSum(a, b, ps) == PairSum(b, a, qs)
  {
    if |ps| > 0 {
      assert ps[0] in ps;
      PairSumSwap(a, b, ps[1..], qs[1..]);
      HammingSymmetric(a[ps[0].0].desc, b[ps[0].1].desc);
    }
  }

  lemma SimilaritySymmetric(a: seq<Feature>, b: seq<Feature>)
    ensures Similarity(a, b) == Similarity(b, a)
  {
    var ps, qs := MergePairs(a, b, 0, 0), MergePairs(b, a, 0, 0);
    MergePairsSwap(a, b, 0, 0);
    PairSumSwap(a, b, ps, qs);
  }
}
