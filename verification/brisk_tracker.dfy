/**
 * FaceTrackerBRISK: a single pool of tracked faces that only grows. Each frame every
 * detected face becomes a candidate described by BRISK descriptors at its landmarks; a
 * greedy loop repeatedly pairs the pool entry and candidate with the smallest remaining
 * distance below a threshold, paired entries take over their candidate's data, and every
 * unpaired candidate joins the pool under a fresh id.
 */
module BriskTracker {
  import opened Results
  import opened Geometry
  import opened Seqs
  import opened Faces
  import opened Vision
  import opened Pairing
  import opened BriskFeatures

  /** Cells must be below this value to be paired; paired rows and columns are set to it. */
  const MaxDist: real := 250.0

  /**
   * A tracked face (TrackedFaceBRISK): its id, the last frame it was seen in, its box, its
   * landmark keypoints, its descriptors with their landmark indices and its centroid (None
   * for the NaN centroid of a face without landmarks). The reference to the frame face it
   * labels is replaced by the candidate's position in the frame.
   */
  datatype Tracked = Tracked(id: int, frameId: int, bbox: Rect, landmarks: seq<KeyPoint>,
                             features: seq<Feature>, pos: Option<PointF>)

  /** The tracker state: the next fresh id and the pool, in list order. */
  datatype Tracker = Tracker(idCounter: int, pool: seq<Tracked>)

  // ---------------------------------------------------------------------------------------
  // Candidates (createTrackedFace)
  // ---------------------------------------------------------------------------------------

  /**
   * One keypoint per landmark: at the landmark, with the detected scale as its size, angle
   * and response 0, the landmark's index in the octave slot and the default class id -1.
   */
  function LandmarkKeyPoints(landmarks: seq<Point>, scale: real): (kps: seq<KeyPoint>)
    ensures |kps| == |landmarks|
    ensures forall i :: 0 <= i < |landmarks| ==>
      && kps[i].x == landmarks[i].x as real && kps[i].y == landmarks[i].y as real
      && kps[i].size == scale && kps[i].angle == 0.0 && kps[i].response == 0.0
      && kps[i].octave == i && kps[i].classId == -1
  {
    seq(|landmarks|, i requires 0 <= i < |landmarks| =>
      KeyPoint(landmarks[i].x as real, landmarks[i].y as real, scale, 0.0, 0.0, i, -1))
  }

  /** The descriptor rows BRISK kept, each with its desc_ind entry. */
  function Features(kps: seq<KeyPoint>, computed: seq<(KeyPoint, Descriptor)>): (fs: seq<Feature>)
    ensures |fs| == |computed|
  {
    var kept := seq(|computed|, k requires 0 <= k < |computed| => computed[k].0);
    var ind := DescInd(kps, kept);
    seq(|computed|, k requires 0 <= k < |computed| => Feature(ind[k], computed[k].1))
  }

  /**
   * A frame face as a candidate: keypoints are detected inside the clamped mask to fix the
   * scale, descriptors are computed at the landmarks, and the centroid is taken. An invalid
   * mask region raises an OpenCV error.
   */
  function CreateTracked(o: Oracle, img: Image, face: Face, frameId: int): (r: Result<Tracked>)
    ensures r.Failure? <==> !Roi(MaskRegion(face.bbox, img.cols, img.rows), img.cols, img.rows)
    ensures r.Failure? ==> r.error == InvalidRegion
    ensures r.Success? ==>
      && r.value.id == face.id && r.value.frameId == frameId && r.value.bbox == face.bbox
      && |r.value.landmarks| == |face.landmarks|
      && (r.value.pos.None? <==> |face.landmarks| == 0)
  {
    var mask := MaskRegion(face.bbox, img.cols, img.rows);
    if !Roi(mask, img.cols, img.rows) then Failure(InvalidRegion)
    else
      var kps := LandmarkKeyPoints(face.landmarks, Scale(o.detect(img.handle, mask)));
      Success(Tracked(face.id, frameId, face.bbox, kps, Features(kps, o.compute(img.handle, kps)),
                      Centroid(face.landmarks)))
  }

  /** One candidate per frame face, in order; the first failure aborts the frame. */
  function CreateCandidates(o: Oracle, img: Image, faces: seq<Face>, frameId: int): (r: Result<seq<Tracked>>)
    ensures r.Success? <==> forall j :: 0 <= j < |faces| ==> CreateTracked(o, img, faces[j], frameId).Success?
    ensures r.Success? ==> |r.value| == |faces|
    ensures r.Success? ==>
      forall j :: 0 <= j < |faces| ==> r.value[j] == CreateTracked(o, img, faces[j], frameId).value
  {
    if |faces| == 0 then Success([])
    else
      var c := CreateTracked(o, img, faces[0], frameId);
      if c.Failure? then Failure(c.error)
      else
        var rest := CreateCandidates(o, img, faces[1..], frameId);
        if rest.Failure? then
          assert forall j :: 1 <= j < |faces| ==> faces[1..][j - 1] == faces[j];
          Failure(rest.error)
        else
          assert forall j :: 1 <= j < |faces| ==> faces[1..][j - 1] == faces[j];
          Success([c.value] + rest.value)
  }

  // ---------------------------------------------------------------------------------------
  // The distance matrix
  // ---------------------------------------------------------------------------------------

  /**
   * The distance of a pool entry and a candidate: the mean of their descriptor distance and
   * the distance of their centroids; NaN (None) when either is NaN.
   */
  function CellValue(o: Oracle, a: Tracked, b: Tracked): (v: Option<real>)
    ensures v.Some? <==> Similarity(a.features, b.features).Some? && a.pos.Some? && b.pos.Some?
  {
    match (Similarity(a.features, b.features), a.pos, b.pos)
    case (Some(sim), Some(p), Some(q)) => Some((sim + o.norm(p.x - q.x, p.y - q.y)) * 0.5)
    case _ => None
  }

  function PoolDist(o: Oracle, pool: seq<Tracked>, cands: seq<Tracked>): (nat, nat) -> Option<real> {
    (i: nat, j: nat) => if i < |pool| && j < |cands| then CellValue(o, pool[i], cands[j]) else None
  }

  /** One matrix cell: pool row, candidate column and the value currently stored. */
  datatype Entry = Entry(row: nat, col: nat, value: Option<real>)

  /** Row-major order of matrix positions. */
  predicate RowMajor(a: Entry, b: Entry) {
    a.row < b.row || (a.row == b.row && a.col < b.col)
  }

  function RowEntries(i: nat, m: nat, d: (nat, nat) -> Option<real>): (es: seq<Entry>)
    ensures |es| == m
    ensures forall j :: 0 <= j < m ==> es[j] == Entry(i, j, d(i, j))
  {
    seq(m, j requires 0 <= j < m => Entry(i, j, d(i, j)))
  }

  /** The n x m matrix of values d(i, j), in the row-major order the loops visit it. */
  function Matrix(n: nat, m: nat, d: (nat, nat) -> Option<real>): (es: seq<Entry>)
    ensures forall k :: 0 <= k < |es| ==> es[k].row < n && es[k].col < m && es[k].value == d(es[k].row, es[k].col)
    ensures forall i, j :: 0 <= i < n && 0 <= j < m ==> Entry(i, j, d(i, j)) in es
    ensures forall k, l :: 0 <= k < l < |es| ==> RowMajor(es[k], es[l])
  {
    if n == 0 then []
    else
      var init, last := Matrix(n - 1, m, d), RowEntries(n - 1, m, d);
      var es := init + last;
      assert forall i, j :: 0 <= i < n && 0 <= j < m ==> Entry(i, j, d(i, j)) in es by {
        forall i, j | 0 <= i < n && 0 <= j < m ensures Entry(i, j, d(i, j)) in es {
          if i < n - 1 {
            assert Entry(i, j, d(i, j)) in init;
          } else {
            assert es[|init| + j] == last[j];
          }
        }
      }
      assert forall k, l :: 0 <= k < l < |es| ==> RowMajor(es[k], es[l]) by {
        forall k, l | 0 <= k < l < |es| ensures RowMajor(es[k], es[l]) {
          if l < |init| {
            assert es[k] == init[k] && es[l] == init[l];
          } else if k < |init| {
            assert es[k] == init[k] && es[l] == last[l - |init|];
          } else {
            assert es[k] == last[k - |init|] && es[l] == last[l - |init|];
          }
        }
      }
      es
  }

  // ---------------------------------------------------------------------------------------
  // The greedy loop
  // ---------------------------------------------------------------------------------------

  /** A value the loop may select: a number (not NaN) below the threshold. */
  predicate Eligible(v: Option<real>) {
    v.Some? && v.value < MaxDist
  }

  /**
   * One scan of the matrix: the position of the first cell, in row-major order, holding the
   * smallest eligible value; None when no cell is eligible.
   */
  function Select(es: seq<Entry>): (r: Option<nat>)
    ensures r.None? <==> forall k :: 0 <= k < |es| ==> !Eligible(es[k].value)
    ensures r.Some? ==> r.value < |es| && Eligible(es[r.value].value)
    ensures r.Some? ==> forall k :: 0 <= k < |es| && Eligible(es[k].value) ==>
      es[r.value].value.value <= es[k].value.value
    ensures r.Some? ==> forall k :: 0 <= k < r.value && Eligible(es[k].value) ==>
      es[r.value].value.value < es[k].value.value
  {
    if |es| == 0 then None
    else
      var r := Select(es[1..]);
      assert forall k :: 1 <= k < |es| ==> es[1..][k - 1] == es[k];
      if Eligible(es[0].value) && (r.None? || es[0].value.value <= es[1..][r.value].value.value) then Some(0)
      else if r.None? then None
      else Some(1 + r.value)
  }

  /**
   * A committed pair's row and column set to the threshold: every position stays in place,
   * no cell of that row or column is eligible any more, and every other cell is unchanged.
   */
  function Blank(es: seq<Entry>, r: nat, c: nat): (es': seq<Entry>)
    ensures |es'| == |es|
    ensures forall k :: 0 <= k < |es| ==> es'[k].row == es[k].row && es'[k].col == es[k].col
    ensures forall k :: 0 <= k < |es| && (es[k].row == r || es[k].col == c) ==>
      es'[k].value == Some(MaxDist) && !Eligible(es'[k].value)
    ensures forall k :: 0 <= k < |es| && es[k].row != r && es[k].col != c ==> es'[k] == es[k]
  {
    seq(|es|, k requires 0 <= k < |es| =>
      if es[k].row == r || es[k].col == c then es[k].(value := Some(MaxDist)) else es[k])
  }

  /**
   * The loop over an n-row, m-column matrix with the pairs committed so far: select a cell;
   * without one the loop ends; otherwise commit it, and end when as many pairs as pool
   * entries or as candidates exist, else blank its row and column and go on. What the pairs
   * are (first strict minima below 250, exclusive, at most min(n, m)) is stated by
   * GreedySound and AssignSound.
   */
  function Greedy(es: seq<Entry>, n: nat, m: nat, ms: seq<Cell>): (r: seq<Cell>)
    requires |ms| < n
    ensures |ms| <= |r| && r[..|ms|] == ms
    decreases n - |ms|
  {
    match Select(es)
    case None => ms
    case Some(k) =>
      var e := es[k];
      var ms' := ms + [Cell(e.value.value, e.row, e.col)];
      if |ms'| == n || |ms'| == m then ms'
      else
        var r := Greedy(Blank(es, e.row, e.col), n, m, ms');
        assert r[..|ms|] == r[..|ms'|][..|ms|];
        r
  }

  /** The pairs found for an n x m matrix; with no pool entry or no candidate there are none. */
  function Assign(es: seq<Entry>, n: nat, m: nat): seq<Cell> {
    if n > 0 && m > 0 then Greedy(es, n, m, []) else []
  }

  /** The original matrix with the rows and columns of the committed pairs blanked. */
  function Blanked(orig: seq<Entry>, ms: seq<Cell>): (es: seq<Entry>)
    ensures |es| == |orig|
    ensures forall k :: 0 <= k < |orig| ==>
      es[k] == if orig[k].row in RowSet(ms) || orig[k].col in CandSet(ms)
               then orig[k].(value := Some(MaxDist)) else orig[k]
  {
    seq(|orig|, k requires 0 <= k < |orig| =>
      if orig[k].row in RowSet(ms) || orig[k].col in CandSet(ms)
      then orig[k].(value := Some(MaxDist)) else orig[k])
  }

  lemma BlankedNone(orig: seq<Entry>)
    ensures Blanked(orig, []) == orig
  {
    assert RowSet([]) == {} && CandSet([]) == {};
  }

  /** Blanking one more pair is blanking the longer list of pairs. */
  lemma BlankedStep(orig: seq<Entry>, ms: seq<Cell>, c: Cell)
    ensures Blank(Blanked(orig, ms), c.row, c.cand) == Blanked(orig, ms + [c])
  {
    SetsAppend(ms, c);
  }

  /** Every cell lies in the n x m matrix. */
  ghost predicate InMatrix(orig: seq<Entry>, n: nat, m: nat) {
    forall e :: e in orig ==> e.row < n && e.col < m
  }

  /** A pair committed after `before` is at most every eligible cell whose row and column were free. */
  ghost predicate Smallest(orig: seq<Entry>, before: seq<Cell>, c: Cell) {
    forall e :: e in orig && Eligible(e.value) && e.row !in RowSet(before) && e.col !in CandSet(before) ==>
      c.dist <= e.value.value
  }

  /** Each committed pair is an eligible cell of the original matrix, smallest when it was taken. */
  ghost predicate Greedily(orig: seq<Entry>, n: nat, m: nat, ms: seq<Cell>) {
    && Exclusive(ms)
    && (forall k :: 0 <= k < |ms| ==>
          && ms[k].row < n && ms[k].cand < m
          && Entry(ms[k].row, ms[k].cand, Some(ms[k].dist)) in orig
          && ms[k].dist < MaxDist
          && Smallest(orig, ms[..k], ms[k]))
  }

  /** No eligible cell is left with both its row and its column free. */
  ghost predicate Maximal(orig: seq<Entry>, ms: seq<Cell>) {
    forall e :: e in orig && Eligible(e.value) ==> e.row in RowSet(ms) || e.col in CandSet(ms)
  }

  /** An exclusive list has one row and one column per pair. */
  lemma {:induction false} ExclusiveCard(ms: seq<Cell>)
    requires Exclusive(ms)
    ensures |RowSet(ms)| == |ms| && |CandSet(ms)| == |ms|
  {
    if |ms| > 0 {
      var init, c := ms[..|ms| - 1], ms[|ms| - 1];
      assert Exclusive(init) by {
        forall i, j | 0 <= i < j < |init| ensures init[i].row != init[j].row && init[i].cand != init[j].cand {
          assert init[i] == ms[i] && init[j] == ms[j];
        }
      }
      ExclusiveCard(init);
      assert ms == init + [c];
      SetsAppend(init, c);
      ExclusiveLast(ms);
    }
  }

  /** The last pair of an exclusive list shares its row and column with no earlier pair. */
  lemma ExclusiveLast(ms: seq<Cell>)
    requires Exclusive(ms) && |ms| > 0
    ensures ms[|ms| - 1].row !in RowSet(ms[..|ms| - 1]) && ms[|ms| - 1].cand !in CandSet(ms[..|ms| - 1])
  {
    var init, c := ms[..|ms| - 1], ms[|ms| - 1];
    forall x | x in init ensures x.row != c.row && x.cand != c.cand {
      var k :| 0 <= k < |init| && init[k] == x;
      assert ms[k] == x;
    }
  }

  /** n exclusive pairs over n rows use every row; m pairs over m columns use every column. */
  lemma ExclusiveFull(ms: seq<Cell>, n: nat, m: nat)
    requires Exclusive(ms) && forall k :: 0 <= k < |ms| ==> ms[k].row < n && ms[k].cand < m
    ensures |ms| == n ==> forall i :: 0 <= i < n ==> i in RowSet(ms)
    ensures |ms| == m ==> forall j :: 0 <= j < m ==> j in CandSet(ms)
  {
    ExclusiveCard(ms);
    RangeSetCard(n);
    RangeSetCard(m);
    assert RowSet(ms) <= RangeSet(n) by {
      forall x | x in RowSet(ms) ensures x in RangeSet(n) {
        var c :| c in ms && c.row == x;
        var k :| 0 <= k < |ms| && ms[k] == c;
      }
    }
    assert CandSet(ms) <= RangeSet(m) by {
      forall x | x in CandSet(ms) ensures x in RangeSet(m) {
        var c :| c in ms && c.cand == x;
        var k :| 0 <= k < |ms| && ms[k] == c;
      }
    }
    SubsetCard(RowSet(ms), RangeSet(n));
    SubsetCard(CandSet(ms), RangeSet(m));
  }

  /** The cell the loop selects is an unblanked original cell with a free row and column. */
  lemma SelectFree(orig: seq<Entry>, ms: seq<Cell>, k: nat)
    requires k < |orig| && Eligible(Blanked(orig, ms)[k].value)
    ensures Blanked(orig, ms)[k] == orig[k]
    ensures orig[k].row !in RowSet(ms) && orig[k].col !in CandSet(ms)
  {
  }

  /** The selected cell is the smallest eligible original cell with a free row and column. */
  lemma SelectSmallest(orig: seq<Entry>, ms: seq<Cell>, k: nat)
    requires Select(Blanked(orig, ms)) == Some(k)
    ensures Smallest(orig, ms, Cell(orig[k].value.value, orig[k].row, orig[k].col))
  {
    var es := Blanked(orig, ms);
    SelectFree(orig, ms, k);
    forall e | e in orig && Eligible(e.value) && e.row !in RowSet(ms) && e.col !in CandSet(ms)
      ensures orig[k].value.value <= e.value.value
    {
      var l :| 0 <= l < |orig| && orig[l] == e;
      assert es[l] == e;
    }
  }

  /** When nothing is selectable, every eligible original cell has a committed row or column. */
  lemma SelectNone(orig: seq<Entry>, ms: seq<Cell>)
    requires Select(Blanked(orig, ms)).None?
    ensures Maximal(orig, ms)
  {
    var es := Blanked(orig, ms);
    forall e | e in orig && Eligible(e.value) ensures e.row in RowSet(ms) || e.col in CandSet(ms) {
      var l :| 0 <= l < |orig| && orig[l] == e;
      assert !Eligible(es[l].value);
    }
  }

  /** Committing a smallest free cell keeps the greedy invariant. */
  lemma GreedilyStep(orig: seq<Entry>, n: nat, m: nat, ms: seq<Cell>, k: nat)
    requires InMatrix(orig, n, m) && Greedily(orig, n, m, ms)
    requires Select(Blanked(orig, ms)) == Some(k)
    ensures Greedily(orig, n, m, ms + [Cell(orig[k].value.value, orig[k].row, orig[k].col)])
  {
    var c := Cell(orig[k].value.value, orig[k].row, orig[k].col);
    var ms' := ms + [c];
    SelectFree(orig, ms, k);
    SelectSmallest(orig, ms, k);
    assert orig[k] in orig;
    assert ms'[..|ms|] == ms;
    ExclusiveAppend(ms, c);
    forall i | 0 <= i < |ms'|
      ensures && ms'[i].row < n && ms'[i].cand < m
              && Entry(ms'[i].row, ms'[i].cand, Some(ms'[i].dist)) in orig
              && ms'[i].dist < MaxDist
              && Smallest(orig, ms'[..i], ms'[i])
    {
      if i < |ms| {
        assert ms'[..i] == ms[..i];
      }
    }
  }

  /**
   * From any state reached by the loop, the rest of the loop keeps the greedy invariant and
   * ends with no eligible cell left whose row and column are both free.
   */
  lemma {:induction false} GreedySound(orig: seq<Entry>, n: nat, m: nat, ms: seq<Cell>)
    requires |ms| < n && InMatrix(orig, n, m) && Greedily(orig, n, m, ms)
    ensures var r := Greedy(Blanked(orig, ms), n, m, ms);
      Greedily(orig, n, m, r) && Maximal(orig, r)
    decreases n - |ms|
  {
    var es := Blanked(orig, ms);
    match Select(es)
    case None =>
      SelectNone(orig, ms);
    case Some(k) =>
      SelectFree(orig, ms, k);
      var c := Cell(orig[k].value.value, orig[k].row, orig[k].col);
      var ms' := ms + [c];
      GreedilyStep(orig, n, m, ms, k);
      if |ms'| == n || |ms'| == m {
        ExclusiveFull(ms', n, m);
        forall e | e in orig && Eligible(e.value) ensures e.row in RowSet(ms') || e.col in CandSet(ms') {
        }
      } else {
        BlankedStep(orig, ms, c);
        GreedySound(orig, n, m, ms');
      }
  }

  /** The loop over a whole matrix keeps the greedy invariant and ends maximal. */
  lemma AssignGreedily(n: nat, m: nat, d: (nat, nat) -> Option<real>)
    ensures var orig := Matrix(n, m, d);
      var ms := Assign(orig, n, m);
      Greedily(orig, n, m, ms) && Maximal(orig, ms)
  {
    var orig := Matrix(n, m, d);
    if n > 0 && m > 0 {
      BlankedNone(orig);
      GreedySound(orig, n, m, []);
    } else {
      assert RowSet([]) == {} && CandSet([]) == {};
    }
  }

  /** Each pair is an eligible value of the matrix, in range. */
  lemma AssignValued(n: nat, m: nat, d: (nat, nat) -> Option<real>)
    ensures forall k :: 0 <= k < |Assign(Matrix(n, m, d), n, m)| ==>
      Assign(Matrix(n, m, d), n, m)[k].row < n && Assign(Matrix(n, m, d), n, m)[k].cand < m &&
      Assign(Matrix(n, m, d), n, m)[k].dist < MaxDist
    ensures forall k :: 0 <= k < |Assign(Matrix(n, m, d), n, m)| ==>
      d(Assign(Matrix(n, m, d), n, m)[k].row, Assign(Matrix(n, m, d), n, m)[k].cand)
        == Some(Assign(Matrix(n, m, d), n, m)[k].dist)
  {
    var orig := Matrix(n, m, d);
    var ms := Assign(orig, n, m);
    AssignGreedily(n, m, d);
    forall k | 0 <= k < |ms| ensures d(ms[k].row, ms[k].cand) == Some(ms[k].dist) {
      var e := Entry(ms[k].row, ms[k].cand, Some(ms[k].dist));
      var l :| 0 <= l < |orig| && orig[l] == e;
    }
  }

  /** Each pair is the smallest eligible value among rows and columns still free when it was taken. */
  lemma AssignMinimal(n: nat, m: nat, d: (nat, nat) -> Option<real>)
    ensures var ms := Assign(Matrix(n, m, d), n, m);
      forall k, i, j ::
        (0 <= k < |ms| && 0 <= i < n && 0 <= j < m &&
         i !in RowSet(ms[..k]) && j !in CandSet(ms[..k]) && Eligible(d(i, j)))
        ==> ms[k].dist <= d(i, j).value
  {
    var orig := Matrix(n, m, d);
    var ms := Assign(orig, n, m);
    AssignGreedily(n, m, d);
    GreedilyMinimal(orig, n, m, d, ms);
  }

  /** The greedy invariant over a matrix holding every cell of d, stated cell by cell. */
  lemma GreedilyMinimal(orig: seq<Entry>, n: nat, m: nat, d: (nat, nat) -> Option<real>, ms: seq<Cell>)
    requires Greedily(orig, n, m, ms)
    requires forall i, j :: 0 <= i < n && 0 <= j < m ==> Entry(i, j, d(i, j)) in orig
    ensures forall k, i, j ::
      (0 <= k < |ms| && 0 <= i < n && 0 <= j < m &&
       i !in RowSet(ms[..k]) && j !in CandSet(ms[..k]) && Eligible(d(i, j)))
      ==> ms[k].dist <= d(i, j).value
  {
    forall k, i, j | 0 <= k < |ms| && 0 <= i < n && 0 <= j < m &&
        i !in RowSet(ms[..k]) && j !in CandSet(ms[..k]) && Eligible(d(i, j))
      ensures ms[k].dist <= d(i, j).value
    {
      SmallestAt(orig, ms[..k], ms[k], Entry(i, j, d(i, j)));
    }
  }

  /** A pair smallest when it was taken is at most any one eligible cell that was still free. */
  lemma SmallestAt(orig: seq<Entry>, before: seq<Cell>, c: Cell, e: Entry)
    requires Smallest(orig, before, c)
    requires e in orig && Eligible(e.value) && e.row !in RowSet(before) && e.col !in CandSet(before)
    ensures c.dist <= e.value.value
  {
  }

  /** No eligible value is left with its row and column both free. */
  lemma AssignMaximal(n: nat, m: nat, d: (nat, nat) -> Option<real>)
    ensures var ms := Assign(Matrix(n, m, d), n, m);
      forall i, j :: 0 <= i < n && 0 <= j < m && Eligible(d(i, j)) ==> i in RowSet(ms) || j in CandSet(ms)
  {
    var orig := Matrix(n, m, d);
    var ms := Assign(orig, n, m);
    AssignGreedily(n, m, d);
    forall i, j | 0 <= i < n && 0 <= j < m && Eligible(d(i, j)) ensures i in RowSet(ms) || j in CandSet(ms) {
      assert Entry(i, j, d(i, j)) in orig;
    }
  }

  /**
   * The pairs of a matrix of values d(i, j): no pool entry and no candidate twice, each pair
   * an eligible value, each the smallest eligible value among rows and columns still free
   * when it was taken, and no eligible value left with its row and column both free.
   */
  lemma AssignSound(n: nat, m: nat, d: (nat, nat) -> Option<real>)
    ensures var ms := Assign(Matrix(n, m, d), n, m);
      && Exclusive(ms)
      && (forall k :: 0 <= k < |ms| ==>
            ms[k].row < n && ms[k].cand < m && d(ms[k].row, ms[k].cand) == Some(ms[k].dist) && ms[k].dist < MaxDist)
      && (forall k, i, j ::
            (0 <= k < |ms| && 0 <= i < n && 0 <= j < m &&
             i !in RowSet(ms[..k]) && j !in CandSet(ms[..k]) && Eligible(d(i, j)))
            ==> ms[k].dist <= d(i, j).value)
      && (forall i, j :: 0 <= i < n && 0 <= j < m && Eligible(d(i, j)) ==>
            i in RowSet(ms) || j in CandSet(ms))
  {
    AssignGreedily(n, m, d);
    AssignValued(n, m, d);
    AssignMinimal(n, m, d);
    AssignMaximal(n, m, d);
  }

  /** The pairs lie in the matrix (the form the bookkeeping below asks for). */
  lemma AssignInMatrix(n: nat, m: nat, d: (nat, nat) -> Option<real>)
    ensures forall c :: c in Assign(Matrix(n, m, d), n, m) ==> c.row < n && c.cand < m
  {
    var ms := Assign(Matrix(n, m, d), n, m);
    AssignValued(n, m, d);
    forall c | c in ms ensures c.row < n && c.cand < m {
      var k :| 0 <= k < |ms| && ms[k] == c;
      assert ms[k].row < n && ms[k].cand < m;
    }
  }

  // ---------------------------------------------------------------------------------------
  // Processing the pairs and opening new ids
  // ---------------------------------------------------------------------------------------

  /** A paired entry takes over the candidate's box, landmarks, frame, descriptors and centroid. */
  function Take(f: Tracked, c: Tracked, frameId: int): (g: Tracked)
    ensures g.id == f.id && g.frameId == frameId
    ensures c.frameId == frameId ==> g == c.(id := f.id)
  {
    f.(bbox := c.bbox, landmarks := c.landmarks, frameId := frameId, features := c.features, pos := c.pos)
  }

  /**
   * The pool with every paired entry updated from its candidate: every entry keeps its place
   * and id, one whose row was not paired is unchanged, and under an exclusive pairing each
   * paired entry takes over exactly its own candidate.
   */
  function Commit(pool: seq<Tracked>, cands: seq<Tracked>, ms: seq<Cell>, frameId: int): (pool': seq<Tracked>)
    requires forall c :: c in ms ==> c.cand < |cands|
    ensures |pool'| == |pool| && Ids(pool') == Ids(pool)
    ensures forall i :: 0 <= i < |pool| && i !in RowSet(ms) ==> pool'[i] == pool[i]
    ensures forall i :: 0 <= i < |pool| && RowCell(ms, i).Some? ==>
      pool'[i] == Take(pool[i], cands[RowCell(ms, i).value.cand], frameId)
    ensures Exclusive(ms) ==> forall c :: c in ms && c.row < |pool| ==>
      pool'[c.row] == Take(pool[c.row], cands[c.cand], frameId)
  {
    RowCells(ms);
    seq(|pool|, i requires 0 <= i < |pool| =>
      match RowCell(ms, i)
      case None => pool[i]
      case Some(c) => Take(pool[i], cands[c.cand], frameId))
  }

  /** The candidates no pair took, in candidate order. */
  function Unpaired(m: nat, ms: seq<Cell>): (free: seq<nat>)
    ensures Increasing(free) && Below(free, m)
    ensures forall j :: j in free <==> 0 <= j < m && j !in CandSet(ms)
  {
    assert Increasing(Range(m));
    assert forall j :: j in Range(m) <==> 0 <= j < m by {
      forall j | 0 <= j < m ensures j in Range(m) {
        assert Range(m)[j] == j;
      }
    }
    WithoutIncreasing(Range(m), CandSet(ms));
    WithoutBelow(Range(m), CandSet(ms), m);
    Without(Range(m), CandSet(ms))
  }

  /** The unpaired candidates under consecutive fresh ids, in candidate order. */
  function NewEntries(cands: seq<Tracked>, free: seq<nat>, counter: int): (r: seq<Tracked>)
    requires Below(free, |cands|)
    ensures |r| == |free| && Distinct(Ids(r))
    ensures forall k :: 0 <= k < |free| ==> r[k].id == counter + k
    ensures forall k :: 0 <= k < |free| ==> r[k].(id := cands[free[k]].id) == cands[free[k]]
  {
    seq(|free|, k requires 0 <= k < |free| => cands[free[k]].(id := counter + k))
  }

  /** The result of a frame: the new tracker state and the frame's faces with their ids. */
  datatype Step = Step(tracker: Tracker, faces: seq<Face>)

  /**
   * The bookkeeping after the loop: paired entries are updated and their candidates' faces
   * labelled; unpaired candidates join the end of the pool under fresh ids.
   */
  function Apply(t: Tracker, cands: seq<Tracked>, frame: Frame, ms: seq<Cell>): Step
    requires |cands| == |frame.faces|
    requires forall c :: c in ms ==> c.row < |t.pool| && c.cand < |cands|
  {
    var free := Unpaired(|cands|, ms);
    Step(Tracker(t.idCounter + |free|, Commit(t.pool, cands, ms, frame.id) + NewEntries(cands, free, t.idCounter)),
         NewLabels(Label(frame.faces, Ids(t.pool), ms), free, t.idCounter))
  }

  /** The pairs the greedy loop finds between the pool and the candidates. */
  function Pairs(o: Oracle, pool: seq<Tracked>, cands: seq<Tracked>): (ms: seq<Cell>)
    ensures forall c :: c in ms ==> c.row < |pool| && c.cand < |cands|
  {
    var d := PoolDist(o, pool, cands);
    AssignInMatrix(|pool|, |cands|, d);
    Assign(Matrix(|pool|, |cands|, d), |pool|, |cands|)
  }

  /** FaceTrackerBRISK::addFrame after the candidates are built. */
  function Track(o: Oracle, t: Tracker, cands: seq<Tracked>, frame: Frame): Step
    requires |cands| == |frame.faces|
  {
    Apply(t, cands, frame, Pairs(o, t.pool, cands))
  }

  /**
   * FaceTrackerBRISK::addFrame: the candidates are built first, so an OpenCV error leaves the
   * tracker untouched; otherwise only the ids of the frame's faces change.
   */
  function AddFrame(o: Oracle, t: Tracker, img: Image, frame: Frame): (r: Result<Step>)
    ensures r.Failure? <==> exists j :: 0 <= j < |frame.faces| && CreateTracked(o, img, frame.faces[j], frame.id).Failure?
    ensures r.Success? ==> OnlyIdsChanged(frame.faces, r.value.faces)
  {
    var cands :- CreateCandidates(o, img, frame.faces, frame.id);
    TrackOnlyIds(o, t, cands, frame);
    Success(Track(o, t, cands, frame))
  }

  /** A freshly constructed tracker: no tracked faces, the counter at 0. */
  function Init(): (t: Tracker)
    ensures Valid(t) && t.idCounter == 0 && |t.pool| == 0
  {
    Tracker(0, [])
  }

  /** FaceTrackerBRISK::clear: the pool is emptied and the counter restarts. */
  function Clear(t: Tracker): (t': Tracker)
    ensures Valid(t') && t'.idCounter == 0 && |t'.pool| == 0
  {
    Tracker(0, [])
  }

  // ---------------------------------------------------------------------------------------
  // The pool invariant
  // ---------------------------------------------------------------------------------------

  function Ids(pool: seq<Tracked>): (ids: seq<int>)
    ensures |ids| == |pool| && forall i :: 0 <= i < |pool| ==> ids[i] == pool[i].id
  {
    seq(|pool|, i requires 0 <= i < |pool| => pool[i].id)
  }

  /** Pool ids are distinct and were all issued by the counter. */
  ghost predicate Valid(t: Tracker) {
    && 0 <= t.idCounter
    && Distinct(Ids(t.pool))
    && forall i :: 0 <= i < |t.pool| ==> 0 <= t.pool[i].id < t.idCounter
  }

  /** Only the ids of the frame's faces are rewritten. */
  lemma ApplyOnlyIds(t: Tracker, cands: seq<Tracked>, frame: Frame, ms: seq<Cell>)
    requires |cands| == |frame.faces|
    requires forall c :: c in ms ==> c.row < |t.pool| && c.cand < |cands|
    ensures OnlyIdsChanged(frame.faces, Apply(t, cands, frame, ms).faces)
  {
  }

  lemma TrackOnlyIds(o: Oracle, t: Tracker, cands: seq<Tracked>, frame: Frame)
    requires |cands| == |frame.faces|
    ensures OnlyIdsChanged(frame.faces, Track(o, t, cands, frame).faces)
  {
    ApplyOnlyIds(t, cands, frame, Pairs(o, t.pool, cands));
  }

  /** Paired entries become their candidate under the old id; the others are unchanged. */
  lemma CommitEntries(pool: seq<Tracked>, cands: seq<Tracked>, ms: seq<Cell>, frameId: int)
    requires forall c :: c in ms ==> c.row < |pool| && c.cand < |cands|
    requires forall j :: 0 <= j < |cands| ==> cands[j].frameId == frameId
    requires Exclusive(ms)
    ensures var pool' := Commit(pool, cands, ms, frameId);
      && (forall i :: 0 <= i < |pool| ==> pool'[i].id == pool[i].id)
      && (forall i :: 0 <= i < |pool| && i !in RowSet(ms) ==> pool'[i] == pool[i])
      && (forall c :: c in ms ==> pool'[c.row] == cands[c.cand].(id := pool[c.row].id))
  {
    var pool' := Commit(pool, cands, ms, frameId);
    forall c | c in ms ensures pool'[c.row] == cands[c.cand].(id := pool[c.row].id) {
      var k :| 0 <= k < |ms| && ms[k] == c;
      ExclusiveCells(ms, k);
    }
  }

  /**
   * The pool only grows: existing entries keep their place and id, unpaired ones are
   * unchanged, paired ones become their candidate under the old id, and the unpaired
   * candidates follow under consecutive ids from the counter.
   */
  lemma ApplyPool(t: Tracker, cands: seq<Tracked>, frame: Frame, ms: seq<Cell>)
    requires |cands| == |frame.faces|
    requires forall c :: c in ms ==> c.row < |t.pool| && c.cand < |cands|
    requires forall j :: 0 <= j < |cands| ==> cands[j].frameId == frame.id
    requires Exclusive(ms)
    ensures var t', free := Apply(t, cands, frame, ms).tracker, Unpaired(|cands|, ms);
      && t'.idCounter == t.idCounter + |free|
      && |t'.pool| == |t.pool| + |free|
      && (forall i :: 0 <= i < |t.pool| ==> t'.pool[i].id == t.pool[i].id)
      && (forall i :: 0 <= i < |t.pool| && i !in RowSet(ms) ==> t'.pool[i] == t.pool[i])
      && (forall c :: c in ms ==> t'.pool[c.row] == cands[c.cand].(id := t.pool[c.row].id))
      && (forall k :: 0 <= k < |free| ==> t'.pool[|t.pool| + k] == cands[free[k]].(id := t.idCounter + k))
  {
    ApplyKeeps(t, cands, frame, ms);
    ApplyTakes(t, cands, frame, ms);
  }

  /** The pool after a frame keeps every old entry's id, and the unpaired ones whole. */
  lemma ApplyKeeps(t: Tracker, cands: seq<Tracked>, frame: Frame, ms: seq<Cell>)
    requires |cands| == |frame.faces|
    requires forall c :: c in ms ==> c.row < |t.pool| && c.cand < |cands|
    requires forall j :: 0 <= j < |cands| ==> cands[j].frameId == frame.id
    requires Exclusive(ms)
    ensures var t', free := Apply(t, cands, frame, ms).tracker, Unpaired(|cands|, ms);
      && t'.idCounter == t.idCounter + |free|
      && |t'.pool| == |t.pool| + |free|
      && (forall i :: 0 <= i < |t.pool| ==> t'.pool[i].id == t.pool[i].id)
      && (forall i :: 0 <= i < |t.pool| && i !in RowSet(ms) ==> t'.pool[i] == t.pool[i])
  {
    var free := Unpaired(|cands|, ms);
    var pool' := Commit(t.pool, cands, ms, frame.id);
    var news := NewEntries(cands, free, t.idCounter);
    CommitEntries(t.pool, cands, ms, frame.id);
    NewEntriesAre(cands, free, t.idCounter);
    PoolAppend(t.pool, pool', news, cands, free, t.idCounter, ms);
  }

  /** Paired entries become their candidates, and the new entries follow under fresh ids. */
  lemma ApplyTakes(t: Tracker, cands: seq<Tracked>, frame: Frame, ms: seq<Cell>)
    requires |cands| == |frame.faces|
    requires forall c :: c in ms ==> c.row < |t.pool| && c.cand < |cands|
    requires forall j :: 0 <= j < |cands| ==> cands[j].frameId == frame.id
    requires Exclusive(ms)
    ensures var t', free := Apply(t, cands, frame, ms).tracker, Unpaired(|cands|, ms);
      && (forall c :: c in ms ==> t'.pool[c.row] == cands[c.cand].(id := t.pool[c.row].id))
      && (forall k :: 0 <= k < |free| ==> t'.pool[|t.pool| + k] == cands[free[k]].(id := t.idCounter + k))
  {
    ApplyPaired(t, cands, frame, ms);
    ApplyNew(t, cands, frame, ms);
  }

  lemma ApplyPaired(t: Tracker, cands: seq<Tracked>, frame: Frame, ms: seq<Cell>)
    requires |cands| == |frame.faces|
    requires forall c :: c in ms ==> c.row < |t.pool| && c.cand < |cands|
    requires forall j :: 0 <= j < |cands| ==> cands[j].frameId == frame.id
    requires Exclusive(ms)
    ensures forall c :: c in ms ==>
      Apply(t, cands, frame, ms).tracker.pool[c.row] == cands[c.cand].(id := t.pool[c.row].id)
  {
    ApplyTrackerPool(t, cands, frame, ms);
    CommitThenNew(t.pool, cands, ms, frame.id, t.idCounter);
  }

  lemma ApplyNew(t: Tracker, cands: seq<Tracked>, frame: Frame, ms: seq<Cell>)
    requires |cands| == |frame.faces|
    requires forall c :: c in ms ==> c.row < |t.pool| && c.cand < |cands|
    requires forall j :: 0 <= j < |cands| ==> cands[j].frameId == frame.id
    requires Exclusive(ms)
    ensures var free := Unpaired(|cands|, ms);
      forall k :: 0 <= k < |free| ==>
        Apply(t, cands, frame, ms).tracker.pool[|t.pool| + k] == cands[free[k]].(id := t.idCounter + k)
  {
    var free := Unpaired(|cands|, ms);
    forall k | 0 <= k < |free|
      ensures Apply(t, cands, frame, ms).tracker.pool[|t.pool| + k] == cands[free[k]].(id := t.idCounter + k)
    {
      ApplyNewAt(t, cands, frame, ms, k);
    }
  }

  /** The `k`-th unpaired candidate sits at position `|t.pool| + k` under id `t.idCounter + k`. */
  lemma ApplyNewAt(t: Tracker, cands: seq<Tracked>, frame: Frame, ms: seq<Cell>, k: nat)
    requires |cands| == |frame.faces|
    requires forall c :: c in ms ==> c.row < |t.pool| && c.cand < |cands|
    requires forall j :: 0 <= j < |cands| ==> cands[j].frameId == frame.id
    requires Exclusive(ms)
    requires k < |Unpaired(|cands|, ms)|
    ensures var free := Unpaired(|cands|, ms);
      Apply(t, cands, frame, ms).tracker.pool[|t.pool| + k] == cands[free[k]].(id := t.idCounter + k)
  {
    var free := Unpaired(|cands|, ms);
    var pool' := Commit(t.pool, cands, ms, frame.id);
    var news := NewEntries(cands, free, t.idCounter);
    ApplyTrackerPool(t, cands, frame, ms);
    NewEntriesAre(cands, free, t.idCounter);
    assert (pool' + news)[|t.pool| + k] == news[k];
  }

  /** The committed pool followed by the new entries, at the paired and the new positions. */
  lemma CommitThenNew(pool: seq<Tracked>, cands: seq<Tracked>, ms: seq<Cell>, frameId: int, counter: int)
    requires forall c :: c in ms ==> c.row < |pool| && c.cand < |cands|
    requires forall j :: 0 <= j < |cands| ==> cands[j].frameId == frameId
    requires Exclusive(ms)
    ensures var free := Unpaired(|cands|, ms);
      var p := Commit(pool, cands, ms, frameId) + NewEntries(cands, free, counter);
      && (forall c :: c in ms ==> p[c.row] == cands[c.cand].(id := pool[c.row].id))
      && (forall k :: 0 <= k < |free| ==> p[|pool| + k] == cands[free[k]].(id := counter + k))
  {
    var free := Unpaired(|cands|, ms);
    CommitEntries(pool, cands, ms, frameId);
    NewEntriesAre(cands, free, counter);
    TakenAppend(pool, Commit(pool, cands, ms, frameId), NewEntries(cands, free, counter), cands, free, counter, ms);
  }

  /** The pool after a frame: the committed pool followed by the new entries. */
  lemma ApplyTrackerPool(t: Tracker, cands: seq<Tracked>, frame: Frame, ms: seq<Cell>)
    requires |cands| == |frame.faces|
    requires forall c :: c in ms ==> c.row < |t.pool| && c.cand < |cands|
    ensures Apply(t, cands, frame, ms).tracker.pool
      == Commit(t.pool, cands, ms, frame.id) + NewEntries(cands, Unpaired(|cands|, ms), t.idCounter)
  {
  }

  /** The paired and new positions of the committed pool followed by the new entries. */
  lemma TakenAppend(pool: seq<Tracked>, pool': seq<Tracked>, news: seq<Tracked>, cands: seq<Tracked>,
                    free: seq<nat>, counter: int, ms: seq<Cell>)
    requires |pool'| == |pool| && |news| == |free| && Below(free, |cands|)
    requires forall c :: c in ms ==> c.row < |pool| && c.cand < |cands|
    requires forall c :: c in ms ==> pool'[c.row] == cands[c.cand].(id := pool[c.row].id)
    requires forall k :: 0 <= k < |free| ==> news[k] == cands[free[k]].(id := counter + k)
    ensures forall c :: c in ms ==> (pool' + news)[c.row] == cands[c.cand].(id := pool[c.row].id)
    ensures forall k :: 0 <= k < |free| ==> (pool' + news)[|pool| + k] == cands[free[k]].(id := counter + k)
  {
    var p := pool' + news;
    forall c | c in ms ensures p[c.row] == cands[c.cand].(id := pool[c.row].id) {
      assert p[c.row] == pool'[c.row];
    }
  }

  /** Each new entry is its candidate under the next id. */
  lemma NewEntriesAre(cands: seq<Tracked>, free: seq<nat>, counter: int)
    requires Below(free, |cands|)
    ensures forall k :: 0 <= k < |free| ==> NewEntries(cands, free, counter)[k] == cands[free[k]].(id := counter + k)
  {
  }

  /** The committed pool followed by the new entries, position by position. */
  lemma PoolAppend(pool: seq<Tracked>, pool': seq<Tracked>, news: seq<Tracked>, cands: seq<Tracked>,
                   free: seq<nat>, counter: int, ms: seq<Cell>)
    requires Below(free, |cands|) && |pool'| == |pool| && |news| == |free|
    requires forall c :: c in ms ==> c.row < |pool| && c.cand < |cands|
    requires forall i :: 0 <= i < |pool| ==> pool'[i].id == pool[i].id
    requires forall i :: 0 <= i < |pool| && i !in RowSet(ms) ==> pool'[i] == pool[i]
    requires forall c :: c in ms ==> pool'[c.row] == cands[c.cand].(id := pool[c.row].id)
    requires forall k :: 0 <= k < |free| ==> news[k] == cands[free[k]].(id := counter + k)
    ensures var p := pool' + news;
      && (forall i :: 0 <= i < |pool| ==> p[i].id == pool[i].id)
      && (forall i :: 0 <= i < |pool| && i !in RowSet(ms) ==> p[i] == pool[i])
      && (forall c :: c in ms ==> p[c.row] == cands[c.cand].(id := pool[c.row].id))
      && (forall k :: 0 <= k < |free| ==> p[|pool| + k] == cands[free[k]].(id := counter + k))
  {
    var p := pool' + news;
    forall c | c in ms ensures p[c.row] == cands[c.cand].(id := pool[c.row].id) {
      assert p[c.row] == pool'[c.row];
    }
  }

  lemma CommitIds(pool: seq<Tracked>, cands: seq<Tracked>, ms: seq<Cell>, frameId: int)
    requires forall c :: c in ms ==> c.cand < |cands|
    ensures Ids(Commit(pool, cands, ms, frameId)) == Ids(pool)
  {
  }

  /** Entries under consecutive ids from the counter extend a valid pool to a valid pool. */
  lemma AppendValid(t: Tracker, pool': seq<Tracked>, news: seq<Tracked>)
    requires Valid(t) && Ids(pool') == Ids(t.pool)
    requires forall k :: 0 <= k < |news| ==> news[k].id == t.idCounter + k
    ensures Valid(Tracker(t.idCounter + |news|, pool' + news))
  {
    var p := pool' + news;
    var ids := Ids(p);
    forall i | 0 <= i < |p| ensures 0 <= p[i].id < t.idCounter + |news| {
      if i < |pool'| {
        assert p[i].id == Ids(t.pool)[i];
      } else {
        assert p[i] == news[i - |pool'|];
      }
    }
    forall i, j | 0 <= i < j < |p| ensures ids[i] != ids[j] {
      if j < |pool'| {
        assert ids[i] == Ids(t.pool)[i] && ids[j] == Ids(t.pool)[j];
      } else if i < |pool'| {
        assert ids[i] == Ids(t.pool)[i] && p[j] == news[j - |pool'|];
      } else {
        assert p[i] == news[i - |pool'|] && p[j] == news[j - |pool'|];
      }
    }
  }

  /** The bookkeeping keeps the pool invariant. */
  lemma ApplyValid(t: Tracker, cands: seq<Tracked>, frame: Frame, ms: seq<Cell>)
    requires |cands| == |frame.faces| && Valid(t)
    requires forall c :: c in ms ==> c.row < |t.pool| && c.cand < |cands|
    ensures Valid(Apply(t, cands, frame, ms).tracker)
  {
    var free := Unpaired(|cands|, ms);
    CommitIds(t.pool, cands, ms, frame.id);
    AppendValid(t, Commit(t.pool, cands, ms, frame.id), NewEntries(cands, free, t.idCounter));
  }

  /**
   * A face's new id: its pool entry's id when its candidate was paired, otherwise the fresh
   * id counter + (its position among the unpaired candidates).
   */
  lemma ApplyLabels(t: Tracker, cands: seq<Tracked>, frame: Frame, ms: seq<Cell>, j: nat)
    requires |cands| == |frame.faces| && j < |cands|
    requires forall c :: c in ms ==> c.row < |t.pool| && c.cand < |cands|
    ensures var out, free := Apply(t, cands, frame, ms).faces, Unpaired(|cands|, ms);
      match CandCell(ms, j)
      case Some(c) => c.row < |t.pool| && out[j].id == t.pool[c.row].id
      case None => j in free && out[j].id == t.idCounter + IndexOf(free, j)
  {
    CandCellSet(ms, j);
  }

  /** Two pairs for different candidates name different pool entries, so different ids. */
  lemma PairedIdsDiffer(t: Tracker, ms: seq<Cell>, a: Cell, b: Cell)
    requires Valid(t) && Exclusive(ms) && a in ms && b in ms && a.cand != b.cand
    requires a.row < |t.pool| && b.row < |t.pool|
    ensures t.pool[a.row].id != t.pool[b.row].id
  {
    var k :| 0 <= k < |ms| && ms[k] == a;
    var l :| 0 <= l < |ms| && ms[l] == b;
    assert a.row != b.row;
    assert Ids(t.pool)[a.row] != Ids(t.pool)[b.row];
  }

  /** Two different faces of a frame receive different ids. */
  lemma ApplyTwoDistinct(t: Tracker, cands: seq<Tracked>, frame: Frame, ms: seq<Cell>, i: nat, j: nat)
    requires |cands| == |frame.faces| && Valid(t) && Exclusive(ms)
    requires forall c :: c in ms ==> c.row < |t.pool| && c.cand < |cands|
    requires i < j < |cands|
    ensures Apply(t, cands, frame, ms).faces[i].id != Apply(t, cands, frame, ms).faces[j].id
  {
    var free := Unpaired(|cands|, ms);
    ApplyLabels(t, cands, frame, ms, i);
    ApplyLabels(t, cands, frame, ms, j);
    match (CandCell(ms, i), CandCell(ms, j))
    case (Some(a), Some(b)) =>
      PairedIdsDiffer(t, ms, a, b);
    case (Some(a), None) =>
    case (None, Some(b)) =>
    case (None, None) =>
      assert IndexOf(free, i) != IndexOf(free, j);
  }

  /** Given the invariant, the faces of a frame receive distinct ids. */
  lemma ApplyDistinctIds(t: Tracker, cands: seq<Tracked>, frame: Frame, ms: seq<Cell>)
    requires |cands| == |frame.faces| && Valid(t) && Exclusive(ms)
    requires forall c :: c in ms ==> c.row < |t.pool| && c.cand < |cands|
    ensures Distinct(FaceIds(Apply(t, cands, frame, ms).faces))
  {
    var out := Apply(t, cands, frame, ms).faces;
    forall i, j | 0 <= i < j < |out| ensures out[i].id != out[j].id {
      ApplyTwoDistinct(t, cands, frame, ms, i, j);
    }
  }

  // ---------------------------------------------------------------------------------------
  // One frame
  // ---------------------------------------------------------------------------------------

  /** No pool entry and no candidate is paired twice. */
  lemma PairsExclusive(o: Oracle, pool: seq<Tracked>, cands: seq<Tracked>)
    ensures Exclusive(Pairs(o, pool, cands))
  {
    AssignGreedily(|pool|, |cands|, PoolDist(o, pool, cands));
  }

  /** Each pair is a number below 250 of the cell it names. */
  lemma PairsValued(o: Oracle, pool: seq<Tracked>, cands: seq<Tracked>)
    ensures var ms := Pairs(o, pool, cands);
      forall k :: 0 <= k < |ms| ==> ms[k].dist < MaxDist
    ensures var ms := Pairs(o, pool, cands);
      forall k :: 0 <= k < |ms| ==> CellValue(o, pool[ms[k].row], cands[ms[k].cand]) == Some(ms[k].dist)
  {
    var d := PoolDist(o, pool, cands);
    AssignValued(|pool|, |cands|, d);
    var ms := Pairs(o, pool, cands);
    assert ms == Assign(Matrix(|pool|, |cands|, d), |pool|, |cands|);
    forall k | 0 <= k < |ms| ensures CellValue(o, pool[ms[k].row], cands[ms[k].cand]) == Some(ms[k].dist) {
      assert d(ms[k].row, ms[k].cand) == Some(ms[k].dist);
    }
  }

  /** Each pair is the smallest eligible cell among rows and columns still free when it was taken. */
  lemma PairsMinimal(o: Oracle, pool: seq<Tracked>, cands: seq<Tracked>)
    ensures var ms := Pairs(o, pool, cands);
      forall k, i, j ::
        (0 <= k < |ms| && 0 <= i < |pool| && 0 <= j < |cands| &&
         i !in RowSet(ms[..k]) && j !in CandSet(ms[..k]) && Eligible(CellValue(o, pool[i], cands[j])))
        ==> ms[k].dist <= CellValue(o, pool[i], cands[j]).value
  {
    var d := PoolDist(o, pool, cands);
    AssignMinimal(|pool|, |cands|, d);
    var ms := Pairs(o, pool, cands);
    assert ms == Assign(Matrix(|pool|, |cands|, d), |pool|, |cands|);
    forall k, i, j | 0 <= k < |ms| && 0 <= i < |pool| && 0 <= j < |cands| &&
        i !in RowSet(ms[..k]) && j !in CandSet(ms[..k]) && Eligible(CellValue(o, pool[i], cands[j]))
      ensures ms[k].dist <= CellValue(o, pool[i], cands[j]).value
    {
      assert d(i, j) == CellValue(o, pool[i], cands[j]);
    }
  }

  /** No eligible cell is left with its pool entry and its candidate both free. */
  lemma PairsMaximal(o: Oracle, pool: seq<Tracked>, cands: seq<Tracked>)
    ensures var ms := Pairs(o, pool, cands);
      forall i, j :: 0 <= i < |pool| && 0 <= j < |cands| && Eligible(CellValue(o, pool[i], cands[j])) ==>
        i in RowSet(ms) || j in CandSet(ms)
  {
    var d := PoolDist(o, pool, cands);
    AssignMaximal(|pool|, |cands|, d);
    var ms := Pairs(o, pool, cands);
    assert ms == Assign(Matrix(|pool|, |cands|, d), |pool|, |cands|);
    forall i, j | 0 <= i < |pool| && 0 <= j < |cands| && Eligible(CellValue(o, pool[i], cands[j]))
      ensures i in RowSet(ms) || j in CandSet(ms)
    {
      assert d(i, j) == CellValue(o, pool[i], cands[j]);
    }
  }

  /**
   * The pairs in terms of the cell distances: no pool entry and no candidate twice, each a
   * number below 250, each the smallest such among rows and columns still free when it was
   * taken, and no such cell left with its row and column both free.
   */
  lemma PairsSound(o: Oracle, pool: seq<Tracked>, cands: seq<Tracked>)
    ensures var ms := Pairs(o, pool, cands);
      && Exclusive(ms)
      && (forall k :: 0 <= k < |ms| ==>
            CellValue(o, pool[ms[k].row], cands[ms[k].cand]) == Some(ms[k].dist) && ms[k].dist < MaxDist)
      && (forall k, i, j ::
            (0 <= k < |ms| && 0 <= i < |pool| && 0 <= j < |cands| &&
             i !in RowSet(ms[..k]) && j !in CandSet(ms[..k]) && Eligible(CellValue(o, pool[i], cands[j])))
            ==> ms[k].dist <= CellValue(o, pool[i], cands[j]).value)
      && (forall i, j :: 0 <= i < |pool| && 0 <= j < |cands| && Eligible(CellValue(o, pool[i], cands[j])) ==>
            i in RowSet(ms) || j in CandSet(ms))
  {
    AssignGreedily(|pool|, |cands|, PoolDist(o, pool, cands));
    PairsValued(o, pool, cands);
    PairsMinimal(o, pool, cands);
    PairsMaximal(o, pool, cands);
  }

  lemma TrackValid(o: Oracle, t: Tracker, cands: seq<Tracked>, frame: Frame)
    requires |cands| == |frame.faces| && Valid(t)
    ensures Valid(Track(o, t, cands, frame).tracker)
  {
    ApplyValid(t, cands, frame, Pairs(o, t.pool, cands));
  }

  lemma TrackDistinctIds(o: Oracle, t: Tracker, cands: seq<Tracked>, frame: Frame)
    requires |cands| == |frame.faces| && Valid(t)
    ensures Distinct(FaceIds(Track(o, t, cands, frame).faces))
  {
    PairsExclusive(o, t.pool, cands);
    ApplyDistinctIds(t, cands, frame, Pairs(o, t.pool, cands));
  }

  /** With an empty pool nothing is paired and the faces get the ids counter, counter + 1, ... */
  lemma EmptyPoolAllNew(o: Oracle, t: Tracker, cands: seq<Tracked>, frame: Frame)
    requires |cands| == |frame.faces| && |t.pool| == 0
    ensures var s := Track(o, t, cands, frame);
      && s.tracker.idCounter == t.idCounter + |cands|
      && forall j :: 0 <= j < |cands| ==> s.faces[j].id == t.idCounter + j
  {
    var ms := Pairs(o, t.pool, cands);
    assert ms == [];
    var free := Unpaired(|cands|, ms);
    assert CandSet(ms) == {};
    WithoutNothing(Range(|cands|));
    forall j | 0 <= j < |cands| ensures Track(o, t, cands, frame).faces[j].id == t.idCounter + j {
      ApplyLabels(t, cands, frame, ms, j);
      IndexOfAt(free, j);
    }
  }

  /**
   * A paired pool entry becomes its candidate under its old id; unpaired entries are kept;
   * the pool only grows, by the unpaired candidates under consecutive fresh ids.
   */
  lemma TrackPool(o: Oracle, t: Tracker, cands: seq<Tracked>, frame: Frame)
    requires |cands| == |frame.faces|
    requires forall j :: 0 <= j < |cands| ==> cands[j].frameId == frame.id
    ensures var ms, t' := Pairs(o, t.pool, cands), Track(o, t, cands, frame).tracker;
      var free := Unpaired(|cands|, ms);
      && t'.idCounter == t.idCounter + |free|
      && |t'.pool| == |t.pool| + |free|
      && (forall i :: 0 <= i < |t.pool| ==> t'.pool[i].id == t.pool[i].id)
      && (forall i :: 0 <= i < |t.pool| && i !in RowSet(ms) ==> t'.pool[i] == t.pool[i])
      && (forall c :: c in ms ==> t'.pool[c.row] == cands[c.cand].(id := t.pool[c.row].id))
      && (forall k :: 0 <= k < |free| ==> t'.pool[|t.pool| + k] == cands[free[k]].(id := t.idCounter + k))
  {
    PairsExclusive(o, t.pool, cands);
    ApplyPool(t, cands, frame, Pairs(o, t.pool, cands));
  }

  /** Over a whole frame: the invariant is kept, ids in the frame are distinct and the pool grows. */
  lemma AddFrameSound(o: Oracle, t: Tracker, img: Image, frame: Frame)
    requires Valid(t)
    ensures var r := AddFrame(o, t, img, frame);
      r.Success? ==>
        && Valid(r.value.tracker)
        && Distinct(FaceIds(r.value.faces))
        && |r.value.tracker.pool| >= |t.pool|
        && forall i :: 0 <= i < |t.pool| ==> r.value.tracker.pool[i].id == t.pool[i].id
  {
    var cr := CreateCandidates(o, img, frame.faces, frame.id);
    if cr.Success? {
      var cands := cr.value;
      TrackValid(o, t, cands, frame);
      TrackDistinctIds(o, t, cands, frame);
      TrackPool(o, t, cands, frame);
    }
  }
}
