/**
 * FaceTrackerLBP: identities live in a tracked pool and a lost pool. Each frame the
 * candidates (one per detected face) are matched first against the tracked pool, then the
 * remaining ones against the lost pool; stale tracked identities move to the lost pool,
 * recovered lost identities move back, and every unmatched candidate opens a new identity.
 */
module LbpTracker {
  import opened Results
  import opened Geometry
  import opened Seqs
  import opened Faces
  import opened Vision
  import opened LbpMatch
  import opened Pairing

  /** A tracked identity not matched for this many frames is moved to the lost pool. */
  const LostRange: int := 10

  /** Within this spatial distance the appearance distance is blended with the position. */
  const NearField: real := 30.0

  /**
   * A face identity: its id, the last frame it was matched in, the crops its LBPH model was
   * trained and updated on, its last centroid and whether it is in the lost state.
   */
  datatype Identity = Identity(id: int, frameId: int, model: seq<Crop>, pos: PointF, trackingLost: bool)

  /** A detected face prepared for matching: its normalised crop and its centroid. */
  datatype Candidate = Candidate(crop: Crop, pos: PointF)

  /** The tracker state: the next fresh id and the two pools, in list order. */
  datatype Tracker = Tracker(idCounter: int, tracked: seq<Identity>, lost: seq<Identity>)

  /** A freshly constructed tracker. */
  function Init(): (t: Tracker)
    ensures t.idCounter == 0 && |t.tracked| == 0 && |t.lost| == 0
  {
    Tracker(0, [], [])
  }

  // ---------------------------------------------------------------------------------------
  // Candidates
  // ---------------------------------------------------------------------------------------

  /** The region lies inside a cols x rows image and is not empty. */
  predicate InImage(r: Rect, cols: int, rows: int) {
    0 <= r.x && 0 <= r.y && 0 < r.width && 0 < r.height &&
    r.x + r.width <= cols && r.y + r.height <= rows
  }

  /**
   * The face box clamped to the image: the top-left corner is moved to non-negative
   * coordinates and the size is cut to what is left of the image from there.
   */
  function CropRegion(box: Rect, cols: int, rows: int): (r: Rect)
    ensures 0 <= r.x && 0 <= r.y && r.x + r.width <= cols && r.y + r.height <= rows
    ensures r.width <= box.width && r.height <= box.height
    ensures 0 <= box.x && 0 <= box.y && box.x + box.width <= cols && box.y + box.height <= rows ==> r == box
  {
    var x := Max(box.x, 0);
    var y := Max(box.y, 0);
    Rect(x, y, Min(box.width, cols - x), Min(box.height, rows - y))
  }

  /** Clamping a clamped box changes nothing. */
  lemma CropRegionIdempotent(box: Rect, cols: int, rows: int)
    ensures CropRegion(CropRegion(box, cols, rows), cols, rows) == CropRegion(box, cols, rows)
  {
  }

  /** The mean landmark position, or the origin for a face without landmarks. */
  function Centroid(landmarks: seq<Point>): (c: PointF)
    ensures |landmarks| == 0 ==> c == PointF(0.0, 0.0)
    ensures |landmarks| > 0 ==>
      c.x * |landmarks| as real == SumX(landmarks) as real &&
      c.y * |landmarks| as real == SumY(landmarks) as real
  {
    if |landmarks| > 0 then Mean(landmarks) else PointF(0.0, 0.0)
  }

  /** The centroid of landmarks inside a box lies inside the box; the guard avoids 0 / 0. */
  lemma CentroidWithin(landmarks: seq<Point>, lo: Point, hi: Point)
    requires AllWithin(landmarks, lo, hi) && lo.x <= 0 <= hi.x && lo.y <= 0 <= hi.y
    ensures lo.x as real <= Centroid(landmarks).x <= hi.x as real
    ensures lo.y as real <= Centroid(landmarks).y <= hi.y as real
  {
    if |landmarks| > 0 {
      MeanWithin(landmarks, lo, hi);
    }
  }

  /**
   * The candidate of one face: the clamped full-face box is cropped (and resized); an empty
   * clamped region is rejected by OpenCV.
   */
  function MakeCandidate(o: Oracle, img: Image, face: Face): (r: Result<Candidate>)
    ensures r.Success? <==> InImage(CropRegion(o.fullFaceBox(face.landmarks), img.cols, img.rows), img.cols, img.rows)
    ensures r.Success? ==>
      && InImage(r.value.crop.region, img.cols, img.rows)
      && r.value.crop.image == img.handle
      && r.value.pos == Centroid(face.landmarks)
  {
    var region := CropRegion(o.fullFaceBox(face.landmarks), img.cols, img.rows);
    if region.width > 0 && region.height > 0 then
      Success(Candidate(Crop(img.handle, region), Centroid(face.landmarks)))
    else
      Failure(InvalidRegion)
  }

  /** One candidate per face, in face order; the first rejected region aborts. */
  function CreateCandidates(o: Oracle, img: Image, faces: seq<Face>): (r: Result<seq<Candidate>>)
    ensures r.Success? <==> forall j :: 0 <= j < |faces| ==> MakeCandidate(o, img, faces[j]).Success?
    ensures r.Success? ==>
      |r.value| == |faces| &&
      forall j :: 0 <= j < |faces| ==> r.value[j] == MakeCandidate(o, img, faces[j]).value
  {
    if |faces| == 0 then Success([])
    else
      var c :- MakeCandidate(o, img, faces[0]);
      var rest :- CreateCandidates(o, img, faces[1..]);
      assert forall j :: 1 <= j < |faces| ==> faces[j] == faces[1..][j - 1];
      Success([c] + rest)
  }

  // ---------------------------------------------------------------------------------------
  // Distances
  // ---------------------------------------------------------------------------------------

  /** The LBPH distance the identity's model reports for the candidate's crop. */
  function Appearance(o: Oracle, f: Identity, c: Candidate): real {
    o.predict(f.model, c.crop)
  }

  /** The Euclidean distance between the identity's and the candidate's centroids. */
  function Spatial(o: Oracle, f: Identity, c: Candidate): real {
    o.norm(f.pos.x - c.pos.x, f.pos.y - c.pos.y)
  }

  /** The match distance of an identity and a candidate. */
  function CalcDist(o: Oracle, f: Identity, c: Candidate): real {
    if !f.trackingLost && Spatial(o, f, c) <= NearField then
      (Appearance(o, f, c) + Spatial(o, f, c)) * 0.5
    else
      Appearance(o, f, c)
  }

  /**
   * A near identity that is not lost scores the mean of appearance and position, which lies
   * between the two; otherwise the appearance alone counts.
   */
  lemma CalcDistBlend(o: Oracle, f: Identity, c: Candidate)
    ensures var a, s, d := Appearance(o, f, c), Spatial(o, f, c), CalcDist(o, f, c);
      && (!f.trackingLost && s <= NearField ==> (a <= d <= s || s <= d <= a) && d - a == s - d)
      && (f.trackingLost || s > NearField ==> d == a)
  {
  }

  /** A lost identity's last position has no influence on its distances. */
  lemma LostIgnoresPosition(o: Oracle, f: Identity, c: Candidate, p: PointF)
    requires f.trackingLost
    ensures CalcDist(o, f.(pos := p), c) == CalcDist(o, f, c)
  {
  }

  /** The distance matrix entry of pool row r and candidate c (0 outside the matrix). */
  function PoolDist(o: Oracle, pool: seq<Identity>, cands: seq<Candidate>): (nat, nat) -> real {
    (r: nat, c: nat) => if r < |pool| && c < |cands| then CalcDist(o, pool[r], cands[c]) else 0.0
  }

  // ---------------------------------------------------------------------------------------
  // One match pass
  // ---------------------------------------------------------------------------------------

  /** A matched identity: matched in this frame, retrained on the crop, moved, not lost. */
  function Refresh(f: Identity, c: Candidate, frameId: int): (g: Identity)
    ensures g.id == f.id && g.frameId == frameId && g.pos == c.pos && !g.trackingLost
    ensures g.model == f.model + [c.crop]
  {
    f.(frameId := frameId, model := f.model + [c.crop], pos := c.pos, trackingLost := false)
  }

  /** The result of a pass: the updated pool, the free candidates, the labelled faces and the commits. */
  datatype Pass = Pass(pool: seq<Identity>, free: seq<nat>, faces: seq<Face>, matches: seq<Cell>)

  /** Candidate indices are valid and strictly increasing (the std::set cand_indices). */
  ghost predicate FreeSet(free: seq<nat>, n: nat) {
    Increasing(free) && Below(free, n)
  }

  /**
   * The pool with every committed identity refreshed from its candidate: every identity keeps
   * its place and id, one whose row was not committed is unchanged, and under an exclusive
   * commit list each committed row is refreshed from exactly its own candidate.
   */
  function Commit(pool: seq<Identity>, cands: seq<Candidate>, ms: seq<Cell>, frameId: int): (pool': seq<Identity>)
    requires forall c :: c in ms ==> c.cand < |cands|
    ensures |pool'| == |pool| && Ids(pool') == Ids(pool)
    ensures forall r :: 0 <= r < |pool| && r !in RowSet(ms) ==> pool'[r] == pool[r]
    ensures forall r :: 0 <= r < |pool| && RowCell(ms, r).Some? ==>
      pool'[r] == Refresh(pool[r], cands[RowCell(ms, r).value.cand], frameId)
    ensures Exclusive(ms) ==> forall c :: c in ms && c.row < |pool| ==>
      pool'[c.row] == Refresh(pool[c.row], cands[c.cand], frameId)
  {
    RowCells(ms);
    seq(|pool|, r requires 0 <= r < |pool| =>
      match RowCell(ms, r)
      case None => pool[r]
      case Some(c) => Refresh(pool[r], cands[c.cand], frameId))
  }

  /** The commits of a pass are valid rows and free candidates. */
  lemma MatchesInRange(ms: seq<Cell>, n: nat, free: seq<nat>, m: nat)
    requires forall k :: 0 <= k < |ms| ==> ms[k].row < n && ms[k].cand in free
    requires Below(free, m)
    ensures forall c :: c in ms ==> c.row < n && c.cand < m
  {
    forall c | c in ms ensures c.row < n && c.cand < m {
      var k :| 0 <= k < |ms| && ms[k] == c;
      var i :| 0 <= i < |free| && free[i] == c.cand;
    }
  }

  /** FaceTrackerLBP::match of a pool against the free candidates. */
  function MatchPass(layout: Layout, o: Oracle, pool: seq<Identity>, cands: seq<Candidate>,
                     free: seq<nat>, faces: seq<Face>, frameId: int): (p: Pass)
    requires |faces| == |cands| && FreeSet(free, |cands|)
    ensures |p.pool| == |pool| && |p.faces| == |faces|
    ensures Exclusive(p.matches)
    ensures forall k :: 0 <= k < |p.matches| ==>
      p.matches[k].row < |pool| && p.matches[k].cand in free && p.matches[k].dist <= MaxMatchDist
    ensures forall c :: c in p.matches ==> c.row < |pool| && c.cand < |cands|
    ensures p.free == Without(free, CandSet(p.matches))
    ensures p.pool == Commit(pool, cands, p.matches, frameId)
    ensures p.faces == Label(faces, Ids(pool), p.matches)
    ensures |free| > 0 ==> p.matches == Run(layout, |pool|, |cands|, free, PoolDist(o, pool, cands)).committed
  {
    if |free| == 0 then
      WithoutNothing(free);
      assert CandSet([]) == {};
      Pass(pool, free, faces, [])
    else
      assert free[0] < |cands|;
      var out := Run(layout, |pool|, |cands|, free, PoolDist(o, pool, cands));
      MatchesInRange(out.committed, |pool|, free, |cands|);
      Pass(Commit(pool, cands, out.committed, frameId), out.cands, Label(faces, Ids(pool), out.committed), out.committed)
  }

  /**
   * With the corrected layout, or while every candidate is free (pass 1), each committed
   * identity is within the threshold of its candidate by their true distance, and no free
   * identity is left beside a free candidate within the threshold.
   */
  lemma PassSound(layout: Layout, o: Oracle, pool: seq<Identity>, cands: seq<Candidate>,
                  free: seq<nat>, faces: seq<Face>, frameId: int)
    requires |faces| == |cands| && FreeSet(free, |cands|)
    requires layout == Corrected || |free| == |cands|
    ensures var p := MatchPass(layout, o, pool, cands, free, faces, frameId);
      && (forall k :: 0 <= k < |p.matches| ==>
            CalcDist(o, pool[p.matches[k].row], cands[p.matches[k].cand]) <= MaxMatchDist)
      && (forall r, c :: 0 <= r < |pool| && 0 <= c < |cands| && c in free &&
            CalcDist(o, pool[r], cands[c]) <= MaxMatchDist
            ==> r in RowSet(p.matches) || c in CandSet(p.matches))
  {
    var p := MatchPass(layout, o, pool, cands, free, faces, frameId);
    if |free| > 0 {
      var dist := PoolDist(o, pool, cands);
      assert free[0] < |cands|;
      RunSound(layout, |pool|, |cands|, free, dist);
      forall k | 0 <= k < |p.matches|
        ensures CalcDist(o, pool[p.matches[k].row], cands[p.matches[k].cand]) <= MaxMatchDist
      {
        assert dist(p.matches[k].row, p.matches[k].cand) <= MaxMatchDist;
      }
      forall r, c | 0 <= r < |pool| && 0 <= c < |cands| && c in free &&
          CalcDist(o, pool[r], cands[c]) <= MaxMatchDist
        ensures r in RowSet(p.matches) || c in CandSet(p.matches)
      {
        assert dist(r, c) == CalcDist(o, pool[r], cands[c]);
      }
    }
  }

  // ---------------------------------------------------------------------------------------
  // One frame
  // ---------------------------------------------------------------------------------------

  /** Pass 1: the tracked pool against all candidates. */
  function Pass1(layout: Layout, o: Oracle, t: Tracker, cands: seq<Candidate>, frame: Frame): (p: Pass)
    requires |cands| == |frame.faces|
    ensures FreeSet(p.free, |cands|) && |p.faces| == |frame.faces|
  {
    var p := MatchPass(layout, o, t.tracked, cands, Range(|cands|), frame.faces, frame.id);
    WithoutIncreasing(Range(|cands|), CandSet(p.matches));
    WithoutBelow(Range(|cands|), CandSet(p.matches), |cands|);
    p
  }

  /** Pass 2: the lost pool against the candidates pass 1 left free. */
  function Pass2(layout: Layout, o: Oracle, t: Tracker, cands: seq<Candidate>, frame: Frame): (p: Pass)
    requires |cands| == |frame.faces|
    ensures FreeSet(p.free, |cands|) && |p.faces| == |frame.faces|
  {
    var p1 := Pass1(layout, o, t, cands, frame);
    var p := MatchPass(layout, o, t.lost, cands, p1.free, p1.faces, frame.id);
    WithoutIncreasing(p1.free, CandSet(p.matches));
    WithoutBelow(p1.free, CandSet(p.matches), |cands|);
    p
  }

  /** An identity not matched for LostRange frames or more. */
  predicate Stale(frameId: int, f: Identity) {
    frameId - f.frameId >= LostRange
  }

  /** The identities flagged as lost, nothing else changed. */
  function MarkLost(s: seq<Identity>): (r: seq<Identity>)
    ensures |r| == |s| && Ids(r) == Ids(s)
    ensures forall i :: 0 <= i < |s| ==> r[i].trackingLost
    ensures forall i :: 0 <= i < |s| ==> r[i].(trackingLost := s[i].trackingLost) == s[i]
  {
    seq(|s|, i requires 0 <= i < |s| => s[i].(trackingLost := true))
  }

  /** A new identity for each free candidate, numbered from the counter in candidate order. */
  function NewIdentities(cands: seq<Candidate>, free: seq<nat>, frameId: int, counter: int): (r: seq<Identity>)
    requires Below(free, |cands|)
    ensures |r| == |free| && Distinct(Ids(r))
    ensures forall k :: 0 <= k < |free| ==> r[k].id == counter + k
    ensures forall k :: 0 <= k < |free| ==>
      && r[k].frameId == frameId && !r[k].trackingLost
      && r[k].model == [cands[free[k]].crop] && r[k].pos == cands[free[k]].pos
  {
    seq(|free|, k requires 0 <= k < |free| =>
      Identity(counter + k, frameId, [cands[free[k]].crop], cands[free[k]].pos, false))
  }

  /** Identities matched recently enough to stay in the tracked pool. */
  function Kept(frameId: int, pool: seq<Identity>): seq<Identity> {
    Filter(pool, (f: Identity) => !Stale(frameId, f))
  }

  /** Stale identities, flagged lost, to be appended to the lost pool. */
  function Moved(frameId: int, pool: seq<Identity>): seq<Identity> {
    MarkLost(Filter(pool, (f: Identity) => Stale(frameId, f)))
  }

  /** Identities of the lost pool that were matched again. */
  function Back(lost: seq<Identity>): seq<Identity> {
    Filter(lost, (f: Identity) => !f.trackingLost)
  }

  /** Identities of the lost pool that stay lost. */
  function Still(lost: seq<Identity>): seq<Identity> {
    Filter(lost, (f: Identity) => f.trackingLost)
  }

  /** The result of a frame: the new tracker state and the frame's faces with their ids. */
  datatype Step = Step(tracker: Tracker, faces: seq<Face>)

  /**
   * The bookkeeping after both passes: stale tracked identities move to the lost pool,
   * recovered lost identities move back, and the free candidates open new identities.
   */
  function Assemble(counter: int, cands: seq<Candidate>, frameId: int, pool1: seq<Identity>,
                    pool2: seq<Identity>, free2: seq<nat>, faces2: seq<Face>): (s: Step)
    requires Below(free2, |cands|)
  {
    var lost := pool2 + Moved(frameId, pool1);
    Step(Tracker(counter + |free2|,
                 Kept(frameId, pool1) + Back(lost) + NewIdentities(cands, free2, frameId, counter),
                 Still(lost)),
         NewLabels(faces2, free2, counter))
  }

  /** FaceTrackerLBP::addFrame once the candidates exist. */
  function Track(layout: Layout, o: Oracle, t: Tracker, cands: seq<Candidate>, frame: Frame): (s: Step)
    requires |cands| == |frame.faces|
  {
    var p1 := Pass1(layout, o, t, cands, frame);
    var p2 := Pass2(layout, o, t, cands, frame);
    Assemble(t.idCounter, cands, frame.id, p1.pool, p2.pool, p2.free, p2.faces)
  }

  /** FaceTrackerLBP::addFrame: build the candidates, then track. */
  function AddFrame(layout: Layout, o: Oracle, t: Tracker, img: Image, frame: Frame): (r: Result<Step>)
    ensures r.Failure? <==> exists j :: 0 <= j < |frame.faces| && MakeCandidate(o, img, frame.faces[j]).Failure?
    ensures r.Success? ==> OnlyIdsChanged(frame.faces, r.value.faces)
  {
    var cands :- CreateCandidates(o, img, frame.faces);
    var s := Track(layout, o, t, cands, frame);
    TrackOnlyIds(layout, o, t, cands, frame);
    Success(s)
  }

  // ---------------------------------------------------------------------------------------
  // The pool invariant
  // ---------------------------------------------------------------------------------------

  /** The ids of a list of identities, in order. */
  function Ids(s: seq<Identity>): (ids: seq<int>)
    ensures |ids| == |s|
    ensures forall i :: 0 <= i < |s| ==> ids[i] == s[i].id
  {
    seq(|s|, i requires 0 <= i < |s| => s[i].id)
  }

  /** All ids held by the two pools, with multiplicity. */
  ghost function IdBag(t: Tracker): multiset<int> {
    multiset(Ids(t.tracked)) + multiset(Ids(t.lost))
  }

  /**
   * No id is held twice across the two pools, every id was issued by the counter, tracked
   * identities are not flagged lost and lost ones are.
   */
  ghost predicate Valid(t: Tracker) {
    && 0 <= t.idCounter
    && NoDup(IdBag(t))
    && (forall i :: i in IdBag(t) ==> 0 <= i < t.idCounter)
    && (forall k :: 0 <= k < |t.tracked| ==> !t.tracked[k].trackingLost)
    && (forall k :: 0 <= k < |t.lost| ==> t.lost[k].trackingLost)
  }

  lemma ValidInit()
    ensures Valid(Init())
  {
    assert IdBag(Init()) == multiset{};
  }

  lemma IdsAppend(a: seq<Identity>, b: seq<Identity>)
    ensures Ids(a + b) == Ids(a) + Ids(b)
  {
  }

  /** Splitting a list by a predicate and its negation splits its ids. */
  lemma {:induction false} IdsFilterPartition(s: seq<Identity>, p: Identity -> bool, q: Identity -> bool)
    requires forall x :: q(x) == !p(x)
    ensures multiset(Ids(Filter(s, p))) + multiset(Ids(Filter(s, q))) == multiset(Ids(s))
  {
    if |s| > 0 {
      IdsFilterPartition(s[1..], p, q);
      assert s == [s[0]] + s[1..];
      IdsAppend([s[0]], s[1..]);
      if p(s[0]) {
        IdsAppend([s[0]], Filter(s[1..], p));
      } else {
        IdsAppend([s[0]], Filter(s[1..], q));
      }
    }
  }

  /** The fresh ids counter, counter + 1, ... occur once each. */
  lemma FreshIdsNoDup(news: seq<Identity>, counter: int)
    requires forall k :: 0 <= k < |news| ==> news[k].id == counter + k
    ensures NoDup(multiset(Ids(news)))
    ensures forall i :: i in multiset(Ids(news)) ==> counter <= i < counter + |news|
  {
    DistinctNoDup(Ids(news));
  }

  /** Old ids below the counter and fresh ids from it on do not collide. */
  lemma NoDupJoin(a: multiset<int>, b: multiset<int>, c: int)
    requires NoDup(a) && NoDup(b)
    requires forall i :: i in a ==> i < c
    requires forall i :: i in b ==> c <= i
    ensures NoDup(a + b)
  {
    forall x ensures (a + b)[x] <= 1 {
      if x in a {
        assert x !in b;
      }
    }
  }

  /** Moving the stale identities out keeps the ids of the pass 1 pool. */
  lemma KeptMovedBag(frameId: int, pool1: seq<Identity>)
    ensures multiset(Ids(Kept(frameId, pool1))) + multiset(Ids(Moved(frameId, pool1))) == multiset(Ids(pool1))
  {
    var moved := Filter(pool1, (f: Identity) => Stale(frameId, f));
    IdsFilterPartition(pool1, (f: Identity) => !Stale(frameId, f), (f: Identity) => Stale(frameId, f));
    assert Ids(MarkLost(moved)) == Ids(moved);
  }

  /** Splitting the lost pool into recovered and still lost identities keeps its ids. */
  lemma BackStillBag(lost: seq<Identity>)
    ensures multiset(Ids(Back(lost))) + multiset(Ids(Still(lost))) == multiset(Ids(lost))
  {
    IdsFilterPartition(lost, (f: Identity) => !f.trackingLost, (f: Identity) => f.trackingLost);
  }

  /** The bookkeeping keeps every id of both pools and adds the new ones. */
  lemma AssembleBag(counter: int, cands: seq<Candidate>, frameId: int, pool1: seq<Identity>,
                    pool2: seq<Identity>, free2: seq<nat>, faces2: seq<Face>)
    requires Below(free2, |cands|)
    ensures IdBag(Assemble(counter, cands, frameId, pool1, pool2, free2, faces2).tracker) ==
      multiset(Ids(pool1)) + multiset(Ids(pool2)) + multiset(Ids(NewIdentities(cands, free2, frameId, counter)))
  {
    var t' := Assemble(counter, cands, frameId, pool1, pool2, free2, faces2).tracker;
    var moved := Moved(frameId, pool1);
    var lost := pool2 + moved;
    var kept := Kept(frameId, pool1);
    var back := Back(lost);
    var news := NewIdentities(cands, free2, frameId, counter);
    assert t'.tracked == kept + back + news && t'.lost == Still(lost);
    KeptMovedBag(frameId, pool1);
    BackStillBag(lost);
    IdsAppend(pool2, moved);
    IdsAppend(kept + back, news);
    IdsAppend(kept, back);
    assert multiset(Ids(lost)) == multiset(Ids(pool2)) + multiset(Ids(moved));
    assert multiset(Ids(t'.tracked)) == multiset(Ids(kept)) + multiset(Ids(back)) + multiset(Ids(news));
    var a, b, n, st := multiset(Ids(kept)), multiset(Ids(back)), multiset(Ids(news)), multiset(Ids(Still(lost)));
    var p1, p2, m := multiset(Ids(pool1)), multiset(Ids(pool2)), multiset(Ids(moved));
    assert b + st == p2 + m;
    assert a + m == p1;
    assert IdBag(t') == a + b + n + st;
    assert a + b + n + st == (a + m) + p2 + n by {
      assert a + b + n + st == a + (b + st) + n;
    }
  }

  /** Identities kept from a pool whose identities are not lost are neither lost nor stale. */
  lemma KeptFlags(frameId: int, pool1: seq<Identity>)
    requires forall k :: 0 <= k < |pool1| ==> !pool1[k].trackingLost
    ensures forall x :: x in Kept(frameId, pool1) ==> !x.trackingLost && !Stale(frameId, x)
  {
    forall x | x in Kept(frameId, pool1) ensures !x.trackingLost && !Stale(frameId, x) {
      var r :| 0 <= r < |pool1| && pool1[r] == x;
    }
  }

  /**
   * Identities coming back from the lost pool are not lost, and when every lost identity not
   * flagged was matched in this frame they are not stale either.
   */
  lemma BackFlags(frameId: int, pool1: seq<Identity>, pool2: seq<Identity>)
    requires forall k :: 0 <= k < |pool2| ==> pool2[k].trackingLost || pool2[k].frameId == frameId
    ensures forall x :: x in Back(pool2 + Moved(frameId, pool1)) ==> !x.trackingLost && !Stale(frameId, x)
  {
    var lost := pool2 + Moved(frameId, pool1);
    forall x | x in Back(lost) ensures !x.trackingLost && !Stale(frameId, x) {
      var r :| 0 <= r < |lost| && lost[r] == x;
      if r < |pool2| {
        assert x == pool2[r];
      }
    }
  }

  /** New identities are not lost and were seen in this frame. */
  lemma NewFlags(cands: seq<Candidate>, free2: seq<nat>, frameId: int, counter: int)
    requires Below(free2, |cands|)
    ensures forall x :: x in NewIdentities(cands, free2, frameId, counter) ==> !x.trackingLost && !Stale(frameId, x)
  {
    var news := NewIdentities(cands, free2, frameId, counter);
    forall x | x in news ensures !x.trackingLost && !Stale(frameId, x) {
      var k :| 0 <= k < |news| && news[k] == x;
    }
  }

  /** A pool put together from parts whose identities are neither lost nor stale has none either. */
  lemma ConcatFlags(frameId: int, a: seq<Identity>, b: seq<Identity>, c: seq<Identity>)
    requires forall x :: x in a ==> !x.trackingLost && !Stale(frameId, x)
    requires forall x :: x in b ==> !x.trackingLost && !Stale(frameId, x)
    requires forall x :: x in c ==> !x.trackingLost && !Stale(frameId, x)
    ensures forall k :: 0 <= k < |a + b + c| ==> !(a + b + c)[k].trackingLost && !Stale(frameId, (a + b + c)[k])
  {
    forall k | 0 <= k < |a + b + c| ensures !(a + b + c)[k].trackingLost && !Stale(frameId, (a + b + c)[k]) {
      if k < |a| {
        assert (a + b + c)[k] == a[k];
      } else if k < |a| + |b| {
        assert (a + b + c)[k] == b[k - |a|];
      } else {
        assert (a + b + c)[k] == c[k - |a| - |b|];
      }
    }
  }

  /**
   * When tracked identities are not lost and lost ones are lost unless matched in this frame,
   * the new tracked pool holds identities matched within the window and not lost, and the new
   * lost pool holds lost identities.
   */
  lemma AssembleFlags(counter: int, cands: seq<Candidate>, frameId: int, pool1: seq<Identity>,
                      pool2: seq<Identity>, free2: seq<nat>, faces2: seq<Face>)
    requires Below(free2, |cands|)
    requires forall k :: 0 <= k < |pool1| ==> !pool1[k].trackingLost
    requires forall k :: 0 <= k < |pool2| ==> pool2[k].trackingLost || pool2[k].frameId == frameId
    ensures var t' := Assemble(counter, cands, frameId, pool1, pool2, free2, faces2).tracker;
      && (forall k :: 0 <= k < |t'.tracked| ==> !t'.tracked[k].trackingLost && !Stale(frameId, t'.tracked[k]))
      && (forall k :: 0 <= k < |t'.lost| ==> t'.lost[k].trackingLost)
  {
    var t' := Assemble(counter, cands, frameId, pool1, pool2, free2, faces2).tracker;
    var lost := pool2 + Moved(frameId, pool1);
    var kept := Kept(frameId, pool1);
    var back := Back(lost);
    var news := NewIdentities(cands, free2, frameId, counter);
    assert t'.tracked == kept + back + news;
    assert t'.lost == Still(lost);
    KeptFlags(frameId, pool1);
    BackFlags(frameId, pool1, pool2);
    NewFlags(cands, free2, frameId, counter);
    ConcatFlags(frameId, kept, back, news);
    forall k | 0 <= k < |t'.lost| ensures t'.lost[k].trackingLost {
      assert t'.lost[k] in Still(lost);
    }
  }

  // ---------------------------------------------------------------------------------------
  // Properties of one frame
  // ---------------------------------------------------------------------------------------

  lemma OnlyIdsTrans(a: seq<Face>, b: seq<Face>, c: seq<Face>)
    requires OnlyIdsChanged(a, b) && OnlyIdsChanged(b, c)
    ensures OnlyIdsChanged(a, c)
  {
    forall j | 0 <= j < |a| ensures c[j] == a[j].(id := c[j].id) {
      assert b[j] == a[j].(id := b[j].id);
    }
  }

  lemma PassOnlyIds(layout: Layout, o: Oracle, pool: seq<Identity>, cands: seq<Candidate>,
                    free: seq<nat>, faces: seq<Face>, frameId: int)
    requires |faces| == |cands| && FreeSet(free, |cands|)
    ensures OnlyIdsChanged(faces, MatchPass(layout, o, pool, cands, free, faces, frameId).faces)
  {
  }

  /** Labelling touches only the ids of the faces. */
  lemma TrackOnlyIds(layout: Layout, o: Oracle, t: Tracker, cands: seq<Candidate>, frame: Frame)
    requires |cands| == |frame.faces|
    ensures OnlyIdsChanged(frame.faces, Track(layout, o, t, cands, frame).faces)
  {
    var p1 := Pass1(layout, o, t, cands, frame);
    var p2 := Pass2(layout, o, t, cands, frame);
    PassOnlyIds(layout, o, t.tracked, cands, Range(|cands|), frame.faces, frame.id);
    PassOnlyIds(layout, o, t.lost, cands, p1.free, p1.faces, frame.id);
    OnlyIdsTrans(frame.faces, p1.faces, p2.faces);
    var out := NewLabels(p2.faces, p2.free, t.idCounter);
    assert OnlyIdsChanged(p2.faces, out);
    OnlyIdsTrans(frame.faces, p2.faces, out);
  }

  /** A pass keeps the pool's ids; a matched identity is refreshed and no longer lost. */
  lemma PassPool(layout: Layout, o: Oracle, pool: seq<Identity>, cands: seq<Candidate>,
                 free: seq<nat>, faces: seq<Face>, frameId: int)
    requires |faces| == |cands| && FreeSet(free, |cands|)
    ensures var p := MatchPass(layout, o, pool, cands, free, faces, frameId);
      && Ids(p.pool) == Ids(pool)
      && forall r :: 0 <= r < |pool| ==>
           p.pool[r] == pool[r] || (!p.pool[r].trackingLost && p.pool[r].frameId == frameId)
  {
  }

  /** What the two passes leave for the bookkeeping, on a valid tracker. */
  lemma PassesFacts(layout: Layout, o: Oracle, t: Tracker, cands: seq<Candidate>, frame: Frame)
    requires |cands| == |frame.faces| && Valid(t)
    ensures var p1, p2 := Pass1(layout, o, t, cands, frame), Pass2(layout, o, t, cands, frame);
      && Ids(p1.pool) == Ids(t.tracked) && Ids(p2.pool) == Ids(t.lost)
      && (forall k :: 0 <= k < |p1.pool| ==> !p1.pool[k].trackingLost)
      && (forall k :: 0 <= k < |p2.pool| ==> p2.pool[k].trackingLost || p2.pool[k].frameId == frame.id)
  {
    var p1 := Pass1(layout, o, t, cands, frame);
    PassPool(layout, o, t.tracked, cands, Range(|cands|), frame.faces, frame.id);
    PassPool(layout, o, t.lost, cands, p1.free, p1.faces, frame.id);
  }

  /** Ids below the counter joined with the fresh ids lie below the advanced counter. */
  lemma BagRange(a: multiset<int>, b: multiset<int>, c: int, k: nat)
    requires 0 <= c
    requires forall i :: i in a ==> 0 <= i < c
    requires forall i :: i in b ==> c <= i < c + k
    ensures forall i :: i in a + b ==> 0 <= i < c + k
  {
  }

  /** The bookkeeping on passes that kept the ids and flags of a valid tracker. */
  lemma AssembleValid(t: Tracker, cands: seq<Candidate>, frameId: int, pool1: seq<Identity>,
                      pool2: seq<Identity>, free2: seq<nat>, faces2: seq<Face>)
    requires Valid(t) && Below(free2, |cands|)
    requires Ids(pool1) == Ids(t.tracked) && Ids(pool2) == Ids(t.lost)
    requires forall k :: 0 <= k < |pool1| ==> !pool1[k].trackingLost
    requires forall k :: 0 <= k < |pool2| ==> pool2[k].trackingLost || pool2[k].frameId == frameId
    ensures var t' := Assemble(t.idCounter, cands, frameId, pool1, pool2, free2, faces2).tracker;
      && Valid(t')
      && forall k :: 0 <= k < |t'.tracked| ==> frameId - t'.tracked[k].frameId < LostRange
  {
    var t' := Assemble(t.idCounter, cands, frameId, pool1, pool2, free2, faces2).tracker;
    var news := NewIdentities(cands, free2, frameId, t.idCounter);
    AssembleBag(t.idCounter, cands, frameId, pool1, pool2, free2, faces2);
    assert IdBag(t') == IdBag(t) + multiset(Ids(news));
    FreshIdsNoDup(news, t.idCounter);
    NoDupJoin(IdBag(t), multiset(Ids(news)), t.idCounter);
    assert t'.idCounter == t.idCounter + |news|;
    BagRange(IdBag(t), multiset(Ids(news)), t.idCounter, |news|);
    AssembleFlags(t.idCounter, cands, frameId, pool1, pool2, free2, faces2);
  }

  /**
   * Each frame keeps the pool invariant; afterwards every tracked identity was matched within
   * the last LostRange frames.
   */
  lemma TrackValid(layout: Layout, o: Oracle, t: Tracker, cands: seq<Candidate>, frame: Frame)
    requires |cands| == |frame.faces| && Valid(t)
    ensures var t' := Track(layout, o, t, cands, frame).tracker;
      && Valid(t')
      && forall k :: 0 <= k < |t'.tracked| ==> frame.id - t'.tracked[k].frameId < LostRange
  {
    var p1 := Pass1(layout, o, t, cands, frame);
    var p2 := Pass2(layout, o, t, cands, frame);
    PassesFacts(layout, o, t, cands, frame);
    AssembleValid(t, cands, frame.id, p1.pool, p2.pool, p2.free, p2.faces);
  }

  // ---------------------------------------------------------------------------------------
  // Where each face's id comes from
  // ---------------------------------------------------------------------------------------

  /** The free lists of two passes partition the candidates among the commits and the rest. */
  lemma FreePartition(all: seq<nat>, free1: seq<nat>, free2: seq<nat>, m1: seq<Cell>, m2: seq<Cell>, j: nat)
    requires j in all
    requires free1 == Without(all, CandSet(m1)) && free2 == Without(free1, CandSet(m2))
    requires forall k :: 0 <= k < |m2| ==> m2[k].cand in free1
    ensures j in free2 <==> CandCell(m1, j).None? && CandCell(m2, j).None?
    ensures CandCell(m2, j).Some? ==> CandCell(m1, j).None?
  {
    CandCellSet(m1, j);
    CandCellSet(m2, j);
    if CandCell(m2, j).Some? {
      var c := CandCell(m2, j).value;
      var k :| 0 <= k < |m2| && m2[k] == c;
      assert j in free1;
    }
  }

  /**
   * Every candidate is committed by pass 1, or else by pass 2, or else is left free for a new
   * identity, and by exactly one of them.
   */
  lemma PassesPartition(layout: Layout, o: Oracle, t: Tracker, cands: seq<Candidate>, frame: Frame, j: nat)
    requires |cands| == |frame.faces| && j < |cands|
    ensures var p1, p2 := Pass1(layout, o, t, cands, frame), Pass2(layout, o, t, cands, frame);
      && (j in p2.free <==> CandCell(p1.matches, j).None? && CandCell(p2.matches, j).None?)
      && (CandCell(p2.matches, j).Some? ==> CandCell(p1.matches, j).None?)
  {
    var p1 := Pass1(layout, o, t, cands, frame);
    var p2 := Pass2(layout, o, t, cands, frame);
    assert Range(|cands|)[j] == j;
    FreePartition(Range(|cands|), p1.free, p2.free, p1.matches, p2.matches, j);
  }

  /** The origin of a face's id: a tracked row, a lost row, or the k-th new identity. */
  datatype Source = FromTracked(row: nat) | FromLost(row: nat) | Fresh(k: nat)

  /** The source of candidate j given the commits of both passes and the candidates left free. */
  function SourceFrom(m1: seq<Cell>, m2: seq<Cell>, free2: seq<nat>, j: nat): Source {
    match CandCell(m1, j)
    case Some(c) => FromTracked(c.row)
    case None =>
      match CandCell(m2, j)
      case Some(c) => FromLost(c.row)
      case None => if j in free2 then Fresh(IndexOf(free2, j)) else Fresh(|free2|)
  }

  /** Two exclusive passes give different candidates different sources. */
  lemma SourceFromInjective(m1: seq<Cell>, m2: seq<Cell>, free2: seq<nat>, i: nat, j: nat)
    requires Exclusive(m1) && Exclusive(m2) && i != j
    requires CandCell(m1, i).None? && CandCell(m2, i).None? ==> i in free2
    requires CandCell(m1, j).None? && CandCell(m2, j).None? ==> j in free2
    ensures SourceFrom(m1, m2, free2, i) != SourceFrom(m1, m2, free2, j)
  {
    if CandCell(m1, i).Some? && CandCell(m1, j).Some? {
      DistinctCells(m1, CandCell(m1, i).value, CandCell(m1, j).value);
    } else if CandCell(m1, i).None? && CandCell(m1, j).None? &&
              CandCell(m2, i).Some? && CandCell(m2, j).Some? {
      DistinctCells(m2, CandCell(m2, i).value, CandCell(m2, j).value);
    }
  }

  /** In an exclusive commit list, two cells with different candidates have different rows. */
  lemma DistinctCells(ms: seq<Cell>, a: Cell, b: Cell)
    requires Exclusive(ms) && a in ms && b in ms && a.cand != b.cand
    ensures a.row != b.row
  {
    var i :| 0 <= i < |ms| && ms[i] == a;
    var k :| 0 <= k < |ms| && ms[k] == b;
  }

  /** The source of face j's id in a frame. */
  function SourceOf(layout: Layout, o: Oracle, t: Tracker, cands: seq<Candidate>, frame: Frame, j: nat): Source
    requires |cands| == |frame.faces|
  {
    var p1 := Pass1(layout, o, t, cands, frame);
    var p2 := Pass2(layout, o, t, cands, frame);
    SourceFrom(p1.matches, p2.matches, p2.free, j)
  }

  /** The id a source stands for. */
  function SourceId(t: Tracker, counter: int, s: Source): int {
    match s
    case FromTracked(r) => if r < |t.tracked| then t.tracked[r].id else 0
    case FromLost(r) => if r < |t.lost| then t.lost[r].id else 0
    case Fresh(k) => counter + k
  }

  /**
   * Labelling by pass 1's matches, then by pass 2's, then numbering the faces left free gives
   * each face the id of its source.
   */
  lemma LabelsCompose(t: Tracker, faces: seq<Face>, m1: seq<Cell>, m2: seq<Cell>, free2: seq<nat>, j: nat)
    requires j < |faces|
    requires forall c :: c in m1 ==> c.row < |t.tracked|
    requires forall c :: c in m2 ==> c.row < |t.lost|
    requires j in free2 <==> CandCell(m1, j).None? && CandCell(m2, j).None?
    requires CandCell(m2, j).Some? ==> CandCell(m1, j).None?
    ensures var s := SourceFrom(m1, m2, free2, j);
      && (s.FromTracked? ==> s.row < |t.tracked|)
      && (s.FromLost? ==> s.row < |t.lost|)
      && (s.Fresh? ==> s.k < |free2|)
      && NewLabels(Label(Label(faces, Ids(t.tracked), m1), Ids(t.lost), m2), free2, t.idCounter)[j].id
           == SourceId(t, t.idCounter, s)
  {
    var f1 := Label(faces, Ids(t.tracked), m1);
    var f2 := Label(f1, Ids(t.lost), m2);
    var out := NewLabels(f2, free2, t.idCounter);
    match CandCell(m1, j)
    case Some(c) =>
      assert f1[j].id == t.tracked[c.row].id;
      assert f2[j] == f1[j];
    case None =>
      assert f1[j] == faces[j];
  }

  /**
   * Each face's id is written once: by its pass 1 match (a tracked identity's id), else by
   * its pass 2 match (a lost identity's id), else as the next fresh id.
   */
  lemma LabelSource(layout: Layout, o: Oracle, t: Tracker, cands: seq<Candidate>, frame: Frame, j: nat)
    requires |cands| == |frame.faces| && j < |cands|
    ensures var s := SourceOf(layout, o, t, cands, frame, j);
      && (s.FromTracked? ==> s.row < |t.tracked|)
      && (s.FromLost? ==> s.row < |t.lost|)
      && (s.Fresh? ==> s.k < |Pass2(layout, o, t, cands, frame).free|)
      && Track(layout, o, t, cands, frame).faces[j].id == SourceId(t, t.idCounter, s)
  {
    var p1 := Pass1(layout, o, t, cands, frame);
    var p2 := Pass2(layout, o, t, cands, frame);
    PassesPartition(layout, o, t, cands, frame, j);
    assert p1.faces == Label(frame.faces, Ids(t.tracked), p1.matches);
    assert p2.faces == Label(p1.faces, Ids(t.lost), p2.matches);
    assert Track(layout, o, t, cands, frame).faces == NewLabels(p2.faces, p2.free, t.idCounter);
    LabelsCompose(t, frame.faces, p1.matches, p2.matches, p2.free, j);
  }

  /** Different faces of a frame have different sources. */
  lemma SourceInjective(layout: Layout, o: Oracle, t: Tracker, cands: seq<Candidate>, frame: Frame, i: nat, j: nat)
    requires |cands| == |frame.faces| && i < |cands| && j < |cands| && i != j
    ensures SourceOf(layout, o, t, cands, frame, i) != SourceOf(layout, o, t, cands, frame, j)
  {
    var p1 := Pass1(layout, o, t, cands, frame);
    var p2 := Pass2(layout, o, t, cands, frame);
    PassesPartition(layout, o, t, cands, frame, i);
    PassesPartition(layout, o, t, cands, frame, j);
    SourceFromInjective(p1.matches, p2.matches, p2.free, i, j);
  }

  /** Ids that occur at most once across both pools are distinct within and across the pools. */
  lemma SplitNoDup(t: Tracker)
    requires NoDup(IdBag(t))
    ensures Distinct(Ids(t.tracked + t.lost))
  {
    IdsAppend(t.tracked, t.lost);
    NoDupDistinct(Ids(t.tracked + t.lost));
  }

  /** On a valid tracker, different sources stand for different ids. */
  lemma SourceIdInjective(t: Tracker, a: Source, b: Source)
    requires Valid(t) && a != b
    requires (a.FromTracked? ==> a.row < |t.tracked|) && (b.FromTracked? ==> b.row < |t.tracked|)
    requires (a.FromLost? ==> a.row < |t.lost|) && (b.FromLost? ==> b.row < |t.lost|)
    ensures SourceId(t, t.idCounter, a) != SourceId(t, t.idCounter, b)
  {
    var all := Ids(t.tracked + t.lost);
    SplitNoDup(t);
    IdsAppend(t.tracked, t.lost);
    if a.FromTracked? {
      assert SourceId(t, t.idCounter, a) == all[a.row];
      assert all[a.row] in IdBag(t);
    } else if a.FromLost? {
      assert SourceId(t, t.idCounter, a) == all[|t.tracked| + a.row];
      assert all[|t.tracked| + a.row] in IdBag(t);
    }
    if b.FromTracked? {
      assert SourceId(t, t.idCounter, b) == all[b.row];
      assert all[b.row] in IdBag(t);
    } else if b.FromLost? {
      assert SourceId(t, t.idCounter, b) == all[|t.tracked| + b.row];
      assert all[|t.tracked| + b.row] in IdBag(t);
    }
  }

  /** On a valid tracker, no two faces of a frame receive the same id. */
  lemma TrackDistinctIds(layout: Layout, o: Oracle, t: Tracker, cands: seq<Candidate>, frame: Frame)
    requires |cands| == |frame.faces| && Valid(t)
    ensures Distinct(FaceIds(Track(layout, o, t, cands, frame).faces))
  {
    var out := Track(layout, o, t, cands, frame).faces;
    TrackOnlyIds(layout, o, t, cands, frame);
    forall i, j | 0 <= i < j < |out| ensures out[i].id != out[j].id {
      LabelSource(layout, o, t, cands, frame, i);
      LabelSource(layout, o, t, cands, frame, j);
      SourceInjective(layout, o, t, cands, frame, i, j);
      SourceIdInjective(t, SourceOf(layout, o, t, cands, frame, i), SourceOf(layout, o, t, cands, frame, j));
    }
  }

  // ---------------------------------------------------------------------------------------
  // Commits, lifecycle and fresh ids
  // ---------------------------------------------------------------------------------------

  /**
   * A committed identity is refreshed from its candidate (matched in this frame, moved to the
   * candidate's centroid, retrained on its crop, not lost) and the candidate's face takes the
   * identity's id.
   */
  lemma PassCommits(layout: Layout, o: Oracle, pool: seq<Identity>, cands: seq<Candidate>,
                    free: seq<nat>, faces: seq<Face>, frameId: int)
    requires |faces| == |cands| && FreeSet(free, |cands|)
    ensures var p := MatchPass(layout, o, pool, cands, free, faces, frameId);
      forall k :: 0 <= k < |p.matches| ==>
        && p.pool[p.matches[k].row] == Refresh(pool[p.matches[k].row], cands[p.matches[k].cand], frameId)
        && p.faces[p.matches[k].cand].id == pool[p.matches[k].row].id
  {
    var p := MatchPass(layout, o, pool, cands, free, faces, frameId);
    forall k | 0 <= k < |p.matches|
      ensures p.pool[p.matches[k].row] == Refresh(pool[p.matches[k].row], cands[p.matches[k].cand], frameId)
      ensures p.faces[p.matches[k].cand].id == pool[p.matches[k].row].id
    {
      ExclusiveCells(p.matches, k);
    }
  }

  /** Where the bookkeeping puts each identity of the two passes' pools. */
  lemma AssembleLifecycle(counter: int, cands: seq<Candidate>, frameId: int, pool1: seq<Identity>,
                          pool2: seq<Identity>, free2: seq<nat>, faces2: seq<Face>)
    requires Below(free2, |cands|)
    ensures var t' := Assemble(counter, cands, frameId, pool1, pool2, free2, faces2).tracker;
      && (forall k :: 0 <= k < |pool1| && Stale(frameId, pool1[k]) ==> pool1[k].(trackingLost := true) in t'.lost)
      && (forall k :: 0 <= k < |pool1| && !Stale(frameId, pool1[k]) ==> pool1[k] in t'.tracked)
      && (forall k :: 0 <= k < |pool2| && !pool2[k].trackingLost ==> pool2[k] in t'.tracked)
      && (forall k :: 0 <= k < |pool2| && pool2[k].trackingLost ==> pool2[k] in t'.lost)
  {
    var t' := Assemble(counter, cands, frameId, pool1, pool2, free2, faces2).tracker;
    var stale := Filter(pool1, (f: Identity) => Stale(frameId, f));
    var lost := pool2 + Moved(frameId, pool1);
    assert t'.tracked == Kept(frameId, pool1) + Back(lost) + NewIdentities(cands, free2, frameId, counter);
    forall k | 0 <= k < |pool1| && Stale(frameId, pool1[k])
      ensures pool1[k].(trackingLost := true) in t'.lost
    {
      assert pool1[k] in stale;
      var i :| 0 <= i < |stale| && stale[i] == pool1[k];
      assert lost[|pool2| + i] == pool1[k].(trackingLost := true);
    }
    forall k | 0 <= k < |pool2| ensures pool2[k] in lost {
      assert lost[k] == pool2[k];
    }
  }

  /**
   * Tracked identities: an unmatched one that went stale moves to the lost pool flagged lost,
   * otherwise it stays tracked; a matched one stays tracked, seen in this frame.
   */
  lemma TrackedLifecycle(layout: Layout, o: Oracle, t: Tracker, cands: seq<Candidate>, frame: Frame)
    requires |cands| == |frame.faces| && Valid(t)
    ensures var p1 := Pass1(layout, o, t, cands, frame);
      var t' := Track(layout, o, t, cands, frame).tracker;
      && (forall r :: 0 <= r < |t.tracked| && RowCell(p1.matches, r).None? && Stale(frame.id, t.tracked[r]) ==>
            t.tracked[r].(trackingLost := true) in t'.lost)
      && (forall r :: 0 <= r < |t.tracked| && RowCell(p1.matches, r).None? && !Stale(frame.id, t.tracked[r]) ==>
            t.tracked[r] in t'.tracked)
      && (forall r :: 0 <= r < |t.tracked| && RowCell(p1.matches, r).Some? ==>
            p1.pool[r] in t'.tracked && p1.pool[r].frameId == frame.id)
  {
    var p1 := Pass1(layout, o, t, cands, frame);
    var p2 := Pass2(layout, o, t, cands, frame);
    var t' := Track(layout, o, t, cands, frame).tracker;
    assert t' == Assemble(t.idCounter, cands, frame.id, p1.pool, p2.pool, p2.free, p2.faces).tracker;
    assert p1.pool == Commit(t.tracked, cands, p1.matches, frame.id);
    AssembleLifecycle(t.idCounter, cands, frame.id, p1.pool, p2.pool, p2.free, p2.faces);
    forall r | 0 <= r < |t.tracked| && RowCell(p1.matches, r).None?
      ensures p1.pool[r] == t.tracked[r]
    {
    }
    forall r | 0 <= r < |t.tracked| && RowCell(p1.matches, r).Some?
      ensures p1.pool[r] in t'.tracked && p1.pool[r].frameId == frame.id
    {
      var c := RowCell(p1.matches, r).value;
      assert p1.pool[r] == Refresh(t.tracked[r], cands[c.cand], frame.id);
      assert !Stale(frame.id, p1.pool[r]);
    }
  }

  /** Lost identities: one matched again returns to the tracked pool, an unmatched one stays lost. */
  lemma LostLifecycle(layout: Layout, o: Oracle, t: Tracker, cands: seq<Candidate>, frame: Frame)
    requires |cands| == |frame.faces| && Valid(t)
    ensures var p2 := Pass2(layout, o, t, cands, frame);
      var t' := Track(layout, o, t, cands, frame).tracker;
      && (forall r :: 0 <= r < |t.lost| && RowCell(p2.matches, r).Some? ==>
            p2.pool[r] in t'.tracked && p2.pool[r].frameId == frame.id)
      && (forall r :: 0 <= r < |t.lost| && RowCell(p2.matches, r).None? ==> t.lost[r] in t'.lost)
  {
    var p1 := Pass1(layout, o, t, cands, frame);
    var p2 := Pass2(layout, o, t, cands, frame);
    var t' := Track(layout, o, t, cands, frame).tracker;
    assert t' == Assemble(t.idCounter, cands, frame.id, p1.pool, p2.pool, p2.free, p2.faces).tracker;
    assert p2.pool == Commit(t.lost, cands, p2.matches, frame.id);
    AssembleLifecycle(t.idCounter, cands, frame.id, p1.pool, p2.pool, p2.free, p2.faces);
    forall r | 0 <= r < |t.lost| && RowCell(p2.matches, r).Some?
      ensures p2.pool[r] in t'.tracked && p2.pool[r].frameId == frame.id
    {
      var c := RowCell(p2.matches, r).value;
      assert p2.pool[r] == Refresh(t.lost[r], cands[c.cand], frame.id);
    }
    forall r | 0 <= r < |t.lost| && RowCell(p2.matches, r).None? ensures t.lost[r] in t'.lost {
      assert p2.pool[r] == t.lost[r];
    }
  }

  /**
   * On a valid tracker: an unmatched tracked identity that went stale moves to the lost pool
   * flagged lost, otherwise it stays tracked; a matched tracked identity stays tracked; a lost
   * identity matched again returns to the tracked pool, an unmatched one stays lost.
   */
  lemma TrackLifecycle(layout: Layout, o: Oracle, t: Tracker, cands: seq<Candidate>, frame: Frame)
    requires |cands| == |frame.faces| && Valid(t)
    ensures var p1, p2 := Pass1(layout, o, t, cands, frame), Pass2(layout, o, t, cands, frame);
      var t' := Track(layout, o, t, cands, frame).tracker;
      && (forall r :: 0 <= r < |t.tracked| && RowCell(p1.matches, r).None? && Stale(frame.id, t.tracked[r]) ==>
            t.tracked[r].(trackingLost := true) in t'.lost)
      && (forall r :: 0 <= r < |t.tracked| && RowCell(p1.matches, r).None? && !Stale(frame.id, t.tracked[r]) ==>
            t.tracked[r] in t'.tracked)
      && (forall r :: 0 <= r < |t.tracked| && RowCell(p1.matches, r).Some? ==>
            p1.pool[r] in t'.tracked && p1.pool[r].frameId == frame.id)
      && (forall r :: 0 <= r < |t.lost| && RowCell(p2.matches, r).Some? ==>
            p2.pool[r] in t'.tracked && p2.pool[r].frameId == frame.id)
      && (forall r :: 0 <= r < |t.lost| && RowCell(p2.matches, r).None? ==> t.lost[r] in t'.lost)
  {
    TrackedLifecycle(layout, o, t, cands, frame);
    LostLifecycle(layout, o, t, cands, frame);
  }

  /**
   * The free candidates opened new identities numbered from the counter in candidate order,
   * appended to the tracked pool; their faces carry those ids and the counter moved past them.
   */
  ghost predicate FreshLaidOut(s: Step, counter: int, cands: seq<Candidate>, free: seq<nat>, frameId: int)
    requires Below(free, |cands|)
  {
    var n := |free|;
    && s.tracker.idCounter == counter + n
    && |s.tracker.tracked| >= n
    && (forall k :: 0 <= k < n ==> free[k] < |s.faces| && s.faces[free[k]].id == counter + k)
    && (forall k :: 0 <= k < n ==>
          s.tracker.tracked[|s.tracker.tracked| - n + k] ==
            Identity(counter + k, frameId, [cands[free[k]].crop], cands[free[k]].pos, false))
  }

  /** The bookkeeping appends one new identity per free candidate and labels its face. */
  lemma AssembleNewIds(counter: int, cands: seq<Candidate>, frameId: int, pool1: seq<Identity>,
                       pool2: seq<Identity>, free2: seq<nat>, faces2: seq<Face>)
    requires FreeSet(free2, |cands|) && |faces2| == |cands|
    ensures FreshLaidOut(Assemble(counter, cands, frameId, pool1, pool2, free2, faces2), counter, cands, free2, frameId)
  {
    var s := Assemble(counter, cands, frameId, pool1, pool2, free2, faces2);
    var lost := pool2 + Moved(frameId, pool1);
    var news := NewIdentities(cands, free2, frameId, counter);
    var front := Kept(frameId, pool1) + Back(lost);
    assert s.tracker.tracked == front + news;
    IncreasingDistinct(free2);
    forall k | 0 <= k < |free2| ensures s.faces[free2[k]].id == counter + k {
      IndexOfAt(free2, k);
    }
    forall k | 0 <= k < |free2|
      ensures s.tracker.tracked[|s.tracker.tracked| - |free2| + k] == news[k]
    {
      assert s.tracker.tracked[|front| + k] == news[k];
    }
  }

  /**
   * The candidates left free after both passes open new identities numbered from the counter
   * in candidate order; their faces take those ids and the counter moves past them.
   */
  lemma TrackNewIds(layout: Layout, o: Oracle, t: Tracker, cands: seq<Candidate>, frame: Frame)
    requires |cands| == |frame.faces|
    ensures FreshLaidOut(Track(layout, o, t, cands, frame), t.idCounter, cands,
                         Pass2(layout, o, t, cands, frame).free, frame.id)
  {
    var p1 := Pass1(layout, o, t, cands, frame);
    var p2 := Pass2(layout, o, t, cands, frame);
    assert |p1.faces| == |cands|;
    assert |p2.faces| == |cands|;
    AssembleNewIds(t.idCounter, cands, frame.id, p1.pool, p2.pool, p2.free, p2.faces);
  }

  // ---------------------------------------------------------------------------------------
  // clear
  // ---------------------------------------------------------------------------------------

  /** FaceTrackerLBP::clear as written: the counter restarts and the tracked pool is emptied. */
  function Clear(t: Tracker): (t': Tracker)
    ensures t'.idCounter == 0 && |t'.tracked| == 0
    ensures t'.lost == t.lost
  {
    Tracker(0, [], t.lost)
  }

  /** Clear as written breaks the invariant as soon as an identity is lost: its id is not below 0. */
  lemma ClearBreaksValid(t: Tracker)
    requires Valid(t) && |t.lost| > 0
    ensures !Valid(Clear(t))
  {
    assert Ids(Clear(t).lost)[0] in IdBag(Clear(t));
  }

  /** With n = 0 no commit can name a row. */
  lemma NoRows(ms: seq<Cell>, n: nat)
    requires forall k :: 0 <= k < |ms| ==> ms[k].row < n
    ensures n == 0 ==> |ms| == 0
  {
    if |ms| > 0 {
      var c := ms[0];
    }
  }

  /** With one row an exclusive commit list holds at most one cell. */
  lemma OneRow(ms: seq<Cell>, n: nat)
    requires Exclusive(ms) && forall k :: 0 <= k < |ms| ==> ms[k].row < n
    ensures n == 1 ==> |ms| <= 1
  {
    if |ms| >= 2 {
      var a, b := ms[0], ms[1];
    }
  }

  /** With an empty tracked pool pass 1 commits nothing and leaves every candidate free. */
  lemma EmptyPass1(layout: Layout, o: Oracle, t: Tracker, cands: seq<Candidate>, frame: Frame)
    requires |cands| == |frame.faces| && |t.tracked| == 0
    ensures Pass1(layout, o, t, cands, frame).free == Range(|cands|)
  {
    var p1 := Pass1(layout, o, t, cands, frame);
    NoRows(p1.matches, 0);
    assert CandSet(p1.matches) == {};
    WithoutNothing(Range(|cands|));
  }

  /** Removing one of two candidates leaves one. */
  lemma WithoutOneOfTwo(c: nat)
    requires c < 2
    ensures |Without([0, 1], {c})| == 1
  {
    assert Without([0, 1], {c}) == if c == 0 then [1] else [0];
  }

  /** An exclusive, nonempty commit list over one row removes exactly one of two candidates. */
  lemma OneRowCommit(ms: seq<Cell>)
    requires Exclusive(ms) && forall k :: 0 <= k < |ms| ==> ms[k].row < 1 && ms[k].cand < 2
    requires 0 in RowSet(ms) || 0 in CandSet(ms)
    ensures |Without([0, 1], CandSet(ms))| == 1
  {
    OneRow(ms, 1);
    assert |ms| == 1;
    assert CandSet(ms) == {ms[0].cand};
    WithoutOneOfTwo(ms[0].cand);
  }

  /**
   * One identity within the threshold of the first of two free candidates: the pass commits
   * exactly one of them and leaves the other free.
   */
  lemma OneRowPass(layout: Layout, o: Oracle, pool: seq<Identity>, cands: seq<Candidate>,
                   faces: seq<Face>, frameId: int)
    requires |pool| == 1 && |cands| == |faces| == 2
    requires CalcDist(o, pool[0], cands[0]) <= MaxMatchDist
    ensures |MatchPass(layout, o, pool, cands, [0, 1], faces, frameId).free| == 1
  {
    var p := MatchPass(layout, o, pool, cands, [0, 1], faces, frameId);
    PassCovers(layout, o, pool, cands, [0, 1], faces, frameId, 0, 0);
    OneRowCommit(p.matches);
  }

  /** A free candidate within the threshold of a pool row leaves the pass with one of them committed. */
  lemma PassCovers(layout: Layout, o: Oracle, pool: seq<Identity>, cands: seq<Candidate>,
                   free: seq<nat>, faces: seq<Face>, frameId: int, r: nat, c: nat)
    requires |faces| == |cands| && FreeSet(free, |cands|)
    requires layout == Corrected || |free| == |cands|
    requires r < |pool| && c < |cands| && c in free && CalcDist(o, pool[r], cands[c]) <= MaxMatchDist
    ensures var p := MatchPass(layout, o, pool, cands, free, faces, frameId);
      r in RowSet(p.matches) || c in CandSet(p.matches)
  {
    PassSound(layout, o, pool, cands, free, faces, frameId);
  }

  /** After clear as written, one lost identity and two faces: pass 2 leaves one face free. */
  lemma OneLostPass2(layout: Layout, o: Oracle, t: Tracker, cands: seq<Candidate>, frame: Frame)
    requires |cands| == |frame.faces| == 2 && |t.tracked| == 0 && |t.lost| == 1
    requires CalcDist(o, t.lost[0], cands[0]) <= MaxMatchDist
    ensures |Pass2(layout, o, t, cands, frame).free| == 1
  {
    EmptyPass1Of2(layout, o, t, cands, frame);
    OneRowPass2(layout, o, t, cands, frame);
  }

  /** Without tracked identities pass 1 leaves both of two faces free and unlabelled. */
  lemma EmptyPass1Of2(layout: Layout, o: Oracle, t: Tracker, cands: seq<Candidate>, frame: Frame)
    requires |cands| == |frame.faces| == 2 && |t.tracked| == 0
    ensures Pass1(layout, o, t, cands, frame).free == [0, 1]
    ensures |Pass1(layout, o, t, cands, frame).faces| == 2
  {
    EmptyPass1(layout, o, t, cands, frame);
    RangeTwo();
  }

  lemma RangeTwo()
    ensures Range(2) == [0, 1]
  {
    assert Range(2)[0] == 0 && Range(2)[1] == 1;
  }

  /** Pass 2 with one lost identity against two free faces leaves one of them free. */
  lemma OneRowPass2(layout: Layout, o: Oracle, t: Tracker, cands: seq<Candidate>, frame: Frame)
    requires |cands| == |frame.faces| == 2 && |t.lost| == 1
    requires CalcDist(o, t.lost[0], cands[0]) <= MaxMatchDist
    requires Pass1(layout, o, t, cands, frame).free == [0, 1]
    requires |Pass1(layout, o, t, cands, frame).faces| == 2
    ensures |Pass2(layout, o, t, cands, frame).free| == 1
  {
    var p1 := Pass1(layout, o, t, cands, frame);
    OneRowPass(layout, o, t.lost, cands, p1.faces, frame.id);
    Pass2Of(layout, o, t, cands, frame);
  }

  /** Pass 2 is the match call on the lost pool with what pass 1 left. */
  lemma Pass2Of(layout: Layout, o: Oracle, t: Tracker, cands: seq<Candidate>, frame: Frame)
    requires |cands| == |frame.faces|
    ensures var p1 := Pass1(layout, o, t, cands, frame);
      Pass2(layout, o, t, cands, frame) == MatchPass(layout, o, t.lost, cands, p1.free, p1.faces, frame.id)
  {
  }

  /**
   * After clear as written, a lost identity with id 0 and the first new identity both get
   * id 0 in the next frame: with two faces of which the first is within the threshold of the
   * lost identity, pass 2 commits exactly one face to it and the other opens id 0 again.
   */
  lemma ClearReusesId(layout: Layout, o: Oracle, t: Tracker, cands: seq<Candidate>, frame: Frame)
    requires Valid(t) && |t.lost| == 1 && t.lost[0].id == 0
    requires |cands| == |frame.faces| == 2
    requires CalcDist(o, t.lost[0], cands[0]) <= MaxMatchDist
    ensures var out := Track(layout, o, Clear(t), cands, frame).faces;
      out[0].id == 0 && out[1].id == 0
  {
    var t0 := Clear(t);
    OneLostPass2(layout, o, t0, cands, frame);
    ClearedLabelZero(layout, o, t0, cands, frame, 0);
    ClearedLabelZero(layout, o, t0, cands, frame, 1);
  }

  /** With one lost identity of id 0, a zero counter and one fresh slot, every label is 0. */
  lemma ClearedLabelZero(layout: Layout, o: Oracle, t: Tracker, cands: seq<Candidate>, frame: Frame, j: nat)
    requires |cands| == |frame.faces| && j < |cands|
    requires t.idCounter == 0 && |t.tracked| == 0 && |t.lost| == 1 && t.lost[0].id == 0
    requires |Pass2(layout, o, t, cands, frame).free| == 1
    ensures Track(layout, o, t, cands, frame).faces[j].id == 0
  {
    LabelSource(layout, o, t, cands, frame, j);
    var s := SourceOf(layout, o, t, cands, frame, j);
    match s
    case FromTracked(r) => assert false;
    case FromLost(r) => assert r == 0;
    case Fresh(k) => assert k == 0;
  }

  /** The corrected clear discards all processed state, both pools and the counter. */
  function ClearAll(t: Tracker): (t': Tracker)
    ensures Valid(t') && |t'.tracked| == 0 && |t'.lost| == 0
    ensures t'.idCounter == 0
  {
    ValidInit();
    Init()
  }

  /** After the corrected clear the faces of the next frame receive distinct ids. */
  lemma ClearAllDistinctIds(layout: Layout, o: Oracle, t: Tracker, cands: seq<Candidate>, frame: Frame)
    requires |cands| == |frame.faces|
    ensures Distinct(FaceIds(Track(layout, o, ClearAll(t), cands, frame).faces))
  {
    TrackDistinctIds(layout, o, ClearAll(t), cands, frame);
  }

  /** Over a whole frame: the invariant is kept and the frame's faces receive distinct ids. */
  lemma AddFrameSound(layout: Layout, o: Oracle, t: Tracker, img: Image, frame: Frame)
    requires Valid(t)
    ensures var r := AddFrame(layout, o, t, img, frame);
      r.Success? ==> Valid(r.value.tracker) && Distinct(FaceIds(r.value.faces))
  {
    var cr := CreateCandidates(o, img, frame.faces);
    if cr.Success? {
      TrackValid(layout, o, t, cr.value, frame);
      TrackDistinctIds(layout, o, t, cr.value, frame);
    }
  }
}
