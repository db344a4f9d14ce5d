# Sequence face landmarks: a Dafny model of the tracking core

The library finds faces and their landmarks in each frame of a video and keeps a face's
identity (its id) stable from frame to frame. This project models three cooperating parts of
it as pure functions over immutable datatypes and proves their properties:

* **Face identity trackers.**
  * `FaceTrackerLBP` keeps a tracked pool and a lost pool. Each frame, candidates are matched
    against the tracked pool, then the remaining ones against the lost pool. Identities
    unmatched for 10 frames become lost. Lost identities that match again come back, and
    unmatched candidates open new identities.
  * `FaceTrackerBRISK` keeps one pool that only grows. Its greedy loop pairs the smallest
    remaining distance below 250 until nothing is eligible.
  * Both build a pool x candidate distance matrix and assign exclusively.
  * Both are modelled down to the matrix layout, the candidate bookkeeping, the rectangle
    clamping, BRISK's descriptor-index construction and its merge-join comparison.
* **Sequence store** (`SequenceFaceLandmarksImpl`, `Face`, `Frame`): frame-id allocation in
  `addFrame`, `clear`, `setModel`, `setTracking`, `Frame::getFace`, and the field-by-field
  conversion between the in-memory sequence and the `io::Sequence` message used by
  `load` and `save`.
* **Sequence statistics** (`getSequenceStats`, both `getMainFaceID` overloads): per-id
  aggregation, normalisation with clamping, and an argmax with strict-greater tie-breaking.

Modules, one per file:

| file | module | contents |
|---|---|---|
| results.dfy | Results | `Option`, `Result`, the error kinds (no model, tracker unavailable, invalid image region) |
| geometry.dfy | Geometry | integer points and rectangles (`cv::Point`, `cv::Rect`), real points, means |
| seqs.dfy | Seqs | ranges, `Without` (set difference on an ordered index list, a `std::set<size_t>`), filters, distinctness |
| faces.dfy | Faces | `Face`, `Frame`, `getFace` |
| vision.dfy | Vision | the `Oracle` bundling every pixel-dependent call |
| pairing.dfy | Pairing | committed (row, candidate, distance) cells and their exclusivity |
| lbp_match.dfy | LbpMatch | `FaceTrackerLBP::match`'s sort-and-commit loop, with both matrix layouts |
| lbp_tracker.dfy | LbpTracker | `FaceTrackerLBP` |
| brisk_features.dfy | BriskFeatures | mask, scale, `desc_ind`, Hamming distance and the merge-join `match` |
| brisk_tracker.dfy | BriskTracker | `FaceTrackerBRISK` |
| persistence.dfy | Persistence | the `io::Sequence` message and the `load`/`save` conversions |
| sequence_store.dfy | SequenceStore | `SequenceFaceLandmarksImpl` |
| sequence_stats.dfy | SequenceStats | `getSequenceStats`, `getMainFaceID` |

Conventions:
* Floating-point values are `real`s.
* IEEE NaN is `None`. BRISK's `0 / 0` comparison of two faces without common landmarks and
  its centroid of a face without landmarks are NaN in the source. A NaN distance never
  passes `dist < min_dist`, and the model reproduces that.
* Every OpenCV or dlib call that depends on pixels is a function field of `Vision.Oracle`:
  the Euclidean norm, the full-face bounding box, the LBPH prediction, and BRISK
  detection and description.
* OpenCV's assertion on an empty or out-of-image region propagates out of `addFrame` as an
  exception. The model returns it as `Failure(InvalidRegion)`.
* The model follows the code where the header comments disagree with it:
  * `central_ratio` is `1 - avg_center_dist / max_dist`, clamped. The comment at
    sequence_face_landmarks/sfl/utilities.h:71 omits the `1 -`.
  * `frame_ratio` is not clamped, and it exceeds 1 when a frame holds the same id twice
    (`SequenceStats.FrameRatioUnclamped`).
  * `SequenceFaceLandmarksImpl::clear` leaves the tracker and its pools in place, although
    the interface comment says all processed data is cleared.
* Two quirks are reproduced as written:
  * The LBP crop clamp (`LbpTracker.CropRegion`) moves a negative corner to 0 but cuts
    the size only against the image edge. A box sticking out on the left or top therefore
    yields a crop that reaches past the box's far edge.
  * BRISK pairs a kept keypoint with a landmark when the SUM of the coordinate differences
    rounds to 0 (`BriskFeatures.Aligned`). Keypoints displaced by opposite amounts in x and
    y are accepted.

## Model

| member | source | states |
|---|---|---|
| Faces.FindFace | sequence_face_landmarks/sequence_face_landmarks.cpp:320-325 | the index of the first face with the id, or none exactly when no face has it |
| Faces.GetFace | sequence_face_landmarks/sequence_face_landmarks.cpp:320-325 | null (None) exactly when no face of the frame has the id; otherwise the first face of the frame carrying that id |
| LbpMatch.SortIndices | sequence_face_landmarks/face_tracker_lbp.cpp:274-275 | the sorted indices are a permutation of the input indices, ordered by non-decreasing cell value |
| LbpMatch.Order | sequence_face_landmarks/face_tracker_lbp.cpp:263-275 | every flat index of the matrix is visited, in non-decreasing value order |
| LbpMatch.TiesByDecreasingIndex | sequence_face_landmarks/face_tracker_lbp.cpp:274-275 | cells of equal distance, which `std::sort` may visit in any order, are visited by the model from the highest flat index down |
| LbpMatch.CellsSorted | sequence_face_landmarks/face_tracker_lbp.cpp:274-289 | the decoded cells are visited in non-decreasing distance order, whichever layout is used |
| LbpMatch.CommitLoop | sequence_face_landmarks/face_tracker_lbp.cpp:285-309 | every committed cell is one of the visited cells, lies within 128, and pairs a still-free pool row with a still-free candidate |
| LbpMatch.CommitLoopExclusive | sequence_face_landmarks/face_tracker_lbp.cpp:291-298 | each pool row and each candidate is committed at most once |
| LbpMatch.CommitLoopRemaining | sequence_face_landmarks/face_tracker_lbp.cpp:291-298 | the rows and candidates left free are exactly the free ones minus those committed |
| LbpMatch.CommitLoopMaximal | sequence_face_landmarks/face_tracker_lbp.cpp:285-298 | on sorted cells, no visited cell within 128 is left with both its row and its candidate free |
| LbpMatch.Run | sequence_face_landmarks/face_tracker_lbp.cpp:252-310 | a match call commits an exclusive set of (pool row, free candidate) pairs within 128 and removes the committed candidates from cand_indices |
| LbpMatch.CorrectedCellsExact | sequence_face_landmarks/face_tracker_lbp.cpp:226-235 | with rows as wide as cand_indices, every cell holds the true distance of the pool row and candidate it decodes to |
| LbpMatch.CorrectedCellsCover | sequence_face_landmarks/face_tracker_lbp.cpp:226-235 | with rows as wide as cand_indices, every (pool row, free candidate) pair is visited |
| LbpMatch.CorrectedRunSound | sequence_face_landmarks/face_tracker_lbp.cpp:252-310 | with the corrected layout, every committed pair has a true distance within 128, and no free row and free candidate within 128 of each other remain |
| LbpMatch.FullLayoutsAgree | sequence_face_landmarks/face_tracker_lbp.cpp:226-289 | while every candidate is free, the layout as written and the corrected one commit the same pairs |
| LbpMatch.RunSound | sequence_face_landmarks/face_tracker_lbp.cpp:252-310 | when cand_indices covers all candidates (as in the first pass), the layout as written is sound and maximal as well |
| LbpMatch.AsWrittenCommitsFarPair | sequence_face_landmarks/face_tracker_lbp.cpp:226-289 | as written, a lost identity at true distance 500 from the only free candidate is committed through a zero cell |
| LbpMatch.CorrectedRejectsFarPair | sequence_face_landmarks/face_tracker_lbp.cpp:226-289 | on the same input the corrected layout commits nothing |
| LbpTracker.Init | sequence_face_landmarks/face_tracker_lbp.cpp:312-317 | a new tracker has counter 0 and empty tracked and lost pools |
| LbpTracker.ValidInit | sequence_face_landmarks/face_tracker_lbp.cpp:312-317 | a new tracker satisfies the pool invariant |
| LbpTracker.CropRegion | sequence_face_landmarks/face_tracker_lbp.cpp:167-171 | the clamped box starts inside the image, ends within it, is no larger than the input, and a box already inside is kept |
| LbpTracker.CropRegionIdempotent | sequence_face_landmarks/face_tracker_lbp.cpp:167-171 | clamping a clamped box changes nothing |
| LbpTracker.Centroid | sequence_face_landmarks/face_tracker_lbp.cpp:176-182 | the centroid is the mean landmark position, and (0, 0) for a face without landmarks (the guard) |
| LbpTracker.CentroidWithin | sequence_face_landmarks/face_tracker_lbp.cpp:176-182 | the centroid of landmarks inside a box lies inside the box |
| LbpTracker.MakeCandidate | sequence_face_landmarks/face_tracker_lbp.cpp:160-184 | a candidate exists exactly when the clamped full-face region is a non-empty region of the image; it is the crop of that region and the centroid |
| LbpTracker.CreateCandidates | sequence_face_landmarks/face_tracker_lbp.cpp:147-185 | one candidate per face in face order, and failure exactly when some face's region is invalid |
| LbpTracker.CalcDistBlend | sequence_face_landmarks/face_tracker_lbp.cpp:208-218 | for an identity that is not lost and lies within 30, the distance is the midpoint of appearance and position; otherwise it is the appearance alone |
| LbpTracker.LostIgnoresPosition | sequence_face_landmarks/face_tracker_lbp.cpp:213-216 | a lost identity's last position does not affect its distance |
| LbpTracker.Refresh | sequence_face_landmarks/face_tracker_lbp.cpp:299-307 | a matched identity keeps its id, takes the current frame id and the candidate's centroid, is retrained on the crop and is no longer lost |
| LbpTracker.Commit | sequence_face_landmarks/face_tracker_lbp.cpp:291-307 | every pool entry keeps its place and id; an entry without a committed candidate is unchanged; under an exclusive pairing each committed entry is refreshed from its own candidate in the current frame |
| Pairing.Label | sequence_face_landmarks/face_tracker_lbp.cpp:308 | only face ids change; a face whose candidate was not committed keeps its id; under an exclusive pairing each committed face takes the id of the pool row it was paired with (the BRISK tracker labels its faces the same way) |
| LbpTracker.MatchPass | sequence_face_landmarks/face_tracker_lbp.cpp:252-310 | one match call: exclusive commits of pool rows to free candidates within 128, with the refreshed pool, the labelled faces and the remaining cand_indices |
| LbpTracker.PassSound | sequence_face_landmarks/face_tracker_lbp.cpp:252-310 | with the corrected layout, or while all candidates are free, commits are within 128 by true distance and no free pair within 128 is left |
| LbpTracker.PassCommits | sequence_face_landmarks/face_tracker_lbp.cpp:296-308 | each committed identity is refreshed from its candidate, and the candidate's face takes the identity's id |
| LbpTracker.PassPool | sequence_face_landmarks/face_tracker_lbp.cpp:296-307 | a pass keeps the pool's ids; a changed entry is matched in this frame and not lost |
| LbpTracker.MarkLost | sequence_face_landmarks/face_tracker_lbp.cpp:89-105 | identities moved to the lost pool keep their order and ids, are all flagged lost, and nothing else about them changes |
| LbpTracker.NewIdentities | sequence_face_landmarks/face_tracker_lbp.cpp:187-206 | one new identity per free candidate, in order, with distinct consecutive ids from the counter; each is not lost, last seen in the current frame, at its candidate's centroid, with a model trained on that candidate's crop alone |
| LbpTracker.AssembleBag | sequence_face_landmarks/face_tracker_lbp.cpp:88-132 | moving identities between the pools keeps every id and adds exactly the new ones |
| LbpTracker.AssembleFlags | sequence_face_landmarks/face_tracker_lbp.cpp:88-123 | after the moves, tracked identities are not lost and not stale, and lost identities are flagged lost |
| LbpTracker.AssembleLifecycle | sequence_face_landmarks/face_tracker_lbp.cpp:88-123 | stale tracked identities go to the lost pool flagged lost, others stay; recovered lost identities go back, others stay lost |
| LbpTracker.AssembleNewIds | sequence_face_landmarks/face_tracker_lbp.cpp:125-132 | the new identities are appended to the tracked pool, their faces take their ids, and the counter moves past them |
| LbpTracker.AddFrame | sequence_face_landmarks/face_tracker_lbp.cpp:65-133 | addFrame fails exactly when some face's crop region is invalid; on success only face ids change |
| LbpTracker.TrackOnlyIds | sequence_face_landmarks/sfl/face_tracker.h:18-23 | tracking a frame changes nothing about its faces but their ids |
| LbpTracker.PassesPartition | sequence_face_landmarks/face_tracker_lbp.cpp:77-132 | every candidate is committed by the tracked pass, else by the lost pass, else left for a new identity, and by exactly one of these |
| LbpTracker.LabelSource | sequence_face_landmarks/face_tracker_lbp.cpp:83-132 | each face's id is the id of its tracked match, else of its lost match, else the next fresh id |
| LbpTracker.SourceInjective | sequence_face_landmarks/face_tracker_lbp.cpp:83-132 | different faces of a frame take their ids from different sources |
| LbpTracker.TrackValid | sequence_face_landmarks/face_tracker_lbp.cpp:65-133 | a frame keeps the pool invariant: ids are unique across both pools and below the counter, tracked identities are not lost and lost ones are; afterwards every tracked identity was matched within the last 10 frames |
| LbpTracker.TrackDistinctIds | sequence_face_landmarks/face_tracker_lbp.cpp:65-133 | on a valid tracker no two faces of a frame receive the same id |
| LbpTracker.TrackLifecycle | sequence_face_landmarks/face_tracker_lbp.cpp:89-123 | an unmatched tracked identity goes to the lost pool once stale and stays tracked otherwise; matched identities are tracked with the current frame id; unmatched lost ones stay lost |
| LbpTracker.TrackNewIds | sequence_face_landmarks/face_tracker_lbp.cpp:125-132 | the candidates left free open identities numbered consecutively from the counter, in candidate order, and their faces take those ids |
| LbpTracker.AddFrameSound | sequence_face_landmarks/face_tracker_lbp.cpp:65-133 | over a whole frame the pool invariant is kept and the faces get distinct ids |
| LbpTracker.Clear | sequence_face_landmarks/face_tracker_lbp.cpp:135-139 | clear as written: counter 0, tracked pool empty, lost pool unchanged |
| LbpTracker.ClearBreaksValid | sequence_face_landmarks/face_tracker_lbp.cpp:135-139 | clear as written breaks the pool invariant whenever an identity is lost |
| LbpTracker.ClearReusesId | sequence_face_landmarks/face_tracker_lbp.cpp:135-139 | after clear as written, a recovered lost id 0 and a new id 0 are given to two faces of one frame |
| LbpTracker.ClearAll | sequence_face_landmarks/sfl/face_tracker.h:25-27 | the corrected clear discards all state: both pools empty, the id counter back to 0, and the invariant holds |
| LbpTracker.ClearAllDistinctIds | sequence_face_landmarks/sfl/face_tracker.h:25-27 | after the corrected clear the next frame's faces get distinct ids |
| BriskFeatures.Hamming | sequence_face_landmarks/face_tracker_brisk.cpp:227 | the Hamming distance of two rows is at most 8 bits per byte, and 0 exactly when the rows are equal |
| BriskFeatures.HammingSymmetric | sequence_face_landmarks/face_tracker_brisk.cpp:227 | the Hamming distance is symmetric |
| BriskFeatures.Scale | sequence_face_landmarks/face_tracker_brisk.cpp:177-180 | the scale is the mean detected keypoint size, or 10 when none is detected |
| BriskFeatures.ScaleWithin | sequence_face_landmarks/face_tracker_brisk.cpp:177-180 | the scale lies between the smallest and largest detected sizes |
| BriskFeatures.Span | sequence_face_landmarks/face_tracker_brisk.cpp:172-175 | cv::Rect(tl, br) spans the two corners whichever way round they are |
| BriskFeatures.MaskRegionValid | sequence_face_landmarks/face_tracker_brisk.cpp:171-175 | the clamped mask region is a valid region of the image exactly when the box reaches into the image |
| BriskFeatures.MaskRegionInside | sequence_face_landmarks/face_tracker_brisk.cpp:171-175 | a box inside the image, off its last row and column, is its own mask region |
| BriskFeatures.Centroid | sequence_face_landmarks/face_tracker_brisk.cpp:207-210 | the centroid is the mean landmark position, and NaN (None) exactly when there are no landmarks |
| BriskFeatures.Round | sequence_face_landmarks/face_tracker_brisk.cpp:203 | std::round is within 0.5 of its argument and is 0 exactly on (-0.5, 0.5) |
| BriskFeatures.WrittenSound | sequence_face_landmarks/face_tracker_brisk.cpp:196-205 | the written desc_ind entries are strictly increasing landmark indices, each aligned with its kept keypoint |
| BriskFeatures.WrittenFirstFit | sequence_face_landmarks/face_tracker_brisk.cpp:199-205 | each written entry is the first aligned landmark after the previous one |
| BriskFeatures.WrittenExhausted | sequence_face_landmarks/face_tracker_brisk.cpp:199-205 | when fewer entries are written than keypoints kept, no later landmark is aligned with the next kept keypoint |
| BriskFeatures.DescInd | sequence_face_landmarks/face_tracker_brisk.cpp:196-205 | desc_ind has one entry per kept keypoint: the written prefix, then zeros from the resize |
| BriskFeatures.DescIndComplete | sequence_face_landmarks/face_tracker_brisk.cpp:196-205 | when every kept keypoint is matched, desc_ind is strictly increasing and every entry is a valid, aligned landmark index |
| BriskFeatures.MergePairs | sequence_face_landmarks/face_tracker_brisk.cpp:219-231 | the merge-join compares only rows with equal landmark indices |
| BriskFeatures.MergePairsComplete | sequence_face_landmarks/face_tracker_brisk.cpp:219-231 | on increasing indices the merge-join compares every pair of rows with equal landmark index |
| BriskFeatures.PairSum | sequence_face_landmarks/face_tracker_brisk.cpp:227-228 | the summed Hamming distance is at most 512 per compared pair |
| BriskFeatures.Similarity | sequence_face_landmarks/face_tracker_brisk.cpp:215-234 | the comparison of two faces, when defined, lies between 0 and 512 |
| BriskFeatures.SimilarityCommon | sequence_face_landmarks/face_tracker_brisk.cpp:215-234 | on increasing indices, exactly the common landmarks are compared, and the result is NaN exactly when there are none |
| BriskFeatures.SimilaritySelf | sequence_face_landmarks/face_tracker_brisk.cpp:215-234 | a face with descriptors compared with itself has distance 0 |
| BriskFeatures.SimilaritySymmetric | sequence_face_landmarks/face_tracker_brisk.cpp:215-234 | comparing two faces is symmetric |
| BriskTracker.LandmarkKeyPoints | sequence_face_landmarks/face_tracker_brisk.cpp:182-189 | one keypoint per landmark, in order, at the landmark's position, with the given scale as its size, angle and response 0, the landmark's index as its octave (the sixth argument of `cv::KeyPoint`) and the default class id -1 |
| BriskTracker.CreateTracked | sequence_face_landmarks/face_tracker_brisk.cpp:160-213 | a candidate fails exactly when the mask region is invalid; otherwise it keeps the face's id and box, takes the frame id, and has NaN position exactly without landmarks |
| BriskTracker.CreateCandidates | sequence_face_landmarks/face_tracker_brisk.cpp:55-58 | one candidate per face in order, failing exactly when some face's candidate fails |
| BriskTracker.CellValue | sequence_face_landmarks/face_tracker_brisk.cpp:60-76 | a cell is a number exactly when the descriptor distance and both centroids are |
| BriskTracker.Matrix | sequence_face_landmarks/face_tracker_brisk.cpp:61-76 | the matrix holds exactly the cell of every (pool entry, candidate) pair, in row-major order |
| BriskTracker.Select | sequence_face_landmarks/face_tracker_brisk.cpp:91-107 | a round selects the first cell in row-major order with the strictly smallest value below 250, or none when no such cell exists |
| BriskTracker.Blank | sequence_face_landmarks/face_tracker_brisk.cpp:114-115 | after a pair is found every cell keeps its position; the cells of its row and column hold 250 and are no longer eligible; every other cell is unchanged |
| BriskTracker.Greedy | sequence_face_landmarks/face_tracker_brisk.cpp:89-118 | the loop extends the pairs found so far |
| BriskTracker.GreedySound | sequence_face_landmarks/face_tracker_brisk.cpp:89-118 | each pair found is the smallest cell among free rows and columns, and when the loop ends nothing eligible is left free |
| BriskTracker.AssignSound | sequence_face_landmarks/face_tracker_brisk.cpp:78-118 | the pairs are exclusive, below 250, each minimal when chosen, and no eligible pair of a free entry and a free candidate remains |
| BriskTracker.Take | sequence_face_landmarks/face_tracker_brisk.cpp:120-129 | a paired entry takes all of the candidate's data and keeps its own id |
| BriskTracker.Commit | sequence_face_landmarks/face_tracker_brisk.cpp:120-134 | every pool entry keeps its place and id; an unpaired entry is unchanged; under an exclusive pairing each paired entry takes over its own candidate, stamped with the current frame |
| BriskTracker.Unpaired | sequence_face_landmarks/face_tracker_brisk.cpp:131-139 | the candidates left are exactly those not paired, in order |
| BriskTracker.NewEntries | sequence_face_landmarks/face_tracker_brisk.cpp:137-145 | each unpaired candidate, in order, joins the pool unchanged except for its id; the new ids are consecutive from the counter and distinct |
| BriskTracker.AddFrame | sequence_face_landmarks/face_tracker_brisk.cpp:47-146 | addFrame fails exactly when some face's mask region is invalid; on success only face ids change |
| BriskTracker.Init | sequence_face_landmarks/face_tracker_brisk.cpp:29-37 | a new tracker has counter 0, an empty pool and satisfies the invariant |
| BriskTracker.Clear | sequence_face_landmarks/face_tracker_brisk.cpp:148-152 | clear resets the counter to 0 and empties the pool |
| BriskTracker.CommitEntries | sequence_face_landmarks/face_tracker_brisk.cpp:120-134 | ids of the pool are kept, unpaired entries are unchanged, and paired entries become their candidate with the old id |
| BriskTracker.ApplyPool | sequence_face_landmarks/face_tracker_brisk.cpp:120-145 | the counter and the pool grow by the number of unpaired candidates; old entries keep their ids; new entries are the unpaired candidates with consecutive fresh ids |
| BriskTracker.ApplyValid | sequence_face_landmarks/face_tracker_brisk.cpp:120-145 | processing the pairs keeps pool ids unique and below the counter |
| BriskTracker.ApplyLabels | sequence_face_landmarks/face_tracker_brisk.cpp:131-145 | a paired face takes its pool entry's id, and an unpaired face the next fresh id in candidate order |
| BriskTracker.ApplyDistinctIds | sequence_face_landmarks/face_tracker_brisk.cpp:120-145 | on a valid tracker with exclusive pairs, the faces get distinct ids |
| BriskTracker.PairsSound | sequence_face_landmarks/face_tracker_brisk.cpp:60-118 | on the real distances: exclusive pairs below 250, each minimal when chosen, and maximal |
| BriskTracker.TrackOnlyIds | sequence_face_landmarks/sfl/face_tracker.h:18-23 | tracking a frame changes nothing about its faces but their ids |
| BriskTracker.TrackValid | sequence_face_landmarks/face_tracker_brisk.cpp:47-146 | a frame keeps the invariant |
| BriskTracker.TrackDistinctIds | sequence_face_landmarks/face_tracker_brisk.cpp:47-146 | on a valid tracker no two faces of a frame receive the same id |
| BriskTracker.EmptyPoolAllNew | sequence_face_landmarks/face_tracker_brisk.cpp:78-145 | with an empty pool every candidate gets a new consecutive id in face order |
| BriskTracker.TrackPool | sequence_face_landmarks/face_tracker_brisk.cpp:47-146 | the pool only grows: old entries keep their ids, paired ones take over their candidate, unpaired candidates are appended with fresh ids |
| BriskTracker.AddFrameSound | sequence_face_landmarks/face_tracker_brisk.cpp:47-146 | over a whole frame: invariant kept, distinct face ids, the pool does not shrink and keeps its ids |
| Persistence.ToUnsigned | sequence_face_landmarks/sequence_face_landmarks.cpp:173 | `(unsigned int)` yields the unsigned value congruent modulo 2^32, unchanged for non-negative values |
| Persistence.ToSigned | sequence_face_landmarks/sequence_face_landmarks.cpp:128 | `(int)` yields the signed value congruent modulo 2^32, unchanged below 2^31 |
| Persistence.SignedOfUnsigned | sequence_face_landmarks/sequence_face_landmarks.cpp:112-193 | an id saved and loaded comes back, negative ids included |
| Persistence.UnsignedOfSigned | sequence_face_landmarks/sequence_face_landmarks.cpp:112-193 | an id loaded and saved comes back |
| Persistence.NegativeIdWraps | sequence_face_landmarks/sequence_face_landmarks.cpp:165 | a negative id is written as a value of at least 2^31 |
| Persistence.SavePoints | sequence_face_landmarks/sequence_face_landmarks.cpp:180-186 | one point message per landmark, in order |
| Persistence.SaveFaces | sequence_face_landmarks/sequence_face_landmarks.cpp:169-187 | one face message per face, in order |
| Persistence.SaveFrames | sequence_face_landmarks/sequence_face_landmarks.cpp:161-188 | one frame message per frame, in order |
| Persistence.Save | sequence_face_landmarks/sequence_face_landmarks.cpp:155-193 | the message carries the input path and one frame message per frame |
| Persistence.LoadPoints | sequence_face_landmarks/sequence_face_landmarks.cpp:144-146 | one landmark per point message, in order |
| Persistence.LoadFace | sequence_face_landmarks/sequence_face_landmarks.cpp:133-149 | a loaded face fits in C++ ints |
| Persistence.LoadFaces | sequence_face_landmarks/sequence_face_landmarks.cpp:132-149 | one face per face message, in order |
| Persistence.LoadFrame | sequence_face_landmarks/sequence_face_landmarks.cpp:125-152 | a loaded frame fits in C++ ints |
| Persistence.LoadFrames | sequence_face_landmarks/sequence_face_landmarks.cpp:125-152 | one frame per frame message, in message order without re-sorting |
| Persistence.LoadSaveFace | sequence_face_landmarks/sequence_face_landmarks.cpp:112-193 | a face saved and loaded is the same face |
| Persistence.LoadSaveFrame | sequence_face_landmarks/sequence_face_landmarks.cpp:112-193 | a frame saved and loaded is the same frame |
| Persistence.LoadSaveFrames | sequence_face_landmarks/sequence_face_landmarks.cpp:112-193 | a frame sequence saved and loaded is the same sequence, in order |
| Persistence.SaveLoadFace | sequence_face_landmarks/sequence_face_landmarks.cpp:112-193 | a face message loaded and saved is the same message |
| Persistence.SaveLoadFrame | sequence_face_landmarks/sequence_face_landmarks.cpp:112-193 | a frame message loaded and saved is the same message |
| Persistence.SaveLoadFrames | sequence_face_landmarks/sequence_face_landmarks.cpp:112-193 | frame messages loaded and saved are the same messages |
| SequenceStore.SetModel | sequence_face_landmarks/sequence_face_landmarks.cpp:203-213 | an empty path leaves the model; any other path becomes the model, and nothing else changes |
| SequenceStore.SetTracking | sequence_face_landmarks/sequence_face_landmarks.cpp:217-227 | an unchanged mode changes nothing; a new mode installs a fresh tracker of that kind (or none); it fails exactly when LBP is requested and unavailable |
| SequenceStore.Create | sequence_face_landmarks/sequence_face_landmarks.cpp:44-48 | a new store has no model, no frames, counter 0 and the requested mode, failing exactly when LBP is unavailable |
| SequenceStore.Number | sequence_face_landmarks/sequence_face_landmarks.cpp:251-277 | one face per detection, in detection order, with the detection's box and landmarks |
| SequenceStore.NumberIds | sequence_face_landmarks/sequence_face_landmarks.cpp:256-257 | before tracking, the face ids are 0 .. n-1 |
| SequenceStore.TrackFrame | sequence_face_landmarks/sequence_face_landmarks.cpp:79-81 | without tracking the frame is unchanged; with tracking only face ids change and the tracker keeps its kind (the LBP tracker runs the corrected layout, see Left out) |
| SequenceStore.AddFrame | sequence_face_landmarks/sequence_face_landmarks.cpp:59-86 | fails without a model and then changes nothing; otherwise the frame counter moves past the frame id taken from the counter or the argument, even when tracking then fails; a failed tracking changes nothing else; on success records the image size, appends the frame, and only face ids differ from detection numbering |
| SequenceStore.FailedFrameUsesId | sequence_face_landmarks/sequence_face_landmarks.cpp:65-81 | a frame whose tracking failed still used up its automatic id, so the next automatically numbered frame gets the id after it |
| SequenceStore.TrackFrameValid | sequence_face_landmarks/sequence_face_landmarks.cpp:79-81 | the tracker's pass keeps its tracker valid and leaves the numbered faces with distinct ids |
| SequenceStore.AddFrameValid | sequence_face_landmarks/sequence_face_landmarks.cpp:59-86 | addFrame keeps the mode and tracker consistent and gives the frame's faces distinct ids |
| SequenceStore.Clear | sequence_face_landmarks/sequence_face_landmarks.cpp:92-96 | clear empties the frames and resets the counter, leaving everything else |
| SequenceStore.ClearRestartsFrameIds | sequence_face_landmarks/sequence_face_landmarks.cpp:92-96 | after clear the next automatically numbered frame is frame 0 and the only frame |
| SequenceStore.ClearValid | sequence_face_landmarks/sequence_face_landmarks.cpp:92-96 | clear keeps the store consistent |
| SequenceStore.Load | sequence_face_landmarks/sequence_face_landmarks.cpp:112-153 | load clears, takes the message's input path, and appends its frames in message order |
| SequenceStore.Save | sequence_face_landmarks/sequence_face_landmarks.cpp:155-193 | save writes the input path and one frame message per frame |
| SequenceStore.LoadSave | sequence_face_landmarks/sequence_face_landmarks.cpp:112-193 | saving then loading restores the input path and every frame in order |
| SequenceStore.SaveLoad | sequence_face_landmarks/sequence_face_landmarks.cpp:112-193 | loading a message then saving gives the message back |
| SequenceStore.LoadValid | sequence_face_landmarks/sequence_face_landmarks.cpp:112-153 | loading keeps the store consistent |
| SequenceStats.NewStat | sequence_face_landmarks/sfl/utilities.h:63-74 | a new statistic carries the id and a zero frame count |
| SequenceStats.OccurrenceOf | sequence_face_landmarks/utilities.cpp:134-147 | an occurrence carries the face's id and size (width + height) / 2 |
| SequenceStats.OccurrenceIds | sequence_face_landmarks/utilities.cpp:119-149 | the occurrences gathered over the frames carry exactly the sequence's face ids, frame by frame and in each frame's order |
| SequenceStats.TallyCounts | sequence_face_landmarks/utilities.cpp:109-112 | only frames with faces are counted |
| SequenceStats.FirstSeenMember | sequence_face_landmarks/utilities.cpp:122-131 | the ids listed in order of first appearance are exactly the ids that occur |
| SequenceStats.FirstSeenDistinct | sequence_face_landmarks/utilities.cpp:122-131 | each id is listed once |
| SequenceStats.AddOccurrence | sequence_face_landmarks/utilities.cpp:132-147 | an occurrence adds one to its statistic's frame count |
| SequenceStats.Update | sequence_face_landmarks/utilities.cpp:122-147 | an occurrence adds at most one statistic |
| SequenceStats.UpdateSeen | sequence_face_landmarks/utilities.cpp:122-147 | an occurrence of a known id accumulates into its statistic through face_map |
| SequenceStats.UpdateUnseen | sequence_face_landmarks/utilities.cpp:122-147 | an occurrence of a new id appends a statistic for it |
| SequenceStats.CollectSummarises | sequence_face_landmarks/utilities.cpp:108-150 | the loop leaves one statistic per id in first-seen order with its count, distance sum and size sum |
| SequenceStats.TableOfSequence | sequence_face_landmarks/utilities.cpp:108-150 | over a sequence, the statistics are in first-seen id order and each frame count is the number of occurrences of its id |
| SequenceStats.Clamp | sequence_face_landmarks/utilities.cpp:173 | the clamp lands in [0, 1] and keeps values already there |
| SequenceStats.Finalize | sequence_face_landmarks/utilities.cpp:161-182 | the averages are the sums divided by the frame count; the central ratio is 1 minus the average distance over its scale and the size ratio the average size over its scale, both clamped to [0, 1], and 1 when the scale is below 1e-6; frame_ratio * total_frames == frame_count |
| SequenceStats.FinalizedValues | sequence_face_landmarks/utilities.cpp:161-182 | a statistic holding its id's distance and size sums is finalised into that id's averages over its occurrences and the ratios against the given scales |
| SequenceStats.FinalizeNormalises | sequence_face_landmarks/utilities.cpp:152-182 | statistics holding their ids' counts and sums are finalised into normalised statistics carrying the averages and ratios of their occurrences |
| SequenceStats.GetSequenceStats | sequence_face_landmarks/utilities.cpp:98-183 | one statistic per distinct id, in order of first appearance, each with its occurrence count, its frame ratio and both ratios in [0, 1] |
| SequenceStats.StatsValues | sequence_face_landmarks/utilities.cpp:152-182 | a statistic exists only when a frame was counted; each holds its id's average distance to the frame centre and average size, and the central and size ratios against a quarter of the norm of the mean frame size and a quarter of the mean width plus height |
| SequenceStats.DegenerateRatios | sequence_face_landmarks/utilities.cpp:154-182 | a ratio whose denominator is below 1e-6 is 1 |
| SequenceStats.NoFacesNoStats | sequence_face_landmarks/utilities.cpp:152 | a sequence without faces yields no statistics |
| SequenceStats.CountAtMostFrames | sequence_face_landmarks/utilities.cpp:108-143 | when no frame holds an id twice, an id occurs in at most total_frames frames |
| SequenceStats.FrameRatioAtMostOne | sequence_face_landmarks/utilities.cpp:176 | when no frame holds an id twice, frame_ratio lies in (0, 1] |
| SequenceStats.RatiosAtMostOne | sequence_face_landmarks/utilities.cpp:176 | frame_ratio is in (0, 1] whenever counts are at most total_frames |
| SequenceStats.FrameRatioUnclamped | sequence_face_landmarks/utilities.cpp:176 | a frame holding the same face twice gives frame_ratio 2 |
| SequenceStats.MainUnique | sequence_face_landmarks/utilities.cpp:192-209 | the first strictly greatest score is unique |
| SequenceStats.GetMainFaceId | sequence_face_landmarks/utilities.cpp:192-209 | -1 when no score exceeds 0; otherwise the id of the first statistic with the greatest score |
| SequenceStats.ScoresPositive | sequence_face_landmarks/utilities.cpp:161-182 | every statistic of a sequence has a positive score |
| SequenceStats.MainFaceOfSequence | sequence_face_landmarks/utilities.cpp:185-190 | -1 for a sequence without faces; otherwise the main face among its statistics |

## Left out

- Pixels: grayscale conversion, `cv::resize`, BRISK `detect`/`compute`, LBPH `train`/`update`/`predict`, `cv::boundingRect` of `createFullFace`, and `cv::norm`/`std::sqrt` are functions of `Vision.Oracle` or a `norm` parameter. Image processing is outside the model. `createFullFace` is not part of this model.
- dlib detection, shape prediction and model loading: `addFrame` receives the detections, already scaled back to frame coordinates. The float frame-scale rounding is not modelled.
- `setModel` records the path but does not load the dlib model.
- The protobuf wire encoding and file streams: a message is the tree of its fields. The failure of `ParseFromIstream` is ignored by the code, so a failed parse gives an empty message. The model takes whatever message was parsed.
- Float precision: every float and double is a `real`. The `0.5f` and `(float)` roundings are exact in the model.
- Verbose console output of the LBP tracker.
- `clone`: the model's datatypes are values, so a copy is a full copy by construction. The LBP copy constructor copies the `cv::Ptr` handles of the LBPH models, so a clone and its original share and co-train the same appearance models. Shared mutable state is outside a value model.
- The first store constructor's choice between loading a `.pb`/`.lms` file and setting a model by extension: it is file-name handling. `Load` and `SetModel` model both branches.
- SequenceStore.SetTracking: the C++ object is left half-updated when creating the LBP tracker throws. The model reports the failure and discards the state.
- SequenceStore.TrackFrame: the LBP tracker runs the corrected matrix layout (`LbpMatch.Corrected`, first row of Findings), where the program as written runs `LbpMatch.AsWritten`. The two agree on a full matrix (`LbpMatch.FullLayoutsAgree`), so they differ only in the second pass after the first pass took some candidates. `LbpTracker.AddFrameSound` holds for either layout; the as-written commit of a far pair is exhibited by `LbpMatch.AsWrittenCommitsFarPair`.
- LbpMatch.SortIndices: `std::sort` is not stable, so the program visits cells of equal distance in an unspecified order. The model's insertion sort puts a later index before an equal earlier one, so it visits them by decreasing flat index (`LbpMatch.TiesByDecreasingIndex`). Which of several equally distant pairs wins is therefore fixed in the model where the program leaves it open. Exclusivity, the 128 bound and soundness of the commit loop hold for this order.
- Persistence: the `io::Sequence` schema is not part of this model. The message's field types (`uint32` ids, `int32` sizes, boxes and points) are assumed. The `(int)` casts on a frame's width and height when loading suggest unsigned fields; widths and heights of 2^31 or more would then wrap, which the model does not do.
- SequenceStore.AddFrame: does not model 32-bit overflow of the frame counter (`id + 1` at `INT_MAX`), because ids are unbounded integers in memory. Persistence models the 32-bit conversions.
- The LBP and BRISK id counters are unbounded as well. 32-bit overflow after 2^31 identities is not modelled.
- SequenceStats.GetSequenceStats: models the call on an empty `stats` vector, as its one caller in the library, `getMainFaceID(sequence)` (utilities.cpp:187-188), makes it. The function is public, so other callers may pass a non-empty vector. That case is not modelled. Its effects would be:
  - new statistics are appended after the old entries, and the old entries join the averaging and normalisation;
  - `face_map[id]` defaults to 0 (utilities.cpp:123-124), so an old `stats[0]` whose id matches absorbs the new occurrences of that id;
  - an old entry with `frame_count == 0` is divided by zero (utilities.cpp:163-164).
- BRISK's `0 / 0` NaN and the NaN centroid: modelled as `None`, which never wins a round, as NaN never passes `dist < min_dist`.
- `FaceTracker::addFrame` mutates the frame in place. The model returns the relabelled faces and states that nothing but their ids changed.
- `face_tracker.cpp`'s stub tracker has no behaviour.
- Rendering, the viewer, the command-line tools, the MATLAB bindings and the legacy `find_face_landmarks` pipeline are outside the core.
- The header's stale `bool track_faces` accessors: the implementation has `FaceTrackingType` instead, and the model follows it.

## Findings

| source | as written | input that shows it | evidently intended | confidence | as-written member | corrected member |
|---|---|---|---|---|---|---|
| sequence_face_landmarks/face_tracker_lbp.cpp:226-289 | the matrix has `candidates.size()` columns, but only `cand_indices.size()` values are written per row; cells are decoded with that column count, and `cand_map` default-inserts candidate 0 for a missing key | one lost identity, two candidates, candidate 1 already taken by the tracked pass, and a true distance of 500 to candidate 0: the matrix is [500, 0], and the zero cell commits the pair | rows of width `cand_indices.size()`, so each cell decodes to the pair whose distance it holds | high (not executed) | LbpMatch.AsWrittenCommitsFarPair | LbpMatch.CorrectedRunSound |
| sequence_face_landmarks/face_tracker_lbp.cpp:135-139 | `clear` resets the id counter and empties the tracked pool, but keeps the lost pool | a lost identity with id 0, then `clear`, then a frame with two faces, the first matching the lost identity: both faces get id 0 | clear discards the lost pool too, as the interface promises | high (not executed) | LbpTracker.ClearReusesId | LbpTracker.ClearAllDistinctIds |
