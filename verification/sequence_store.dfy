/**
 * SequenceFaceLandmarksImpl: the list of processed frames, the frame-id counter, the
 * tracking mode with its tracker, and the operations that change them.
 *
 * Face detection and landmark prediction are inputs: `addFrame` receives the detector's
 * boxes and landmark lists in detection order, already in the frame's pixel coordinates.
 */
module SequenceStore {
  import opened Results
  import opened Geometry
  import opened Seqs
  import opened Faces
  import opened Vision
  import opened Persistence
  import LbpMatch
  import LbpTracker
  import BriskTracker

  /** FaceTrackingType. */
  datatype TrackingType = TrackingNone | TrackingBrisk | TrackingLbp

  /** The installed tracker, or none. */
  datatype FaceTracker =
    | NoTracker
    | Brisk(brisk: BriskTracker.Tracker)
    | Lbp(lbp: LbpTracker.Tracker)

  /** One detection: a face box and its landmarks. */
  datatype Detection = Detection(bbox: Rect, landmarks: seq<Point>)

  datatype Store = Store(
    modelPath: string,
    inputPath: string,
    frameCounter: int,
    tracking: TrackingType,
    tracker: FaceTracker,
    frames: seq<Frame>)

  /** The tracker installed matches the tracking mode. */
  predicate Installed(tracking: TrackingType, tracker: FaceTracker) {
    match tracking
    case TrackingNone => tracker.NoTracker?
    case TrackingBrisk => tracker.Brisk?
    case TrackingLbp => tracker.Lbp?
  }

  /** The mode and tracker agree and the installed tracker keeps its own invariant. */
  ghost predicate Valid(s: Store) {
    && Installed(s.tracking, s.tracker)
    && (s.tracker.Brisk? ==> BriskTracker.Valid(s.tracker.brisk))
    && (s.tracker.Lbp? ==> LbpTracker.Valid(s.tracker.lbp))
  }

  /** The number of current frames. */
  function Size(s: Store): nat {
    |s.frames|
  }

  // ---------------------------------------------------------------------------------------
  // Construction and configuration
  // ---------------------------------------------------------------------------------------

  /** setModel: an empty path leaves the model unset; loading the model file is not modelled. */
  function SetModel(s: Store, path: string): (r: Store)
    ensures r.modelPath == (if path == [] then s.modelPath else path)
    ensures r.(modelPath := s.modelPath) == s
  {
    if path == [] then s else s.(modelPath := path)
  }

  /**
   * setTracking: nothing happens when the mode is unchanged; otherwise the mode is recorded
   * and a new tracker of that kind (or none) replaces the old one. Without OpenCV's extra
   * modules the LBP tracker cannot be created and the call throws.
   */
  function SetTracking(s: Store, tracking: TrackingType, lbpAvailable: bool): (r: Result<Store>)
    ensures tracking == s.tracking ==> r == Success(s)
    ensures r.Failure? <==> tracking != s.tracking && tracking == TrackingLbp && !lbpAvailable
    ensures r.Success? ==>
      && r.value.tracking == tracking
      && r.value.(tracking := s.tracking, tracker := s.tracker) == s
    ensures r.Success? && tracking != s.tracking ==>
      && Valid(r.value)
      && (r.value.tracker.Brisk? ==> |r.value.tracker.brisk.pool| == 0)
      && (r.value.tracker.Lbp? ==> |r.value.tracker.lbp.tracked| == 0 && |r.value.tracker.lbp.lost| == 0)
  {
    if s.tracking == tracking then Success(s)
    else match tracking
      case TrackingBrisk => Success(s.(tracking := tracking, tracker := Brisk(BriskTracker.Init())))
      case TrackingLbp =>
        if lbpAvailable then
          LbpTracker.ValidInit();
          Success(s.(tracking := tracking, tracker := Lbp(LbpTracker.Init())))
        else Failure(TrackerUnavailable)
      case TrackingNone => Success(s.(tracking := tracking, tracker := NoTracker))
  }

  /** The second constructor: no model, no frames, the counter at 0, then setTracking. */
  function Create(tracking: TrackingType, lbpAvailable: bool): (r: Result<Store>)
    ensures r.Failure? <==> tracking == TrackingLbp && !lbpAvailable
    ensures r.Success? ==>
      && Valid(r.value)
      && Size(r.value) == 0 && r.value.frameCounter == 0
      && r.value.tracking == tracking && r.value.modelPath == []
  {
    SetTracking(Store([], [], 0, TrackingNone, NoTracker, []), tracking, lbpAvailable)
  }

  // ---------------------------------------------------------------------------------------
  // addFrame
  // ---------------------------------------------------------------------------------------

  /** The faces of a frame as extract_landmarks builds them: labelled by detection index. */
  function Number(dets: seq<Detection>): (faces: seq<Face>)
    ensures |faces| == |dets|
    ensures forall j :: 0 <= j < |dets| ==>
      faces[j].bbox == dets[j].bbox && faces[j].landmarks == dets[j].landmarks
  {
    seq(|dets|, j requires 0 <= j < |dets| => Face(j, dets[j].bbox, dets[j].landmarks))
  }

  /** Before tracking, the face ids of a frame are exactly 0, 1, ..., n-1. */
  lemma NumberIds(dets: seq<Detection>)
    ensures FaceIds(Number(dets)) == Range(|dets|)
    ensures Distinct(FaceIds(Number(dets)))
  {
    assert forall j :: 0 <= j < |dets| ==> FaceIds(Number(dets))[j] == j;
  }

  /**
   * The tracker's pass over the new frame, when tracking is on. The LBP tracker runs with
   * the corrected matrix layout.
   */
  function TrackFrame(tracking: TrackingType, tracker: FaceTracker, o: Oracle, img: Image, frame: Frame)
    : (r: Result<(FaceTracker, Frame)>)
    ensures tracking == TrackingNone ==> r == Success((tracker, frame))
    ensures r.Success? ==>
      && r.value.1.(faces := frame.faces) == frame
      && OnlyIdsChanged(frame.faces, r.value.1.faces)
      && (r.value.0.NoTracker? <==> tracker.NoTracker?)
      && (r.value.0.Brisk? <==> tracker.Brisk?)
  {
    if tracking == TrackingNone then Success((tracker, frame))
    else match tracker
      case NoTracker => Success((tracker, frame))
      case Brisk(t) =>
        var st :- BriskTracker.AddFrame(o, t, img, frame);
        Success((Brisk(st.tracker), frame.(faces := st.faces)))
      case Lbp(t) =>
        var st :- LbpTracker.AddFrame(LbpMatch.Corrected, o, t, img, frame);
        Success((Lbp(st.tracker), frame.(faces := st.faces)))
  }

  /** The store after a call to addFrame, and the added frame or the error it threw. */
  datatype Added = Added(store: Store, frame: Result<Frame>)

  /**
   * addFrame: throws without a landmarks model; picks the frame id (the counter for a
   * negative id, else the id itself, the counter following it); records the image size;
   * numbers the detections; lets the tracker relabel them; appends the frame. The counter
   * is set before the tracker runs, so it stays advanced when the tracker throws; both
   * trackers throw before they change their own state.
   */
  function AddFrame(s: Store, o: Oracle, img: Image, id: int, dets: seq<Detection>): (r: Added)
    ensures s.modelPath == [] ==> r == Added(s, Failure(NoLandmarksModel))
    ensures s.modelPath != [] && s.tracking == TrackingNone ==> r.frame.Success?
    ensures s.modelPath != [] ==>
      && (id < 0 ==> r.store.frameCounter == s.frameCounter + 1)
      && (0 <= id ==> r.store.frameCounter == id + 1)
    ensures r.frame.Failure? ==> r.store == s.(frameCounter := r.store.frameCounter)
    ensures r.frame.Success? ==>
      var f, s' := r.frame.value, r.store;
      && s'.frames == s.frames + [f]
      && Size(s') == Size(s) + 1
      && f.id == (if id < 0 then s.frameCounter else id)
      && f.width == img.cols && f.height == img.rows
      && OnlyIdsChanged(Number(dets), f.faces)
      && (s.tracking == TrackingNone ==> f.faces == Number(dets))
      && s'.modelPath == s.modelPath && s'.inputPath == s.inputPath && s'.tracking == s.tracking
  {
    if s.modelPath == [] then Added(s, Failure(NoLandmarksModel))
    else
      var frameId := if id < 0 then s.frameCounter else id;
      var counted := s.(frameCounter := if id < 0 then s.frameCounter + 1 else id + 1);
      var numbered := Frame(frameId, img.cols, img.rows, Number(dets));
      match TrackFrame(s.tracking, s.tracker, o, img, numbered)
      case Failure(e) => Added(counted, Failure(e))
      case Success((tracker, frame)) =>
        Added(counted.(tracker := tracker, frames := s.frames + [frame]), Success(frame))
  }

  /**
   * A call that the tracker aborts still uses up its automatic frame id: the next automatically
   * numbered frame gets the id after it.
   */
  lemma FailedFrameUsesId(s: Store, o: Oracle, img: Image, dets: seq<Detection>,
                          o': Oracle, img': Image, dets': seq<Detection>)
    requires AddFrame(s, o, img, -1, dets).frame.Failure? && s.modelPath != []
    ensures var r := AddFrame(AddFrame(s, o, img, -1, dets).store, o', img', -1, dets');
      r.frame.Success? ==> r.frame.value.id == s.frameCounter + 1
  {
  }

  /** addFrame keeps the store valid, and the faces of the new frame carry distinct ids. */
  lemma AddFrameValid(s: Store, o: Oracle, img: Image, id: int, dets: seq<Detection>)
    requires Valid(s)
    ensures var r := AddFrame(s, o, img, id, dets);
      Valid(r.store) && (r.frame.Success? ==> Distinct(FaceIds(r.frame.value.faces)))
  {
    if s.modelPath != [] {
      var frameId := if id < 0 then s.frameCounter else id;
      var numbered := Frame(frameId, img.cols, img.rows, Number(dets));
      NumberIds(dets);
      TrackFrameValid(s.tracking, s.tracker, o, img, numbered);
    }
  }

  /** A tracker pass keeps its tracker valid and leaves a frame of distinct ids distinct. */
  lemma TrackFrameValid(tracking: TrackingType, tracker: FaceTracker, o: Oracle, img: Image, frame: Frame)
    requires tracker.Brisk? ==> BriskTracker.Valid(tracker.brisk)
    requires tracker.Lbp? ==> LbpTracker.Valid(tracker.lbp)
    requires Distinct(FaceIds(frame.faces))
    ensures var r := TrackFrame(tracking, tracker, o, img, frame);
      r.Success? ==>
        && (r.value.0.Brisk? ==> BriskTracker.Valid(r.value.0.brisk))
        && (r.value.0.Lbp? ==> LbpTracker.Valid(r.value.0.lbp))
        && Distinct(FaceIds(r.value.1.faces))
  {
    if tracking != TrackingNone {
      match tracker
      case NoTracker =>
      case Brisk(t) => BriskTracker.AddFrameSound(o, t, img, frame);
      case Lbp(t) => LbpTracker.AddFrameSound(LbpMatch.Corrected, o, t, img, frame);
    }
  }

  // ---------------------------------------------------------------------------------------
  // clear, load, save
  // ---------------------------------------------------------------------------------------

  /** clear: the frames are dropped and the counter restarts; the tracker is left as it is. */
  function Clear(s: Store): (r: Store)
    ensures Size(r) == 0 && r.frameCounter == 0
    ensures r.(frames := s.frames, frameCounter := s.frameCounter) == s
  {
    s.(frames := [], frameCounter := 0)
  }

  /** After clear, the next automatically numbered frame is frame 0 again. */
  lemma ClearRestartsFrameIds(s: Store, o: Oracle, img: Image, dets: seq<Detection>)
    ensures var r := AddFrame(Clear(s), o, img, -1, dets);
      r.frame.Success? ==> r.frame.value.id == 0 && r.store.frames == [r.frame.value]
  {
  }

  lemma ClearValid(s: Store)
    requires Valid(s)
    ensures Valid(Clear(s))
  {
  }

  /** load: clear, then take the input path and the frames of the message, in order. */
  function Load(s: Store, msg: IoSequence): (r: Store)
    ensures r.inputPath == msg.inputPath && r.frameCounter == 0
    ensures Size(r) == |msg.frames| && FramesFit(r.frames)
    ensures forall k :: 0 <= k < |msg.frames| ==> r.frames[k] == LoadFrame(msg.frames[k])
    ensures r.tracker == s.tracker && r.tracking == s.tracking && r.modelPath == s.modelPath
  {
    Clear(s).(inputPath := msg.inputPath, frames := LoadFrames(msg.frames))
  }

  /** save: the message built from the input path and the frames. */
  function Save(s: Store): (msg: IoSequence)
    requires FramesFit(s.frames)
    ensures msg.inputPath == s.inputPath && |msg.frames| == Size(s)
  {
    Persistence.Save(s.inputPath, s.frames)
  }

  /** Saving and loading back restores the input path and every frame, in order. */
  lemma LoadSave(s: Store, into: Store)
    requires FramesFit(s.frames)
    ensures Load(into, Save(s)).frames == s.frames
    ensures Load(into, Save(s)).inputPath == s.inputPath
  {
    LoadSaveFrames(s.frames);
  }

  /** Loading a message and saving the result gives back the message. */
  lemma SaveLoad(s: Store, msg: IoSequence)
    ensures Save(Load(s, msg)) == msg
  {
    SaveLoadFrames(msg.frames);
  }

  /** Loading keeps the store valid: it touches neither the mode nor the tracker. */
  lemma LoadValid(s: Store, msg: IoSequence)
    requires Valid(s)
    ensures Valid(Load(s, msg))
  {
  }
}
