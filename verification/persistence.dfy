/**
 * The field-by-field conversion between the in-memory sequence and the `io::Sequence`
 * message that `load` and `save` exchange with a file. The wire encoding and the file
 * streams are not modelled: a message is the tree of its fields.
 *
 * The in-memory records hold C++ `int`s (32 bits). The message schema is not part of this
 * model, so its field types are an assumption: `uint32` ids and `int32` sizes, boxes and
 * points. Ids cross the boundary through `(unsigned int)` on the way out and back through an
 * `int` conversion on the way in, both modulo 2^32.
 */
module Persistence {
  import opened Geometry
  import opened Faces

  const Two31: int := 0x8000_0000
  const Two32: int := 0x1_0000_0000

  /** Values of a 32-bit two's complement integer. */
  predicate Int32(x: int) {
    -Two31 <= x < Two31
  }

  /** Values of a 32-bit unsigned integer. */
  predicate UInt32(x: int) {
    0 <= x < Two32
  }

  type I32 = x: int | -0x8000_0000 <= x < 0x8000_0000
  type U32 = x: int | 0 <= x < 0x1_0000_0000

  /** `(unsigned int)x`: the unsigned value congruent to x modulo 2^32. */
  function ToUnsigned(x: I32): (u: U32)
    ensures (u - x) % Two32 == 0
    ensures 0 <= x ==> u == x
  {
    if x < 0 then x + Two32 else x
  }

  /** `(int)u`: the 32-bit signed value congruent to u modulo 2^32. */
  function ToSigned(u: U32): (x: I32)
    ensures (x - u) % Two32 == 0
    ensures u < Two31 ==> x == u
  {
    if u < Two31 then u else u - Two32
  }

  /** Two values of one 2^32-wide window that are congruent modulo 2^32 are equal. */
  lemma CongruentEqual(a: int, b: int, lo: int)
    requires lo <= a < lo + Two32 && lo <= b < lo + Two32
    ensures (a - b) % Two32 == 0 ==> a == b
  {
  }

  /** Saving then loading an id gives it back, negative ids included. */
  lemma SignedOfUnsigned(x: I32)
    ensures ToSigned(ToUnsigned(x)) == x
  {
    var u := ToUnsigned(x);
    var y := ToSigned(u);
    assert (y - x) % Two32 == 0 by {
      assert y - x == (y - u) + (u - x);
    }
    CongruentEqual(y, x, -Two31);
  }

  /** Loading then saving an id gives it back. */
  lemma UnsignedOfSigned(u: U32)
    ensures ToUnsigned(ToSigned(u)) == u
  {
    var x := ToSigned(u);
    var v := ToUnsigned(x);
    assert (v - u) % Two32 == 0 by {
      assert v - u == (v - x) + (x - u);
    }
    CongruentEqual(v, u, 0);
  }

  /** A negative id is written to the message as a large unsigned value. */
  lemma NegativeIdWraps(x: I32)
    ensures x < 0 ==> ToUnsigned(x) >= Two31
  {
  }

  // ---------------------------------------------------------------------------------------
  // The message
  // ---------------------------------------------------------------------------------------

  datatype IoPoint = IoPoint(x: I32, y: I32)
  datatype IoBox = IoBox(left: I32, top: I32, width: I32, height: I32)
  datatype IoFace = IoFace(id: U32, bbox: IoBox, landmarks: seq<IoPoint>)
  datatype IoFrame = IoFrame(id: U32, width: I32, height: I32, faces: seq<IoFace>)
  datatype IoSequence = IoSequence(inputPath: string, frames: seq<IoFrame>)

  /** Every field of the point is representable as a C++ int. */
  predicate PointFits(p: Point) {
    Int32(p.x) && Int32(p.y)
  }

  predicate FaceFits(f: Face) {
    && Int32(f.id)
    && Int32(f.bbox.x) && Int32(f.bbox.y) && Int32(f.bbox.width) && Int32(f.bbox.height)
    && forall k :: 0 <= k < |f.landmarks| ==> PointFits(f.landmarks[k])
  }

  predicate FrameFits(f: Frame) {
    && Int32(f.id) && Int32(f.width) && Int32(f.height)
    && forall k :: 0 <= k < |f.faces| ==> FaceFits(f.faces[k])
  }

  /** Every field of every frame is representable as a C++ int, as it is in memory. */
  predicate FramesFit(frames: seq<Frame>) {
    forall k :: 0 <= k < |frames| ==> FrameFits(frames[k])
  }

  // ---------------------------------------------------------------------------------------
  // save: in-memory sequence to message
  // ---------------------------------------------------------------------------------------

  function SavePoint(p: Point): (q: IoPoint)
    requires PointFits(p)
  {
    IoPoint(p.x, p.y)
  }

  /** One landmark message per point, appended in list order. */
  function SavePoints(ps: seq<Point>): (r: seq<IoPoint>)
    requires forall k :: 0 <= k < |ps| ==> PointFits(ps[k])
    ensures |r| == |ps|
    ensures forall k :: 0 <= k < |ps| ==> r[k] == SavePoint(ps[k])
  {
    if |ps| == 0 then [] else [SavePoint(ps[0])] + SavePoints(ps[1..])
  }

  function SaveFace(f: Face): (g: IoFace)
    requires FaceFits(f)
  {
    IoFace(ToUnsigned(f.id), IoBox(f.bbox.x, f.bbox.y, f.bbox.width, f.bbox.height),
      SavePoints(f.landmarks))
  }

  /** One face message per face, appended in list order. */
  function SaveFaces(fs: seq<Face>): (r: seq<IoFace>)
    requires forall k :: 0 <= k < |fs| ==> FaceFits(fs[k])
    ensures |r| == |fs|
    ensures forall k :: 0 <= k < |fs| ==> r[k] == SaveFace(fs[k])
  {
    if |fs| == 0 then [] else [SaveFace(fs[0])] + SaveFaces(fs[1..])
  }

  function SaveFrame(f: Frame): (g: IoFrame)
    requires FrameFits(f)
  {
    IoFrame(ToUnsigned(f.id), f.width, f.height, SaveFaces(f.faces))
  }

  /** One frame message per frame, appended in sequence order. */
  function SaveFrames(fs: seq<Frame>): (r: seq<IoFrame>)
    requires FramesFit(fs)
    ensures |r| == |fs|
    ensures forall k :: 0 <= k < |fs| ==> r[k] == SaveFrame(fs[k])
  {
    if |fs| == 0 then [] else [SaveFrame(fs[0])] + SaveFrames(fs[1..])
  }

  /** SequenceFaceLandmarksImpl::save, up to the serialisation: the input path and the frames. */
  function Save(inputPath: string, frames: seq<Frame>): (msg: IoSequence)
    requires FramesFit(frames)
    ensures msg.inputPath == inputPath && |msg.frames| == |frames|
  {
    IoSequence(inputPath, SaveFrames(frames))
  }

  // ---------------------------------------------------------------------------------------
  // load: message to in-memory sequence
  // ---------------------------------------------------------------------------------------

  function LoadPoint(p: IoPoint): (q: Point)
    ensures PointFits(q)
  {
    Point(p.x, p.y)
  }

  /** One point per landmark message, in message order. */
  function LoadPoints(ps: seq<IoPoint>): (r: seq<Point>)
    ensures |r| == |ps|
    ensures forall k :: 0 <= k < |ps| ==> r[k] == LoadPoint(ps[k])
  {
    if |ps| == 0 then [] else [LoadPoint(ps[0])] + LoadPoints(ps[1..])
  }

  function LoadFace(f: IoFace): (g: Face)
    ensures FaceFits(g)
  {
    Face(ToSigned(f.id), Rect(f.bbox.left, f.bbox.top, f.bbox.width, f.bbox.height),
      LoadPoints(f.landmarks))
  }

  /** One face per face message, in message order. */
  function LoadFaces(fs: seq<IoFace>): (r: seq<Face>)
    ensures |r| == |fs|
    ensures forall k :: 0 <= k < |fs| ==> r[k] == LoadFace(fs[k])
  {
    if |fs| == 0 then [] else [LoadFace(fs[0])] + LoadFaces(fs[1..])
  }

  function LoadFrame(f: IoFrame): (g: Frame)
    ensures FrameFits(g)
  {
    Frame(ToSigned(f.id), f.width, f.height, LoadFaces(f.faces))
  }

  /** One frame per frame message, in message order and without re-sorting. */
  function LoadFrames(fs: seq<IoFrame>): (r: seq<Frame>)
    ensures |r| == |fs| && FramesFit(r)
    ensures forall k :: 0 <= k < |fs| ==> r[k] == LoadFrame(fs[k])
  {
    if |fs| == 0 then [] else [LoadFrame(fs[0])] + LoadFrames(fs[1..])
  }

  // ---------------------------------------------------------------------------------------
  // Round trips
  // ---------------------------------------------------------------------------------------

  lemma LoadSaveFace(f: Face)
    requires FaceFits(f)
    ensures LoadFace(SaveFace(f)) == f
  {
    SignedOfUnsigned(f.id);
    assert LoadPoints(SavePoints(f.landmarks)) == f.landmarks;
  }

  lemma LoadSaveFrame(f: Frame)
    requires FrameFits(f)
    ensures LoadFrame(SaveFrame(f)) == f
  {
    SignedOfUnsigned(f.id);
    forall k | 0 <= k < |f.faces|
      ensures LoadFaces(SaveFaces(f.faces))[k] == f.faces[k]
    {
      LoadSaveFace(f.faces[k]);
    }
  }

  /** Saving a sequence and loading the message restores every frame, in order. */
  lemma LoadSaveFrames(fs: seq<Frame>)
    requires FramesFit(fs)
    ensures LoadFrames(SaveFrames(fs)) == fs
  {
    forall k | 0 <= k < |fs|
      ensures LoadFrames(SaveFrames(fs))[k] == fs[k]
    {
      LoadSaveFrame(fs[k]);
    }
  }

  lemma SaveLoadFace(f: IoFace)
    ensures SaveFace(LoadFace(f)) == f
  {
    UnsignedOfSigned(f.id);
    assert SavePoints(LoadPoints(f.landmarks)) == f.landmarks;
  }

  lemma SaveLoadFrame(f: IoFrame)
    ensures SaveFrame(LoadFrame(f)) == f
  {
    UnsignedOfSigned(f.id);
    forall k | 0 <= k < |f.faces|
      ensures SaveFaces(LoadFaces(f.faces))[k] == f.faces[k]
    {
      SaveLoadFace(f.faces[k]);
    }
  }

  /** Loading a message and saving the result gives back the same message. */
  lemma SaveLoadFrames(fs: seq<IoFrame>)
    ensures SaveFrames(LoadFrames(fs)) == fs
  {
    forall k | 0 <= k < |fs|
      ensures SaveFrames(LoadFrames(fs))[k] == fs[k]
    {
      SaveLoadFrame(fs[k]);
    }
  }
}
