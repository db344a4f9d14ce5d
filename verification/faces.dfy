/** The per-frame detection records: a face and a frame of faces. */
module Faces {
  import opened Geometry
  import opened Results
  import opened Seqs

  /** A detected face: its identity label, its bounding box and its ordered landmarks. */
  datatype Face = Face(id: int, bbox: Rect, landmarks: seq<Point>)

  /** A frame: its id, its size in pixels and its faces in detection order. */
  datatype Frame = Frame(id: int, width: int, height: int, faces: seq<Face>)

  /** The identity labels of a list of faces, in order. */
  function FaceIds(faces: seq<Face>): (ids: seq<int>)
    ensures |ids| == |faces|
    ensures forall j :: 0 <= j < |faces| ==> ids[j] == faces[j].id
  {
    seq(|faces|, j requires 0 <= j < |faces| => faces[j].id)
  }

  /** `after` is `before` with at most the identity labels rewritten. */
  ghost predicate OnlyIdsChanged(before: seq<Face>, after: seq<Face>) {
    |after| == |before| &&
    forall j :: 0 <= j < |before| ==> after[j] == before[j].(id := after[j].id)
  }

  /** The faces of the candidates left free labelled with consecutive new ids, in list order. */
  function NewLabels(faces: seq<Face>, free: seq<nat>, counter: int): (r: seq<Face>)
    ensures |r| == |faces|
    ensures forall j :: 0 <= j < |faces| ==>
      r[j] == if j in free then faces[j].(id := counter + IndexOf(free, j)) else faces[j]
  {
    seq(|faces|, j requires 0 <= j < |faces| =>
      if j in free then faces[j].(id := counter + IndexOf(free, j)) else faces[j])
  }

  /** Index of the first face carrying `id`, if any. */
  function FindFace(faces: seq<Face>, id: int): (k: Option<nat>)
    ensures k.None? <==> forall j :: 0 <= j < |faces| ==> faces[j].id != id
    ensures k.Some? ==>
      && k.value < |faces|
      && faces[k.value].id == id
      && forall j :: 0 <= j < k.value ==> faces[j].id != id
  {
    if |faces| == 0 then None
    else if faces[0].id == id then Some(0)
    else match FindFace(faces[1..], id)
      case None => None
      case Some(k) => Some(k + 1)
  }

  /** No face before position k carries the id. */
  ghost predicate NoneBefore(faces: seq<Face>, k: nat, id: int) {
    forall j :: 0 <= j < k && j < |faces| ==> faces[j].id != id
  }

  /** Frame::getFace: the first face of the frame with the id, or null. */
  function GetFace(frame: Frame, id: int): (r: Option<Face>)
    ensures r.None? <==> forall j :: 0 <= j < |frame.faces| ==> frame.faces[j].id != id
    ensures r.Some? ==> r.value.id == id && r.value in frame.faces
    ensures r.Some? ==>
      exists k :: 0 <= k < |frame.faces| && r.value == frame.faces[k] && NoneBefore(frame.faces, k, id)
  {
    match FindFace(frame.faces, id)
    case None => None
    case Some(k) => Some(frame.faces[k])
  }
}
