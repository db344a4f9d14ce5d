/**
 * Everything that depends on pixels. OpenCV and dlib calls are not modelled; each is an
 * uninterpreted function of its inputs, bundled in an `Oracle` the trackers receive.
 */
module Vision {
  import opened Geometry

  /** A frame image: an opaque handle for its pixels and its size. */
  datatype Image = Image(handle: nat, cols: int, rows: int)

  /** The grayscale crop of an image region, resized to 128 x 128 (LBP tracker). */
  datatype Crop = Crop(image: nat, region: Rect)

  /**
   * A cv::KeyPoint: a real-valued position, a diameter, an orientation angle, a detector
   * response, the pyramid octave and an object class id (-1 when none is given).
   */
  datatype KeyPoint = KeyPoint(x: real, y: real, size: real, angle: real, response: real,
                               octave: int, classId: int)

  /** BRISK descriptors are 64 bytes long. */
  const DescriptorBytes: nat := 64

  type Descriptor = d: seq<bv8> | |d| == DescriptorBytes witness seq(64, i => 0 as bv8)

  /**
   * The image-dependent collaborators:
   *  - norm(dx, dy): the Euclidean length of a vector (cv::norm, std::sqrt);
   *  - fullFaceBox(landmarks): the bounding rectangle of the full-face polygon built from the
   *    landmarks (cv::boundingRect of createFullFace, which is not part of this model);
   *  - predict(model, crop): the distance an LBPH model trained on the given crops reports
   *    for a query crop;
   *  - detect(image, mask): the sizes of the BRISK keypoints detected inside the mask;
   *  - compute(image, keypoints): the keypoints BRISK keeps, each with its descriptor.
   */
  datatype Oracle = Oracle(
    norm: (real, real) -> real,
    fullFaceBox: seq<Point> -> Rect,
    predict: (seq<Crop>, Crop) -> real,
    detect: (nat, Rect) -> seq<real>,
    compute: (nat, seq<KeyPoint>) -> seq<(KeyPoint, Descriptor)>)
}
