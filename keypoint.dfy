/**
  The keypoint record shared by the detectors and the pipeline (cv::KeyPoint),
  reduced to the fields the Harris detector and the bounding-box filter use,
  and the library's overlap test reduced to what the detector asks of it.
 */
module KeyPoints {

  /** A salient point: position (x = column, y = row), corner response and
      neighbourhood diameter. The library stores positions and sizes as
      floats; they are integers here. That is exact for the Harris scan, whose
      keypoints sit on pixels and have diameter 6, but not for detectors that
      place keypoints at sub-pixel positions. */
  datatype KeyPoint = KeyPoint(x: int, y: int, response: int, size: int)

  /** Squared distance between the centres of two keypoints. */
  function SqDist(a: KeyPoint, b: KeyPoint): int
  {
    (a.x - b.x) * (a.x - b.x) + (a.y - b.y) * (a.y - b.y)
  }

  /** `cv::KeyPoint::overlap(a, b) > 0`: the two keypoint circles (diameters
      a.size and b.size) share a region of positive area, i.e. both diameters
      are positive and 2 * dist < a.size + b.size. The library's ratio is not
      positive when the circles are disjoint or when a diameter is 0 (two
      diameter-0 keypoints at the same centre give 0/0, which also fails the
      test). Sizes are taken to be non-negative: a negative size would reach
      the library's containment branch, which this predicate does not model. */
  predicate Overlaps(a: KeyPoint, b: KeyPoint)
  {
    a.size > 0 && b.size > 0 &&
    4 * SqDist(a, b) < (a.size + b.size) * (a.size + b.size)
  }

  /** Overlap does not depend on the order of its arguments. */
  lemma OverlapsSymmetric(a: KeyPoint, b: KeyPoint)
    ensures Overlaps(a, b) <==> Overlaps(b, a)
  {
    assert SqDist(a, b) == SqDist(b, a) by {
      assert (a.x - b.x) * (a.x - b.x) == (b.x - a.x) * (b.x - a.x);
      assert (a.y - b.y) * (a.y - b.y) == (b.y - a.y) * (b.y - a.y);
    }
  }

  /** Two keypoints of diameter 6 (the Harris detector's size) overlap exactly
      when their centres are less than 6 pixels apart. */
  lemma OverlapsAtDiameterSix(a: KeyPoint, b: KeyPoint)
    requires a.size == 6 && b.size == 6
    ensures Overlaps(a, b) <==> SqDist(a, b) < 36
  {
  }
}
