/** The values stored in an object's timeline: bounding boxes and the
    annotated frames that carry them. */
module Frames {
  import opened Wrappers

  /** The coordinates of a bounding box. The timeline engine never inspects
      them, so whole-number pixels are enough. */
  datatype BoundingBox = BoundingBox(x: int, y: int, width: int, height: int)

  /** A bounding box at a particular frame. An absent box means that the
      object is not visible at that frame; `isGroundTruth` is set for boxes a
      user placed or confirmed and clear for boxes produced by tracking. */
  datatype AnnotatedFrame = AnnotatedFrame(frameNumber: int, bbox: Option<BoundingBox>, isGroundTruth: bool)
  {
    predicate IsVisible() {
      bbox.Some?
    }
  }

  /** The synthetic entry put in front of a timeline whose first entry lies
      after frame 0: invisible and not ground truth. */
  const Origin := AnnotatedFrame(0, None, false)
}
