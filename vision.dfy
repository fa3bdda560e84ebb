/** The values the detector and the drawing code exchange. The Detection
    struct comes from types/yolo_datatype.h, which is not part of this model;
    its fields are the ones the pipeline reads: class_id, className,
    confidence and box (the color field only tints text and is left out). */
module Vision {
  import opened Basics

  /** A cv::Rect: top-left corner and size, in pixels. */
  datatype Rect = Rect(x: Int32, y: Int32, width: Int32, height: Int32)

  /** One detected object. The float confidence is carried as its bit
      pattern; its value is only read through oracles. */
  datatype Detection = Detection(classId: Int32, className: string, confidence: Word32, box: Rect)

  /** A cv::Mat: its size and its pixel bytes. */
  datatype Image = Image(rows: nat, cols: nat, pixels: seq<Byte>)
  {
    /** cv::Mat::empty(): no elements. */
    predicate Empty()
    {
      rows == 0 || cols == 0
    }
  }

  /** The image of a default-constructed cv::Mat. */
  const NoImage: Image := Image(0, 0, [])
}
