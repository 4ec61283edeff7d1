/**
 * The detector's output as the activity sees it: a list of bounding boxes,
 * of which only the class label is inspected.
 */
module Detection {
  /** One box from `Detector`; coordinates and confidence are not modelled. */
  datatype BoundingBox = BoundingBox(clsName: string)

  const PersonClass: string := "person"

  /** `boundingBoxes.any { it.clsName == "person" }` */
  function PersonDetected(boxes: seq<BoundingBox>): (r: bool)
    ensures r <==> exists i :: 0 <= i < |boxes| && boxes[i].clsName == PersonClass
  {
    if boxes == [] then false
    else boxes[0].clsName == PersonClass || PersonDetected(boxes[1..])
  }
}
