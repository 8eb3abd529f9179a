/** `detect_img`: one inference of the low-confidence detector on a still image, reduced to boxes. */
module ImageDetection {
  import opened Common

  /** A detector row: `[x, y, w, h, landmarks..., score]`, its values already integers. */
  type Row = seq<int>

  /** The first four fields (x, y, w, h) of every row the detector returned; no rows when it
      returned nothing. */
  function DetectImg(inferred: Option<seq<Row>>): (boxes: seq<Row>)
    ensures inferred.None? ==> boxes == []
    ensures inferred.Some? ==> |boxes| == |inferred.value|
    ensures inferred.Some? ==> forall i :: 0 <= i < |boxes| ==>
              boxes[i] <= inferred.value[i] && |boxes[i]| == Min(4, |inferred.value[i]|)
  {
    var rows := inferred.GetOr([]);
    seq(|rows|, i requires 0 <= i < |rows| => rows[i][..Min(4, |rows[i]|)])
  }

  /** Every returned box has at most four fields, and a detector row of four or more values yields
      exactly its leading x, y, w and h. */
  lemma DetectImgBoxes(inferred: Option<seq<Row>>)
    ensures forall i :: 0 <= i < |DetectImg(inferred)| ==> |DetectImg(inferred)[i]| <= 4
    ensures inferred.Some? ==> forall i :: 0 <= i < |inferred.value| && 4 <= |inferred.value[i]| ==>
              |DetectImg(inferred)[i]| == 4 && DetectImg(inferred)[i] == inferred.value[i][..4]
  {
    var boxes := DetectImg(inferred);
    if inferred.Some? {
      forall i | 0 <= i < |inferred.value| && 4 <= |inferred.value[i]|
        ensures boxes[i] == inferred.value[i][..4]
      {
        assert |boxes[i]| == 4 && boxes[i] <= inferred.value[i];
      }
    }
  }
}
