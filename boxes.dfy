/** Bounding boxes and UI elements (`iou`, `ui_elements_match` and
    `uic_bb_exact_match` in code/metrics.py). Boxes hold integer pixel
    coordinates in the order (ymin, xmin, ymax, xmax); IoU is an exact real. */
module Boxes {
  import opened Seqs

  datatype Box = Box(ymin: int, xmin: int, ymax: int, xmax: int)

  /** A UI element: its bounding box and its UI content. */
  datatype UiElement = UiElement(bbox: Box, content: string)

  /** `ui_elements_match` and `uic_bb_exact_match` default to this IoU
      threshold. */
  const DefaultIouThreshold: real := 0.1

  function MaxInt(a: int, b: int): int { if a >= b then a else b }
  function MinInt(a: int, b: int): int { if a <= b then a else b }

  /** The box has its corners in the documented order and encloses pixels. */
  predicate Proper(b: Box) {
    b.ymin < b.ymax && b.xmin < b.xmax
  }

  /** Width times height; negative for a box whose corners are swapped in
      exactly one axis, as the source computes it. */
  function Area(b: Box): int {
    (b.xmax - b.xmin) * (b.ymax - b.ymin)
  }

  /** The box shared by `b1` and `b2`, which may have swapped corners when
      they do not overlap. */
  function Overlap(b1: Box, b2: Box): Box {
    Box(MaxInt(b1.ymin, b2.ymin), MaxInt(b1.xmin, b2.xmin),
        MinInt(b1.ymax, b2.ymax), MinInt(b1.xmax, b2.xmax))
  }

  /** Area of the overlap, clamped at zero in each axis. */
  function IntersectionArea(b1: Box, b2: Box): (n: nat)
    ensures n > 0 <==> Overlap(b1, b2).xmin < Overlap(b1, b2).xmax && Overlap(b1, b2).ymin < Overlap(b1, b2).ymax
  {
    var o := Overlap(b1, b2);
    MaxInt(0, o.xmax - o.xmin) * MaxInt(0, o.ymax - o.ymin)
  }

  lemma MulMonotone(a: int, b: int, c: int, d: int)
    requires 0 < a <= c && 0 < b <= d
    ensures a * b <= c * b <= c * d
    ensures a * b == c * d ==> a == c && b == d
  {
    MulDifference(a, c, b);
    MulDifference(b, d, c);
    assert c * b == b * c && c * d == d * c;
  }

  /** x*k grows strictly with x when k is positive. */
  lemma MulDifference(x: int, y: int, k: int)
    requires x <= y && 0 < k
    ensures x * k <= y * k
    ensures x * k == y * k ==> x == y
  {
    assert y * k - x * k == (y - x) * k;
    if x < y {
      MulPositive(y - x, k);
    }
  }

  lemma MulPositive(x: int, y: int)
    requires 0 < x && 0 < y
    ensures 0 < x * y
  {
  }

  /** A positive overlap lies inside both boxes, so each box has positive
      area at least as large as the intersection; the union is therefore
      positive and at least the intersection. */
  lemma IntersectionInside(b1: Box, b2: Box)
    requires IntersectionArea(b1, b2) > 0
    ensures Proper(b1) && Proper(b2)
    ensures 0 < IntersectionArea(b1, b2) <= Area(b1)
    ensures 0 < IntersectionArea(b1, b2) <= Area(b2)
    ensures IntersectionArea(b1, b2) == Area(b1) ==> Overlap(b1, b2) == b1
    ensures IntersectionArea(b1, b2) == Area(b2) ==> Overlap(b1, b2) == b2
  {
    var o := Overlap(b1, b2);
    var w, h := o.xmax - o.xmin, o.ymax - o.ymin;
    assert IntersectionArea(b1, b2) == w * h;
    MulMonotone(w, h, b1.xmax - b1.xmin, b1.ymax - b1.ymin);
    MulMonotone(w, h, b2.xmax - b2.xmin, b2.ymax - b2.ymin);
  }

  /** `iou(bbox1, bbox2)`: intersection over union, 0 without a positive
      overlap. */
  function Iou(b1: Box, b2: Box): (r: real)
    ensures 0.0 <= r <= 1.0
    ensures r == 0.0 <==> IntersectionArea(b1, b2) == 0
    ensures r > 0.0 ==> Proper(b1) && Proper(b2)
  {
    var intersection := IntersectionArea(b1, b2);
    if intersection == 0 then 0.0
    else
      IntersectionInside(b1, b2);
      var union := Area(b1) + Area(b2) - intersection;
      RatioAtMostOne(intersection, union);
      intersection as real / union as real
  }

  /** IoU does not depend on the order of its arguments. */
  lemma IouSymmetric(b1: Box, b2: Box)
    ensures Iou(b1, b2) == Iou(b2, b1)
  {
    assert Overlap(b1, b2) == Overlap(b2, b1);
  }

  /** IoU is 1 exactly for two identical proper boxes. */
  lemma {:induction false} IouOneIffSameBox(b1: Box, b2: Box)
    ensures Iou(b1, b2) == 1.0 <==> b1 == b2 && Proper(b1)
  {
    if b1 == b2 && Proper(b1) {
      var area := Area(b1);
      MulPositive(b1.xmax - b1.xmin, b1.ymax - b1.ymin);
      assert Overlap(b1, b1) == b1;
      assert IntersectionArea(b1, b1) == area;
      assert area + area - area == area;
      RatioAtMostOne(area, area);
    }
    if Iou(b1, b2) == 1.0 {
      var i := IntersectionArea(b1, b2);
      IntersectionInside(b1, b2);
      var union := Area(b1) + Area(b2) - i;
      RatioAtMostOne(i, union);
      assert i == union;
      assert i == Area(b1) && i == Area(b2);
      assert Overlap(b1, b2) == b1 && Overlap(b1, b2) == b2;
    }
  }

  /** `ui_elements_match`: same content and IoU at least the threshold.
      No threshold above 1 can be met, a positive one needs two proper
      boxes, one at most 0 only compares content, and at threshold 1 the
      elements must be identical with a proper box. */
  function UiElementsMatch(e1: UiElement, e2: UiElement, iouThreshold: real): (r: bool)
    ensures r ==> e1.content == e2.content
    ensures iouThreshold > 1.0 ==> !r
    ensures 0.0 < iouThreshold && r ==> Proper(e1.bbox) && Proper(e2.bbox)
    ensures iouThreshold <= 0.0 ==> (r <==> e1.content == e2.content)
    ensures iouThreshold == 1.0 ==> (r <==> e1 == e2 && Proper(e1.bbox))
  {
    IouOneIffSameBox(e1.bbox, e2.bbox);
    e1.content == e2.content && Iou(e1.bbox, e2.bbox) >= iouThreshold
  }

  /** `all(ui_elements_match(el1, el2, t) for el1, el2 in zip(...))`. */
  function AllPairsMatch(es1: seq<UiElement>, es2: seq<UiElement>, iouThreshold: real): (r: bool)
    requires |es1| == |es2|
    ensures r <==> forall i :: 0 <= i < |es1| ==> UiElementsMatch(es1[i], es2[i], iouThreshold)
  {
    if es1 == [] then true
    else
      UiElementsMatch(es1[0], es2[0], iouThreshold) &&
      AllPairsMatch(es1[1..], es2[1..], iouThreshold)
  }

  /** `uic_bb_exact_match`: the lists have the same length and match
      position by position. */
  function UicBbExactMatch(es1: seq<UiElement>, es2: seq<UiElement>, iouThreshold: real): (r: bool)
    ensures r <==> |es1| == |es2| && forall i :: 0 <= i < |es1| ==> UiElementsMatch(es1[i], es2[i], iouThreshold)
  {
    if |es1| != |es2| then false
    else AllPairsMatch(es1, es2, iouThreshold)
  }

  /** A list matches itself when every box is proper and the threshold is
      at most 1. */
  lemma ExactMatchReflexive(es: seq<UiElement>, iouThreshold: real)
    requires iouThreshold <= 1.0
    requires forall i :: 0 <= i < |es| ==> Proper(es[i].bbox)
    ensures UicBbExactMatch(es, es, iouThreshold)
  {
    forall i | 0 <= i < |es| ensures UiElementsMatch(es[i], es[i], iouThreshold) {
      IouOneIffSameBox(es[i].bbox, es[i].bbox);
    }
  }

  /** Exact match does not depend on which list comes first. */
  lemma ExactMatchSymmetric(es1: seq<UiElement>, es2: seq<UiElement>, iouThreshold: real)
    ensures UicBbExactMatch(es1, es2, iouThreshold) == UicBbExactMatch(es2, es1, iouThreshold)
  {
    forall i | 0 <= i < |es1| && i < |es2|
      ensures UiElementsMatch(es1[i], es2[i], iouThreshold) == UiElementsMatch(es2[i], es1[i], iouThreshold)
    {
      IouSymmetric(es1[i].bbox, es2[i].bbox);
    }
  }

  /** A match at a threshold is a match at every lower threshold. */
  lemma ExactMatchMonotone(es1: seq<UiElement>, es2: seq<UiElement>, lower: real, higher: real)
    requires lower <= higher
    requires UicBbExactMatch(es1, es2, higher)
    ensures UicBbExactMatch(es1, es2, lower)
  {
  }
}
