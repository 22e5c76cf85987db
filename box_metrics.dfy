/** SQA-UIC-BB scoring (`uic_bb_f1_score` and `sqa_uic_bb_metrics` in
    code/metrics.py): a prediction is a list of UI elements with bounding
    boxes, scored against several reference lists.

    `uic_bb_f1_score` builds a cost matrix of thresholded pairwise scores,
    asks an optimal-assignment solver (scipy's `linear_sum_assignment`) for
    a pairing, and counts the paired cells that reach the threshold. The
    solver is a parameter here: any function of the cost matrix that returns
    a valid one-to-one pairing of min(rows, columns) cells. Its optimality is
    not modelled. */
module BoxMetrics {
  import opened Seqs
  import opened TokenF1
  import opened Boxes

  /** A pairing returned by the solver: cell (rows[k], cols[k]) for each k. */
  datatype Assignment = Assignment(rows: seq<int>, cols: seq<int>)

  datatype BbScores = BbScores(bboxF1: real, exactMatch: int, f1: real)

  function MinNat(a: nat, b: nat): nat { if a <= b then a else b }

  /** A one-to-one pairing of min(n, m) cells of an n-by-m matrix. */
  predicate IsAssignment(a: Assignment, n: nat, m: nat) {
    && |a.rows| == |a.cols| == MinNat(n, m)
    && (forall k :: 0 <= k < |a.rows| ==> 0 <= a.rows[k] < n && 0 <= a.cols[k] < m)
    && (forall k, l :: 0 <= k < l < |a.rows| ==> a.rows[k] != a.rows[l] && a.cols[k] != a.cols[l])
  }

  function Width(cost: seq<seq<real>>): nat {
    if cost == [] then 0 else |cost[0]|
  }

  /** `a` is a valid pairing for the matrix `cost`. */
  predicate ValidFor(a: Assignment, cost: seq<seq<real>>) {
    IsAssignment(a, |cost|, Width(cost))
  }

  /** What the model relies on from the assignment solver. */
  ghost predicate IsSolver(solve: seq<seq<real>> -> Assignment) {
    forall cost :: ValidFor(solve(cost), cost)
  }

  /** A cost-matrix cell: the score if it reaches the threshold, else 0. */
  function Thresholded(score: real, threshold: real): (c: real)
    ensures score >= threshold ==> c == score
    ensures score < threshold ==> c == 0.0
    ensures c == 0.0 || c >= threshold
  {
    if score >= threshold then score else 0.0
  }

  /** The cost matrix `uic_bb_f1_score` builds, as a value. */
  function CostMatrix<T>(prediction: seq<T>, groundTruth: seq<T>, score: (T, T) -> real, threshold: real): (cost: seq<seq<real>>)
    ensures |cost| == |prediction|
    ensures forall i :: 0 <= i < |cost| ==> |cost[i]| == |groundTruth|
    ensures forall i, j :: 0 <= i < |prediction| && 0 <= j < |groundTruth| ==>
      cost[i][j] == Thresholded(score(prediction[i], groundTruth[j]), threshold)
    ensures forall i, j :: 0 <= i < |prediction| && 0 <= j < |groundTruth| ==>
      cost[i][j] == 0.0 || (cost[i][j] >= threshold && cost[i][j] == score(prediction[i], groundTruth[j]))
  {
    seq(|prediction|, i requires 0 <= i < |prediction| =>
      seq(|groundTruth|, j requires 0 <= j < |groundTruth| =>
        Thresholded(score(prediction[i], groundTruth[j]), threshold)))
  }

  /** `np.zeros` followed by the nested loops that fill the cost matrix:
      every cell is its pair's score when that reaches the threshold and
      0 otherwise. */
  method BuildCostMatrix<T>(prediction: seq<T>, groundTruth: seq<T>, score: (T, T) -> real, threshold: real)
    returns (cost: array2<real>)
    ensures fresh(cost)
    ensures cost.Length0 == |prediction| && cost.Length1 == |groundTruth|
    ensures forall i, j :: 0 <= i < |prediction| && 0 <= j < |groundTruth| ==>
      cost[i, j] == CostMatrix(prediction, groundTruth, score, threshold)[i][j]
    ensures forall i, j :: 0 <= i < |prediction| && 0 <= j < |groundTruth| ==>
      cost[i, j] == 0.0 || cost[i, j] >= threshold
  {
    cost := new real[|prediction|, |groundTruth|]((i, j) => 0.0);
    for i := 0 to |prediction|
      invariant forall i', j :: 0 <= i' < i && 0 <= j < |groundTruth| ==>
        cost[i', j] == Thresholded(score(prediction[i'], groundTruth[j]), threshold)
    {
      for j := 0 to |groundTruth|
        invariant forall i', j' :: 0 <= i' < i && 0 <= j' < |groundTruth| ==>
          cost[i', j'] == Thresholded(score(prediction[i'], groundTruth[j']), threshold)
        invariant forall j' :: 0 <= j' < j ==>
          cost[i, j'] == Thresholded(score(prediction[i], groundTruth[j']), threshold)
      {
        var s := score(prediction[i], groundTruth[j]);
        cost[i, j] := if s >= threshold then s else 0.0;
      }
    }
  }

  /** `cost_matrix[idxs1, idxs2]`: the cells the solver paired. */
  function Selected(cost: seq<seq<real>>, a: Assignment): (s: seq<real>)
    requires IsAssignment(a, |cost|, Width(cost))
    requires forall i :: 0 <= i < |cost| ==> |cost[i]| == Width(cost)
    ensures |s| == |a.rows|
    ensures forall k :: 0 <= k < |s| ==> s[k] == cost[a.rows[k]][a.cols[k]]
  {
    seq(|a.rows|, k requires 0 <= k < |a.rows| => cost[a.rows[k]][a.cols[k]])
  }

  /** The test `selected >= threshold` applies to each entry. */
  function AtLeast(threshold: real): real -> bool {
    x => x >= threshold
  }

  /** `len(selected[selected >= threshold])`: the number of entries that
      reach the threshold; none when all are below it, all when none is. */
  function CountAtLeast(s: seq<real>, threshold: real): (n: nat)
    ensures n <= |s|
    ensures n == 0 <==> forall k :: 0 <= k < |s| ==> s[k] < threshold
    ensures n == |s| <==> forall k :: 0 <= k < |s| ==> s[k] >= threshold
  {
    if s == [] then 0
    else (if s[0] >= threshold then 1 else 0) + CountAtLeast(s[1..], threshold)
  }

  /** The count is the length of the list of entries that reach the
      threshold, kept in order. */
  lemma {:induction false} CountAtLeastFilter(s: seq<real>, threshold: real)
    ensures CountAtLeast(s, threshold) == |Filter(s, AtLeast(threshold))|
  {
    if s != [] {
      CountAtLeastFilter(s[1..], threshold);
    }
  }

  /** The number of cells the solver pairs whose cost reaches the
      threshold: the true positives of `uic_bb_f1_score`. */
  function Matches<T>(prediction: seq<T>, groundTruth: seq<T>, score: (T, T) -> real, threshold: real,
                      solve: seq<seq<real>> -> Assignment): (m: nat)
    requires IsSolver(solve)
    ensures m <= |prediction| && m <= |groundTruth|
  {
    var cost := CostMatrix(prediction, groundTruth, score, threshold);
    CountAtLeast(Selected(cost, solve(cost)), threshold)
  }

  /** `uic_bb_f1_score(prediction, ground_truth, score_func, threshold)`,
      with `solve` standing for `linear_sum_assignment(-cost_matrix)`. */
  function UicBbF1<T>(prediction: seq<T>, groundTruth: seq<T>, score: (T, T) -> real, threshold: real,
                      solve: seq<seq<real>> -> Assignment): (r: real)
    requires IsSolver(solve)
    ensures 0.0 <= r <= 1.0
    ensures r == 1.0 ==> |prediction| == |groundTruth|
  {
    if prediction == [] && groundTruth == [] then 1.0
    else if prediction == [] || groundTruth == [] then 0.0
    else F1FromCounts(Matches(prediction, groundTruth, score, threshold, solve), |prediction|, |groundTruth|)
  }

  /** The degenerate rules: two empty lists score 1, one empty list 0. */
  lemma UicBbF1Degenerate<T>(prediction: seq<T>, groundTruth: seq<T>, score: (T, T) -> real, threshold: real,
                             solve: seq<seq<real>> -> Assignment)
    requires IsSolver(solve)
    ensures prediction == [] && groundTruth == [] ==> UicBbF1(prediction, groundTruth, score, threshold, solve) == 1.0
    ensures (prediction == []) != (groundTruth == []) ==> UicBbF1(prediction, groundTruth, score, threshold, solve) == 0.0
  {
  }

  /** For non-empty lists the score is 2m/(|prediction| + |groundTruth|)
      for the m matched pairs, and it is 1 exactly when the lists have the
      same length and every pair the solver chose is a match. */
  lemma UicBbF1FromMatches<T>(prediction: seq<T>, groundTruth: seq<T>, score: (T, T) -> real, threshold: real,
                              solve: seq<seq<real>> -> Assignment)
    requires IsSolver(solve)
    requires prediction != [] && groundTruth != []
    ensures var m := Matches(prediction, groundTruth, score, threshold, solve);
            UicBbF1(prediction, groundTruth, score, threshold, solve) == (2 * m) as real / (|prediction| + |groundTruth|) as real
    ensures UicBbF1(prediction, groundTruth, score, threshold, solve) == 1.0 <==>
            Matches(prediction, groundTruth, score, threshold, solve) == |prediction| == |groundTruth|
  {
  }

  /** The scores of the pairs the solver chose, read from the score
      function rather than from the cost matrix. */
  function PairScores<T>(prediction: seq<T>, groundTruth: seq<T>, score: (T, T) -> real, a: Assignment): (s: seq<real>)
    requires IsAssignment(a, |prediction|, |groundTruth|)
    ensures |s| == |a.rows|
    ensures forall k :: 0 <= k < |s| ==> s[k] == score(prediction[a.rows[k]], groundTruth[a.cols[k]])
  {
    seq(|a.rows|, k requires 0 <= k < |a.rows| => score(prediction[a.rows[k]], groundTruth[a.cols[k]]))
  }

  /** With a positive threshold, the matches are exactly the chosen pairs
      whose own score reaches the threshold. */
  lemma MatchesCountScores<T>(prediction: seq<T>, groundTruth: seq<T>, score: (T, T) -> real, threshold: real,
                              solve: seq<seq<real>> -> Assignment)
    requires IsSolver(solve)
    requires 0.0 < threshold
    ensures var cost := CostMatrix(prediction, groundTruth, score, threshold);
            Matches(prediction, groundTruth, score, threshold, solve) ==
            CountAtLeast(PairScores(prediction, groundTruth, score, solve(cost)), threshold)
  {
    var cost := CostMatrix(prediction, groundTruth, score, threshold);
    var a := solve(cost);
    assert IsAssignment(a, |prediction|, |groundTruth|) by {
      if prediction == [] {
        assert MinNat(|prediction|, |groundTruth|) == 0 == MinNat(|cost|, Width(cost));
      }
    }
    CountThresholded(PairScores(prediction, groundTruth, score, a), Selected(cost, a), threshold);
  }

  /** Thresholding cells first does not change which of them reach a
      positive threshold. */
  lemma {:induction false} CountThresholded(scores: seq<real>, cells: seq<real>, threshold: real)
    requires 0.0 < threshold
    requires |scores| == |cells|
    requires forall k :: 0 <= k < |cells| ==> cells[k] == Thresholded(scores[k], threshold)
    ensures CountAtLeast(cells, threshold) == CountAtLeast(scores, threshold)
  {
    if scores != [] {
      CountThresholded(scores[1..], cells[1..], threshold);
    }
  }

  /** With a threshold of 0 or less every cell reaches it, so every pair
      the solver chooses counts as a match, whatever the scores. */
  lemma MatchesAtNonPositiveThreshold<T>(prediction: seq<T>, groundTruth: seq<T>, score: (T, T) -> real, threshold: real,
                                         solve: seq<seq<real>> -> Assignment)
    requires IsSolver(solve)
    requires threshold <= 0.0
    ensures Matches(prediction, groundTruth, score, threshold, solve) == MinNat(|prediction|, |groundTruth|)
  {
    var cost := CostMatrix(prediction, groundTruth, score, threshold);
    var a := solve(cost);
    assert ValidFor(a, cost);
    var cells := Selected(cost, a);
    CountAll(cells, threshold);
    if prediction == [] {
      assert MinNat(|prediction|, |groundTruth|) == 0 == MinNat(|cost|, Width(cost));
    }
  }

  /** Every entry reaches the threshold, so all of them are counted. */
  lemma {:induction false} CountAll(s: seq<real>, threshold: real)
    requires forall k :: 0 <= k < |s| ==> s[k] >= threshold
    ensures CountAtLeast(s, threshold) == |s|
  {
    if s != [] {
      CountAll(s[1..], threshold);
    }
  }

  /** `uic_bb_f1_score` run on an array: builds the cost matrix in place,
      hands a snapshot of it to the solver and counts the paired cells that
      reach the threshold. */
  method UicBbF1Score<T>(prediction: seq<T>, groundTruth: seq<T>, score: (T, T) -> real, threshold: real,
                         solve: seq<seq<real>> -> Assignment) returns (f1: real)
    requires IsSolver(solve)
    ensures f1 == UicBbF1(prediction, groundTruth, score, threshold, solve)
  {
    if prediction == [] && groundTruth == [] {
      return 1.0;
    }
    if prediction == [] || groundTruth == [] {
      return 0.0;
    }
    var cost := BuildCostMatrix(prediction, groundTruth, score, threshold);
    var n, m := cost.Length0, cost.Length1;
    var snapshot := seq(n, i requires 0 <= i < n reads cost =>
      seq(m, j requires 0 <= j < m reads cost => cost[i, j]));
    ghost var expected := CostMatrix(prediction, groundTruth, score, threshold);
    assert snapshot == expected by {
      forall i | 0 <= i < n ensures snapshot[i] == expected[i] {
        assert forall j :: 0 <= j < m ==> snapshot[i][j] == expected[i][j];
      }
    }
    var a := solve(snapshot);
    var selected := seq(|a.rows|, k requires 0 <= k < |a.rows| reads cost => cost[a.rows[k], a.cols[k]]);
    assert selected == Selected(expected, a);
    var matches := CountAtLeast(selected, threshold);
    f1 := F1FromCounts(matches, n, m);
  }

  // ---------------------------------------------------------- SQA-UIC-BB

  /** The score `sqa_uic_bb_metrics` pairs elements by: IoU for the same
      content, 0 otherwise. It is 1 only for identical elements with a
      proper box, and reaches a positive threshold exactly when the two
      elements match at that threshold. */
  function ElementScore(e1: UiElement, e2: UiElement): (r: real)
    ensures 0.0 <= r <= 1.0
    ensures e1.content != e2.content ==> r == 0.0
    ensures r == 1.0 <==> e1 == e2 && Proper(e1.bbox)
    ensures forall t :: 0.0 < t ==> (r >= t <==> UiElementsMatch(e1, e2, t))
  {
    IouOneIffSameBox(e1.bbox, e2.bbox);
    if e1.content == e2.content then Iou(e1.bbox, e2.bbox) else 0.0
  }

  /** `[bbox for bbox, _ in elements]`. */
  function BoxesOf(elements: seq<UiElement>): (boxes: seq<Box>)
    ensures |boxes| == |elements|
    ensures forall i :: 0 <= i < |elements| ==> boxes[i] == elements[i].bbox
  {
    seq(|elements|, i requires 0 <= i < |elements| => elements[i].bbox)
  }

  predicate HasElements(gt: seq<UiElement>) {
    gt != []
  }

  /** `[[bbox for bbox, _ in gt] for gt in gts]`. */
  function BoxesEach(gts: seq<seq<UiElement>>): (r: seq<seq<Box>>)
    ensures |r| == |gts|
    ensures forall i :: 0 <= i < |gts| ==> r[i] == BoxesOf(gts[i])
  {
    seq(|gts|, i requires 0 <= i < |gts| => BoxesOf(gts[i]))
  }

  /** `[uic_bb_f1_score(prediction, gt, ...) for gt in gts]`. */
  function UicBbF1Each<T>(prediction: seq<T>, gts: seq<seq<T>>, score: (T, T) -> real, threshold: real,
                          solve: seq<seq<real>> -> Assignment): (f1s: seq<real>)
    requires IsSolver(solve)
    ensures |f1s| == |gts|
    ensures forall i :: 0 <= i < |gts| ==> f1s[i] == UicBbF1(prediction, gts[i], score, threshold, solve)
  {
    seq(|gts|, i requires 0 <= i < |gts| => UicBbF1(prediction, gts[i], score, threshold, solve))
  }

  /** `max(uic_bb_f1_score(prediction, gt, ...) for gt in gts)`: the best
      score over the references, attained by one of them. */
  function BestUicBbF1<T>(prediction: seq<T>, gts: seq<seq<T>>, score: (T, T) -> real, threshold: real,
                          solve: seq<seq<real>> -> Assignment): (r: real)
    requires IsSolver(solve)
    requires gts != []
    ensures 0.0 <= r <= 1.0
    ensures forall i :: 0 <= i < |gts| ==> UicBbF1(prediction, gts[i], score, threshold, solve) <= r
    ensures exists i :: 0 <= i < |gts| && r == UicBbF1(prediction, gts[i], score, threshold, solve)
  {
    var f1s := UicBbF1Each(prediction, gts, score, threshold, solve);
    MaxAtIndex(f1s);
    Max(f1s)
  }

  /** `any(uic_bb_exact_match(prediction, gt, emThreshold) for gt in gts)`. */
  function AnyExactMatch(prediction: seq<UiElement>, gts: seq<seq<UiElement>>, emThreshold: real): (r: bool)
    ensures r <==> exists gt :: gt in gts && UicBbExactMatch(prediction, gt, emThreshold)
  {
    if gts == [] then false
    else UicBbExactMatch(prediction, gts[0], emThreshold) || AnyExactMatch(prediction, gts[1..], emThreshold)
  }

  /** The exact-match part over the references that list elements. */
  function ExactMatchPart(prediction: seq<UiElement>, groundTruths: seq<seq<UiElement>>, emThreshold: real): (em: int)
    ensures em in {0, 1}
    ensures em == 1 <==> exists gt :: gt in groundTruths && gt != [] && UicBbExactMatch(prediction, gt, emThreshold)
  {
    var kept := Filter(groundTruths, HasElements);
    if AnyExactMatch(prediction, kept, emThreshold) then 1 else 0
  }

  /** The three SQA-UIC-BB scores with the IoU threshold of the F1 parts and
      the IoU threshold of the exact-match part given separately. */
  function SqaUicBbScores(prediction: seq<UiElement>, groundTruths: seq<seq<UiElement>>,
                          iouThreshold: real, emThreshold: real,
                          solve: seq<seq<real>> -> Assignment): (r: BbScores)
    requires IsSolver(solve)
    ensures r.exactMatch in {0, 1} && 0.0 <= r.bboxF1 <= 1.0 && 0.0 <= r.f1 <= 1.0
    ensures prediction == [] ==>
      r == (if [] in groundTruths then BbScores(1.0, 1, 1.0) else BbScores(0.0, 0, 0.0))
    ensures prediction != [] && (forall gt :: gt in groundTruths ==> gt == []) ==> r == BbScores(0.0, 0, 0.0)
    ensures prediction != [] ==>
      (r.exactMatch == 1 <==> exists gt :: gt in groundTruths && gt != [] && UicBbExactMatch(prediction, gt, emThreshold))
  {
    if prediction == [] then
      if [] in groundTruths then BbScores(1.0, 1, 1.0) else BbScores(0.0, 0, 0.0)
    else
      var kept := Filter(groundTruths, HasElements);
      if kept == [] then BbScores(0.0, 0, 0.0)
      else
        assert kept[0] in kept;
        BbScores(BestUicBbF1(BoxesOf(prediction), BoxesEach(kept), Iou, iouThreshold, solve),
                 ExactMatchPart(prediction, groundTruths, emThreshold),
                 BestUicBbF1(prediction, kept, ElementScore, iouThreshold, solve))
  }

  /** `sqa_uic_bb_metrics(prediction, ground_truths, iou_threshold)` as
      written: the exact-match part calls `uic_bb_exact_match` without the
      threshold and so always uses the default 0.1. */
  function SqaUicBbMetrics(prediction: seq<UiElement>, groundTruths: seq<seq<UiElement>>, iouThreshold: real,
                           solve: seq<seq<real>> -> Assignment): (r: BbScores)
    requires IsSolver(solve)
    ensures prediction != [] ==>
      (r.exactMatch == 1 <==> exists gt :: gt in groundTruths && gt != [] && UicBbExactMatch(prediction, gt, DefaultIouThreshold))
  {
    SqaUicBbScores(prediction, groundTruths, iouThreshold, DefaultIouThreshold, solve)
  }

  /** The exact-match part as the docstring describes it (EM at the given
      IoU): the caller's threshold is passed on. */
  function SqaUicBbMetricsAtThreshold(prediction: seq<UiElement>, groundTruths: seq<seq<UiElement>>, iouThreshold: real,
                                      solve: seq<seq<real>> -> Assignment): (r: BbScores)
    requires IsSolver(solve)
    ensures prediction != [] ==>
      (r.exactMatch == 1 <==> exists gt :: gt in groundTruths && gt != [] && UicBbExactMatch(prediction, gt, iouThreshold))
  {
    SqaUicBbScores(prediction, groundTruths, iouThreshold, iouThreshold, solve)
  }

  /** The F1 parts are the best scores over the references that list
      elements, each attained by one of them. */
  lemma SqaUicBbF1IsBest(prediction: seq<UiElement>, groundTruths: seq<seq<UiElement>>,
                         iouThreshold: real, emThreshold: real, solve: seq<seq<real>> -> Assignment)
    requires IsSolver(solve)
    requires prediction != []
    ensures var r := SqaUicBbScores(prediction, groundTruths, iouThreshold, emThreshold, solve);
            forall gt :: gt in groundTruths && gt != [] ==>
              && UicBbF1(BoxesOf(prediction), BoxesOf(gt), Iou, iouThreshold, solve) <= r.bboxF1
              && UicBbF1(prediction, gt, ElementScore, iouThreshold, solve) <= r.f1
    ensures var r := SqaUicBbScores(prediction, groundTruths, iouThreshold, emThreshold, solve);
            (exists gt :: gt in groundTruths && gt != []) ==>
              && (exists gt :: gt in groundTruths && gt != [] && r.bboxF1 == UicBbF1(BoxesOf(prediction), BoxesOf(gt), Iou, iouThreshold, solve))
              && (exists gt :: gt in groundTruths && gt != [] && r.f1 == UicBbF1(prediction, gt, ElementScore, iouThreshold, solve))
  {
    var kept := Filter(groundTruths, HasElements);
    var boxes := BoxesEach(kept);
    forall gt | gt in groundTruths && gt != []
      ensures UicBbF1(BoxesOf(prediction), BoxesOf(gt), Iou, iouThreshold, solve) <= BestUicBbF1(BoxesOf(prediction), boxes, Iou, iouThreshold, solve)
      ensures UicBbF1(prediction, gt, ElementScore, iouThreshold, solve) <= BestUicBbF1(prediction, kept, ElementScore, iouThreshold, solve)
    {
      assert gt in kept;
      var i :| 0 <= i < |kept| && kept[i] == gt;
      assert boxes[i] == BoxesOf(gt);
    }
    if kept != [] {
      var i :| 0 <= i < |boxes| && BestUicBbF1(BoxesOf(prediction), boxes, Iou, iouThreshold, solve)
                                   == UicBbF1(BoxesOf(prediction), boxes[i], Iou, iouThreshold, solve);
      assert kept[i] in kept;
      var j :| 0 <= j < |kept| && BestUicBbF1(prediction, kept, ElementScore, iouThreshold, solve)
                                  == UicBbF1(prediction, kept[j], ElementScore, iouThreshold, solve);
      assert kept[j] in kept;
    }
  }

  /** As written, the exact-match part is the same whatever IoU threshold
      the caller passes. */
  lemma SqaUicBbExactMatchIgnoresThreshold(prediction: seq<UiElement>, groundTruths: seq<seq<UiElement>>,
                                           t1: real, t2: real, solve: seq<seq<real>> -> Assignment)
    requires IsSolver(solve)
    ensures SqaUicBbMetrics(prediction, groundTruths, t1, solve).exactMatch
         == SqaUicBbMetrics(prediction, groundTruths, t2, solve).exactMatch
  {
  }

  /** A prediction whose box covers a quarter of the union with the
      reference box: IoU 0.25. At an IoU threshold of 0.5 the elements do not
      match, yet the as-written metric reports an exact match, which the
      corrected one does not. */
  lemma ExactMatchThresholdCounterexample(solve: seq<seq<real>> -> Assignment)
    requires IsSolver(solve)
    ensures var prediction := [UiElement(Box(0, 0, 1, 4), "OK")];
            var groundTruths := [[UiElement(Box(0, 0, 1, 1), "OK")]];
            && !UiElementsMatch(prediction[0], groundTruths[0][0], 0.5)
            && SqaUicBbMetrics(prediction, groundTruths, 0.5, solve).exactMatch == 1
            && SqaUicBbMetricsAtThreshold(prediction, groundTruths, 0.5, solve).exactMatch == 0
  {
    var b1, b2 := Box(0, 0, 1, 4), Box(0, 0, 1, 1);
    assert Overlap(b1, b2) == b2;
    assert IntersectionArea(b1, b2) == 1;
    assert Iou(b1, b2) == 0.25;
    var prediction := [UiElement(b1, "OK")];
    var gt := [UiElement(b2, "OK")];
    var groundTruths := [gt];
    assert UicBbExactMatch(prediction, gt, DefaultIouThreshold);
    assert gt in groundTruths;
    forall g | g in groundTruths ensures !UicBbExactMatch(prediction, g, 0.5) {
      assert g == gt;
      assert !UiElementsMatch(prediction[0], g[0], 0.5);
    }
  }
}
