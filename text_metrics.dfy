/** Per-question scores for the two tasks without bounding boxes of code/metrics.py:
    SQA-S (`sqa_s_metrics`, a short text answer against several reference
    answers) and SQA-UIC (`sqa_uic_metrics`, a list of UI elements against
    several reference lists). Each returns an exact-match flag (0 or 1) and
    the best F1 over the references. */
module TextMetrics {
  import opened Seqs
  import opened Squad
  import opened TokenF1

  /** The sentinel a rater or model writes when the screen holds no answer. */
  const NoAnswer: string := "<no answer>"

  datatype Scores = Scores(exactMatch: int, f1: real)

  predicate IsAnswer(gt: string) {
    gt != NoAnswer
  }

  predicate IsNonEmpty<T>(s: seq<T>) {
    s != []
  }

  /** The F1 score of each reference against the same prediction. */
  function F1Each<T(==)>(prediction: seq<T>, references: seq<seq<T>>): (s: seq<real>)
    ensures |s| == |references|
    ensures forall i :: 0 <= i < |s| ==> s[i] == F1Score(prediction, references[i])
  {
    seq(|references|, i requires 0 <= i < |references| => F1Score(prediction, references[i]))
  }

  /** The best of the F1 scores against several references is reached by
      one of them and exceeded by none. */
  lemma BestReference<T>(prediction: seq<T>, references: seq<seq<T>>)
    requires |references| > 0
    ensures forall i :: 0 <= i < |references| ==> F1Score(prediction, references[i]) <= Max(F1Each(prediction, references))
    ensures exists i :: 0 <= i < |references| && F1Score(prediction, references[i]) == Max(F1Each(prediction, references))
  {
    var f1s := F1Each(prediction, references);
    assert f1s[0] in f1s;
    forall i | 0 <= i < |references| ensures F1Score(prediction, references[i]) <= Max(f1s) {
      assert f1s[i] in f1s;
    }
    var k :| 0 <= k < |f1s| && f1s[k] == Max(f1s);
  }

  /** `normalize_squad(s).split()`: the tokens an answer is scored on.
      Each is a whitespace-free word with no capital and no punctuation,
      and none is an article. */
  function AnswerTokens(s: string): (ts: seq<string>)
    ensures forall t :: t in ts ==> IsToken(t) && Clean(t) && !IsArticle(t)
  {
    var normalized := Normalize(s);
    var ts := Split(normalized);
    forall t | t in ts ensures Clean(t) && !IsArticle(t) {
      NormalizeDropsArticles(s, t);
      assert forall i :: 0 <= i < |t| ==> t[i] in t;
      assert forall i :: 0 <= i < |normalized| ==> normalized[i] in normalized;
    }
    ts
  }

  /** `[normalize_squad(gt).split() for gt in gts]`. */
  function TokensEach(gts: seq<string>): (s: seq<seq<string>>)
    ensures |s| == |gts|
    ensures forall i :: 0 <= i < |s| ==> s[i] == AnswerTokens(gts[i])
  {
    seq(|gts|, i requires 0 <= i < |gts| => AnswerTokens(gts[i]))
  }

  /** `[normalize_squad(gt) for gt in gts]`. */
  function NormalizeEach(gts: seq<string>): (s: seq<string>)
    ensures |s| == |gts|
    ensures forall i :: 0 <= i < |s| ==> s[i] == Normalize(gts[i])
  {
    seq(|gts|, i requires 0 <= i < |gts| => Normalize(gts[i]))
  }

  // ---------------------------------------------------------------- SQA-S

  /** `sqa_s_metrics(prediction, ground_truths)`. Exact match is 1 iff the
      prediction is the sentinel and some reference is too, or the
      normalised prediction equals the normalised form of some reference
      that is not the sentinel. */
  function SqaSMetrics(prediction: string, groundTruths: seq<string>): (r: Scores)
    ensures r.exactMatch in {0, 1} && 0.0 <= r.f1 <= 1.0
    ensures prediction == NoAnswer ==> (r.exactMatch == 1 <==> NoAnswer in groundTruths)
    ensures prediction != NoAnswer ==>
      (r.exactMatch == 1 <==> exists gt :: gt in groundTruths && IsAnswer(gt) && Normalize(gt) == Normalize(prediction))
  {
    if prediction == NoAnswer then
      if NoAnswer in groundTruths then Scores(1, 1.0) else Scores(0, 0.0)
    else
      var kept := Filter(groundTruths, IsAnswer);
      if kept == [] then Scores(0, 0.0)
      else
        var normalized := Normalize(prediction);
        var references := NormalizeEach(kept);
        var exactMatch := if normalized in references then 1 else 0;
        var f1s := F1Each(AnswerTokens(prediction), TokensEach(kept));
        NormalizedMember(prediction, groundTruths);
        assert f1s[0] in f1s;
        Scores(exactMatch, Max(f1s))
  }

  /** The normalised prediction is among the normalised answers exactly
      when some reference that is not the sentinel normalises to it. */
  lemma NormalizedMember(prediction: string, groundTruths: seq<string>)
    ensures Normalize(prediction) in NormalizeEach(Filter(groundTruths, IsAnswer)) <==>
      exists gt :: gt in groundTruths && IsAnswer(gt) && Normalize(gt) == Normalize(prediction)
  {
    var target := Normalize(prediction);
    if target in NormalizeEach(Filter(groundTruths, IsAnswer)) {
      MatchingAnswer(target, groundTruths);
    }
    if exists gt :: gt in groundTruths && IsAnswer(gt) && Normalize(gt) == target {
      var gt :| gt in groundTruths && IsAnswer(gt) && Normalize(gt) == target;
      MatchingReference(gt, groundTruths);
    }
  }

  lemma MatchingAnswer(target: string, groundTruths: seq<string>)
    requires target in NormalizeEach(Filter(groundTruths, IsAnswer))
    ensures exists gt :: gt in groundTruths && IsAnswer(gt) && Normalize(gt) == target
  {
    var kept := Filter(groundTruths, IsAnswer);
    var i :| 0 <= i < |kept| && NormalizeEach(kept)[i] == target;
    var top := kept[i];
    assert top in kept;
  }

  lemma MatchingReference(gt: string, groundTruths: seq<string>)
    requires gt in groundTruths && IsAnswer(gt)
    ensures Normalize(gt) in NormalizeEach(Filter(groundTruths, IsAnswer))
  {
    var kept := Filter(groundTruths, IsAnswer);
    assert gt in kept;
    var i :| 0 <= i < |kept| && kept[i] == gt;
    assert NormalizeEach(kept)[i] == Normalize(gt);
  }

  /** The sentinel rules: a sentinel prediction scores (1, 1) when some
      reference is the sentinel and (0, 0) otherwise; any other prediction
      scores (0, 0) when every reference is the sentinel. */
  lemma SqaSNoAnswer(prediction: string, groundTruths: seq<string>)
    ensures prediction == NoAnswer && NoAnswer in groundTruths ==> SqaSMetrics(prediction, groundTruths) == Scores(1, 1.0)
    ensures prediction == NoAnswer && NoAnswer !in groundTruths ==> SqaSMetrics(prediction, groundTruths) == Scores(0, 0.0)
    ensures prediction != NoAnswer && (forall gt :: gt in groundTruths ==> gt == NoAnswer) ==>
      SqaSMetrics(prediction, groundTruths) == Scores(0, 0.0)
  {
    if prediction != NoAnswer && forall gt :: gt in groundTruths ==> gt == NoAnswer {
      var kept := Filter(groundTruths, IsAnswer);
      if kept != [] {
        assert kept[0] in kept;
      }
    }
  }

  /** For an answer, the F1 part is the best token F1 over the normalised
      references that are not the sentinel: no reference scores higher and
      one scores exactly that. */
  lemma SqaSF1IsBest(prediction: string, groundTruths: seq<string>)
    requires prediction != NoAnswer
    requires exists gt :: gt in groundTruths && IsAnswer(gt)
    ensures forall gt :: gt in groundTruths && IsAnswer(gt) ==>
      F1Score(AnswerTokens(prediction), AnswerTokens(gt)) <= SqaSMetrics(prediction, groundTruths).f1
    ensures exists gt :: (gt in groundTruths && IsAnswer(gt) &&
      F1Score(AnswerTokens(prediction), AnswerTokens(gt)) == SqaSMetrics(prediction, groundTruths).f1)
  {
    AnswerF1IsMax(prediction, groundTruths);
    BestAnswerBounds(AnswerTokens(prediction), groundTruths);
    BestAnswerReached(AnswerTokens(prediction), groundTruths);
  }

  /** No answer that is not the sentinel scores above the maximum. */
  lemma BestAnswerBounds(tokens: seq<string>, groundTruths: seq<string>)
    requires |Filter(groundTruths, IsAnswer)| > 0
    ensures forall gt :: gt in groundTruths && IsAnswer(gt) ==>
      F1Score(tokens, AnswerTokens(gt)) <= Max(F1Each(tokens, TokensEach(Filter(groundTruths, IsAnswer))))
  {
    forall gt | gt in groundTruths && IsAnswer(gt)
      ensures F1Score(tokens, AnswerTokens(gt)) <= Max(F1Each(tokens, TokensEach(Filter(groundTruths, IsAnswer))))
    {
      AnswerBelowBest(tokens, groundTruths, gt);
    }
  }

  lemma AnswerBelowBest(tokens: seq<string>, groundTruths: seq<string>, gt: string)
    requires gt in groundTruths && IsAnswer(gt)
    ensures |Filter(groundTruths, IsAnswer)| > 0
    ensures F1Score(tokens, AnswerTokens(gt)) <= Max(F1Each(tokens, TokensEach(Filter(groundTruths, IsAnswer))))
  {
    var kept := Filter(groundTruths, IsAnswer);
    var references := TokensEach(kept);
    assert gt in kept;
    var i :| 0 <= i < |kept| && kept[i] == gt;
    BestReference(tokens, references);
    assert F1Score(tokens, references[i]) <= Max(F1Each(tokens, references));
  }

  /** Some answer that is not the sentinel scores exactly the maximum. */
  lemma BestAnswerReached(tokens: seq<string>, groundTruths: seq<string>)
    requires |Filter(groundTruths, IsAnswer)| > 0
    ensures exists gt :: (gt in groundTruths && IsAnswer(gt) &&
      F1Score(tokens, AnswerTokens(gt)) == Max(F1Each(tokens, TokensEach(Filter(groundTruths, IsAnswer)))))
  {
    var kept := Filter(groundTruths, IsAnswer);
    var references := TokensEach(kept);
    BestReference(tokens, references);
    var k :| 0 <= k < |references| && F1Score(tokens, references[k]) == Max(F1Each(tokens, references));
    var top := kept[k];
    assert top in kept;
    assert references[k] == AnswerTokens(top);
  }

  /** The F1 part of an answer's scores, as the maximum it is computed as. */
  lemma AnswerF1IsMax(prediction: string, groundTruths: seq<string>)
    requires prediction != NoAnswer
    requires exists gt :: gt in groundTruths && IsAnswer(gt)
    ensures |Filter(groundTruths, IsAnswer)| > 0
    ensures SqaSMetrics(prediction, groundTruths).f1 ==
      Max(F1Each(AnswerTokens(prediction), TokensEach(Filter(groundTruths, IsAnswer))))
  {
    var g0 :| g0 in groundTruths && IsAnswer(g0);
    assert g0 in Filter(groundTruths, IsAnswer);
  }

  /** Exact match forces full F1 whenever the normalised prediction is not
      empty (an answer made only of articles and punctuation normalises to
      the empty string, which has no tokens and so F1 0). */
  lemma SqaSExactMatchGivesFullF1(prediction: string, groundTruths: seq<string>)
    requires SqaSMetrics(prediction, groundTruths).exactMatch == 1
    requires Normalize(prediction) != ""
    ensures SqaSMetrics(prediction, groundTruths).f1 == 1.0
  {
    if prediction != NoAnswer {
      var gt :| gt in groundTruths && IsAnswer(gt) && Normalize(gt) == Normalize(prediction);
      var tokens := AnswerTokens(prediction);
      NormalizedHasTokens(prediction);
      SqaSF1IsBest(prediction, groundTruths);
      assert F1Score(tokens, tokens) == 1.0;
    }
  }

  /** An answer that normalises to the empty string has no tokens, so its
      F1 part is 0, yet it matches exactly any reference that also
      normalises to the empty string. */
  lemma SqaSEmptyNormalizedAnswer(prediction: string, groundTruths: seq<string>)
    requires prediction != NoAnswer
    requires Normalize(prediction) == ""
    ensures SqaSMetrics(prediction, groundTruths).f1 == 0.0
    ensures SqaSMetrics(prediction, groundTruths).exactMatch == 1 <==>
      exists gt :: gt in groundTruths && IsAnswer(gt) && Normalize(gt) == ""
  {
    var kept := Filter(groundTruths, IsAnswer);
    if kept != [] {
      var f1s := F1Each(AnswerTokens(prediction), TokensEach(kept));
      assert AnswerTokens(prediction) == [];
      assert Max(f1s) in f1s;
    }
  }

  /** "A" against the single reference "an": both normalise to the empty
      string, so they match exactly with F1 0, which is why the
      exact-match-gives-full-F1 rule needs a non-empty normalised answer. */
  lemma SqaSExactMatchWithoutTokens()
    ensures SqaSMetrics("A", ["an"]) == Scores(1, 0.0)
  {
    NormalizeLoneA();
    NormalizeLoneAn();
    assert "an" in ["an"];
    SqaSEmptyNormalizedAnswer("A", ["an"]);
  }

  /** References that are the sentinel play no part in scoring an answer. */
  lemma SqaSIgnoresSentinelReferences(prediction: string, groundTruths: seq<string>)
    requires prediction != NoAnswer
    ensures SqaSMetrics(prediction, Filter(groundTruths, IsAnswer)) == SqaSMetrics(prediction, groundTruths)
  {
    FilterIdempotent(groundTruths, IsAnswer);
  }

  // -------------------------------------------------------------- SQA-UIC

  /** `sqa_uic_metrics(prediction, ground_truths)` over lists of UI
      elements of any type with equality. */
  function SqaUicMetrics<T(==,!new)>(prediction: seq<T>, groundTruths: seq<seq<T>>): (r: Scores)
    ensures r.exactMatch in {0, 1} && 0.0 <= r.f1 <= 1.0
    ensures r.exactMatch == 1 <==> prediction in groundTruths
    ensures prediction == [] ==> r == (if [] in groundTruths then Scores(1, 1.0) else Scores(0, 0.0))
    ensures prediction != [] && (forall gt :: gt in groundTruths ==> gt == []) ==> r == Scores(0, 0.0)
  {
    if prediction == [] then
      if [] in groundTruths then Scores(1, 1.0) else Scores(0, 0.0)
    else
      var kept := Filter(groundTruths, IsNonEmpty);
      if kept == [] then Scores(0, 0.0)
      else
        var exactMatch := if prediction in kept then 1 else 0;
        var f1s := F1Each(prediction, kept);
        assert kept[0] in kept && f1s[0] in f1s;
        Scores(exactMatch, Max(f1s))
  }

  /** For a non-empty prediction, the F1 part is the best F1 over the
      non-empty references. */
  lemma SqaUicF1IsBest<T(!new)>(prediction: seq<T>, groundTruths: seq<seq<T>>)
    requires prediction != []
    requires exists gt :: gt in groundTruths && gt != []
    ensures forall gt :: gt in groundTruths && gt != [] ==> F1Score(prediction, gt) <= SqaUicMetrics(prediction, groundTruths).f1
    ensures exists gt :: gt in groundTruths && gt != [] && F1Score(prediction, gt) == SqaUicMetrics(prediction, groundTruths).f1
  {
    var kept := Filter(groundTruths, IsNonEmpty);
    var g0 :| g0 in groundTruths && g0 != [];
    assert g0 in kept;
    BestReference(prediction, kept);
    var k :| 0 <= k < |kept| && F1Score(prediction, kept[k]) == SqaUicMetrics(prediction, groundTruths).f1;
    var top := kept[k];
    assert top in kept;
    assert top in groundTruths && top != [];
  }

  /** Exact match (the prediction is one of the references, in order)
      forces full F1. */
  lemma SqaUicExactMatchGivesFullF1<T(!new)>(prediction: seq<T>, groundTruths: seq<seq<T>>)
    requires SqaUicMetrics(prediction, groundTruths).exactMatch == 1
    ensures SqaUicMetrics(prediction, groundTruths).f1 == 1.0
  {
    if prediction != [] {
      SqaUicF1IsBest(prediction, groundTruths);
      assert F1Score(prediction, prediction) == 1.0;
    }
  }

  /** The F1 part ignores the order of the predicted elements. */
  lemma SqaUicF1IgnoresOrder<T(!new)>(prediction: seq<T>, reordered: seq<T>, groundTruths: seq<seq<T>>)
    requires multiset(prediction) == multiset(reordered)
    ensures SqaUicMetrics(prediction, groundTruths).f1 == SqaUicMetrics(reordered, groundTruths).f1
  {
    assert |prediction| == |multiset(prediction)| == |reordered|;
    if prediction != [] {
      var kept := Filter(groundTruths, IsNonEmpty);
      forall i | 0 <= i < |kept| ensures F1Score(prediction, kept[i]) == F1Score(reordered, kept[i]) {
        F1ScoreIgnoresOrder(prediction, reordered, kept[i], kept[i]);
      }
      assert F1Each(prediction, kept) == F1Each(reordered, kept);
    }
  }

  /** Empty references are discarded before a non-empty prediction is
      scored. */
  lemma SqaUicIgnoresEmptyReferences<T(!new)>(prediction: seq<T>, groundTruths: seq<seq<T>>)
    requires prediction != []
    ensures SqaUicMetrics(prediction, Filter(groundTruths, IsNonEmpty)) == SqaUicMetrics(prediction, groundTruths)
  {
    FilterIdempotent(groundTruths, IsNonEmpty);
  }
}
