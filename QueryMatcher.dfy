/**
 * The choice of the best article in `ask`: the similarity scores come from an
 * embedding model and are taken here as given, one per article in corpus order.
 * `torch.argmax` picks the first maximal score, and a best score below 0.3
 * means "no relevant article".
 */
module QueryMatcher {

  /** The relevance threshold of app.py: a best score strictly below it is rejected. */
  const Threshold: real := 0.3

  /** `i` holds a maximal score, and every earlier score is strictly smaller. */
  ghost predicate IsFirstMax(scores: seq<real>, i: nat) {
    && i < |scores|
    && (forall j :: 0 <= j < |scores| ==> scores[j] <= scores[i])
    && (forall j :: 0 <= j < i ==> scores[j] < scores[i])
  }

  /** `torch.argmax(sims)` on a non-empty score vector: the index of the first maximal score. */
  function ArgMax(scores: seq<real>): (i: nat)
    requires |scores| > 0
    ensures i < |scores|
    ensures forall j :: 0 <= j < |scores| ==> scores[j] <= scores[i]
    ensures forall j :: 0 <= j < i ==> scores[j] < scores[i]
  {
    if |scores| == 1 then 0
    else
      var k := ArgMax(scores[..|scores| - 1]);
      if scores[|scores| - 1] > scores[k] then |scores| - 1 else k
  }

  /** Only one index is the first maximum, so the tie-break leaves no choice. */
  lemma FirstMaxIsUnique(scores: seq<real>, i: nat, k: nat)
    requires IsFirstMax(scores, i) && IsFirstMax(scores, k)
    ensures i == k
  {
    assert scores[i] == scores[k];
  }
}
