/**
 * The pairwise synergy decoder and the query it answers (streamlit_app.py:60-62,
 * 125-131). Embedding entries are unbounded integers rather than 32-bit floats
 * (think of a fixed-point scale), probabilities are reals, and the logistic sigmoid
 * is a parameter: where a property needs some of its shape, the lemma states that
 * shape as a hypothesis.
 */
module Synergy {
  import opened Config
  import opened Drugs

  type Vector = seq<int>

  /** Elementwise product `embeddings[i] * embeddings[j]`. */
  function Product(u: Vector, v: Vector): (w: Vector)
    requires |u| == |v|
    ensures |w| == |u|
    ensures forall k :: 0 <= k < |w| ==> w[k] == u[k] * v[k]
  {
    seq(|u|, k requires 0 <= k < |u| => u[k] * v[k])
  }

  /** `.sum()` of a vector. */
  function Sum(v: Vector): int
    decreases |v|
  {
    if v == [] then 0 else v[0] + Sum(v[1..])
  }

  /** The sum of the squares of a vector's entries, defined on its own. */
  function SumOfSquares(v: Vector): int
    decreases |v|
  {
    if v == [] then 0 else v[0] * v[0] + SumOfSquares(v[1..])
  }

  /** Row `i` and row `j` exist and have the same width, as in the embedding tensor. */
  predicate ValidPair(embeddings: seq<Vector>, i: int, j: int) {
    0 <= i < |embeddings| && 0 <= j < |embeddings| && |embeddings[i]| == |embeddings[j]|
  }

  /** Line 61: `(embeddings[i] * embeddings[j]).sum()`. */
  function DotProduct(embeddings: seq<Vector>, i: int, j: int): int
    requires ValidPair(embeddings, i, j)
  {
    Sum(Product(embeddings[i], embeddings[j]))
  }

  /** Lines 60-62: `decode(embeddings, i, j)`, the sigmoid of the dot product. */
  function Decode(sigmoid: int -> real, embeddings: seq<Vector>, i: int, j: int): real
    requires ValidPair(embeddings, i, j)
  {
    sigmoid(DotProduct(embeddings, i, j))
  }

  /** The two labels of line 127. */
  datatype Verdict = Synergistic | NotSynergistic {
    /** The text the page shows; the two labels read differently. */
    function Text(): (t: string)
      ensures t == "Synergistic ✅" <==> this == Synergistic
    {
      match this
      case Synergistic => "Synergistic ✅"
      case NotSynergistic => "Not Synergistic ❌"
    }
  }

  /** Line 127: the label is Synergistic exactly when the probability is strictly above the threshold. */
  function Classify(prob: real): (v: Verdict)
    ensures v == Synergistic <==> prob > Threshold
  {
    if prob > Threshold then Synergistic else NotSynergistic
  }

  /** The result of one query (lines 125-131). */
  datatype Prediction = Prediction(probability: real, verdict: Verdict, name1: string, name2: string)

  /** Lines 125-131: decode, label, and resolve both names. */
  function Predict(sigmoid: int -> real, embeddings: seq<Vector>, i: int, j: int): (p: Prediction)
    requires ValidPair(embeddings, i, j)
    ensures p.verdict == Synergistic <==> p.probability > Threshold
    ensures p.probability == sigmoid(DotProduct(embeddings, i, j))
    ensures p.name1 == DrugName(i) && p.name2 == DrugName(j)
  {
    var prob := Decode(sigmoid, embeddings, i, j);
    Prediction(prob, Classify(prob), DrugName(i), DrugName(j))
  }

  // ---------------------------------------------------------------- properties

  /** Lines 125-127: the page shows "Synergistic ✅" exactly when decode is strictly above 0.5. */
  lemma PredictLabel(sigmoid: int -> real, embeddings: seq<Vector>, i: int, j: int)
    requires ValidPair(embeddings, i, j)
    ensures Predict(sigmoid, embeddings, i, j).verdict.Text() == "Synergistic ✅"
      <==> Decode(sigmoid, embeddings, i, j) > Threshold
  {
  }

  /** The elementwise product commutes. */
  lemma ProductCommutes(u: Vector, v: Vector)
    requires |u| == |v|
    ensures Product(u, v) == Product(v, u)
  {
  }

  /** The dot product, and hence decode, does not depend on the order of the two drugs. */
  lemma DecodeSymmetric(sigmoid: int -> real, embeddings: seq<Vector>, i: int, j: int)
    requires ValidPair(embeddings, i, j)
    ensures ValidPair(embeddings, j, i)
    ensures DotProduct(embeddings, i, j) == DotProduct(embeddings, j, i)
    ensures Decode(sigmoid, embeddings, i, j) == Decode(sigmoid, embeddings, j, i)
  {
    ProductCommutes(embeddings[i], embeddings[j]);
  }

  /** Swapping the two drugs of a query swaps the names and keeps probability and label. */
  lemma PredictSwap(sigmoid: int -> real, embeddings: seq<Vector>, i: int, j: int)
    requires ValidPair(embeddings, i, j)
    ensures ValidPair(embeddings, j, i)
    ensures Predict(sigmoid, embeddings, j, i) ==
      var p := Predict(sigmoid, embeddings, i, j); Prediction(p.probability, p.verdict, p.name2, p.name1)
  {
    DecodeSymmetric(sigmoid, embeddings, i, j);
  }

  /** The sum of a vector times itself is its sum of squares. */
  lemma {:induction false} SelfProductSum(v: Vector)
    ensures Sum(Product(v, v)) == SumOfSquares(v)
    decreases |v|
  {
    if v != [] {
      forall k | 0 <= k < |v| - 1 ensures Product(v, v)[1..][k] == Product(v[1..], v[1..])[k] {
        assert v[1..][k] == v[k + 1];
      }
      assert Product(v, v)[1..] == Product(v[1..], v[1..]);
      SelfProductSum(v[1..]);
    }
  }

  /** A sum of squares is never negative, and is zero exactly for the zero vector. */
  lemma {:induction false} SumOfSquaresSign(v: Vector)
    ensures SumOfSquares(v) >= 0
    ensures SumOfSquares(v) == 0 <==> forall k :: 0 <= k < |v| ==> v[k] == 0
    decreases |v|
  {
    if v != [] {
      var tail := v[1..];
      SumOfSquaresSign(tail);
      assert forall k :: 1 <= k < |v| ==> v[k] == tail[k - 1];
      if v[0] == 0 && exists k :: 0 <= k < |v| && v[k] != 0 {
        var k :| 0 <= k < |v| && v[k] != 0;
        assert tail[k - 1] != 0;
      }
    }
  }

  /** A self-pair scores the sum of squares of its embedding, so its dot product is never negative. */
  lemma SelfPairDot(embeddings: seq<Vector>, i: int)
    requires 0 <= i < |embeddings|
    ensures ValidPair(embeddings, i, i)
    ensures DotProduct(embeddings, i, i) == SumOfSquares(embeddings[i])
    ensures DotProduct(embeddings, i, i) >= 0
  {
    SelfProductSum(embeddings[i]);
    SumOfSquaresSign(embeddings[i]);
  }

  /** The sum of a vector of zeros is zero. */
  lemma {:induction false} SumOfZeros(v: Vector)
    requires forall k :: 0 <= k < |v| ==> v[k] == 0
    ensures Sum(v) == 0
    decreases |v|
  {
    if v != [] {
      assert forall k :: 0 <= k < |v[1..]| ==> v[1..][k] == v[k + 1];
      SumOfZeros(v[1..]);
    }
  }

  /** The shape of the logistic function this model relies on: 0.5 at zero, strictly increasing. */
  ghost predicate LogisticShape(sigmoid: int -> real) {
    && sigmoid(0) == 0.5
    && forall x, y :: x < y ==> sigmoid(x) < sigmoid(y)
  }

  /** Self-pair scenario: a self-pair with a nonzero embedding is labelled Synergistic. */
  lemma SelfPairSynergistic(sigmoid: int -> real, embeddings: seq<Vector>, i: int)
    requires LogisticShape(sigmoid)
    requires 0 <= i < |embeddings|
    requires exists k :: 0 <= k < |embeddings[i]| && embeddings[i][k] != 0
    ensures ValidPair(embeddings, i, i)
    ensures Predict(sigmoid, embeddings, i, i).verdict == Synergistic
  {
    SelfPairDot(embeddings, i);
    SumOfSquaresSign(embeddings[i]);
    assert sigmoid(0) < sigmoid(DotProduct(embeddings, i, i));
  }

  /** All-zero scenario: zero embeddings score exactly sigmoid(0) = 0.5, which is NotSynergistic. */
  lemma ZeroEmbeddingsNotSynergistic(sigmoid: int -> real, embeddings: seq<Vector>, i: int, j: int)
    requires sigmoid(0) == 0.5
    requires ValidPair(embeddings, i, j)
    requires forall k :: 0 <= k < |embeddings[i]| ==> embeddings[i][k] == 0
    ensures Decode(sigmoid, embeddings, i, j) == 0.5
    ensures Predict(sigmoid, embeddings, i, j).verdict == NotSynergistic
  {
    SumOfZeros(Product(embeddings[i], embeddings[j]));
  }

  /** The threshold is strict: exactly 0.5 is NotSynergistic, and the label only improves as the probability grows. */
  lemma ClassifyBoundary(p: real, q: real)
    ensures Classify(Threshold) == NotSynergistic
    ensures p <= q && Classify(p) == Synergistic ==> Classify(q) == Synergistic
  {
  }
}
