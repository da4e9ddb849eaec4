/** The feature explainer (`explain_features`): the vocabulary words present
    in a sentence, paired with their learned coefficients, ranked by absolute
    weight and cut to the first `top_n`.

    Fitting the vectorizer and the logistic regression is library work; the
    fitted vocabulary with its coefficients, and the set of tokens the
    vectorizer's analyzer extracts from the sentence, are inputs here. */
module Features {
  import Ranking

  /** The fitted model: feature names in feature-index order and the
      coefficient of each (`clf.coef_[0]`). */
  datatype Vocabulary = Vocabulary(names: seq<string>, coef: seq<real>) {
    /** One coefficient per feature, and feature names are unique. */
    predicate Valid() {
      && |names| == |coef|
      && forall i, j :: 0 <= i < j < |names| ==> names[i] != names[j]
    }
  }

  /** A `(word, weight)` pair of the result. */
  datatype Feature = Feature(word: string, weight: real)

  function Abs(x: real): real {
    if x < 0.0 then -x else x
  }

  function Min(a: int, b: int): int {
    if a <= b then a else b
  }

  function Max(a: int, b: int): int {
    if a >= b then a else b
  }

  /** The position of `w` in `xs`. */
  function IndexIn(xs: seq<string>, w: string): (i: nat)
    requires w in xs
    ensures i < |xs| && xs[i] == w
  {
    if xs[0] == w then 0 else 1 + IndexIn(xs[1..], w)
  }

  /** The feature index of a vocabulary word. */
  function IndexOf(v: Vocabulary, w: string): (i: nat)
    requires w in v.names
    ensures i < |v.names| && v.names[i] == w
  {
    IndexIn(v.names, w)
  }

  /** The coefficient of a vocabulary word. */
  function WeightOf(v: Vocabulary, w: string): real
    requires v.Valid() && w in v.names
  {
    v.coef[IndexOf(v, w)]
  }

  /** The distinct vocabulary words that occur among the sentence's tokens. */
  function PresentWords(v: Vocabulary, tokens: set<string>): set<string> {
    set w | w in v.names && w in tokens
  }

  function Words(r: seq<Feature>): seq<string> {
    seq(|r|, a requires 0 <= a < |r| => r[a].word)
  }

  /** `vec.nonzero()[1]` from feature index `i` on: the indices of the
      vocabulary words present in the sentence, ascending. */
  function HitsFrom(v: Vocabulary, tokens: set<string>, i: nat): (r: seq<nat>)
    requires i <= |v.names|
    ensures forall a :: 0 <= a < |r| ==> i <= r[a] < |v.names| && v.names[r[a]] in tokens
    ensures forall p :: i <= p < |v.names| && v.names[p] in tokens ==> p in r
    ensures forall a, b :: 0 <= a < b < |r| ==> r[a] < r[b]
    decreases |v.names| - i
  {
    if i == |v.names| then []
    else
      var rest := HitsFrom(v, tokens, i + 1);
      if v.names[i] in tokens then [i] + rest else rest
  }

  /** `xs[:n]` with Python's slice semantics: a negative `n` drops `-n`
      items from the end. */
  function SliceTo<T>(xs: seq<T>, n: int): (r: seq<T>)
    ensures n >= 0 ==> |r| == Min(n, |xs|)
    ensures n < 0 ==> |r| == Max(0, |xs| + n)
    ensures |r| <= |xs| && r == xs[..|r|]
  {
    if n >= 0 then (if n <= |xs| then xs[..n] else xs)
    else if -n <= |xs| then xs[..|xs| + n]
    else []
  }

  /** Every entry is a word of the sentence paired with its coefficient. */
  predicate FromSentence(v: Vocabulary, tokens: set<string>, r: seq<Feature>)
    requires v.Valid()
  {
    forall a :: 0 <= a < |r| ==>
      r[a].word in v.names && r[a].word in tokens && r[a].weight == WeightOf(v, r[a].word)
  }

  /** Absolute weights never increase along the list, and entries of equal
      absolute weight keep feature-index order. */
  predicate RankedByWeight(v: Vocabulary, r: seq<Feature>)
    requires v.Valid()
  {
    && (forall a :: 0 <= a < |r| ==> r[a].word in v.names)
    && (forall a, b :: 0 <= a < b < |r| ==> Abs(r[a].weight) >= Abs(r[b].weight))
    && (forall a, b :: 0 <= a < b < |r| && Abs(r[a].weight) == Abs(r[b].weight) ==>
          r[a].word in v.names && r[b].word in v.names &&
          IndexOf(v, r[a].word) < IndexOf(v, r[b].word))
  }

  /** All hits, ranked by absolute weight (largest first), ties in feature
      index order: `sorted(zip(words, weights), key=abs, reverse=True)`. */
  function RankedHits(v: Vocabulary, tokens: set<string>): (r: seq<Feature>)
    requires v.Valid()
    ensures |r| == |PresentWords(v, tokens)|
    ensures FromSentence(v, tokens, r)
    ensures forall w :: w in Words(r) <==> w in PresentWords(v, tokens)
    ensures forall a, b :: 0 <= a < b < |r| ==> r[a].word != r[b].word
    ensures RankedByWeight(v, r)
  {
    var hits := HitsFrom(v, tokens, 0);
    var keys := seq(|hits|, c requires 0 <= c < |hits| => Abs(v.coef[hits[c]]));
    var order := Ranking.Rank(keys);
    var r := seq(|order|, a requires 0 <= a < |order| =>
      Feature(v.names[hits[order[a]]], v.coef[hits[order[a]]]));
    RankedFacts(v, tokens, hits, keys, order, r);
    r
  }

  /** `explain_features(sentence, top_n)`: the `top_n` heaviest words of the
      sentence, heaviest first. */
  function ExplainFeatures(v: Vocabulary, tokens: set<string>, topN: int): (r: seq<Feature>)
    requires v.Valid()
    ensures topN >= 0 ==> |r| == Min(topN, |PresentWords(v, tokens)|)
    ensures topN < 0 ==> |r| == Max(0, |PresentWords(v, tokens)| + topN)
    ensures FromSentence(v, tokens, r)
    ensures forall a, b :: 0 <= a < b < |r| ==> r[a].word != r[b].word
    ensures RankedByWeight(v, r)
    ensures forall w, a :: w in PresentWords(v, tokens) && w !in Words(r) && 0 <= a < |r| ==>
      Abs(WeightOf(v, w)) <= Abs(r[a].weight)
    ensures forall w, a ::
      (w in PresentWords(v, tokens) && w !in Words(r) && 0 <= a < |r|
       && Abs(WeightOf(v, w)) == Abs(r[a].weight)) ==>
      r[a].word in v.names && IndexOf(v, r[a].word) < IndexOf(v, w)
  {
    var ranked := RankedHits(v, tokens);
    var r := SliceTo(ranked, topN);
    TopSelection(v, tokens, ranked, r);
    r
  }

  // ---------------------------------------------------------------------
  // Proofs

  /** With unique names, a word's feature index is its only position. */
  lemma IndexOfUnique(v: Vocabulary, p: int)
    requires v.Valid() && 0 <= p < |v.names|
    ensures IndexOf(v, v.names[p]) == p
  {
  }

  /** The facts `RankedHits` promises, from the hits, their keys and their
      ranking. */
  lemma RankedFacts(v: Vocabulary, tokens: set<string>, hits: seq<nat>, keys: seq<real>,
                    order: seq<nat>, r: seq<Feature>)
    requires v.Valid()
    requires hits == HitsFrom(v, tokens, 0)
    requires |keys| == |hits| && forall c :: 0 <= c < |hits| ==> keys[c] == Abs(v.coef[hits[c]])
    requires order == Ranking.Rank(keys)
    requires |r| == |order|
    requires forall a :: 0 <= a < |r| ==> r[a] == Feature(v.names[hits[order[a]]], v.coef[hits[order[a]]])
    ensures |r| == |PresentWords(v, tokens)|
    ensures FromSentence(v, tokens, r)
    ensures forall w :: w in Words(r) <==> w in PresentWords(v, tokens)
    ensures forall a, b :: 0 <= a < b < |r| ==> r[a].word != r[b].word
    ensures RankedByWeight(v, r)
  {
    RankedEntries(v, tokens, hits, order, r);
    RankedCover(v, tokens, hits, order, r);
    RankedOrder(v, tokens, hits, keys, order, r);
    DistinctCard(Words(r));
    assert (set w | w in Words(r)) == PresentWords(v, tokens);
  }

  /** Each ranked entry is the hit it was built from. */
  lemma RankedEntries(v: Vocabulary, tokens: set<string>, hits: seq<nat>, order: seq<nat>, r: seq<Feature>)
    requires v.Valid()
    requires hits == HitsFrom(v, tokens, 0)
    requires forall a :: 0 <= a < |order| ==> order[a] < |hits|
    requires |r| == |order|
    requires forall a :: 0 <= a < |r| ==> r[a] == Feature(v.names[hits[order[a]]], v.coef[hits[order[a]]])
    ensures forall a :: 0 <= a < |r| ==> r[a].word in v.names && IndexOf(v, r[a].word) == hits[order[a]]
    ensures FromSentence(v, tokens, r)
    ensures forall w :: w in Words(r) ==> w in PresentWords(v, tokens)
  {
    forall a | 0 <= a < |r|
      ensures r[a].word in v.names && IndexOf(v, r[a].word) == hits[order[a]]
      ensures r[a].word in tokens && r[a].weight == WeightOf(v, r[a].word)
    {
      IndexOfUnique(v, hits[order[a]]);
    }
    forall w | w in Words(r) ensures w in PresentWords(v, tokens) {
      var a :| 0 <= a < |r| && Words(r)[a] == w;
      assert w == r[a].word;
    }
  }

  /** Every word of the sentence shows up in the ranking. */
  lemma RankedCover(v: Vocabulary, tokens: set<string>, hits: seq<nat>, order: seq<nat>, r: seq<Feature>)
    requires v.Valid()
    requires hits == HitsFrom(v, tokens, 0)
    requires forall c :: c in order <==> 0 <= c < |hits|
    requires |r| == |order|
    requires forall a :: 0 <= a < |r| ==> order[a] < |hits| && r[a].word == v.names[hits[order[a]]]
    ensures forall w :: w in PresentWords(v, tokens) ==> w in Words(r)
  {
    forall w | w in PresentWords(v, tokens) ensures w in Words(r) {
      var p := IndexOf(v, w);
      assert p in hits;
      var c :| 0 <= c < |hits| && hits[c] == p;
      assert c in order;
      var a :| 0 <= a < |order| && order[a] == c;
      assert Words(r)[a] == w;
    }
  }

  /** The ranking of the keys carries over to the entries. */
  lemma RankedOrder(v: Vocabulary, tokens: set<string>, hits: seq<nat>, keys: seq<real>,
                    order: seq<nat>, r: seq<Feature>)
    requires v.Valid()
    requires hits == HitsFrom(v, tokens, 0)
    requires |keys| == |hits| && forall c :: 0 <= c < |hits| ==> keys[c] == Abs(v.coef[hits[c]])
    requires forall a :: 0 <= a < |order| ==> order[a] < |keys|
    requires forall a, b :: 0 <= a < b < |order| ==> order[a] != order[b]
    requires forall a, b :: 0 <= a < b < |order| ==> keys[order[a]] >= keys[order[b]]
    requires forall a, b :: 0 <= a < b < |order| && keys[order[a]] == keys[order[b]] ==> order[a] < order[b]
    requires |r| == |order|
    requires forall a :: 0 <= a < |r| ==> r[a] == Feature(v.names[hits[order[a]]], v.coef[hits[order[a]]])
    requires forall a :: 0 <= a < |r| ==> r[a].word in v.names && IndexOf(v, r[a].word) == hits[order[a]]
    ensures forall a, b :: 0 <= a < b < |r| ==> r[a].word != r[b].word
    ensures RankedByWeight(v, r)
  {
    forall a, b | 0 <= a < b < |r| ensures r[a].word != r[b].word {
      assert hits[order[a]] != hits[order[b]];
    }
    forall a, b | 0 <= a < b < |r| ensures Abs(r[a].weight) >= Abs(r[b].weight) {
      assert keys[order[a]] >= keys[order[b]];
    }
    forall a, b | 0 <= a < b < |r| && Abs(r[a].weight) == Abs(r[b].weight)
      ensures IndexOf(v, r[a].word) < IndexOf(v, r[b].word)
    {
      assert keys[order[a]] == keys[order[b]];
      assert hits[order[a]] < hits[order[b]];
    }
  }

  /** A list without repetitions has as many distinct elements as entries. */
  lemma {:induction false} DistinctCard<T>(xs: seq<T>)
    requires forall a, b :: 0 <= a < b < |xs| ==> xs[a] != xs[b]
    ensures |set x | x in xs| == |xs|
  {
    if |xs| > 0 {
      var rest := xs[1..];
      DistinctCard(rest);
      assert (set x | x in xs) == {xs[0]} + (set x | x in rest);
      assert xs[0] !in (set x | x in rest);
    }
  }

  /** Cutting the ranking to a prefix keeps its properties, and every word
      left out weighs no more than any kept one (and on equal weight comes
      later in feature-index order). */
  lemma TopSelection(v: Vocabulary, tokens: set<string>, ranked: seq<Feature>, r: seq<Feature>)
    requires v.Valid()
    requires FromSentence(v, tokens, ranked)
    requires forall w :: w in Words(ranked) <==> w in PresentWords(v, tokens)
    requires RankedByWeight(v, ranked)
    requires |r| <= |ranked| && r == ranked[..|r|]
    ensures FromSentence(v, tokens, r)
    ensures RankedByWeight(v, r)
    ensures forall w, a :: w in PresentWords(v, tokens) && w !in Words(r) && 0 <= a < |r| ==>
      Abs(WeightOf(v, w)) <= Abs(r[a].weight)
    ensures forall w, a ::
      (w in PresentWords(v, tokens) && w !in Words(r) && 0 <= a < |r|
       && Abs(WeightOf(v, w)) == Abs(r[a].weight)) ==>
      r[a].word in v.names && IndexOf(v, r[a].word) < IndexOf(v, w)
  {
    PrefixKeeps(v, tokens, ranked, r);
    forall w, a | w in PresentWords(v, tokens) && w !in Words(r) && 0 <= a < |r|
      ensures Abs(WeightOf(v, w)) <= Abs(r[a].weight)
      ensures Abs(WeightOf(v, w)) == Abs(r[a].weight) ==> IndexOf(v, r[a].word) < IndexOf(v, w)
    {
      LeftOutComesLater(v, tokens, ranked, r, w, a);
    }
  }

  /** A prefix of a ranking is a ranking of sentence words. */
  lemma PrefixKeeps(v: Vocabulary, tokens: set<string>, ranked: seq<Feature>, r: seq<Feature>)
    requires v.Valid()
    requires FromSentence(v, tokens, ranked)
    requires RankedByWeight(v, ranked)
    requires |r| <= |ranked| && r == ranked[..|r|]
    ensures FromSentence(v, tokens, r)
    ensures RankedByWeight(v, r)
  {
    assert forall a :: 0 <= a < |r| ==> r[a] == ranked[a];
  }

  /** A word of the ranking that the prefix leaves out sits after entry `a`. */
  lemma LeftOutComesLater(v: Vocabulary, tokens: set<string>, ranked: seq<Feature>, r: seq<Feature>,
                          w: string, a: int)
    requires v.Valid()
    requires FromSentence(v, tokens, ranked)
    requires forall w :: w in Words(ranked) <==> w in PresentWords(v, tokens)
    requires RankedByWeight(v, ranked)
    requires |r| <= |ranked| && r == ranked[..|r|]
    requires w in PresentWords(v, tokens) && w !in Words(r) && 0 <= a < |r|
    ensures Abs(WeightOf(v, w)) <= Abs(r[a].weight)
    ensures Abs(WeightOf(v, w)) == Abs(r[a].weight) ==> r[a].word in v.names && IndexOf(v, r[a].word) < IndexOf(v, w)
  {
    assert w in Words(ranked);
    var b :| 0 <= b < |ranked| && Words(ranked)[b] == w;
    assert ranked[b].word == w;
    assert forall c :: 0 <= c < |r| ==> Words(r)[c] == ranked[c].word;
    assert a < b;
    assert r[a] == ranked[a];
  }
}
