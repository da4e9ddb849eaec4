/** The vague-term lexicon and the lexicon matcher. */
module Lexicon {
  import opened Chars

  /** The thirteen vague terms, in declaration order. */
  const VagueWords: seq<string> := [
    "fast", "quick", "efficient", "user-friendly", "secure", "many", "large",
    "simple", "easy", "robust", "scalable", "flexible", "reliable"
  ]

  /** No term is listed twice. */
  lemma VagueWordsDistinct()
    ensures forall i, j :: 0 <= i < j < |VagueWords| ==> VagueWords[i] != VagueWords[j]
  {
    forall i, j | 0 <= i < j < |VagueWords| ensures VagueWords[i] != VagueWords[j] {
      assert i == 0 || i == 1 || i == 2 || i == 3 || i == 4 || i == 5 || i == 6
          || i == 7 || i == 8 || i == 9 || i == 10 || i == 11;
    }
  }

  /** Every term is non-empty and already lower-case, so matching it against
      lower-cased text is a case-insensitive match. */
  lemma VagueWordsLowerCase()
    ensures forall i :: 0 <= i < |VagueWords| ==> |VagueWords[i]| > 0 && IsLowerCase(VagueWords[i])
  {
    forall i | 0 <= i < |VagueWords|
      ensures |VagueWords[i]| > 0 && IsLowerCase(VagueWords[i])
    {
      assert i == 0 || i == 1 || i == 2 || i == 3 || i == 4 || i == 5 || i == 6
          || i == 7 || i == 8 || i == 9 || i == 10 || i == 11 || i == 12;
    }
  }

  /** The terms of `VagueWords[k..]` that are substrings of `lower`, in
      declaration order. */
  function PresentFrom(lower: string, k: nat): (r: seq<string>)
    requires k <= |VagueWords|
    ensures forall w :: w in r <==> w in VagueWords[k..] && Contains(lower, w)
    ensures forall a, b, i, j ::
      (0 <= a < b < |r| && k <= i < |VagueWords| && k <= j < |VagueWords|
       && VagueWords[i] == r[a] && VagueWords[j] == r[b]) ==> i < j
    decreases |VagueWords| - k
  {
    if k == |VagueWords| then []
    else
      var rest := PresentFrom(lower, k + 1);
      VagueWordsDistinct();
      assert VagueWords[k..] == [VagueWords[k]] + VagueWords[k + 1..];
      if Contains(lower, VagueWords[k]) then [VagueWords[k]] + rest else rest
  }

  /** `detect_vague_terms`: the lexicon terms occurring in the lower-cased
      text, in lexicon order.  A term counts even inside a longer word. */
  function DetectVagueTerms(text: string): (r: seq<string>)
    ensures forall w :: w in r <==> w in VagueWords && Contains(Lower(text), w)
    ensures forall a, b, i, j ::
      (0 <= a < b < |r| && 0 <= i < |VagueWords| && 0 <= j < |VagueWords|
       && VagueWords[i] == r[a] && VagueWords[j] == r[b]) ==> i < j
    ensures forall a, b :: 0 <= a < b < |r| ==> r[a] != r[b]
    ensures r == [] <==> forall w :: w in VagueWords ==> !Contains(Lower(text), w)
  {
    var r := PresentFrom(Lower(text), 0);
    assert VagueWords[0..] == VagueWords;
    PresentDistinct(r);
    assert r != [] ==> r[0] in r;
    r
  }

  /** An ordered selection of lexicon terms holds no term twice. */
  lemma {:induction false} PresentDistinct(r: seq<string>)
    requires forall w :: w in r ==> w in VagueWords
    requires forall a, b, i, j ::
      (0 <= a < b < |r| && 0 <= i < |VagueWords| && 0 <= j < |VagueWords|
       && VagueWords[i] == r[a] && VagueWords[j] == r[b]) ==> i < j
    ensures forall a, b :: 0 <= a < b < |r| ==> r[a] != r[b]
  {
    VagueWordsDistinct();
    forall a, b | 0 <= a < b < |r| ensures r[a] != r[b] {
      assert r[a] in r && r[b] in r;
      var i :| 0 <= i < |VagueWords| && VagueWords[i] == r[a];
      var j :| 0 <= j < |VagueWords| && VagueWords[j] == r[b];
      assert i < j;
    }
  }

  /** Matching is by substring, so a term embedded in a longer word counts:
      "breakfast" reports "fast". */
  lemma EmbeddedTermMatches()
    ensures "fast" in DetectVagueTerms("breakfast")
  {
    assert Lower("breakfast")[5..9] == "fast";
    assert OccursAt(Lower("breakfast"), "fast", 5);
  }
}
