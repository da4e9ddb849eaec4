/** The highlighter: wraps every vague term of a text in an emphasis marker.

    `highlight_vague_terms` (bold `**term**`) and
    `highlight_vague_terms_colored` (`:red[term]`) differ only in the marker,
    so both are `HighlightWith` applied to a `Wrapper`. */
module Highlight {
  import opened Chars
  import opened Lexicon
  import Ranking

  datatype Wrapper = Wrapper(open: string, close: string)

  /** The marker of `highlight_vague_terms`. */
  const Bold: Wrapper := Wrapper("**", "**")

  /** The marker of `highlight_vague_terms_colored`. */
  const Colored: Wrapper := Wrapper(":red[", "]")

  function Wrap(w: Wrapper, term: string): string {
    w.open + term + w.close
  }

  /** `re.sub(t, rep, s, flags=re.IGNORECASE)` for a pattern `t` without
      metacharacters: a left-to-right scan replacing each leftmost match and
      resuming after it, so matches never overlap. */
  function ReplaceAll(s: string, t: string, rep: string): (r: string)
    requires |t| > 0
    ensures |rep| >= |t| ==> |r| >= |s|
    ensures |rep| <= |t| ==> |r| <= |s|
    decreases |s|
  {
    if |s| == 0 then []
    else if MatchAt(s, t, 0) then rep + ReplaceAll(s[|t|..], t, rep)
    else [s[0]] + ReplaceAll(s[1..], t, rep)
  }

  // ---------------------------------------------------------------------
  // Replacement lemmas

  /** Dropping the first `d` characters of `x` keeps the fact that no match
      of `t` straddles the end of `x`. */
  lemma NoStraddleAfterDrop(x: string, y: string, t: string, d: int)
    requires 0 <= d <= |x|
    requires forall i :: 0 <= i < |x| < i + |t| ==> !MatchAt(x + y, t, i)
    ensures (x + y)[d..] == x[d..] + y
    ensures forall i :: 0 <= i < |x| - d < i + |t| ==> !MatchAt(x[d..] + y, t, i)
  {
    assert (x + y)[d..] == x[d..] + y;
    forall i | 0 <= i < |x| - d < i + |t| ensures !MatchAt(x[d..] + y, t, i) {
      MatchInSuffix(x + y, t, d, i);
    }
  }

  /** A text in which `t` never matches comes back unchanged. */
  lemma {:induction false} ReplaceWithoutMatch(s: string, t: string, rep: string)
    requires |t| > 0
    requires forall i :: 0 <= i < |s| ==> !MatchAt(s, t, i)
    ensures ReplaceAll(s, t, rep) == s
    decreases |s|
  {
    if |s| > 0 {
      forall i | 0 <= i < |s| - 1 ensures !MatchAt(s[1..], t, i) {
        MatchInSuffix(s, t, 1, i);
      }
      ReplaceWithoutMatch(s[1..], t, rep);
    }
  }

  /** Matching inside the left part of a concatenation only looks at that part. */
  lemma {:induction false} MatchInPrefix(x: string, y: string, t: string, i: int)
    requires 0 <= i && i + |t| <= |x|
    ensures MatchAt(x + y, t, i) <==> MatchAt(x, t, i)
  {
    assert (x + y)[i..i + |t|] == x[i..i + |t|];
  }

  /** Matching in a suffix is matching in the whole, shifted. */
  lemma {:induction false} MatchInSuffix(s: string, t: string, d: int, i: int)
    requires 0 <= d <= |s| && 0 <= i
    ensures MatchAt(s[d..], t, i) <==> MatchAt(s, t, i + d)
  {
    if i + |t| <= |s| - d {
      assert s[d..][i..i + |t|] == s[i + d..i + d + |t|];
    }
  }

  /** When no match of `t` straddles the seam of `x + y`, the two parts are
      replaced independently. */
  lemma {:induction false} ReplaceSplit(x: string, y: string, t: string, rep: string)
    requires |t| > 0
    requires forall i :: 0 <= i < |x| < i + |t| ==> !MatchAt(x + y, t, i)
    ensures ReplaceAll(x + y, t, rep) == ReplaceAll(x, t, rep) + ReplaceAll(y, t, rep)
    decreases |x|
  {
    if |x| == 0 {
      assert x + y == y;
    } else {
      var m := MatchAt(x + y, t, 0);
      if |t| <= |x| {
        MatchInPrefix(x, y, t, 0);
      }
      var d := if m then |t| else 1;
      assert d <= |x|;
      NoStraddleAfterDrop(x, y, t, d);
      ReplaceSplit(x[d..], y, t, rep);
    }
  }

  /** `t` overlaps itself by a shift of `k`: a proper suffix of its
      lower-cased form equals a prefix of it. */
  predicate SelfOverlap(t: string, k: int)
    requires 0 < k < |t|
  {
    Lower(t)[k..] == Lower(t)[..|t| - k]
  }

  /** No two matches of `t` can overlap. */
  predicate NoSelfOverlap(t: string) {
    forall k :: 0 < k < |t| ==> !SelfOverlap(t, k)
  }

  /** Two overlapping matches of `t` make `t` overlap itself. */
  lemma {:induction false} OverlapOfMatches(s: string, t: string, i: int, p: int)
    requires 0 <= i < p < i + |t|
    ensures MatchAt(s, t, i) && MatchAt(s, t, p) ==> SelfOverlap(t, p - i)
  {
    if MatchAt(s, t, i) && MatchAt(s, t, p) {
      var k := p - i;
      LowerSlice(s, i, i + |t|);
      LowerSlice(s, p, p + |t|);
      assert Lower(s)[i..i + |t|][k..] == Lower(s)[p..i + |t|];
      assert Lower(s)[p..p + |t|][..|t| - k] == Lower(s)[p..i + |t|];
    }
  }

  /** For a term that cannot overlap itself, every case-insensitive
      occurrence is replaced by `rep`, and the text on either side of it is
      processed on its own. */
  lemma {:induction false} ReplaceAtOccurrence(s: string, t: string, rep: string, p: int)
    requires |t| > 0 && NoSelfOverlap(t)
    requires MatchAt(s, t, p)
    ensures ReplaceAll(s, t, rep)
         == ReplaceAll(s[..p], t, rep) + rep + ReplaceAll(s[p + |t|..], t, rep)
  {
    assert s == s[..p] + s[p..];
    forall i | 0 <= i < p < i + |t| ensures !MatchAt(s[..p] + s[p..], t, i) {
      OverlapOfMatches(s, t, i, p);
    }
    ReplaceSplit(s[..p], s[p..], t, rep);
    assert MatchAt(s[p..], t, 0) by {
      assert s[p..][0..|t|] == s[p..p + |t|];
    }
    assert s[p..][|t|..] == s[p + |t|..];
  }

  /** Replacement never shortens the text when the replacement is at least
      as long as the pattern, and lengthens it when a match exists and the
      replacement is strictly longer. */
  lemma {:induction false} ReplaceLength(s: string, t: string, rep: string)
    requires |t| > 0 && |rep| >= |t|
    ensures |ReplaceAll(s, t, rep)| >= |s|
    ensures |rep| > |t| && (exists i :: 0 <= i < |s| && MatchAt(s, t, i))
            ==> |ReplaceAll(s, t, rep)| > |s|
    decreases |s|
  {
    if |s| > 0 {
      var m := MatchAt(s, t, 0);
      var d := if m then |t| else 1;
      ReplaceLength(s[d..], t, rep);
      if !m && |rep| > |t| && exists i :: 0 <= i < |s| && MatchAt(s, t, i) {
        var i :| 0 <= i < |s| && MatchAt(s, t, i);
        MatchInSuffix(s, t, 1, i - 1);
        assert MatchAt(s[1..], t, i - 1);
      }
    }
  }

  /** Replacing a lower-case term by itself only lower-cases its
      occurrences: the length is kept, every character is either kept or
      lower-cased, and the lower-cased text is unchanged. This is the
      substitution with an empty marker. It stands in for the fact that
      characters outside matches are left untouched. */
  lemma {:induction false} ReplaceBySelf(s: string, t: string)
    requires |t| > 0 && IsLowerCase(t)
    ensures |ReplaceAll(s, t, t)| == |s|
    ensures forall i :: 0 <= i < |s| ==>
      ReplaceAll(s, t, t)[i] == s[i] || ReplaceAll(s, t, t)[i] == LowerChar(s[i])
    ensures Lower(ReplaceAll(s, t, t)) == Lower(s)
    decreases |s|
  {
    LowerOfLowerCase(t);
    if |s| > 0 {
      var m := MatchAt(s, t, 0);
      var d := if m then |t| else 1;
      ReplaceBySelf(s[d..], t);
      var rest := ReplaceAll(s[d..], t, t);
      var head := if m then t else [s[0]];
      assert ReplaceAll(s, t, t) == head + rest;
      assert s == s[..d] + s[d..];
      if m {
        assert Lower(s[..d]) == t;
        assert forall i :: 0 <= i < d ==> t[i] == Lower(s[..d])[i] == LowerChar(s[i]);
      }
      assert Lower(head) == Lower(s[..d]);
      LowerAppend(head, rest);
      LowerAppend(s[..d], s[d..]);
    }
  }

  // ---------------------------------------------------------------------
  // Processing order

  /** `sorted(words, key=len, reverse=True)` for a list of distinct words:
      every word once, longest first, and words of equal length in their
      original order. */
  function ByLength(words: seq<string>): (r: seq<string>)
    requires forall i, j :: 0 <= i < j < |words| ==> words[i] != words[j]
    ensures |r| == |words|
    ensures forall w :: w in r <==> w in words
    ensures forall a, b :: 0 <= a < b < |r| ==> r[a] != r[b]
    ensures forall a, b :: 0 <= a < b < |r| ==> |r[a]| >= |r[b]|
    ensures forall a, b :: 0 <= a < b < |r| && |r[a]| == |r[b]| ==>
      exists i, j :: 0 <= i < j < |words| && words[i] == r[a] && words[j] == r[b]
  {
    var keys := seq(|words|, i requires 0 <= i < |words| => |words[i]| as real);
    var order := Ranking.Rank(keys);
    var r := seq(|order|, a requires 0 <= a < |order| => words[order[a]]);
    ByLengthFacts(words, keys, order, r);
    r
  }

  lemma ByLengthFacts(words: seq<string>, keys: seq<real>, order: seq<nat>, r: seq<string>)
    requires forall i, j :: 0 <= i < j < |words| ==> words[i] != words[j]
    requires |keys| == |words| && forall i :: 0 <= i < |words| ==> keys[i] == |words[i]| as real
    requires order == Ranking.Rank(keys)
    requires |r| == |order| && forall a :: 0 <= a < |r| ==> r[a] == words[order[a]]
    ensures |r| == |words|
    ensures forall w :: w in r <==> w in words
    ensures forall a, b :: 0 <= a < b < |r| ==> r[a] != r[b]
    ensures forall a, b :: 0 <= a < b < |r| ==> |r[a]| >= |r[b]|
    ensures forall a, b :: 0 <= a < b < |r| && |r[a]| == |r[b]| ==>
      exists i, j :: 0 <= i < j < |words| && words[i] == r[a] && words[j] == r[b]
  {
    forall w | w in words ensures w in r {
      var i :| 0 <= i < |words| && words[i] == w;
      assert i in order;
      var a :| 0 <= a < |order| && order[a] == i;
      assert r[a] == w;
    }
    forall a, b | 0 <= a < b < |r| ensures r[a] != r[b] {
      assert order[a] != order[b];
    }
    forall a, b | 0 <= a < b < |r| ensures |r[a]| >= |r[b]| {
      assert keys[order[a]] >= keys[order[b]];
    }
    forall a, b | 0 <= a < b < |r| && |r[a]| == |r[b]|
      ensures exists i, j :: 0 <= i < j < |words| && words[i] == r[a] && words[j] == r[b]
    {
      assert keys[order[a]] == keys[order[b]];
      assert order[a] < order[b];
    }
  }

  /** The order in which the highlighter processes the lexicon. */
  function LongestFirst(): (r: seq<string>)
    ensures |r| == |VagueWords|
    ensures forall w :: w in r <==> w in VagueWords
    ensures forall a, b :: 0 <= a < b < |r| ==> r[a] != r[b]
    ensures forall a, b :: 0 <= a < b < |r| ==> |r[a]| >= |r[b]|
    ensures forall a, b :: 0 <= a < b < |r| && |r[a]| == |r[b]| ==>
      exists i, j :: 0 <= i < j < |VagueWords| && VagueWords[i] == r[a] && VagueWords[j] == r[b]
  {
    VagueWordsDistinct();
    ByLength(VagueWords)
  }

  // ---------------------------------------------------------------------
  // The highlighter

  /** Processes `terms` in order over the current text `cur`; a term is
      replaced only when it occurs in `lower`, the lower-cased ORIGINAL
      text, not in the text produced so far. So terms absent from the
      original text are skipped, and since a marked term is never shorter
      than the term, the text never shrinks. */
  function Apply(w: Wrapper, lower: string, cur: string, terms: seq<string>): (r: string)
    requires forall a :: 0 <= a < |terms| ==> |terms[a]| > 0
    ensures (forall a :: 0 <= a < |terms| ==> !Contains(lower, terms[a])) ==> r == cur
    ensures |r| >= |cur|
    decreases |terms|
  {
    if terms == [] then cur
    else
      var t := terms[0];
      var next := if Contains(lower, t) then ReplaceAll(cur, t, Wrap(w, t)) else cur;
      Apply(w, lower, next, terms[1..])
  }

  /** `highlight_vague_terms` / `highlight_vague_terms_colored`, by marker.
      Neither source function passes an empty marker. The last clause uses
      one to say that the highlighter changes nothing but the matched
      text: without markers to insert, only the case of matches may
      change. */
  function HighlightWith(w: Wrapper, text: string): (r: string)
    ensures DetectVagueTerms(text) == [] ==> r == text
    ensures |r| >= |text|
    ensures |w.open + w.close| > 0 && DetectVagueTerms(text) != [] ==> |r| > |text|
    ensures w.open == "" && w.close == "" ==>
      |r| == |text| && Lower(r) == Lower(text)
      && forall i :: 0 <= i < |text| ==> r[i] == text[i] || r[i] == LowerChar(text[i])
  {
    HighlightFacts(w, text);
    Apply(w, Lower(text), text, LongestFirst())
  }

  /** `highlight_vague_terms`: a text without a lexicon term comes back
      as it is, and one with a lexicon term gets longer. When only one
      lexicon term occurs, each of its occurrences becomes `**term**`. */
  function HighlightVagueTerms(text: string): (r: string)
    ensures |r| >= |text|
    ensures DetectVagueTerms(text) == [] <==> r == text
    ensures DetectVagueTerms(text) != [] ==> |r| > |text|
    ensures forall v :: v in VagueWords && Contains(Lower(text), v)
                        && (forall u :: u in VagueWords && u != v ==> !Contains(Lower(text), u))
                        ==> r == ReplaceAll(text, v, Wrap(Bold, v))
  {
    HighlightOneTerm(Bold, text);
    HighlightWith(Bold, text)
  }

  /** `highlight_vague_terms_colored`: as `HighlightVagueTerms`, with the
      coloured marker `:red[term]`. */
  function HighlightVagueTermsColored(text: string): (r: string)
    ensures |r| >= |text|
    ensures DetectVagueTerms(text) == [] <==> r == text
    ensures DetectVagueTerms(text) != [] ==> |r| > |text|
    ensures forall v :: v in VagueWords && Contains(Lower(text), v)
                        && (forall u :: u in VagueWords && u != v ==> !Contains(Lower(text), u))
                        ==> r == ReplaceAll(text, v, Wrap(Colored, v))
  {
    HighlightOneTerm(Colored, text);
    HighlightWith(Colored, text)
  }

  // ---------------------------------------------------------------------
  // Highlighter lemmas

  /** Collects the facts `HighlightWith` promises about the processing of
      `LongestFirst()` over the original text. */
  lemma HighlightFacts(w: Wrapper, text: string)
    ensures forall a :: 0 <= a < |LongestFirst()| ==> |LongestFirst()[a]| > 0
    ensures var r := Apply(w, Lower(text), text, LongestFirst());
      && (DetectVagueTerms(text) == [] ==> r == text)
      && |r| >= |text|
      && (|w.open + w.close| > 0 && DetectVagueTerms(text) != [] ==> |r| > |text|)
      && (w.open == "" && w.close == "" ==>
          |r| == |text| && Lower(r) == Lower(text)
          && forall i :: 0 <= i < |text| ==> r[i] == text[i] || r[i] == LowerChar(text[i]))
  {
    var order := LongestFirst();
    LongestFirstTerms();
    var present := DetectVagueTerms(text);
    assert present == [] <==> forall a :: 0 <= a < |order| ==> !Contains(Lower(text), order[a]) by {
      if present != [] {
        assert present[0] in order;
      } else {
        forall a | 0 <= a < |order| ensures !Contains(Lower(text), order[a]) {
          assert order[a] in VagueWords;
        }
      }
    }
    ApplyFacts(w, text, order);
  }

  /** Every term of the processing order is non-empty and lower-case. */
  lemma LongestFirstTerms()
    ensures forall a :: 0 <= a < |LongestFirst()| ==> |LongestFirst()[a]| > 0 && IsLowerCase(LongestFirst()[a])
  {
    var order := LongestFirst();
    VagueWordsLowerCase();
    forall a | 0 <= a < |order| ensures |order[a]| > 0 && IsLowerCase(order[a]) {
      assert order[a] in VagueWords;
    }
  }

  /** The facts of `HighlightFacts` for any list of non-empty lower-case terms. */
  lemma ApplyFacts(w: Wrapper, text: string, terms: seq<string>)
    requires forall a :: 0 <= a < |terms| ==> |terms[a]| > 0 && IsLowerCase(terms[a])
    ensures var r := Apply(w, Lower(text), text, terms);
      && ((forall a :: 0 <= a < |terms| ==> !Contains(Lower(text), terms[a])) ==> r == text)
      && |r| >= |text|
      && (|w.open + w.close| > 0 && (exists a :: 0 <= a < |terms| && Contains(Lower(text), terms[a]))
          ==> |r| > |text|)
      && (w.open == "" && w.close == "" ==>
          |r| == |text| && Lower(r) == Lower(text)
          && forall i :: 0 <= i < |text| ==> r[i] == text[i] || r[i] == LowerChar(text[i]))
  {
    if exists a :: 0 <= a < |terms| && Contains(Lower(text), terms[a]) {
      var a :| 0 <= a < |terms| && Contains(Lower(text), terms[a]);
      ApplyGrows(w, text, terms, terms[a]);
    }
    if w.open == "" && w.close == "" {
      ApplyUnwrapped(w, Lower(text), text, terms);
    }
  }

  /** With a non-empty marker, the first listed term present in the
      original text is replaced while the text is still the original, so
      the result is strictly longer. */
  lemma {:induction false} ApplyGrows(w: Wrapper, text: string, terms: seq<string>, v: string)
    requires forall a :: 0 <= a < |terms| ==> |terms[a]| > 0 && IsLowerCase(terms[a])
    requires v in terms && Contains(Lower(text), v)
    ensures |w.open + w.close| > 0 ==> |Apply(w, Lower(text), text, terms)| > |text|
    decreases |terms|
  {
    var t := terms[0];
    if Contains(Lower(text), t) {
      var i :| 0 <= i <= |Lower(text)| && OccursAt(Lower(text), t, i);
      LowerSlice(text, i, i + |t|);
      LowerOfLowerCase(t);
      assert MatchAt(text, t, i);
      ReplaceLength(text, t, Wrap(w, t));
    } else {
      assert v in terms[1..];
      ApplyGrows(w, text, terms[1..], v);
    }
  }

  /** With an empty marker, highlighting only lower-cases occurrences. */
  lemma {:induction false} ApplyUnwrapped(w: Wrapper, lower: string, cur: string, terms: seq<string>)
    requires w.open == "" && w.close == ""
    requires forall a :: 0 <= a < |terms| ==> |terms[a]| > 0 && IsLowerCase(terms[a])
    ensures |Apply(w, lower, cur, terms)| == |cur|
    ensures Lower(Apply(w, lower, cur, terms)) == Lower(cur)
    ensures forall i :: 0 <= i < |cur| ==>
      Apply(w, lower, cur, terms)[i] == cur[i] || Apply(w, lower, cur, terms)[i] == LowerChar(cur[i])
    decreases |terms|
  {
    if terms != [] {
      var t := terms[0];
      assert Wrap(w, t) == t;
      var next := if Contains(lower, t) then ReplaceAll(cur, t, t) else cur;
      if Contains(lower, t) {
        ReplaceBySelf(cur, t);
      }
      ApplyUnwrapped(w, lower, next, terms[1..]);
      var r := Apply(w, lower, cur, terms);
      assert r == Apply(w, lower, next, terms[1..]);
      forall i | 0 <= i < |cur| ensures r[i] == cur[i] || r[i] == LowerChar(cur[i]) {
        assert next[i] == cur[i] || next[i] == LowerChar(cur[i]);
        assert LowerChar(LowerChar(cur[i])) == LowerChar(cur[i]);
      }
    }
  }

  // ---------------------------------------------------------------------
  // The lexicon terms never overlap themselves

  /** The first or the last character of `t` occurs nowhere else in `t`. */
  predicate EndUnique(t: string) {
    |t| > 0 && ((forall k :: 0 < k < |t| ==> t[k] != t[0])
             || (forall k :: 0 <= k < |t| - 1 ==> t[k] != t[|t| - 1]))
  }

  /** A lower-case term with a unique first or last character cannot
      overlap itself. */
  lemma {:induction false} EndUniqueNoOverlap(t: string)
    requires IsLowerCase(t) && EndUnique(t)
    ensures NoSelfOverlap(t)
  {
    LowerOfLowerCase(t);
    forall k | 0 < k < |t| ensures !SelfOverlap(t, k) {
      if forall j :: 0 < j < |t| ==> t[j] != t[0] {
        assert t[k..][0] != t[..|t| - k][0];
      } else {
        assert t[k..][|t| - k - 1] != t[..|t| - k][|t| - k - 1];
      }
    }
  }

  /** No lexicon term can overlap itself, so `ReplaceAtOccurrence` applies
      to every term the highlighter processes. */
  lemma VagueWordsNoSelfOverlap()
    ensures forall i :: 0 <= i < |VagueWords| ==> NoSelfOverlap(VagueWords[i])
  {
    VagueWordsLowerCase();
    forall i | 0 <= i < |VagueWords| ensures NoSelfOverlap(VagueWords[i]) {
      assert EndUnique(VagueWords[i]) by {
        assert i == 0 || i == 1 || i == 2 || i == 3 || i == 4 || i == 5 || i == 6
            || i == 7 || i == 8 || i == 9 || i == 10 || i == 11 || i == 12;
      }
      EndUniqueNoOverlap(VagueWords[i]);
    }
  }

  /** Highlighting is not idempotent: a highlighted text still contains the
      term it wrapped, so a second pass wraps it again and grows the text. */
  lemma HighlightNotIdempotent(w: Wrapper, text: string)
    requires |w.open + w.close| > 0
    requires exists v :: v in DetectVagueTerms(text) && Contains(Lower(HighlightWith(w, text)), v)
    ensures HighlightWith(w, HighlightWith(w, text)) != HighlightWith(w, text)
  {
    var h := HighlightWith(w, text);
    var v :| v in DetectVagueTerms(text) && Contains(Lower(h), v);
    assert v in DetectVagueTerms(h);
  }

  /** When `v` is the only listed term present in the original text, the
      result is the current text with `v` replaced and nothing else done. */
  lemma {:induction false} ApplySingle(w: Wrapper, lower: string, cur: string, terms: seq<string>, v: string)
    requires forall a :: 0 <= a < |terms| ==> |terms[a]| > 0
    requires forall a, b :: 0 <= a < b < |terms| ==> terms[a] != terms[b]
    requires v in terms && |v| > 0 && Contains(lower, v)
    requires forall a :: 0 <= a < |terms| && terms[a] != v ==> !Contains(lower, terms[a])
    ensures Apply(w, lower, cur, terms) == ReplaceAll(cur, v, Wrap(w, v))
    decreases |terms|
  {
    if terms[0] == v {
      assert forall a :: 0 <= a < |terms| - 1 ==> terms[1..][a] != v && terms[1..][a] == terms[a + 1];
    } else {
      ApplySingle(w, lower, cur, terms[1..], v);
    }
  }

  /** In the text "fast" no lexicon term other than "fast" occurs. */
  lemma OnlyFastInFast()
    ensures forall i :: 0 <= i < |VagueWords| && VagueWords[i] != "fast" ==> !Contains("fast", VagueWords[i])
  {
    forall i | 0 <= i < |VagueWords| && VagueWords[i] != "fast"
      ensures !Contains("fast", VagueWords[i])
    {
      if |VagueWords[i]| > 4 {
        ContainsNeedsLength("fast", VagueWords[i]);
      } else {
        assert i == 0 || i == 5 || i == 8 by {
          assert i == 0 || i == 1 || i == 2 || i == 3 || i == 4 || i == 5 || i == 6
              || i == 7 || i == 8 || i == 9 || i == 10 || i == 11 || i == 12;
        }
        assert forall j :: 0 <= j <= 4 && OccursAt("fast", VagueWords[i], j) ==> j == 0;
      }
    }
  }

  /** `HighlightSingle` for whichever term is the only one present. */
  lemma HighlightOneTerm(w: Wrapper, text: string)
    ensures forall v :: v in VagueWords && Contains(Lower(text), v)
                        && (forall u :: u in VagueWords && u != v ==> !Contains(Lower(text), u))
                        ==> |v| > 0 && HighlightWith(w, text) == ReplaceAll(text, v, Wrap(w, v))
  {
    forall v | v in VagueWords && Contains(Lower(text), v)
               && (forall u :: u in VagueWords && u != v ==> !Contains(Lower(text), u))
      ensures |v| > 0 && HighlightWith(w, text) == ReplaceAll(text, v, Wrap(w, v))
    {
      HighlightSingle(w, text, v);
    }
  }

  /** A text in which `v` is the only lexicon term is returned with every
      occurrence of `v` wrapped and nothing else changed. */
  lemma HighlightSingle(w: Wrapper, text: string, v: string)
    requires v in VagueWords && Contains(Lower(text), v)
    requires forall u :: u in VagueWords && u != v ==> !Contains(Lower(text), u)
    ensures |v| > 0
    ensures HighlightWith(w, text) == ReplaceAll(text, v, Wrap(w, v))
  {
    var order := LongestFirst();
    var lower := Lower(text);
    VagueWordsLowerCase();
    LongestFirstTerms();
    assert v in order;
    forall a | 0 <= a < |order| && order[a] != v ensures !Contains(lower, order[a]) {
      assert order[a] in VagueWords;
    }
    ApplySingle(w, lower, text, order, v);
    assert HighlightWith(w, text) == Apply(w, lower, text, order);
  }

  /** "fast" is the only lexicon term in "Fast". */
  lemma FastTerms()
    ensures "fast" in VagueWords && Contains(Lower("Fast"), "fast")
    ensures forall u :: u in VagueWords && u != "fast" ==> !Contains(Lower("Fast"), u)
  {
    assert Lower("Fast") == "fast";
    OnlyFastInFast();
    forall u | u in VagueWords && u != "fast" ensures !Contains("fast", u) {
      var i :| 0 <= i < |VagueWords| && VagueWords[i] == u;
    }
    assert OccursAt("fast", "fast", 0);
    assert VagueWords[0] == "fast";
  }

  /** Replacing "fast" in "Fast" drops the capital. */
  lemma ReplaceFast(rep: string)
    ensures ReplaceAll("Fast", "fast", rep) == rep
  {
    assert MatchAt("Fast", "fast", 0) by {
      assert "Fast"[0..4] == "Fast";
      assert Lower("Fast") == "fast";
    }
    assert "Fast"[4..] == [];
  }

  /** Highlighting "Fast" wraps the lower-case lexicon form: the casing of
      the matched text is lost ("**fast**" with the bold marker). */
  lemma HighlightFast(w: Wrapper)
    ensures HighlightWith(w, "Fast") == w.open + "fast" + w.close
  {
    FastTerms();
    HighlightSingle(w, "Fast", "fast");
    ReplaceFast(Wrap(w, "fast"));
  }

  /** The wrapped form of "fast" still contains "fast". */
  lemma WrappedFastContainsFast(w: Wrapper)
    ensures Contains(Lower(w.open + "fast" + w.close), "fast")
  {
    LowerAppend(w.open + "fast", w.close);
    LowerAppend(w.open, "fast");
    var l := Lower(w.open + "fast" + w.close);
    assert l == Lower(w.open) + "fast" + Lower(w.close);
    assert l[|w.open|..|w.open| + 4] == "fast";
    assert OccursAt(l, "fast", |w.open|);
  }

  /** Highlighting is not idempotent: highlighting "Fast" a second time
      wraps the term again. */
  lemma HighlightFastTwice(w: Wrapper)
    requires |w.open + w.close| > 0
    ensures HighlightWith(w, HighlightWith(w, "Fast")) != HighlightWith(w, "Fast")
  {
    HighlightFast(w);
    WrappedFastContainsFast(w);
    FastTerms();
    assert "fast" in DetectVagueTerms("Fast");
    HighlightNotIdempotent(w, "Fast");
  }
}
