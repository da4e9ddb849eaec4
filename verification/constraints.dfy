/** The measurable-constraint check: a hand-written matcher for the one
    pattern `\b\d+\s*(seconds?|minutes?|ms|MB|GB|%|users?)\b` searched
    case-insensitively, with `\b`, `\d`, `\s` and `\w` taken over ASCII. */
module Constraints {
  import opened Chars

  /** The unit alternatives, spelled out and lower-cased (matching ignores case). */
  const Units: seq<string> := ["seconds", "second", "minutes", "minute", "ms", "mb", "gb", "%", "users", "user"]

  /** `\b` at position `p`: exactly one of the characters on either side is
      a word character (a text edge counts as a non-word character). */
  predicate Boundary(s: string, p: int)
    requires 0 <= p <= |s|
  {
    (p > 0 && IsWordChar(s[p - 1])) != (p < |s| && IsWordChar(s[p]))
  }

  predicate AllDigits(s: string, i: int, j: int)
    requires 0 <= i <= j <= |s|
  {
    forall m :: i <= m < j ==> IsDigit(s[m])
  }

  predicate AllSpaces(s: string, j: int, k: int)
    requires 0 <= j <= k <= |s|
  {
    forall m :: j <= m < k ==> IsSpace(s[m])
  }

  /** Unit spellings the matcher can take: none is empty, and none starts
      with a digit or white space, so a unit never extends the digit run or
      the white-space run before it. */
  predicate WellFormedUnits(units: seq<string>) {
    forall u :: u in units ==> |u| > 0 && !IsDigit(u[0]) && !IsSpace(u[0])
  }

  /** One way `\b\d+\s*(units)\b` can match: `\b` at `i`, digits on
      `[i, j)`, white space on `[j, k)`, unit `u` from `k`, and `\b` after
      it.  This is the meaning of the regular expression, with every choice
      the backtracking engine may try left open. */
  predicate MeasureAt(s: string, units: seq<string>, i: int, j: int, k: int, u: string) {
    && 0 <= i < j <= k <= |s|
    && Boundary(s, i)
    && AllDigits(s, i, j)
    && AllSpaces(s, j, k)
    && u in units
    && MatchAt(s, u, k)
    && Boundary(s, k + |u|)
  }

  /** The pattern with the given units matches somewhere in `s`. */
  ghost predicate HasMeasureOf(s: string, units: seq<string>) {
    exists i, j, k, u :: MeasureAt(s, units, i, j, k, u)
  }

  /** The source's pattern matches somewhere in `s` (`re.findall` returns a
      non-empty list). */
  ghost predicate HasMeasure(s: string) {
    HasMeasureOf(s, Units)
  }

  // ---------------------------------------------------------------------
  // The matcher

  /** The end of the run of digits starting at `j`. */
  function DigitEnd(s: string, j: int): (e: int)
    requires 0 <= j <= |s|
    ensures j <= e <= |s|
    ensures AllDigits(s, j, e)
    ensures e == |s| || !IsDigit(s[e])
    decreases |s| - j
  {
    if j < |s| && IsDigit(s[j]) then DigitEnd(s, j + 1) else j
  }

  /** The end of the run of white space starting at `j`. */
  function SpaceEnd(s: string, j: int): (e: int)
    requires 0 <= j <= |s|
    ensures j <= e <= |s|
    ensures AllSpaces(s, j, e)
    ensures e == |s| || !IsSpace(s[e])
    decreases |s| - j
  {
    if j < |s| && IsSpace(s[j]) then SpaceEnd(s, j + 1) else j
  }

  /** Some unit matches at `k` and is followed by `\b`. */
  predicate UnitFollows(s: string, units: seq<string>, k: int)
    requires 0 <= k <= |s|
  {
    exists u :: u in units && MatchAt(s, u, k) && Boundary(s, k + |u|)
  }

  /** The matcher's test at one start position: a boundary and a digit,
      then the longest digit run, the longest white-space run, and a unit. */
  predicate MatchesAt(s: string, units: seq<string>, i: int)
    requires 0 <= i <= |s|
  {
    i < |s| && IsDigit(s[i]) && Boundary(s, i) && UnitFollows(s, units, SpaceEnd(s, DigitEnd(s, i)))
  }

  /** Scans the start positions `i ..` for a match. */
  function FindFrom(s: string, units: seq<string>, i: int): (found: bool)
    requires 0 <= i <= |s|
    ensures found <==> exists p :: i <= p <= |s| && MatchesAt(s, units, p)
    decreases |s| - i
  {
    if MatchesAt(s, units, i) then true
    else if i == |s| then false
    else FindFrom(s, units, i + 1)
  }

  /** `detect_missing_constraints`: true exactly when the pattern matches
      nowhere in the text. */
  function DetectMissingConstraints(text: string): (missing: bool)
    ensures missing <==> !HasMeasure(text)
  {
    var found := FindFrom(text, Units, 0);
    UnitHeads();
    MatcherCorrect(text, Units);
    !found
  }

  // ---------------------------------------------------------------------
  // Correctness of the matcher

  /** The source's units are well formed. */
  lemma UnitHeads()
    ensures WellFormedUnits(Units)
  {
    forall u | u in Units ensures |u| > 0 && !IsDigit(u[0]) && !IsSpace(u[0]) {
      var n :| 0 <= n < |Units| && Units[n] == u;
      assert n == 0 || n == 1 || n == 2 || n == 3 || n == 4 || n == 5 || n == 6
          || n == 7 || n == 8 || n == 9;
    }
  }

  /** Where a unit matches, the character there is neither a digit nor
      white space. */
  lemma {:induction false} UnitStart(s: string, units: seq<string>, k: int, u: string)
    requires WellFormedUnits(units)
    requires 0 <= k <= |s| && u in units && MatchAt(s, u, k)
    ensures k < |s| && !IsDigit(s[k]) && !IsSpace(s[k])
  {
    assert Lower(s[k..k + |u|])[0] == LowerChar(s[k]);
  }

  /** A digit run from `i` to `j` ends no later than the longest one. */
  lemma {:induction false} DigitRunWithin(s: string, i: int, j: int)
    requires 0 <= i <= j <= |s| && AllDigits(s, i, j)
    ensures j <= DigitEnd(s, i)
    decreases j - i
  {
    if i < j {
      DigitRunWithin(s, i + 1, j);
    }
  }

  /** The longest digit run from `i` stops at any non-digit at or after `i`. */
  lemma {:induction false} DigitEndStops(s: string, i: int, j: int)
    requires 0 <= i <= j < |s| && !IsDigit(s[j])
    ensures DigitEnd(s, i) <= j
    decreases j - i
  {
    if i < j && IsDigit(s[i]) {
      DigitEndStops(s, i + 1, j);
    }
  }

  /** A white-space run from `j` to `k` ends no later than the longest one. */
  lemma {:induction false} SpaceRunWithin(s: string, j: int, k: int)
    requires 0 <= j <= k <= |s| && AllSpaces(s, j, k)
    ensures k <= SpaceEnd(s, j)
    decreases k - j
  {
    if j < k {
      SpaceRunWithin(s, j + 1, k);
    }
  }

  /** The longest white-space run from `j` stops at any non-space at or after `j`. */
  lemma {:induction false} SpaceEndStops(s: string, j: int, k: int)
    requires 0 <= j <= k < |s| && !IsSpace(s[k])
    ensures SpaceEnd(s, j) <= k
    decreases k - j
  {
    if j < k && IsSpace(s[j]) {
      SpaceEndStops(s, j + 1, k);
    }
  }

  /** The backtracking choices collapse to one: in any match the digit run
      and the white-space run are the longest ones. */
  lemma {:induction false} MeasureIsGreedy(s: string, units: seq<string>, i: int, j: int, k: int, u: string)
    requires WellFormedUnits(units)
    requires MeasureAt(s, units, i, j, k, u)
    ensures j == DigitEnd(s, i) && k == SpaceEnd(s, j)
  {
    UnitStart(s, units, k, u);
    DigitRunWithin(s, i, j);
    SpaceRunWithin(s, j, k);
    SpaceEndStops(s, j, k);
    if j < k {
      assert IsSpace(s[j]);
    }
    assert !IsDigit(s[j]);
    DigitEndStops(s, i, j);
  }

  /** A digit at `i` puts the end of the digit run past `i`. */
  lemma DigitEndPasses(s: string, i: int)
    requires 0 <= i < |s| && IsDigit(s[i])
    ensures i < DigitEnd(s, i)
  {
  }

  /** A positive test at `i` exhibits a match of the pattern from `i`. */
  lemma {:induction false} MatchesAtSound(s: string, units: seq<string>, i: int)
    requires 0 <= i <= |s| && MatchesAt(s, units, i)
    ensures exists j, k, u :: MeasureAt(s, units, i, j, k, u)
  {
    DigitEndPasses(s, i);
    var j := DigitEnd(s, i);
    var u := MeasureOfParts(s, units, i, j, SpaceEnd(s, j));
  }

  /** A boundary, a digit run, a white-space run and a unit followed by a
      boundary form a match; returns the unit. */
  lemma MeasureOfParts(s: string, units: seq<string>, i: int, j: int, k: int) returns (u: string)
    requires 0 <= i < j <= k <= |s| && Boundary(s, i) && AllDigits(s, i, j) && AllSpaces(s, j, k)
    requires UnitFollows(s, units, k)
    ensures MeasureAt(s, units, i, j, k, u)
  {
    u :| u in units && MatchAt(s, u, k) && Boundary(s, k + |u|);
  }

  /** Any match of the pattern from `i` makes the test at `i` positive. */
  lemma {:induction false} MatchesAtComplete(s: string, units: seq<string>, i: int, j: int, k: int, u: string)
    requires WellFormedUnits(units)
    requires MeasureAt(s, units, i, j, k, u)
    ensures MatchesAt(s, units, i)
  {
    MeasureIsGreedy(s, units, i, j, k, u);
    assert IsDigit(s[i]);
    assert UnitFollows(s, units, k);
  }

  /** The matcher finds a match exactly when the pattern matches. */
  lemma MatcherCorrect(s: string, units: seq<string>)
    requires WellFormedUnits(units)
    ensures FindFrom(s, units, 0) <==> HasMeasureOf(s, units)
  {
    if FindFrom(s, units, 0) {
      var i :| 0 <= i <= |s| && MatchesAt(s, units, i);
      MatchesAtSound(s, units, i);
    }
    if HasMeasureOf(s, units) {
      var i, j, k, u :| MeasureAt(s, units, i, j, k, u);
      MatchesAtComplete(s, units, i, j, k, u);
    }
  }

  // ---------------------------------------------------------------------
  // Consequences

  /** Because `%` is not a word character, the closing `\b` after it needs
      a word character immediately following: "50%" alone, or "50%." never
      match through the `%` unit. */
  lemma PercentNeedsWordAfter(s: string, i: int, j: int, k: int)
    requires MeasureAt(s, Units, i, j, k, "%")
    ensures k + 1 < |s| && IsWordChar(s[k + 1])
  {
    assert Lower(s[k..k + 1])[0] == LowerChar(s[k]);
    assert !IsWordChar(s[k]);
  }

  /** A text without digits has no measurable constraint. */
  lemma NoDigitNoMeasure(s: string)
    requires forall m :: 0 <= m < |s| ==> !IsDigit(s[m])
    ensures !HasMeasure(s)
  {
    forall i, j, k, u | 0 <= i < j <= k <= |s| ensures !MeasureAt(s, Units, i, j, k, u) {
      assert !IsDigit(s[i]);
    }
  }

  /** "The system shall respond in under 2 seconds." states a constraint. */
  lemma TwoSecondsIsMeasurable()
    ensures HasMeasure("The system shall respond in under 2 seconds.")
  {
    var s := "The system shall respond in under 2 seconds.";
    assert s[34] == '2' && s[33] == ' ' && s[35] == ' ' && s[43] == '.';
    assert s[36..43] == "seconds";
    assert Lower(s[36..43]) == "seconds";
    assert MeasureAt(s, Units, 34, 35, 36, "seconds");
  }

  /** A number followed by one final symbol, a character that is neither a
      word character nor white space, holds no measurable constraint: the
      symbol is the only place a unit can start, and the text's end after it
      is no `\b`. */
  lemma NumberThenSymbolIsNotMeasurable(s: string, units: seq<string>)
    requires WellFormedUnits(units)
    requires |s| >= 2 && AllDigits(s, 0, |s| - 1)
    requires !IsWordChar(s[|s| - 1]) && !IsSpace(s[|s| - 1])
    ensures !HasMeasureOf(s, units)
  {
    var n := |s| - 1;
    DigitRunWithin(s, 0, n);
    DigitEndStops(s, 0, n);
    SpaceEndStops(s, n, n);
    NoUnitEndsText(s, units);
    assert SpaceEnd(s, DigitEnd(s, 0)) == n;
    forall p | 0 <= p <= |s| ensures !MatchesAt(s, units, p) {
      if 0 < p < n {
        assert IsDigit(s[p - 1]) && IsDigit(s[p]);
        assert !Boundary(s, p);
      } else if p == n {
        assert !IsDigit(s[p]);
      } else if p == 0 {
        assert !UnitFollows(s, units, SpaceEnd(s, DigitEnd(s, 0)));
      }
    }
    MatcherCorrect(s, units);
  }

  /** The consequence in practice: a percentage that ends the text, as in
      "99%", is not a measurable constraint. */
  lemma PercentAtEndIsNotMeasurable(n: string)
    requires n != [] && forall m :: 0 <= m < |n| ==> IsDigit(n[m])
    ensures !HasMeasure(n + "%")
  {
    UnitHeads();
    PercentAtEndOf(n, Units);
  }

  lemma PercentAtEndOf(n: string, units: seq<string>)
    requires WellFormedUnits(units)
    requires n != [] && forall m :: 0 <= m < |n| ==> IsDigit(n[m])
    ensures !HasMeasureOf(n + "%", units)
  {
    var s := n + "%";
    assert AllDigits(s, 0, |s| - 1) by {
      forall m | 0 <= m < |n| ensures s[m] == n[m] {
      }
    }
    NumberThenSymbolIsNotMeasurable(s, units);
  }

  /** No unit followed by `\b` can take the last character of a text that
      ends in a non-word character. */
  lemma NoUnitEndsText(s: string, units: seq<string>)
    requires WellFormedUnits(units)
    requires |s| > 0 && !IsWordChar(s[|s| - 1])
    ensures !UnitFollows(s, units, |s| - 1)
  {
    forall u | u in units ensures !(MatchAt(s, u, |s| - 1) && Boundary(s, |s| - 1 + |u|)) {
      if |u| == 1 {
        assert !Boundary(s, |s|);
      }
    }
  }
}
