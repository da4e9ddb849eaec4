# Requirement clarity analyzer — a Dafny model

This project models the hybrid requirement classifier: the rule layer of
`detector.py` and the feature-ranking step of `model.py`. A requirement
sentence goes through four rules, in order:

- a fixed 13-term vague-word lexicon;
- a token-count limit;
- a regular expression for measurable constraints ("2 seconds", "10 GB", "5 users");
- a classifier probability.

Each rule that fires adds a reason string and an issue tag. The classifier's most
influential vocabulary words are listed as one more, informational reason. The
number of reasons then fixes the status (Clear, Partially Clear, Unclear) and the
severity (1 to 3). The model also covers the highlighter that wraps vague terms in
a bold or coloured marker.

The modules follow the program:

| module | file | models |
|---|---|---|
| `Chars` | chars.dfy | ASCII character classes, `str.lower()`, Python's `in` on strings, a literal pattern matching at a position under `re.IGNORECASE` |
| `Lexicon` | lexicon.dfy | `VAGUE_WORDS`, `detect_vague_terms` |
| `Highlight` | highlight.dfy | `re.sub` with `re.IGNORECASE` on a literal term, `highlight_vague_terms`, `highlight_vague_terms_colored` |
| `Constraints` | constraints.dfy | `detect_missing_constraints`: a hand-written matcher for its one regular expression, proved equal to the expression's meaning |
| `Ranking` | ranking.dfy | Python's stable `sorted(..., key=k, reverse=True)`, shared by the highlighter and the explainer |
| `Features` | features.dfy | `explain_features` |
| `Analyzer` | analyzer.dfy | `detect_complex_sentence` (`DetectComplexSentence`, on the token count), `analyze_requirement` |

Values that come from libraries are parameters of the model:

- the nltk token count of the text;
- the classifier's "unclear" probability;
- the fitted vocabulary with its coefficients;
- the set of tokens the vectorizer extracts from the text;
- the function that rounds and prints a weight.

The empty text has no measurable constraint, so it always gets NO_CONSTRAINTS
and is never Clear (`Analyzer.EmptyTextIsNotClear`).

## Model

| member | source | states |
|---|---|---|
| Lexicon.VagueWordsDistinct | detector.py:20-23 | No lexicon term is listed twice |
| Lexicon.VagueWordsLowerCase | detector.py:20-26 | Every lexicon term is non-empty and lower-case, so testing it against the lower-cased text is a case-insensitive test |
| Lexicon.DetectVagueTerms | detector.py:25-26 | A term is reported iff it is in the lexicon and is a substring of the lower-cased text; reported terms keep lexicon order and are never repeated; the result is empty iff no lexicon term occurs |
| Lexicon.EmbeddedTermMatches | detector.py:26 | Matching is by substring, not by word: "breakfast" reports "fast" |
| Highlight.ReplaceAll | detector.py:39-44 | `re.sub` of a literal term with `re.IGNORECASE`: a replacement at least as long as the term never shortens the text and one no longer never lengthens it; what happens at and between occurrences is stated by `Highlight.ReplaceWithoutMatch`, `Highlight.ReplaceAtOccurrence` and `Highlight.ReplaceLength` |
| Highlight.ReplaceWithoutMatch | detector.py:39-44 | Substitution leaves a text in which the term never matches unchanged |
| Highlight.ReplaceAtOccurrence | detector.py:39-44 | For a term that cannot overlap itself, every case-insensitive occurrence is replaced by the replacement, and the text before and after it is processed independently, so surrounding text is kept |
| Highlight.ReplaceLength | detector.py:39-44 | Substituting a replacement at least as long as the term never shortens the text, and lengthens it when the term occurs and the replacement is longer |
| Highlight.ReplaceBySelf | detector.py:39-44 | Substituting a lower-case term by itself changes only the case of its occurrences: same length, same lower-cased text, each character kept or lower-cased |
| Highlight.VagueWordsNoSelfOverlap | detector.py:20-23 | No lexicon term can overlap itself, so occurrences replaced by the highlighter never overlap |
| Highlight.ByLength | detector.py:37 | `sorted(words, key=len, reverse=True)` on distinct words: a permutation, lengths non-increasing, equal lengths in original order |
| Highlight.LongestFirst | detector.py:36-37 | The processing order holds each lexicon term once, longest first, and terms of equal length in declaration order |
| Highlight.Apply | detector.py:37-44 | The loop over the terms: a term is substituted only when it occurs in the lower-cased ORIGINAL text, so with no term present the text comes back unchanged, and the text never shrinks; `Highlight.ApplyGrows` and `Highlight.ApplySingle` state the growth and the single-term result |
| Highlight.ApplyGrows | detector.py:37-44 | With a non-empty marker, the first listed term present in the original text is replaced while the text is still the original, so the result is strictly longer |
| Highlight.ApplySingle | detector.py:37-44 | When only one listed term occurs in the original text, the loop's result is that one substitution |
| Highlight.HighlightWith | detector.py:28-62 | A text with no lexicon term is returned unchanged; the result is never shorter than the text; with a non-empty marker and some term present it is strictly longer; with an empty marker only the case of matched text changes |
| Highlight.HighlightVagueTerms | detector.py:28-45 | The result is never shorter than the text; it comes back unchanged exactly when no lexicon term occurs in it, and strictly longer when one does; when exactly one lexicon term occurs, the result is the text with every case-insensitive occurrence of that term replaced by `**term**` in lower case |
| Highlight.HighlightVagueTermsColored | detector.py:47-62 | Never shorter than the text; unchanged exactly when no lexicon term occurs, strictly longer when one does; when exactly one lexicon term occurs, every case-insensitive occurrence of it is replaced by `:red[term]` in lower case |
| Highlight.HighlightSingle | detector.py:34-45 | When exactly one lexicon term occurs, the result is the text with every case-insensitive occurrence of that term replaced by the wrapped lower-case term, and nothing else changed |
| Highlight.HighlightFast | detector.py:37-44 | Highlighting "Fast" gives the marker around "fast": the casing of the matched text is lost |
| Highlight.HighlightNotIdempotent | detector.py:34-45 | When the highlighted text still contains a term that was present, a second pass changes it again |
| Highlight.HighlightFastTwice | detector.py:34-45 | Highlighting "Fast" twice differs from highlighting it once, for any non-empty marker |
| Constraints.MeasureAt | detector.py:65 | The meaning of `\b\d+\s*(units)\b` at one choice of split: a word boundary, a digit run, a white-space run, a unit in any case, a word boundary. It is a specification and has no contract; `Constraints.MatcherCorrect` and `Constraints.MeasureIsGreedy` relate the matcher to it |
| Constraints.HasMeasure | detector.py:65-66 | `re.findall` returns a non-empty list: some `Constraints.MeasureAt` holds in the text. It is a specification and has no contract; `Constraints.DetectMissingConstraints` is proved to be its negation |
| Constraints.FindFrom | detector.py:65 | The scan from a position succeeds iff the matcher's test succeeds at some later start position |
| Constraints.MeasureIsGreedy | detector.py:65 | In every match of `\b\d+\s*unit\b` the digit run and the white-space run are the longest ones, so backtracking never finds a different split |
| Constraints.MatcherCorrect | detector.py:65 | The hand-written matcher succeeds iff the regular expression matches somewhere in the text |
| Constraints.DetectMissingConstraints | detector.py:64-66 | The check reports a missing constraint iff no word-boundary digit run, optional white space, unit (second(s), minute(s), ms, MB, GB, %, user(s), any case) and word boundary occurs in the text |
| Constraints.PercentNeedsWordAfter | detector.py:65 | A match through the `%` unit needs a word character right after the `%` |
| Constraints.NumberThenSymbolIsNotMeasurable | detector.py:65-66 | A run of digits followed by one final character that is neither a word character nor white space holds no measurable constraint, for any well-formed unit list |
| Constraints.PercentAtEndIsNotMeasurable | detector.py:65-66 | A number followed by `%` at the very end of the text, as in "99%", holds no measurable constraint |
| Constraints.NoDigitNoMeasure | detector.py:65-66 | A text without digits holds no measurable constraint |
| Constraints.TwoSecondsIsMeasurable | detector.py:65-66 | "The system shall respond in under 2 seconds." holds a measurable constraint |
| Ranking.Rank | model.py:42 | The ranking lists every position once, keys non-increasing, and positions of equal key ascending (a stable descending sort) |
| Features.HitsFrom | model.py:38-39 | The feature indices present in the sentence, each exactly once, ascending |
| Features.SliceTo | model.py:43 | `xs[:n]` is a prefix of length min(n, len) for n ≥ 0 and max(0, len + n) for negative n |
| Features.RankedHits | model.py:38-42 | Every vocabulary word of the sentence appears exactly once with its own coefficient, by absolute weight non-increasing, ties in feature-index order; as many entries as distinct vocabulary words present |
| Features.ExplainFeatures | model.py:37-43 | Length min(top_n, number of distinct vocabulary words present) and empty when the sentence has none; each pair is a present word with its coefficient; no word twice; absolute weights non-increasing with ties in feature-index order; every word left out weighs no more than any returned one, and comes later on equal weight |
| Analyzer.SortTags | detector.py:123 | `sorted(tags)` holds exactly the tags of the set, names strictly ascending |
| Analyzer.MlGuard | detector.py:80-95 | The guard `"Vague terms" not in ''.join(reasons)` fails exactly when the lexicon reported a term |
| Analyzer.MlFires | detector.py:93-97 | The machine-learning rule fires exactly when the probability exceeds the threshold and the lexicon reported no term |
| Analyzer.RaisedReasons | detector.py:77-102 | The reasons are the five-entry rule table (vague terms, length, constraints, classifier, feature listing) filtered to the rules that fired, in table order; so one reason per fired rule, the vague-terms reason first, the feature reason last, never the placeholder alone |
| Analyzer.FiredInRuleOrder | detector.py:80-102 | Filtering the rule table to the fired rules gives the reasons in the order the source appends them |
| Analyzer.RuleTableReports | detector.py:80-122 | The five rule reasons and the placeholder are pairwise distinct, so each rule's reason is among the reported reasons exactly when that rule fired, and the placeholder is never among the fired ones |
| Analyzer.Reported | detector.py:122 | `reasons or ["Sentence appears well-defined."]`: the fired reasons in rule order, or the placeholder alone exactly when none fired; each rule's reason (vague, complex, missing, classifier, listing) is present exactly when its rule fired |
| Analyzer.FiredTags | detector.py:78-123 | The sorted tags hold a tag exactly for each rule that fired, names strictly ascending, one entry per fired rule |
| Analyzer.Fuse | detector.py:77-125 | Given the rule results (`Analyzer.Judgement`): a tag per rule that fired; ML_AMBIGUITY iff probability > threshold and no vague term; tags ascending; reasons = tags + (1 if features listed); 0/1/≥2 reasons give Clear/1, Partially Clear/2, Unclear/3; the reasons are the fired rules' reasons in rule order, or the placeholder alone exactly when Clear; each rule's reason present iff it fired; the vague reason first and the feature reason last |
| Analyzer.Analyze | detector.py:68-125 | `Analyzer.Judgement` for the text's own rule results: VAGUE_TERMS iff a lexicon term occurs; COMPLEX_SENTENCE iff token count > max_length; NO_CONSTRAINTS iff no measurable constraint; ML_AMBIGUITY iff probability > threshold and no vague term; never both VAGUE_TERMS and ML_AMBIGUITY; tags ascending; status and severity from the reason count; reasons are the fired rules' reasons in rule order, each present iff its rule fired, or the placeholder alone exactly when Clear |
| Analyzer.AnalyzeWithDefaults | detector.py:68-125 | With the default arguments, COMPLEX_SENTENCE iff more than 20 tokens and ML_AMBIGUITY iff probability > 0.6 and no vague term, and everything `Analyzer.Analyze` promises |
| Analyzer.TopWordsListed | detector.py:99-102 | The feature listing adds a reason exactly when some vocabulary word occurs in the sentence |
| Analyzer.Classify | detector.py:104-110 | No reason gives Clear, one gives Partially Clear, two or more give Unclear |
| Analyzer.SeverityOf | detector.py:112-118 | The severity is between 1 and 3: 1 exactly for Clear, 3 exactly for Unclear |
| Analyzer.SeverityFollowsReasons | detector.py:104-118 | The severity is one more than the number of reasons, capped at 3, so more reasons never give a milder rating |
| Analyzer.VagueAndUnmeasuredIsUnclear | detector.py:80-118 | A text with a vague term and no measurable constraint is Unclear with severity 3, without ML_AMBIGUITY, whatever the other inputs |
| Analyzer.FastAndScalableIsUnclear | detector.py:71-125 | "The system shall be fast and scalable." is "Unclear" with severity 3, tagged VAGUE_TERMS and NO_CONSTRAINTS |
| Analyzer.EmptyTextIsNotClear | detector.py:89-118 | The empty text is tagged NO_CONSTRAINTS, not VAGUE_TERMS, and is never Clear |

## Left out

- NLTK resource download and `word_tokenize` (detector.py:10-18, 69) are library I/O. The token count is a parameter of `Analyzer.Analyze`.
- Training the vectorizer and the logistic regression, and `predict_unclear` (model.py:10-34), are library floating-point code. The probability, the vocabulary and the coefficients are parameters.
- The vectorizer's tokenisation of the sentence (model.py:38) is library code. The set of tokens it yields is a parameter.
- `round(wt, 2)` and printing a float (detector.py:101) are floating-point formatting. They are the parameter `formatWeight`.
- Weights and probabilities are `real`. Floating-point rounding in comparisons and in `abs` is not modelled.
- Python's `str.lower()`, `\w`, `\d` and `\s` are Unicode-aware. So is the case folding of `re.IGNORECASE`, which for instance lets 'ſ' match 's' although `'ſ'.lower()` is 'ſ'. The model uses the ASCII behaviour of all of them only.
- `re.sub` treats each term as a pattern. Every lexicon term is plain letters plus `-`, which is literal outside a character class, so the model treats the pattern as a literal string.
- Highlight.HighlightWith: when several lexicon terms occur, the model does not give a closed form of the output. Occurrences of different terms can overlap, so no per-occurrence form holds in the program either. In "secureasy", "secure" is wrapped first, which breaks "easy", so "easy" is never wrapped although it was found in the original text. The result is stated exactly when one term occurs (`Highlight.HighlightSingle`) and per occurrence for each substitution step (`Highlight.ReplaceAtOccurrence`). With several terms, only the length bounds and the unchanged-when-none facts are stated.
- Highlight.HighlightVagueTerms: states the bold result in closed form only when one lexicon term occurs. With several terms it states the length bounds and the unchanged-when-none fact. Occurrences of different terms can overlap, so no per-occurrence form holds in the program either. In "secureasy", "secure" is wrapped first, which breaks "easy", so "easy" is never wrapped although it was found in the original text.
- Highlight.HighlightVagueTermsColored: states the coloured result in closed form only when one lexicon term occurs. With several terms it states the length bounds and the unchanged-when-none fact. The reason is the same: overlapping occurrences of different terms, as in "secureasy", where the colour marker around "secure" breaks "easy".
- app.py (display, session state, batch processing, CSV export) is presentation and is not part of this model.
- The rewrite suggester, the agent rationale and the agent loop are not part of this model. `suggest_rewrite` and `build_agent_rationale` are imported by app.py, but their source is not among the modelled files.
