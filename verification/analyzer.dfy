/** The requirement analyzer (`analyze_requirement`): runs the rules in a
    fixed order, collects a reason string per finding and a tag per rule that
    fired, and classifies the requirement by the number of reasons.

    The tokenizer's token count, the classifier's "unclear" probability, the
    vectorizer's tokens of the text and the rounding of weights for display
    are library results and enter as parameters. */
module Analyzer {
  import opened Chars
  import Lexicon
  import Constraints
  import Features

  /** `max_length` and `ml_threshold` when the caller gives none. */
  const DefaultMaxLength: int := 20
  const DefaultMlThreshold: real := 0.6

  /** `explain_features`' default `top_n`, the value the analyzer uses. */
  const TopN: int := 5

  /** The issue categories. */
  datatype Tag = VagueTerms | ComplexSentence | NoConstraints | MlAmbiguity

  function TagName(t: Tag): string {
    match t
    case VagueTerms => "VAGUE_TERMS"
    case ComplexSentence => "COMPLEX_SENTENCE"
    case NoConstraints => "NO_CONSTRAINTS"
    case MlAmbiguity => "ML_AMBIGUITY"
  }

  /** The position of a tag's name in the alphabetical order of the names. */
  function TagRank(t: Tag): nat {
    match t
    case ComplexSentence => 0
    case MlAmbiguity => 1
    case NoConstraints => 2
    case VagueTerms => 3
  }

  datatype Status = Clear | PartiallyClear | Unclear

  function StatusLabel(s: Status): string {
    match s
    case Clear => "Clear"
    case PartiallyClear => "Partially Clear"
    case Unclear => "Unclear"
  }

  /** The dictionary the analyzer returns. */
  datatype Verdict = Verdict(status: Status, reasons: seq<string>, tags: seq<Tag>, severity: int)

  // ---------------------------------------------------------------------
  // Reason strings

  /** The text the machine-learning rule looks for among earlier reasons. */
  const VagueLabel: string := "Vague terms"
  const ComplexReason: string := "Sentence too long or complex."
  const MissingReason: string := "No measurable constraints provided."
  const MlReason: string := "ML model suggests possible ambiguity."
  const TopWordsLabel: string := "Top influential words (ML): "
  const WellDefined: string := "Sentence appears well-defined."

  /** `sep.join(xs)`. */
  function Join(sep: string, xs: seq<string>): string
    decreases |xs|
  {
    if |xs| == 0 then ""
    else if |xs| == 1 then xs[0]
    else xs[0] + sep + Join(sep, xs[1..])
  }

  /** `''.join(xs)`. */
  function Concat(xs: seq<string>): string
    decreases |xs|
  {
    if |xs| == 0 then "" else xs[0] + Concat(xs[1..])
  }

  function VagueReason(vague: seq<string>): string {
    VagueLabel + (" detected: " + Join(", ", vague))
  }

  /** `f"{w} ({round(wt, 2)})"`, the rounding and printing of the weight
      being `formatWeight`. */
  function FeatureText(f: Features.Feature, formatWeight: real -> string): string {
    f.word + " (" + formatWeight(f.weight) + ")"
  }

  function TopWordsReason(top: seq<Features.Feature>, formatWeight: real -> string): string {
    TopWordsLabel + Join(", ", seq(|top|, i requires 0 <= i < |top| => FeatureText(top[i], formatWeight)))
  }

  // ---------------------------------------------------------------------
  // Ordering of tags

  /** Python's `a < b` on strings: lexicographic by code point. */
  function LexLess(a: string, b: string): bool
    decreases |a|
  {
    if |a| == 0 then |b| > 0
    else |b| > 0 && (a[0] < b[0] || (a[0] == b[0] && LexLess(a[1..], b[1..])))
  }

  /** The tags present, in the fixed order of their names. */
  function TagsInOrder(tags: set<Tag>): seq<Tag> {
    (if ComplexSentence in tags then [ComplexSentence] else [])
    + (if MlAmbiguity in tags then [MlAmbiguity] else [])
    + (if NoConstraints in tags then [NoConstraints] else [])
    + (if VagueTerms in tags then [VagueTerms] else [])
  }

  /** `sorted(tags)`: the tags present, in the order of their names. */
  function SortTags(tags: set<Tag>): (r: seq<Tag>)
    ensures forall t :: t in r <==> t in tags
    ensures forall a, b :: 0 <= a < b < |r| ==> LexLess(TagName(r[a]), TagName(r[b]))
  {
    TagsInOrderFacts(tags);
    TagsInOrder(tags)
  }

  // ---------------------------------------------------------------------
  // The length rule

  /** `detect_complex_sentence(text, max_length)` for a text of
      `tokenCount` tokens. */
  function DetectComplexSentence(tokenCount: nat, maxLength: int): bool {
    tokenCount > maxLength
  }

  // ---------------------------------------------------------------------
  // Classification

  /** 0 reasons: Clear; 1: Partially Clear; more: Unclear. */
  function Classify(n: nat): (r: Status)
    ensures r == Clear <==> n == 0
    ensures r == PartiallyClear <==> n == 1
    ensures r == Unclear <==> n >= 2
  {
    if n == 0 then Clear else if n == 1 then PartiallyClear else Unclear
  }

  /** The severity rating, from 1 (low) to 3 (high). */
  function SeverityOf(s: Status): (r: int)
    ensures 1 <= r <= 3
    ensures r == 1 <==> s == Clear
    ensures r == 3 <==> s == Unclear
  {
    match s
    case Clear => 1
    case PartiallyClear => 2
    case Unclear => 3
  }

  /** The feature explainer lists at least one word. */
  predicate HasTopWords(vocab: Features.Vocabulary, tokens: set<string>) {
    Features.PresentWords(vocab, tokens) != {}
  }

  /** The reasons the rules contribute before the machine-learning rule. */
  function RuleReasons(vague: seq<string>, complex: bool, missing: bool): seq<string> {
    (if vague != [] then [VagueReason(vague)] else [])
    + (if complex then [ComplexReason] else [])
    + (if missing then [MissingReason] else [])
  }

  /** One rule's outcome: whether it fired, and the reason it appends when
      it does. */
  datatype Finding = Finding(fired: bool, reason: string)

  /** The rules in the order `analyze_requirement` runs them, each with the
      reason it appends: the lexicon, the length limit, the constraint
      check, the classifier, the feature listing. */
  function RuleTable(vague: seq<string>, complex: bool, missing: bool, ml: bool,
                     top: seq<Features.Feature>, formatWeight: real -> string): seq<Finding> {
    [ Finding(vague != [], VagueReason(vague)),
      Finding(complex, ComplexReason),
      Finding(missing, MissingReason),
      Finding(ml, MlReason),
      Finding(top != [], TopWordsReason(top, formatWeight)) ]
  }

  /** The reasons of the rules that fired, in table order. */
  function Fired(table: seq<Finding>): seq<string> {
    FiredFrom(table, 0)
  }

  /** The reasons of the rules from position `k` on that fired, in table order. */
  function FiredFrom(table: seq<Finding>, k: nat): seq<string>
    requires k <= |table|
    decreases |table| - k
  {
    if k == |table| then [] else Raised(table[k]) + FiredFrom(table, k + 1)
  }

  /** The reason a single rule contributes. */
  function Raised(f: Finding): seq<string> {
    if f.fired then [f.reason] else []
  }

  /** The reasons a verdict reports for a table of rule outcomes: those of
      the rules that fired, in rule order, or the placeholder alone when
      none fired; so each rule's reason is present exactly when it fired. */
  predicate ReportsRules(reasons: seq<string>, table: seq<Finding>) {
    && reasons == (if Fired(table) == [] then [WellDefined] else Fired(table))
    && forall i :: 0 <= i < |table| ==> (table[i].reason in reasons <==> table[i].fired)
  }

  /** What `analyze_requirement` promises of its verdict `r`, given the
      outcomes of its rules: `vague` is the lexicon's finding, `complex` and
      `missing` the verdicts of the length and constraint rules, `mlHigh`
      whether the classifier's probability exceeds the threshold, and `top`
      the feature explainer's list. */
  predicate Judgement(r: Verdict, vague: seq<string>, complex: bool, missing: bool, mlHigh: bool,
                      top: seq<Features.Feature>, formatWeight: real -> string)
  {
    && TagsJudged(r.tags, vague, complex, missing, mlHigh)
    && Graded(r, |r.tags| + (if top != [] then 1 else 0))
    && ReasonsJudged(r, vague, complex, missing, top, formatWeight)
  }

  /** Each tag is present exactly when its rule fires, the machine-learning
      rule fires only when the lexicon found nothing, and the tags are
      sorted by name. */
  predicate TagsJudged(tags: seq<Tag>, vague: seq<string>, complex: bool, missing: bool, mlHigh: bool) {
    && (VagueTerms in tags <==> vague != [])
    && (ComplexSentence in tags <==> complex)
    && (NoConstraints in tags <==> missing)
    && (MlAmbiguity in tags <==> mlHigh && vague == [])
    && !(VagueTerms in tags && MlAmbiguity in tags)
    && (forall a, b :: 0 <= a < b < |tags| ==> LexLess(TagName(tags[a]), TagName(tags[b])))
  }

  /** Status and severity for a verdict that raised `count` reasons. */
  predicate Graded(r: Verdict, count: nat) {
    && (r.status == Clear <==> count == 0)
    && (r.status == PartiallyClear <==> count == 1)
    && (r.status == Unclear <==> count >= 2)
    && (r.severity == 1 <==> r.status == Clear)
    && (r.severity == 2 <==> r.status == PartiallyClear)
    && (r.severity == 3 <==> r.status == Unclear)
  }

  /** The reasons are those of the fired rules in rule order, or the
      placeholder alone exactly when the verdict is Clear; the description
      of the vague terms comes first and the feature listing last. */
  predicate ReasonsJudged(r: Verdict, vague: seq<string>, complex: bool, missing: bool,
                          top: seq<Features.Feature>, formatWeight: real -> string)
  {
    && (r.status != Clear ==> |r.reasons| == |r.tags| + (if top != [] then 1 else 0))
    && (r.reasons == [WellDefined] <==> r.status == Clear)
    && ReportsRules(r.reasons, RuleTable(vague, complex, missing, MlAmbiguity in r.tags, top, formatWeight))
    && (VagueReason(vague) in r.reasons <==> vague != [])
    && (ComplexReason in r.reasons <==> complex)
    && (MissingReason in r.reasons <==> missing)
    && (MlReason in r.reasons <==> MlAmbiguity in r.tags)
    && (TopWordsReason(top, formatWeight) in r.reasons <==> top != [])
    && (vague != [] ==> |r.reasons| > 0 && r.reasons[0] == VagueReason(vague))
    && (top != [] ==> |r.reasons| > 0 && r.reasons[|r.reasons| - 1] == TopWordsReason(top, formatWeight))
  }

  /** The body of `analyze_requirement` once the rules have been
      evaluated. */
  function Fuse(vague: seq<string>, complex: bool, missing: bool, probUnclear: real, mlThreshold: real,
                top: seq<Features.Feature>, formatWeight: real -> string): (r: Verdict)
    ensures Judgement(r, vague, complex, missing, probUnclear > mlThreshold, top, formatWeight)
  {
    var ml := MlFires(vague, complex, missing, probUnclear, mlThreshold);
    var raised := RaisedReasons(vague, complex, missing, ml, top, formatWeight);
    var status := Classify(|raised|);
    var r := Verdict(status, Reported(raised, vague, complex, missing, ml, top, formatWeight),
                     FiredTags(vague != [], complex, missing, ml), SeverityOf(status));
    FusedVerdict(vague, complex, missing, probUnclear > mlThreshold, ml, top, formatWeight, r);
    r
  }

  /** The verdict `Fuse` assembles satisfies `Judgement`. */
  lemma FusedVerdict(vague: seq<string>, complex: bool, missing: bool, mlHigh: bool, ml: bool,
                     top: seq<Features.Feature>, formatWeight: real -> string, r: Verdict)
    requires ml <==> mlHigh && vague == []
    requires var raised := RaisedReasons(vague, complex, missing, ml, top, formatWeight);
             r == Verdict(Classify(|raised|), Reported(raised, vague, complex, missing, ml, top, formatWeight),
                          FiredTags(vague != [], complex, missing, ml), SeverityOf(Classify(|raised|)))
    ensures Judgement(r, vague, complex, missing, mlHigh, top, formatWeight)
  {
    FusedTags(vague, complex, missing, mlHigh, ml);
    FusedGrade(vague, complex, missing, ml, top, formatWeight);
    FusedReasons(vague, complex, missing, ml, top, formatWeight);
  }

  /** The tags `Fuse` attaches satisfy `TagsJudged`. */
  lemma FusedTags(vague: seq<string>, complex: bool, missing: bool, mlHigh: bool, ml: bool)
    requires ml <==> mlHigh && vague == []
    ensures TagsJudged(FiredTags(vague != [], complex, missing, ml), vague, complex, missing, mlHigh)
  {
  }

  /** One reason per fired rule and per tag, plus the feature listing, so
      the verdict `Fuse` builds is graded by its tags and listing. */
  lemma FusedGrade(vague: seq<string>, complex: bool, missing: bool, ml: bool,
                   top: seq<Features.Feature>, formatWeight: real -> string)
    ensures var raised := RaisedReasons(vague, complex, missing, ml, top, formatWeight);
            var tags := FiredTags(vague != [], complex, missing, ml);
            |raised| == |tags| + (if top != [] then 1 else 0)
            && Graded(Verdict(Classify(|raised|), [], tags, SeverityOf(Classify(|raised|))), |raised|)
  {
  }

  /** The reasons of the verdict `Fuse` builds satisfy `ReasonsJudged`. */
  lemma FusedReasons(vague: seq<string>, complex: bool, missing: bool, ml: bool,
                     top: seq<Features.Feature>, formatWeight: real -> string)
    ensures var raised := RaisedReasons(vague, complex, missing, ml, top, formatWeight);
            var status := Classify(|raised|);
            var tags := FiredTags(vague != [], complex, missing, ml);
            (MlAmbiguity in tags <==> ml)
            && ReasonsJudged(Verdict(status, Reported(raised, vague, complex, missing, ml, top, formatWeight),
                                     tags, SeverityOf(status)),
                             vague, complex, missing, top, formatWeight)
  {
    FusedGrade(vague, complex, missing, ml, top, formatWeight);
  }

  /** `reasons or ["Sentence appears well-defined."]` for the reasons the
      rules raised. */
  function Reported(raised: seq<string>, vague: seq<string>, complex: bool, missing: bool, ml: bool,
                    top: seq<Features.Feature>, formatWeight: real -> string): (r: seq<string>)
    requires raised == Fired(RuleTable(vague, complex, missing, ml, top, formatWeight))
    ensures ReportsRules(r, RuleTable(vague, complex, missing, ml, top, formatWeight))
    ensures VagueReason(vague) in r <==> vague != []
    ensures ComplexReason in r <==> complex
    ensures MissingReason in r <==> missing
    ensures MlReason in r <==> ml
    ensures TopWordsReason(top, formatWeight) in r <==> top != []
    ensures r == [WellDefined] <==> raised == []
    ensures raised != [] ==> r == raised
  {
    RuleTableReports(vague, complex, missing, ml, top, formatWeight);
    var t := RuleTable(vague, complex, missing, ml, top, formatWeight);
    assert t[0].reason == VagueReason(vague) && t[1].reason == ComplexReason && t[2].reason == MissingReason;
    assert t[3].reason == MlReason && t[4].reason == TopWordsReason(top, formatWeight);
    if raised == [] then [WellDefined] else raised
  }

  /** The machine-learning rule: the probability exceeds the threshold and
      no earlier reason mentions "Vague terms". */
  function MlFires(vague: seq<string>, complex: bool, missing: bool, probUnclear: real,
                   mlThreshold: real): (ml: bool)
    ensures ml <==> probUnclear > mlThreshold && vague == []
  {
    MlGuard(vague, complex, missing);
    probUnclear > mlThreshold && !Contains(Concat(RuleReasons(vague, complex, missing)), VagueLabel)
  }

  /** The reasons in the order the rules add them: one per rule that fired,
      then the feature listing if there is one. */
  function RaisedReasons(vague: seq<string>, complex: bool, missing: bool, ml: bool,
                         top: seq<Features.Feature>, formatWeight: real -> string): (r: seq<string>)
    ensures |r| == (if vague != [] then 1 else 0) + (if complex then 1 else 0)
                   + (if missing then 1 else 0) + (if ml then 1 else 0) + (if top != [] then 1 else 0)
    ensures vague != [] ==> r[0] == VagueReason(vague)
    ensures top != [] ==> r[|r| - 1] == TopWordsReason(top, formatWeight)
    ensures r != [WellDefined]
    ensures r == Fired(RuleTable(vague, complex, missing, ml, top, formatWeight))
  {
    var topReason := if top != [] then [TopWordsReason(top, formatWeight)] else [];
    var reasons := RuleReasons(vague, complex, missing) + (if ml then [MlReason] else []) + topReason;
    ReasonList(vague, complex, missing, ml, topReason);
    FiredInRuleOrder(vague, complex, missing, ml, top, formatWeight);
    assert reasons != [WellDefined] by {
      if reasons != [] {
        ReasonsNotWellDefined(reasons);
      }
    }
    reasons
  }

  /** `sorted(set(tags))` for the tags of the rules that fired. */
  function FiredTags(vague: bool, complex: bool, missing: bool, ml: bool): (r: seq<Tag>)
    ensures VagueTerms in r <==> vague
    ensures ComplexSentence in r <==> complex
    ensures NoConstraints in r <==> missing
    ensures MlAmbiguity in r <==> ml
    ensures forall a, b :: 0 <= a < b < |r| ==> LexLess(TagName(r[a]), TagName(r[b]))
    ensures |r| == (if vague then 1 else 0) + (if complex then 1 else 0) + (if missing then 1 else 0)
                   + (if ml then 1 else 0)
  {
    var tags := (if vague then {VagueTerms} else {})
      + (if complex then {ComplexSentence} else {})
      + (if missing then {NoConstraints} else {})
      + (if ml then {MlAmbiguity} else {});
    TagCount(tags, vague, complex, missing, ml);
    assert (VagueTerms in tags) == vague;
    assert (ComplexSentence in tags) == complex;
    assert (NoConstraints in tags) == missing;
    assert (MlAmbiguity in tags) == ml;
    SortTags(tags)
  }

  /** `analyze_requirement(text, max_length, ml_threshold)`, where the text
      has `tokenCount` tokens, the classifier gives it `probUnclear`, and
      the vectorizer finds `tokens` in it. */
  function Analyze(text: string, maxLength: int, mlThreshold: real, tokenCount: nat, probUnclear: real,
                   vocab: Features.Vocabulary, tokens: set<string>, formatWeight: real -> string): (r: Verdict)
    requires vocab.Valid()
    ensures ComplexSentence in r.tags <==> tokenCount > maxLength
    ensures MlAmbiguity in r.tags ==> probUnclear > mlThreshold
    ensures Judgement(r, Lexicon.DetectVagueTerms(text), tokenCount > maxLength, !Constraints.HasMeasure(text),
                      probUnclear > mlThreshold, Features.ExplainFeatures(vocab, tokens, TopN), formatWeight)
  {
    Fuse(Lexicon.DetectVagueTerms(text), DetectComplexSentence(tokenCount, maxLength),
         Constraints.DetectMissingConstraints(text),
         probUnclear, mlThreshold, Features.ExplainFeatures(vocab, tokens, TopN), formatWeight)
  }

  /** `analyze_requirement(text)` with the default `max_length` and
      `ml_threshold`: more than 20 tokens make the sentence complex, and the
      classifier counts only above probability 0.6. */
  function AnalyzeWithDefaults(text: string, tokenCount: nat, probUnclear: real, vocab: Features.Vocabulary,
                               tokens: set<string>, formatWeight: real -> string): (r: Verdict)
    requires vocab.Valid()
    ensures ComplexSentence in r.tags <==> tokenCount > 20
    ensures MlAmbiguity in r.tags <==> probUnclear > 0.6 && Lexicon.DetectVagueTerms(text) == []
    ensures Judgement(r, Lexicon.DetectVagueTerms(text), tokenCount > 20, !Constraints.HasMeasure(text),
                      probUnclear > 0.6, Features.ExplainFeatures(vocab, tokens, TopN), formatWeight)
  {
    Analyze(text, DefaultMaxLength, DefaultMlThreshold, tokenCount, probUnclear, vocab, tokens, formatWeight)
  }

  /** The analyzer lists top words exactly when some vocabulary word is in
      the text, so the listing adds a reason exactly then. */
  lemma TopWordsListed(vocab: Features.Vocabulary, tokens: set<string>)
    requires vocab.Valid()
    ensures Features.ExplainFeatures(vocab, tokens, TopN) != [] <==> HasTopWords(vocab, tokens)
  {
  }

  /** More reasons never give a milder verdict: the severity is one more
      than the number of reasons, capped at 3. */
  lemma SeverityFollowsReasons(n: nat, m: nat)
    ensures SeverityOf(Classify(n)) == (if n >= 2 then 3 else n + 1)
    ensures n <= m ==> SeverityOf(Classify(n)) <= SeverityOf(Classify(m))
  {
  }

  // ---------------------------------------------------------------------
  // Proofs

  /** The tag names in the order `SortTags` lists them are ascending. */
  lemma TagNamesAscending()
    ensures LexLess(TagName(ComplexSentence), TagName(MlAmbiguity))
    ensures LexLess(TagName(ComplexSentence), TagName(NoConstraints))
    ensures LexLess(TagName(ComplexSentence), TagName(VagueTerms))
    ensures LexLess(TagName(MlAmbiguity), TagName(NoConstraints))
    ensures LexLess(TagName(MlAmbiguity), TagName(VagueTerms))
    ensures LexLess(TagName(NoConstraints), TagName(VagueTerms))
  {
  }

  /** A character absent from every string is absent from their
      concatenation. */
  lemma {:induction false} ConcatAvoids(xs: seq<string>, c: char)
    requires forall i :: 0 <= i < |xs| ==> c !in xs[i]
    ensures c !in Concat(xs)
    decreases |xs|
  {
    if |xs| > 0 {
      ConcatAvoids(xs[1..], c);
    }
  }

  /** The machine-learning rule's guard, "Vague terms" not in the joined
      reasons so far, holds exactly when the lexicon found nothing. */
  lemma MlGuard(vague: seq<string>, complex: bool, missing: bool)
    ensures Contains(Concat(RuleReasons(vague, complex, missing)), VagueLabel) <==> vague != []
  {
    if vague != [] {
      GuardSeesVagueReason(vague, complex, missing);
    } else {
      GuardSeesNoVagueReason(complex, missing);
    }
  }

  /** With a vague term found, the joined reasons start with "Vague terms". */
  lemma GuardSeesVagueReason(vague: seq<string>, complex: bool, missing: bool)
    requires vague != []
    ensures Contains(Concat(RuleReasons(vague, complex, missing)), VagueLabel)
  {
    var rules := RuleReasons(vague, complex, missing);
    ConcatStartsWith(rules, VagueLabel, " detected: " + Join(", ", vague));
  }

  /** A list whose first string starts with `head` joins to a string
      containing `head`. */
  lemma ConcatStartsWith(xs: seq<string>, head: string, tail: string)
    requires xs != [] && xs[0] == head + tail
    ensures Contains(Concat(xs), head)
  {
    assert Concat(xs) == head + (tail + Concat(xs[1..]));
    ContainsPrefix(head, tail + Concat(xs[1..]));
  }

  /** Without a vague term, the joined reasons hold no capital V at all. */
  lemma GuardSeesNoVagueReason(complex: bool, missing: bool)
    ensures !Contains(Concat(RuleReasons([], complex, missing)), VagueLabel)
  {
    var rules := RuleReasons([], complex, missing);
    NoCapitalV();
    assert forall i :: 0 <= i < |rules| ==> rules[i] == ComplexReason || rules[i] == MissingReason;
    ConcatAvoids(rules, 'V');
    ContainsHead(Concat(rules), VagueLabel);
  }

  lemma NoCapitalV()
    ensures 'V' !in ComplexReason && 'V' !in MissingReason
  {
    assert forall i :: 0 <= i < |ComplexReason| ==> ComplexReason[i] != 'V';
    assert forall i :: 0 <= i < |MissingReason| ==> MissingReason[i] != 'V';
  }

  /** No reason a rule produces is the well-defined placeholder. */
  lemma ReasonsNotWellDefined(reasons: seq<string>)
    requires |reasons| > 0
    requires reasons[0] == ComplexReason || reasons[0] == MissingReason || reasons[0] == MlReason
      || (|reasons[0]| > 0 && (reasons[0][0] == 'V' || reasons[0][0] == 'T'))
    ensures reasons != [WellDefined]
  {
  }

  /** `TagsInOrder` lists exactly the tags present, names ascending. */
  lemma TagsInOrderFacts(tags: set<Tag>)
    ensures forall t :: t in TagsInOrder(tags) <==> t in tags
    ensures forall a, b :: 0 <= a < b < |TagsInOrder(tags)| ==>
      LexLess(TagName(TagsInOrder(tags)[a]), TagName(TagsInOrder(tags)[b]))
  {
    TagsInOrderMembers(tags);
    TagsInOrderRanks(tags);
    var r := TagsInOrder(tags);
    forall a, b | 0 <= a < b < |r| ensures LexLess(TagName(r[a]), TagName(r[b])) {
      RankOrdersNames(r[a], r[b]);
    }
  }

  lemma TagsInOrderMembers(tags: set<Tag>)
    ensures forall t :: t in TagsInOrder(tags) <==> t in tags
  {
    forall t | t in tags ensures t in TagsInOrder(tags) {
      match t
      case VagueTerms =>
      case ComplexSentence =>
      case NoConstraints =>
      case MlAmbiguity =>
    }
  }

  lemma TagsInOrderRanks(tags: set<Tag>)
    ensures forall a, b :: 0 <= a < b < |TagsInOrder(tags)| ==>
      TagRank(TagsInOrder(tags)[a]) < TagRank(TagsInOrder(tags)[b])
  {
  }

  /** A tag of lower rank has the smaller name. */
  lemma RankOrdersNames(s: Tag, t: Tag)
    requires TagRank(s) < TagRank(t)
    ensures LexLess(TagName(s), TagName(t))
  {
    TagNamesAscending();
  }

  /** The sorted tags are as many as the rules that fired. */
  lemma TagCount(tags: set<Tag>, vague: bool, complex: bool, missing: bool, ml: bool)
    requires tags == (if vague then {VagueTerms} else {})
      + (if complex then {ComplexSentence} else {})
      + (if missing then {NoConstraints} else {})
      + (if ml then {MlAmbiguity} else {})
    ensures |SortTags(tags)| ==
      (if vague then 1 else 0) + (if complex then 1 else 0) + (if missing then 1 else 0) + (if ml then 1 else 0)
  {
    assert (VagueTerms in tags) == vague;
    assert (ComplexSentence in tags) == complex;
    assert (NoConstraints in tags) == missing;
    assert (MlAmbiguity in tags) == ml;
    assert SortTags(tags) == TagsInOrder(tags);
  }

  /** The reasons list has one entry per rule that fired, the lexicon's
      first and the feature listing's last. */
  lemma ReasonList(vague: seq<string>, complex: bool, missing: bool, ml: bool, topReason: seq<string>)
    requires |topReason| <= 1
    ensures var reasons := RuleReasons(vague, complex, missing) + (if ml then [MlReason] else []) + topReason;
      && |reasons| == (if vague != [] then 1 else 0) + (if complex then 1 else 0)
                      + (if missing then 1 else 0) + (if ml then 1 else 0) + |topReason|
      && (vague != [] ==> reasons[0] == VagueReason(vague))
      && (topReason != [] ==> reasons[|reasons| - 1] == topReason[0])
      && (reasons != [] ==>
            reasons[0] == ComplexReason || reasons[0] == MissingReason || reasons[0] == MlReason
            || (vague != [] && reasons[0] == VagueReason(vague))
            || (topReason != [] && reasons[0] == topReason[0]))
  {
  }

  /** Filtering the rule table gives the reasons in the order the rules
      append them. */
  lemma FiredInRuleOrder(vague: seq<string>, complex: bool, missing: bool, ml: bool,
                         top: seq<Features.Feature>, formatWeight: real -> string)
    ensures Fired(RuleTable(vague, complex, missing, ml, top, formatWeight))
      == RuleReasons(vague, complex, missing) + (if ml then [MlReason] else [])
         + (if top != [] then [TopWordsReason(top, formatWeight)] else [])
  {
    var t := RuleTable(vague, complex, missing, ml, top, formatWeight);
    FiredFive(t[0], t[1], t[2], t[3], t[4]);
    var r0, r1, r2 := Raised(t[0]), Raised(t[1]), Raised(t[2]);
    var r3, r4 := Raised(t[3]), Raised(t[4]);
    assert RuleReasons(vague, complex, missing) == r0 + r1 + r2;
    assert r0 + (r1 + (r2 + (r3 + r4))) == r0 + r1 + r2 + r3 + r4;
  }

  /** Filtering a five-rule table keeps the fired reasons in table order. */
  lemma FiredFive(f0: Finding, f1: Finding, f2: Finding, f3: Finding, f4: Finding)
    ensures Fired([f0, f1, f2, f3, f4])
      == Raised(f0) + (Raised(f1) + (Raised(f2) + (Raised(f3) + Raised(f4))))
  {
    var t := [f0, f1, f2, f3, f4];
    assert FiredFrom(t, 4) == Raised(f4);
    assert FiredFrom(t, 3) == Raised(f3) + Raised(f4);
    assert FiredFrom(t, 2) == Raised(f2) + (Raised(f3) + Raised(f4));
    assert FiredFrom(t, 1) == Raised(f1) + (Raised(f2) + (Raised(f3) + Raised(f4)));
  }

  /** A reason no fired rule from `k` on carries is not among their reasons. */
  lemma {:induction false} FiredAvoids(table: seq<Finding>, k: nat, s: string)
    requires k <= |table|
    requires forall j :: k <= j < |table| && table[j].fired ==> table[j].reason != s
    ensures s !in FiredFrom(table, k)
    decreases |table| - k
  {
    if k < |table| {
      FiredAvoids(table, k + 1, s);
    }
  }

  /** When no other rule from `k` on carries the same reason, a rule's
      reason is among their fired reasons exactly when that rule fired. */
  lemma {:induction false} FiredHas(table: seq<Finding>, k: nat, i: nat)
    requires k <= i < |table|
    requires forall j :: k <= j < |table| && j != i ==> table[j].reason != table[i].reason
    ensures table[i].reason in FiredFrom(table, k) <==> table[i].fired
    decreases |table| - k
  {
    if i == k {
      FiredAvoids(table, k + 1, table[i].reason);
    } else {
      FiredHas(table, k + 1, i);
    }
  }

  /** The first character of each reason: the five reasons differ, and
      none is the placeholder. */
  lemma ReasonHeads(vague: seq<string>, top: seq<Features.Feature>, formatWeight: real -> string)
    ensures |VagueReason(vague)| > 0 && VagueReason(vague)[0] == 'V'
    ensures |TopWordsReason(top, formatWeight)| > 0 && TopWordsReason(top, formatWeight)[0] == 'T'
    ensures ComplexReason[0] == 'S' && MissingReason[0] == 'N' && MlReason[0] == 'M'
    ensures WellDefined[0] == 'S' && |WellDefined| != |ComplexReason|
  {
    assert VagueReason(vague)[0] == VagueLabel[0];
    assert TopWordsReason(top, formatWeight)[0] == TopWordsLabel[0];
  }

  /** The rule table's verdict reasons report each rule exactly when it fired. */
  lemma RuleTableReports(vague: seq<string>, complex: bool, missing: bool, ml: bool,
                         top: seq<Features.Feature>, formatWeight: real -> string)
    ensures var t := RuleTable(vague, complex, missing, ml, top, formatWeight);
      ReportsRules(if Fired(t) == [] then [WellDefined] else Fired(t), t)
    ensures WellDefined !in Fired(RuleTable(vague, complex, missing, ml, top, formatWeight))
  {
    var t := RuleTable(vague, complex, missing, ml, top, formatWeight);
    ReasonHeads(vague, top, formatWeight);
    var heads := ['V', 'S', 'N', 'M', 'T'];
    assert forall k :: 0 <= k < |t| ==> |t[k].reason| > 0 && t[k].reason[0] == heads[k];
    forall i | 0 <= i < |t| ensures t[i].reason in Fired(t) <==> t[i].fired {
      forall j | 0 <= j < |t| && j != i ensures t[j].reason != t[i].reason {
        assert heads[j] != heads[i];
      }
      FiredHas(t, 0, i);
    }
    forall i | 0 <= i < |t| ensures t[i].reason != WellDefined {
      if i != 1 {
        assert heads[i] != 'S';
      }
    }
    FiredAvoids(t, 0, WellDefined);
  }

  // ---------------------------------------------------------------------
  // Scenarios

  /** A requirement that names a vague term and states no measurable
      constraint is Unclear with severity 3, whatever the other rules, the
      classifier and the vocabulary say. */
  lemma VagueAndUnmeasuredIsUnclear(text: string, maxLength: int, mlThreshold: real, tokenCount: nat,
                                    probUnclear: real, vocab: Features.Vocabulary, tokens: set<string>,
                                    formatWeight: real -> string)
    requires vocab.Valid()
    requires Lexicon.DetectVagueTerms(text) != [] && !Constraints.HasMeasure(text)
    ensures var r := Analyze(text, maxLength, mlThreshold, tokenCount, probUnclear, vocab, tokens, formatWeight);
      && VagueTerms in r.tags && NoConstraints in r.tags && MlAmbiguity !in r.tags
      && r.status == Unclear && r.severity == 3
  {
    var r := Analyze(text, maxLength, mlThreshold, tokenCount, probUnclear, vocab, tokens, formatWeight);
    var vague := Lexicon.DetectVagueTerms(text);
    var top := Features.ExplainFeatures(vocab, tokens, TopN);
    assert TagsJudged(r.tags, vague, tokenCount > maxLength, true, probUnclear > mlThreshold);
    assert Graded(r, |r.tags| + (if top != [] then 1 else 0));
    var a :| 0 <= a < |r.tags| && r.tags[a] == VagueTerms;
    var b :| 0 <= b < |r.tags| && r.tags[b] == NoConstraints;
    assert a != b;
  }

  /** "The system shall be fast and scalable." names "fast" and states no
      measurable constraint. */
  lemma FastAndScalableFacts()
    ensures "fast" in Lexicon.DetectVagueTerms("The system shall be fast and scalable.")
    ensures !Constraints.HasMeasure("The system shall be fast and scalable.")
  {
    FastInScenario("The system shall be fast and scalable.");
    ScenarioHasNoMeasure();
  }

  /** "The system shall be fast and scalable." has no digit, so it states no
      measurable constraint. */
  lemma ScenarioHasNoMeasure()
    ensures !Constraints.HasMeasure("The system shall be fast and scalable.")
  {
    var text := "The system shall be fast and scalable.";
    forall m | 0 <= m < |text| ensures !IsDigit(text[m]) {
      assert text[m] in text;
    }
    Constraints.NoDigitNoMeasure(text);
  }

  /** A text with "fast" at position 20 reports "fast". */
  lemma FastInScenario(text: string)
    requires |text| >= 24 && text[20..24] == "fast"
    ensures "fast" in Lexicon.DetectVagueTerms(text)
  {
    LowerSlice(text, 20, 24);
    LowerOfLowerCase("fast");
    assert OccursAt(Lower(text), "fast", 20);
    assert Lexicon.VagueWords[0] == "fast";
  }

  /** "The system shall be fast and scalable." is Unclear with severity 3
      under any thresholds, token count, probability and vocabulary. */
  lemma FastAndScalableIsUnclear(maxLength: int, mlThreshold: real, tokenCount: nat, probUnclear: real,
                                 vocab: Features.Vocabulary, tokens: set<string>, formatWeight: real -> string)
    requires vocab.Valid()
    ensures var r := Analyze("The system shall be fast and scalable.", maxLength, mlThreshold, tokenCount,
                             probUnclear, vocab, tokens, formatWeight);
      && VagueTerms in r.tags && NoConstraints in r.tags && MlAmbiguity !in r.tags
      && r.status == Unclear && StatusLabel(r.status) == "Unclear" && r.severity == 3
  {
    FastAndScalableFacts();
    VagueAndUnmeasuredIsUnclear("The system shall be fast and scalable.", maxLength, mlThreshold,
                                tokenCount, probUnclear, vocab, tokens, formatWeight);
  }

  /** The empty requirement states no measurable constraint, so it is never
      Clear: at least Partially Clear, with severity at least 2. */
  lemma EmptyTextIsNotClear(maxLength: int, mlThreshold: real, tokenCount: nat, probUnclear: real,
                            vocab: Features.Vocabulary, tokens: set<string>, formatWeight: real -> string)
    requires vocab.Valid()
    ensures var r := Analyze("", maxLength, mlThreshold, tokenCount, probUnclear, vocab, tokens, formatWeight);
      && NoConstraints in r.tags && VagueTerms !in r.tags
      && r.status != Clear && r.severity >= 2
  {
    Constraints.NoDigitNoMeasure("");
    NoTermInEmpty();
    var r := Analyze("", maxLength, mlThreshold, tokenCount, probUnclear, vocab, tokens, formatWeight);
    assert NoConstraints in r.tags;
    assert |r.tags| > 0;
  }

  /** The empty text holds no lexicon term. */
  lemma NoTermInEmpty()
    ensures Lexicon.DetectVagueTerms("") == []
  {
    Lexicon.VagueWordsLowerCase();
    forall w | w in Lexicon.VagueWords ensures !Contains(Lower(""), w) {
      var i :| 0 <= i < |Lexicon.VagueWords| && Lexicon.VagueWords[i] == w;
      ContainsNeedsLength(Lower(""), w);
    }
  }
}
