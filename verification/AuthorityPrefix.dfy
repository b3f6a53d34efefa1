/**
 The authority prefix of a history (src/firelens/api_contracts.py:17-84) and the history that every
 public answer carries (src/firelens/contracts.py:670-691).
 */
module AuthorityPrefix {
  import opened Wrappers
  import opened Sequences
  import opened AnswerKinds
  import opened LiveContracts
  import opened AssistantHistory

  // ---------- labels ----------

  function Two(a: string, b: string): string {
    a + " " + b
  }

  function Three(a: string, b: string, c: string): string {
    Two(a, b) + " " + c
  }

  function Four(a: string, b: string, c: string, d: string): string {
    Three(a, b, c) + " " + d
  }

  function SectionLabel(kind: SectionKind): string {
    match kind
    case CurrentRecords => Three("Official", "current", "records")
    case ReviewedGuidance => Two("Reviewed", "guidance")
    case ConflictingGuidance => Three("Conflicting", "reviewed", "sources")
    case GeneralBackground => Two("General", "background")
    case OfficialHandoff => Three("Official", "source", "handoff")
    case Uncertainty => Three("Uncertainty", "about", "what") + " " + Three("FireLens", "could", "establish")
    case SafetyBoundary => Four("A", "personal", "safety", "decision") + " " + Four("FireLens", "did", "not", "make")
    case Unavailable => Three("Information", "FireLens", "does") + " " + Two("not", "hold")
  }

  function ModeLabel(mode: ResponseMode): string {
    match mode
    case Grounded => Three("Reviewed", "official", "guidance")
    case PartialAnswer => Four("Reviewed", "guidance", "+", "uncertainty")
    case Conflict => Three("Conflicting", "reviewed", "sources")
    case Background => Two("General", "background")
    case Live => Three("Official", "current", "records")
    case MixedAnswer => Three("Mixed", "official", "and") + " " + Three("labelled", "non-live", "information")
    case Capability => Three("FireLens", "capability", "information")
    case ScopeRedirect => Three("Official", "source", "handoff")
    case RequiresInput => Three("FireLens", "task-continuation", "request")
    case Abstention => Two("FireLens", "abstention")
  }

  function RecordsLabel(freshness: Option<AggregateFreshness>): string {
    match freshness
    case None => SectionLabel(CurrentRecords)
    case Some(AllFresh) => Three("Official", "current", "records")
    case Some(AllStale) => Three("Official", "cached", "records") + " " + Two("(refresh", "failed)")
    case Some(Mixed) => Three("Official", "records", "with") + " " + Two("mixed", "freshness")
  }

  function SafetySentence(reason: Option<ReasonCode>): Option<string> {
    match reason
    case Some(PersonalizedSafetyDecision) =>
      Some(Four("cannot", "make", "a", "personal") + " " + Four("safety", "or", "evacuation", "decision."))
    case Some(PersonalizedMedicalAdvice) =>
      Some(Three("cannot", "provide", "personalized") + " " + Two("medical", "advice."))
    case Some(PolicyManipulation) =>
      Some(Four("did", "not", "bypass", "its") + " " + Four("evidence", "or", "safety", "rules."))
    case _ => None
  }

  function HistoryLabel(kind: SectionKind, freshness: Option<AggregateFreshness>): string {
    if kind == CurrentRecords then RecordsLabel(freshness) else SectionLabel(kind)
  }

  function HistoryLabels(kinds: seq<SectionKind>, freshness: Option<AggregateFreshness>): seq<string> {
    if kinds == [] then []
    else HistoryLabels(kinds[..|kinds| - 1], freshness) + [HistoryLabel(kinds[|kinds| - 1], freshness)]
  }

  function Authority(source: string): string {
    "Authority: " + source + "."
  }

  function AuthoritySource(mode: ResponseMode, kinds: seq<SectionKind>, freshness: Option<AggregateFreshness>): string {
    if kinds != [] then Join(Deduplicated(HistoryLabels(kinds, freshness)), " + ")
    else if mode == Live then RecordsLabel(freshness)
    else if mode == MixedAnswer && freshness.Some? then
      RecordsLabel(freshness) + " + " + (Three("Reviewed", "or", "labelled") + " " + Two("non-live", "information"))
    else ModeLabel(mode)
  }

  /** `response_history_prefix` */
  function ResponseHistoryPrefix(
    mode: ResponseMode, reason: Option<ReasonCode>, kinds: seq<SectionKind>, freshness: Option<AggregateFreshness>
  ): string {
    if SafetySentence(reason).Some? then Three("Safety", "boundary:", "FireLens") + " " + SafetySentence(reason).value
    else Authority(AuthoritySource(mode, kinds, freshness))
  }

  const MAX_LABEL := 50

  lemma {:induction false} LabelLength(kind: SectionKind)
    ensures |SectionLabel(kind)| <= MAX_LABEL
  {
  }

  lemma {:induction false} RecordsLabelLength(freshness: Option<AggregateFreshness>)
    ensures |RecordsLabel(freshness)| <= MAX_LABEL
  {
  }

  lemma {:induction false} ModeLabelLength(mode: ResponseMode)
    ensures |ModeLabel(mode)| <= MAX_LABEL
  {
  }

  lemma {:induction false} SafetySentenceLength(reason: Option<ReasonCode>)
    ensures SafetySentence(reason).Some? ==> |SafetySentence(reason).value| <= 60
  {
  }

  lemma {:induction false} HistoryLabelLength(kind: SectionKind, freshness: Option<AggregateFreshness>)
    ensures |HistoryLabel(kind, freshness)| <= MAX_LABEL
  {
    LabelLength(kind);
    RecordsLabelLength(freshness);
  }

  /** The labels a section list can produce, however long it is. */
  function AllLabels(freshness: Option<AggregateFreshness>): (labels: set<string>)
    ensures |labels| <= 8
  {
    {HistoryLabel(CurrentRecords, freshness), HistoryLabel(ReviewedGuidance, freshness),
     HistoryLabel(ConflictingGuidance, freshness), HistoryLabel(GeneralBackground, freshness),
     HistoryLabel(OfficialHandoff, freshness), HistoryLabel(Uncertainty, freshness),
     HistoryLabel(SafetyBoundary, freshness), HistoryLabel(Unavailable, freshness)}
  }

  lemma {:induction false} LabelsComeFromTheTable(kinds: seq<SectionKind>, freshness: Option<AggregateFreshness>)
    ensures forall w :: w in HistoryLabels(kinds, freshness) ==> w in AllLabels(freshness) && |w| <= MAX_LABEL
  {
    if kinds != [] {
      LabelsComeFromTheTable(kinds[..|kinds| - 1], freshness);
      HistoryLabelLength(kinds[|kinds| - 1], freshness);
      KindIsInTheTable(kinds[|kinds| - 1], freshness);
    }
  }

  lemma {:induction false} KindIsInTheTable(kind: SectionKind, freshness: Option<AggregateFreshness>)
    ensures HistoryLabel(kind, freshness) in AllLabels(freshness)
  {
  }

  lemma {:induction false} JoinLength(words: seq<string>)
    requires forall w :: w in words ==> |w| <= MAX_LABEL
    ensures |Join(words, " + ")| <= |words| * 53
  {
    if |words| > 1 {
      JoinLength(words[..|words| - 1]);
    }
  }

  lemma {:induction false} JoinedLabelsLength(kinds: seq<SectionKind>, freshness: Option<AggregateFreshness>)
    ensures |Join(Deduplicated(HistoryLabels(kinds, freshness)), " + ")| <= 424
  {
    var labels := Deduplicated(HistoryLabels(kinds, freshness));
    LabelsComeFromTheTable(kinds, freshness);
    DeduplicatedIsDistinct(HistoryLabels(kinds, freshness));
    DistinctIsBounded(labels, AllLabels(freshness));
    JoinLength(labels);
  }

  predicate ShortPrefix(prefix: string) {
    1 <= |prefix| <= 436 && !IsSpace(prefix[0])
  }

  lemma {:induction false} AuthorityIsShort(source: string)
    requires |source| <= 424
    ensures ShortPrefix(Authority(source))
  {
  }

  lemma {:induction false} SafetyPrefixIsShort(reason: Option<ReasonCode>)
    requires SafetySentence(reason).Some?
    ensures ShortPrefix(Three("Safety", "boundary:", "FireLens") + " " + SafetySentence(reason).value)
  {
    SafetySentenceLength(reason);
  }

  lemma {:induction false} SourceIsShort(
    mode: ResponseMode, kinds: seq<SectionKind>, freshness: Option<AggregateFreshness>
  )
    ensures |AuthoritySource(mode, kinds, freshness)| <= 424
  {
    JoinedLabelsLength(kinds, freshness);
    RecordsLabelLength(freshness);
    ModeLabelLength(mode);
  }

  lemma {:induction false} RawPrefixIsShort(
    mode: ResponseMode, reason: Option<ReasonCode>, kinds: seq<SectionKind>, freshness: Option<AggregateFreshness>
  )
    ensures ShortPrefix(ResponseHistoryPrefix(mode, reason, kinds, freshness))
  {
    if SafetySentence(reason).Some? {
      SafetyPrefixIsShort(reason);
    } else {
      SourceIsShort(mode, kinds, freshness);
      AuthorityIsShort(AuthoritySource(mode, kinds, freshness));
    }
  }

  /** The label tables keep every prefix far below the safe bound, for section lists of any length. */
  lemma {:induction false} PrefixIsShort(
    mode: ResponseMode, reason: Option<ReasonCode>, kinds: seq<SectionKind>, freshness: Option<AggregateFreshness>
  )
    ensures 1 <= |Normalize(ResponseHistoryPrefix(mode, reason, kinds, freshness))| <= 436 < MAX_SAFE_PREFIX
  {
    var prefix := ResponseHistoryPrefix(mode, reason, kinds, freshness);
    RawPrefixIsShort(mode, reason, kinds, freshness);
    NormalizeShrinks(prefix);
    NormalizeKeepsSomething(prefix, 0);
  }

  // ---------- the prefix is shown as it is ----------

  /** A text in normal form that is not empty. */
  predicate IsPhrase(text: string) {
    IsNormal(text) && text != ""
  }

  predicate IsPrintable(word: string) {
    word != "" && forall i :: 0 <= i < |word| ==> '!' <= word[i] <= '~'
  }

  lemma {:induction false} OneWord(a: string)
    requires IsPrintable(a)
    ensures IsPhrase(a)
  {
  }

  lemma {:induction false} TwoWords(a: string, b: string)
    requires IsPrintable(a) && IsPrintable(b)
    ensures IsPhrase(Two(a, b))
  {
    OneWord(a);
    OneWord(b);
    JoinNormal(a, b);
  }

  lemma {:induction false} ThreeWords(a: string, b: string, c: string)
    requires IsPrintable(a) && IsPrintable(b) && IsPrintable(c)
    ensures IsPhrase(Three(a, b, c))
  {
    TwoWords(a, b);
    OneWord(c);
    JoinNormal(Two(a, b), c);
  }

  lemma {:induction false} FourWords(a: string, b: string, c: string, d: string)
    requires IsPrintable(a) && IsPrintable(b) && IsPrintable(c) && IsPrintable(d)
    ensures IsPhrase(Four(a, b, c, d))
  {
    ThreeWords(a, b, c);
    OneWord(d);
    JoinNormal(Three(a, b, c), d);
  }

  lemma {:induction false} UncertaintyPhrase()
    ensures IsPhrase(Three("Uncertainty", "about", "what") + " " + Three("FireLens", "could", "establish"))
  {
    ThreeWords("Uncertainty", "about", "what");
    ThreeWords("FireLens", "could", "establish");
    JoinNormal(Three("Uncertainty", "about", "what"), Three("FireLens", "could", "establish"));
  }

  lemma {:induction false} SafetyPhrase()
    ensures IsPhrase(Four("A", "personal", "safety", "decision") + " " + Four("FireLens", "did", "not", "make"))
  {
    FourWords("A", "personal", "safety", "decision");
    FourWords("FireLens", "did", "not", "make");
    JoinNormal(Four("A", "personal", "safety", "decision"), Four("FireLens", "did", "not", "make"));
  }

  lemma {:induction false} UnavailablePhrase()
    ensures IsPhrase(Three("Information", "FireLens", "does") + " " + Two("not", "hold"))
  {
    ThreeWords("Information", "FireLens", "does");
    TwoWords("not", "hold");
    JoinNormal(Three("Information", "FireLens", "does"), Two("not", "hold"));
  }

  lemma {:induction false} SectionLabelIsPhrase(kind: SectionKind)
    ensures IsPhrase(SectionLabel(kind))
  {
    match kind
    case CurrentRecords => ThreeWords("Official", "current", "records");
    case ReviewedGuidance => TwoWords("Reviewed", "guidance");
    case ConflictingGuidance => ThreeWords("Conflicting", "reviewed", "sources");
    case GeneralBackground => TwoWords("General", "background");
    case OfficialHandoff => ThreeWords("Official", "source", "handoff");
    case Uncertainty => UncertaintyPhrase();
    case SafetyBoundary => SafetyPhrase();
    case Unavailable => UnavailablePhrase();
  }

  lemma {:induction false} MixedPhrase()
    ensures IsPhrase(Three("Mixed", "official", "and") + " " + Three("labelled", "non-live", "information"))
  {
    ThreeWords("Mixed", "official", "and");
    ThreeWords("labelled", "non-live", "information");
    JoinNormal(Three("Mixed", "official", "and"), Three("labelled", "non-live", "information"));
  }

  lemma {:induction false} ModeLabelIsPhrase(mode: ResponseMode)
    ensures IsPhrase(ModeLabel(mode))
  {
    match mode
    case Grounded => ThreeWords("Reviewed", "official", "guidance");
    case PartialAnswer => FourWords("Reviewed", "guidance", "+", "uncertainty");
    case Conflict => SectionLabelIsPhrase(ConflictingGuidance);
    case Background => SectionLabelIsPhrase(GeneralBackground);
    case Live => SectionLabelIsPhrase(CurrentRecords);
    case MixedAnswer => MixedPhrase();
    case Capability => ThreeWords("FireLens", "capability", "information");
    case ScopeRedirect => SectionLabelIsPhrase(OfficialHandoff);
    case RequiresInput => ThreeWords("FireLens", "task-continuation", "request");
    case Abstention => TwoWords("FireLens", "abstention");
  }

  lemma {:induction false} CachedPhrase()
    ensures IsPhrase(Three("Official", "cached", "records") + " " + Two("(refresh", "failed)"))
  {
    ThreeWords("Official", "cached", "records");
    TwoWords("(refresh", "failed)");
    JoinNormal(Three("Official", "cached", "records"), Two("(refresh", "failed)"));
  }

  lemma {:induction false} MixedFreshnessPhrase()
    ensures IsPhrase(Three("Official", "records", "with") + " " + Two("mixed", "freshness"))
  {
    ThreeWords("Official", "records", "with");
    TwoWords("mixed", "freshness");
    JoinNormal(Three("Official", "records", "with"), Two("mixed", "freshness"));
  }

  lemma {:induction false} RecordsLabelIsPhrase(freshness: Option<AggregateFreshness>)
    ensures IsPhrase(RecordsLabel(freshness))
  {
    match freshness
    case Some(AllStale) => CachedPhrase();
    case Some(Mixed) => MixedFreshnessPhrase();
    case _ => ThreeWords("Official", "current", "records");
  }

  lemma {:induction false} DecisionPhrase()
    ensures IsPhrase(Four("cannot", "make", "a", "personal") + " " + Four("safety", "or", "evacuation", "decision."))
  {
    FourWords("cannot", "make", "a", "personal");
    FourWords("safety", "or", "evacuation", "decision.");
    JoinNormal(Four("cannot", "make", "a", "personal"), Four("safety", "or", "evacuation", "decision."));
  }

  lemma {:induction false} AdvicePhrase()
    ensures IsPhrase(Three("cannot", "provide", "personalized") + " " + Two("medical", "advice."))
  {
    ThreeWords("cannot", "provide", "personalized");
    TwoWords("medical", "advice.");
    JoinNormal(Three("cannot", "provide", "personalized"), Two("medical", "advice."));
  }

  lemma {:induction false} RulesPhrase()
    ensures IsPhrase(Four("did", "not", "bypass", "its") + " " + Four("evidence", "or", "safety", "rules."))
  {
    FourWords("did", "not", "bypass", "its");
    FourWords("evidence", "or", "safety", "rules.");
    JoinNormal(Four("did", "not", "bypass", "its"), Four("evidence", "or", "safety", "rules."));
  }

  lemma {:induction false} SafetySentenceIsPhrase(reason: Option<ReasonCode>)
    requires SafetySentence(reason).Some?
    ensures IsPhrase(SafetySentence(reason).value)
  {
    match reason
    case Some(PersonalizedSafetyDecision) => DecisionPhrase();
    case Some(PersonalizedMedicalAdvice) => AdvicePhrase();
    case _ => RulesPhrase();
  }

  lemma {:induction false} NonLivePhrase()
    ensures IsPhrase(Three("Reviewed", "or", "labelled") + " " + Two("non-live", "information"))
  {
    ThreeWords("Reviewed", "or", "labelled");
    TwoWords("non-live", "information");
    JoinNormal(Three("Reviewed", "or", "labelled"), Two("non-live", "information"));
  }

  lemma {:induction false} LabelsArePhrases(kinds: seq<SectionKind>, freshness: Option<AggregateFreshness>)
    ensures forall w :: w in HistoryLabels(kinds, freshness) ==> IsPhrase(w)
  {
    if kinds != [] {
      LabelsArePhrases(kinds[..|kinds| - 1], freshness);
      SectionLabelIsPhrase(kinds[|kinds| - 1]);
      RecordsLabelIsPhrase(freshness);
    }
  }

  lemma {:induction false} JoinedPhrases(words: seq<string>)
    requires words != [] && forall w :: w in words ==> IsPhrase(w)
    ensures IsPhrase(Join(words, " + "))
  {
    var n := |words| - 1;
    assert words[n] in words;
    if n > 0 {
      assert forall w :: w in words[..n] ==> w in words;
      JoinedPhrases(words[..n]);
      assert IsWord("+");
      assert " " + "+" + " " == " + ";
      LabelledIsNormal(Join(words[..n], " + "), "+", words[n]);
    }
  }

  lemma {:induction false} SourceIsPhrase(
    mode: ResponseMode, kinds: seq<SectionKind>, freshness: Option<AggregateFreshness>
  )
    ensures IsPhrase(AuthoritySource(mode, kinds, freshness))
  {
    if kinds != [] {
      LabelsArePhrases(kinds, freshness);
      DeduplicatedIsDistinct(HistoryLabels(kinds, freshness));
      JoinedPhrases(Deduplicated(HistoryLabels(kinds, freshness)));
    } else if mode == Live {
      RecordsLabelIsPhrase(freshness);
    } else if mode == MixedAnswer && freshness.Some? {
      RecordsLabelIsPhrase(freshness);
      MixedSourceIsPhrase(RecordsLabel(freshness));
    } else {
      ModeLabelIsPhrase(mode);
    }
  }

  lemma {:induction false} MixedSourceIsPhrase(records: string)
    requires IsPhrase(records)
    ensures IsPhrase(records + " + " + (Three("Reviewed", "or", "labelled") + " " + Two("non-live", "information")))
  {
    NonLivePhrase();
    assert " " + "+" + " " == " + ";
    LabelledIsNormal(records, "+", Three("Reviewed", "or", "labelled") + " " + Two("non-live", "information"));
  }

  lemma {:induction false} AuthorityIsPhrase(source: string)
    requires IsPhrase(source)
    ensures IsPhrase(Authority(source))
  {
    OneWord("Authority:");
    JoinNormal("Authority:", source);
    assert "Authority:" + " " == "Authority: ";
    Stopped("Authority: " + source);
  }

  lemma {:induction false} Stopped(text: string)
    requires IsPhrase(text)
    ensures IsPhrase(text + ".")
  {
  }

  lemma {:induction false} SafetyPrefixIsPhrase(sentence: string)
    requires IsPhrase(sentence)
    ensures IsPhrase(Three("Safety", "boundary:", "FireLens") + " " + sentence)
  {
    ThreeWords("Safety", "boundary:", "FireLens");
    JoinNormal(Three("Safety", "boundary:", "FireLens"), sentence);
  }

  /** Every authority prefix is in normal form already, so histories show it unchanged. */
  lemma {:induction false} PrefixIsShownUnchanged(
    mode: ResponseMode, reason: Option<ReasonCode>, kinds: seq<SectionKind>, freshness: Option<AggregateFreshness>
  )
    ensures
      var prefix := ResponseHistoryPrefix(mode, reason, kinds, freshness);
      Normalize(prefix) == prefix
  {
    if SafetySentence(reason).Some? {
      SafetySentenceIsPhrase(reason);
      SafetyPrefixIsPhrase(SafetySentence(reason).value);
    } else {
      SourceIsPhrase(mode, kinds, freshness);
      AuthorityIsPhrase(AuthoritySource(mode, kinds, freshness));
    }
    NormalIsFixed(ResponseHistoryPrefix(mode, reason, kinds, freshness));
  }

  /**
   The history of every public answer: it exists exactly when the answer is not blank, opens with the
   authority prefix, fits, and is what the next turn stores.
   */
  lemma {:induction false} EveryAnswerHasAGoodHistory(
    mode: ResponseMode, reason: Option<ReasonCode>, kinds: seq<SectionKind>, freshness: Option<AggregateFreshness>,
    answer: string, limitations: seq<string>
  )
    ensures
      var prefix := ResponseHistoryPrefix(mode, reason, kinds, freshness);
      var r := RenderHistory(prefix, answer, limitations);
      && (r.Ok? <==> Normalize(answer) != "")
      && (r.Ok? ==> GoodHistory(r.value, prefix + ANSWER_LABEL) && TurnContent(r.value) == r)
  {
    PrefixIsShort(mode, reason, kinds, freshness);
    PrefixIsShownUnchanged(mode, reason, kinds, freshness);
    HistorySurvivesTheNextTurn(ResponseHistoryPrefix(mode, reason, kinds, freshness), answer, limitations);
  }

  /** The part of `AskResponse` that `_validate_history` reads and writes. */
  class PublicAnswer {
    const mode: ResponseMode
    const reason: Option<ReasonCode>
    const kinds: seq<SectionKind>
    const freshness: Option<AggregateFreshness>
    const answer: Option<string>
    const limitations: seq<string>
    var historyText: Option<string>

    constructor (
      mode: ResponseMode, reason: Option<ReasonCode>, kinds: seq<SectionKind>, freshness: Option<AggregateFreshness>,
      answer: Option<string>, limitations: seq<string>, historyText: Option<string>
    )
      ensures this.mode == mode && this.reason == reason && this.kinds == kinds && this.freshness == freshness
      ensures this.answer == answer && this.limitations == limitations && this.historyText == historyText
    {
      this.mode, this.reason, this.kinds, this.freshness := mode, reason, kinds, freshness;
      this.answer, this.limitations, this.historyText := answer, limitations, historyText;
    }

    function Expected(): Result<string, HistoryError>
      requires answer.Some?
    {
      RenderHistory(ResponseHistoryPrefix(mode, reason, kinds, freshness), answer.value, limitations)
    }

    /**
     A missing history is filled in and a given one must be the rendered one; no answer, no history.
     What an accepted answer carries is stored unchanged by the next turn, so validating again
     changes nothing.
     */
    method ValidateHistory() returns (accepted: bool)
      modifies `historyText
      ensures answer.None? ==> (accepted <==> old(historyText).None?) && historyText == old(historyText)
      ensures answer.Some? ==>
        && (accepted <==> Expected().Ok? && (old(historyText).None? || old(historyText).value == Expected().value))
        && historyText == (if accepted then Some(Expected().value) else old(historyText))
        && (accepted ==>
              && TurnContent(historyText.value) == Ok(historyText.value)
              && ResponseHistoryPrefix(mode, reason, kinds, freshness) + " Answer: " <= historyText.value)
    {
      if answer.None? {
        return historyText.None?;
      }
      EveryAnswerHasAGoodHistory(mode, reason, kinds, freshness, answer.value, limitations);
      var expected := Expected();
      if expected.Err? {
        return false;
      }
      if historyText.None? {
        historyText := Some(expected.value);
        return true;
      }
      return historyText.value == expected.value;
    }
  }
}
