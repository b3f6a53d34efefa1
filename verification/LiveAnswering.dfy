/**
 How an answer over non-empty official records is put together (src/firelens/live_answering.py:361-646),
 and the conflict answer built when the live half is missing
 (src/firelens/answering/live_composition.py:38-108). The record text, the handoff for unsupported
 topics and the static result are inputs.
 */
module LiveAnswering {
  import opened Wrappers
  import opened Sequences
  import opened AnswerKinds
  import opened AnswerComposition

  /** What the composition reads of an accepted or rejected static answer; `claimText` renders its claims. */
  datatype StaticResult = StaticResult(
    answered: bool,
    mode: ResponseMode,
    answer: string,
    claimText: string,
    hasClaims: bool,
    hasEvidence: bool,
    validationAccepted: bool,
    hasLinks: bool
  )

  /** A composed response; `shortened` says that a text was replaced to keep within the public limit. */
  datatype Composed = Composed(mode: ResponseMode, answer: string, sections: seq<Section>, shortened: bool)

  const SHORT_HANDOFF :=
    "FireLens found related official sources for the non-live part of this " +
    "question. Open the links below for the official information."

  predicate IsAcceptedConflict(s: StaticResult) {
    s.answered && s.mode == Conflict && s.answer != "" && s.hasClaims && s.hasEvidence && s.validationAccepted
  }

  predicate IsAcceptedGuidance(s: StaticResult) {
    && s.answered && (s.mode == Grounded || s.mode == PartialAnswer) && s.answer != ""
    && s.hasClaims && s.hasEvidence && s.validationAccepted
  }

  predicate IsAcceptedBackground(s: StaticResult) {
    s.answered && s.mode == Background && s.answer != "" && s.hasClaims && s.validationAccepted
  }

  predicate IsRedirect(s: StaticResult) {
    s.answered && s.mode == ScopeRedirect && s.answer != "" && s.hasLinks
  }

  function Suffix(handoff: string): string {
    if handoff == "" then "" else HANDOFF_LABEL + handoff
  }

  function HandoffSections(handoff: string): seq<Section> {
    if handoff == "" then [] else [Section(OfficialHandoff, handoff)]
  }

  function WithConflict(live: string, conflict: string, handoff: string): string {
    live + CONFLICT_LABEL + conflict + Suffix(handoff)
  }

  function ComposeConflict(live: string, conflict: string, handoff: string): Composed {
    var shortened := |WithConflict(live, conflict, handoff)| > PUBLIC_ANSWER_MAX_CHARS;
    var shown := if shortened then BOUNDED_CONFLICT_TEXT else conflict;
    Composed(
      MixedAnswer, WithConflict(live, shown, handoff),
      [Section(CurrentRecords, live), Section(ConflictingGuidance, shown)] + HandoffSections(handoff), shortened)
  }

  function ComposeLabelled(live: string, kind: SectionKind, text: string, handoff: string): Composed
    requires Label(kind).Some?
  {
    Composed(
      MixedAnswer, live + Label(kind).value + text + Suffix(handoff),
      [Section(CurrentRecords, live), Section(kind, text)] + HandoffSections(handoff), false)
  }

  function ComposeRedirect(live: string, answer: string, handoff: string): Composed {
    var more := if handoff == "" then "" else "\n\n" + handoff;
    var full := live + HANDOFF_LABEL + (answer + more);
    var shortened := |full| > PUBLIC_ANSWER_MAX_CHARS;
    var shown := (if shortened then SHORT_HANDOFF else answer) + more;
    Composed(
      MixedAnswer, live + HANDOFF_LABEL + shown,
      [Section(CurrentRecords, live), Section(OfficialHandoff, shown)], shortened)
  }

  /** The branches taken once records are at hand. */
  function ComposeAnswer(live: string, handoff: string, result: Option<StaticResult>): Composed {
    if result.Some? && IsAcceptedConflict(result.value) then ComposeConflict(live, result.value.answer, handoff)
    else if result.Some? && IsAcceptedGuidance(result.value) then
      ComposeLabelled(live, ReviewedGuidance, result.value.claimText, handoff)
    else if result.Some? && IsAcceptedBackground(result.value) then
      ComposeLabelled(live, GeneralBackground, result.value.claimText, handoff)
    else if result.Some? && IsRedirect(result.value) then ComposeRedirect(live, result.value.answer, handoff)
    else
      Composed(
        if handoff == "" then Live else MixedAnswer, live + Suffix(handoff),
        [Section(CurrentRecords, live)] + HandoffSections(handoff), false)
  }

  // ---------- composition meets the validator ----------

  lemma {:induction false} ConflictRenders(live: string, conflict: string, handoff: string)
    ensures
      var sections := [Section(CurrentRecords, live), Section(ConflictingGuidance, conflict)] +
          HandoffSections(handoff);
      && ConflictForm(sections)
      && ConflictTexts(sections) == [conflict]
      && RenderConflict(sections, conflict) == Some(WithConflict(live, conflict, handoff))
  {
    var sections := [Section(CurrentRecords, live), Section(ConflictingGuidance, conflict)] + HandoffSections(handoff);
    assert ConflictForm(sections) by {
      if handoff == "" {
        assert HasKinds(sections, [CurrentRecords, ConflictingGuidance]);
      } else {
        assert HasKinds(sections, [CurrentRecords, ConflictingGuidance, OfficialHandoff]);
      }
    }
    ConflictFormHasOneConflict(sections);
    var pair := live + CONFLICT_LABEL + conflict;
    if handoff == "" {
      assert pair + "" == pair;
    } else {
      ConcatAssociative(pair, HANDOFF_LABEL, handoff);
    }
  }

  lemma {:induction false} ConflictIsCanonical(live: string, conflict: string, handoff: string)
    ensures
      var sections := [Section(CurrentRecords, live), Section(ConflictingGuidance, conflict)] +
          HandoffSections(handoff);
      CanonicalAnswers(sections) == [WithConflict(live, conflict, handoff)]
  {
    var sections := [Section(CurrentRecords, live), Section(ConflictingGuidance, conflict)] + HandoffSections(handoff);
    ConflictRenders(live, conflict, handoff);
    if handoff != "" {
      DroppingHandoff(sections);
      var pair := [Section(CurrentRecords, live), Section(ConflictingGuidance, conflict)];
      assert sections[..2] == pair;
      assert RenderConflict(pair, conflict) == Some(live + CONFLICT_LABEL + conflict);
      ConcatAssociative(live + CONFLICT_LABEL + conflict, HANDOFF_LABEL, handoff);
    }
  }

  lemma {:induction false} LabelledIsCanonical(live: string, kind: SectionKind, text: string, handoff: string)
    requires kind.ReviewedGuidance? || kind.GeneralBackground?
    ensures
      var composed := ComposeLabelled(live, kind, text, handoff);
      composed.answer in CanonicalAnswers(composed.sections)
  {
    var sections := ComposeLabelled(live, kind, text, handoff).sections;
    NoLaterConflict(sections);
    LabelledTail(sections);
    ConcatAssociative(live, Label(kind).value + text, Suffix(handoff));
    ConcatAssociative(live, Label(kind).value, text);
  }

  /** The labelled text of one or two sections after the first. */
  lemma {:induction false} LabelledTail(sections: seq<Section>)
    requires 2 <= |sections| <= 3 && AllLabelled(sections[1..])
    ensures Labelled(sections[1..]) ==
            Label(sections[1].kind).value + sections[1].text +
            (if |sections| == 2 then "" else Label(sections[2].kind).value + sections[2].text)
  {
    assert Labelled([]) == "";
    if |sections| == 3 {
      assert sections[1..][1..] == [sections[2]];
      assert Labelled([sections[2]]) == Label(sections[2].kind).value + sections[2].text + "";
    } else {
      assert sections[1..][1..] == [];
    }
  }

  /** `live` followed by one labelled handoff, or alone. */
  lemma {:induction false} HandoffIsCanonical(live: string, handoff: string)
    ensures
      && CanonicalAnswers([Section(CurrentRecords, live)]) == [live]
      && CanonicalAnswers([Section(CurrentRecords, live), Section(OfficialHandoff, handoff)]) ==
          [live + HANDOFF_LABEL + handoff]
  {
    var alone := [Section(CurrentRecords, live)];
    var both := [Section(CurrentRecords, live), Section(OfficialHandoff, handoff)];
    NoLaterConflict(alone);
    NoLaterConflict(both);
    LabelledTail(both);
    assert alone[1..] == [] && live + "" == live;
    assert live + (HANDOFF_LABEL + handoff + "") == live + HANDOFF_LABEL + handoff;
  }

  lemma {:induction false} RedirectIsCanonical(live: string, answer: string, handoff: string)
    ensures
      var composed := ComposeRedirect(live, answer, handoff);
      composed.answer in CanonicalAnswers(composed.sections)
  {
    HandoffIsCanonical(live, ComposeRedirect(live, answer, handoff).sections[1].text);
  }

  lemma {:induction false} PlainIsCanonical(live: string, handoff: string)
    ensures live + Suffix(handoff) in CanonicalAnswers([Section(CurrentRecords, live)] + HandoffSections(handoff))
  {
    HandoffIsCanonical(live, handoff);
    if handoff == "" {
      assert [Section(CurrentRecords, live)] + HandoffSections(handoff) == [Section(CurrentRecords, live)];
      assert live + "" == live;
    } else {
      assert [Section(CurrentRecords, live)] + HandoffSections(handoff) ==
             [Section(CurrentRecords, live), Section(OfficialHandoff, handoff)];
      ConcatAssociative(live, HANDOFF_LABEL, handoff);
    }
  }

  /**
   Whatever the records, the handoff and the static result are, the composed answer is one its own sections
   approve.
   */
  lemma {:induction false} ComposedAnswerIsCanonical(live: string, handoff: string, result: Option<StaticResult>)
    ensures
      var composed := ComposeAnswer(live, handoff, result);
      composed.answer in CanonicalAnswers(composed.sections)
  {
    if result.Some? && IsAcceptedConflict(result.value) {
      ConflictIsCanonical(live, ComposeAnswer(live, handoff, result).sections[1].text, handoff);
    } else if result.Some? && IsAcceptedGuidance(result.value) {
      LabelledIsCanonical(live, ReviewedGuidance, result.value.claimText, handoff);
    } else if result.Some? && IsAcceptedBackground(result.value) {
      LabelledIsCanonical(live, GeneralBackground, result.value.claimText, handoff);
    } else if result.Some? && IsRedirect(result.value) {
      RedirectIsCanonical(live, result.value.answer, handoff);
    } else {
      PlainIsCanonical(live, handoff);
    }
  }

  /** The composed answer opens with the records and shows every section's text in order. */
  lemma {:induction false} ComposedAnswerShowsEverySection(live: string, handoff: string, result: Option<StaticResult>)
    ensures
      var composed := ComposeAnswer(live, handoff, result);
      composed.sections[0] == Section(CurrentRecords, live) && ShowsInOrder(composed.answer, composed.sections)
  {
    var composed := ComposeAnswer(live, handoff, result);
    ComposedAnswerIsCanonical(live, handoff, result);
    AcceptedAnswersShowEverySection(composed.sections, composed.answer);
  }

  /**
   A composed conflict answer also passes the conflict validator exactly when the static conflict
   text is approved or had to be replaced.
   */
  lemma {:induction false} ComposedConflictAcceptedIff(live: string, handoff: string, result: StaticResult)
    requires IsAcceptedConflict(result)
    ensures
      var composed := ComposeAnswer(live, handoff, Some(result));
      IsCanonicalConflict(Some(composed.answer), composed.sections) <==>
      AllowedConflictText(result.answer) || composed.shortened
  {
    var composed := ComposeAnswer(live, handoff, Some(result));
    ConflictRenders(live, composed.sections[1].text, handoff);
  }

  // ---------- the public limit ----------

  lemma {:induction false} BoundedTextIsShorter()
    ensures |BOUNDED_CONFLICT_TEXT| < |DETERMINISTIC_CONFLICT_TEXT|
  {
  }

  /** The replacement is made only when needed, and for an approved text it leaves the shortest possible answer. */
  lemma {:induction false} ConflictAnswerFitsIff(live: string, conflict: string, handoff: string)
    requires AllowedConflictText(conflict)
    ensures
      var composed := ComposeConflict(live, conflict, handoff);
      && (|composed.answer| <= PUBLIC_ANSWER_MAX_CHARS <==>
            |WithConflict(live, BOUNDED_CONFLICT_TEXT, handoff)| <= PUBLIC_ANSWER_MAX_CHARS)
      && (!composed.shortened <==>
            composed.sections[1].text == conflict && |composed.answer| <= PUBLIC_ANSWER_MAX_CHARS)
  {
    BoundedTextIsShorter();
  }

  /** The length of a handoff below its label. */
  function SuffixLength(handoff: string): nat {
    if handoff == "" then 0 else |HANDOFF_LABEL| + |handoff|
  }

  /**
   The least length a composed answer can have. Only conflict texts and redirects have a shorter
   wording to fall back on; guidance and background are never shortened.
   */
  function LeastLength(live: string, handoff: string, result: Option<StaticResult>): nat {
    if result.Some? && IsAcceptedConflict(result.value) then
      |live| + |CONFLICT_LABEL| + Min(|result.value.answer|, |BOUNDED_CONFLICT_TEXT|) + SuffixLength(handoff)
    else if result.Some? && IsAcceptedGuidance(result.value) then
      |live| + |Label(ReviewedGuidance).value| + |result.value.claimText| + SuffixLength(handoff)
    else if result.Some? && IsAcceptedBackground(result.value) then
      |live| + |Label(GeneralBackground).value| + |result.value.claimText| + SuffixLength(handoff)
    else if result.Some? && IsRedirect(result.value) then
      |live| + |HANDOFF_LABEL| + Min(|result.value.answer|, |SHORT_HANDOFF|) +
      if handoff == "" then 0 else 2 + |handoff|
    else |live| + SuffixLength(handoff)
  }

  lemma {:induction false} ConflictFitsIff(live: string, conflict: string, handoff: string)
    ensures |ComposeConflict(live, conflict, handoff).answer| <= PUBLIC_ANSWER_MAX_CHARS <==>
            |live| + |CONFLICT_LABEL| + Min(|conflict|, |BOUNDED_CONFLICT_TEXT|) + SuffixLength(handoff) <=
            PUBLIC_ANSWER_MAX_CHARS
  {
    assert |WithConflict(live, conflict, handoff)| == |live| + |CONFLICT_LABEL| + |conflict| + SuffixLength(handoff);
    assert |WithConflict(live, BOUNDED_CONFLICT_TEXT, handoff)| ==
           |live| + |CONFLICT_LABEL| + |BOUNDED_CONFLICT_TEXT| + SuffixLength(handoff);
  }

  lemma {:induction false} RedirectFitsIff(live: string, answer: string, handoff: string)
    ensures |ComposeRedirect(live, answer, handoff).answer| <= PUBLIC_ANSWER_MAX_CHARS <==>
            |live| + |HANDOFF_LABEL| + Min(|answer|, |SHORT_HANDOFF|) + (if handoff == "" then 0 else 2 + |handoff|) <=
            PUBLIC_ANSWER_MAX_CHARS
  {
    var more := if handoff == "" then "" else "\n\n" + handoff;
    assert |live + HANDOFF_LABEL + (answer + more)| == |live| + |HANDOFF_LABEL| + |answer| + |more|;
    assert |live + HANDOFF_LABEL + (SHORT_HANDOFF + more)| == |live| + |HANDOFF_LABEL| + |SHORT_HANDOFF| + |more|;
  }

  lemma {:induction false} LabelledLength(live: string, kind: SectionKind, text: string, handoff: string)
    requires Label(kind).Some?
    ensures |ComposeLabelled(live, kind, text, handoff).answer| ==
            |live| + |Label(kind).value| + |text| + SuffixLength(handoff)
  {
  }

  /** In every branch the composed answer keeps the public limit exactly when its least length does. */
  lemma {:induction false} AnswerFitsIff(live: string, handoff: string, result: Option<StaticResult>)
    ensures |ComposeAnswer(live, handoff, result).answer| <= PUBLIC_ANSWER_MAX_CHARS <==>
            LeastLength(live, handoff, result) <= PUBLIC_ANSWER_MAX_CHARS
  {
    if result.Some? && IsAcceptedConflict(result.value) {
      ConflictFitsIff(live, result.value.answer, handoff);
    } else if result.Some? && IsAcceptedGuidance(result.value) {
      LabelledLength(live, ReviewedGuidance, result.value.claimText, handoff);
    } else if result.Some? && IsAcceptedBackground(result.value) {
      LabelledLength(live, GeneralBackground, result.value.claimText, handoff);
    } else if result.Some? && IsRedirect(result.value) {
      RedirectFitsIff(live, result.value.answer, handoff);
    }
  }

  // ---------- without records ----------

  /** The conflict answer when no record matched: the missing half opens it. */
  function ComposeWithoutRecords(current: string, conflict: string, hasLinks: bool): Composed {
    var kind := if hasLinks then OfficialHandoff else Uncertainty;
    var full := INFORMATION_LABEL + current + CONFLICT_LABEL + conflict;
    var shortened := |full| > PUBLIC_ANSWER_MAX_CHARS;
    var shown := if shortened then BOUNDED_CONFLICT_TEXT else conflict;
    Composed(
      Conflict, INFORMATION_LABEL + current + CONFLICT_LABEL + shown,
      [Section(kind, current), Section(ConflictingGuidance, shown)], shortened)
  }

  lemma {:induction false} WithoutRecordsFitsIff(current: string, conflict: string, hasLinks: bool)
    ensures |ComposeWithoutRecords(current, conflict, hasLinks).answer| <= PUBLIC_ANSWER_MAX_CHARS <==>
            |INFORMATION_LABEL| + |current| + |CONFLICT_LABEL| + Min(|conflict|, |BOUNDED_CONFLICT_TEXT|) <=
            PUBLIC_ANSWER_MAX_CHARS
  {
  }

  lemma {:induction false} ComposedWithoutRecordsAcceptedIff(current: string, conflict: string, hasLinks: bool)
    ensures
      var composed := ComposeWithoutRecords(current, conflict, hasLinks);
      && composed.answer in CanonicalAnswers(composed.sections)
      && (IsCanonicalConflict(Some(composed.answer), composed.sections) <==>
            AllowedConflictText(conflict) || composed.shortened)
  {
    var composed := ComposeWithoutRecords(current, conflict, hasLinks);
    assert ConflictForm(composed.sections) by {
      if hasLinks {
        assert HasKinds(composed.sections, [OfficialHandoff, ConflictingGuidance]);
      } else {
        assert HasKinds(composed.sections, [Uncertainty, ConflictingGuidance]);
      }
    }
    ConflictFormHasOneConflict(composed.sections);
    assert RenderConflict(composed.sections, composed.sections[1].text) == Some(composed.answer);
  }
}
