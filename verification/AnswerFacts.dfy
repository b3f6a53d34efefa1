/**
 The accepted texts of a live, mixed or conflict answer (src/firelens/contract_composition.py:8-125) and
 the answers composed over records (src/firelens/live_answering.py:361-646), written out in full.
 */
module AnswerFacts {
  import opened Wrappers
  import opened Sequences
  import opened AnswerKinds
  import opened AnswerComposition
  import opened LiveAnswering

  // ---------- the fixed wordings ----------

  /** The text that comes before a section that is not the first; none if the kind may only come first. */
  ghost predicate Introduces(intro: string, kind: SectionKind) {
    || (kind == ReviewedGuidance && intro == "\n\nPreparedness guidance: ")
    || (kind == GeneralBackground && intro == "\n\nGeneral background: ")
    || (kind == OfficialHandoff && intro == "\n\nRelated official information: ")
    || (kind == SafetyBoundary && intro == "\n\nWhat FireLens cannot decide: ")
    || (kind == Unavailable && intro == "\n\nWhat FireLens cannot show: ")
  }

  lemma {:induction false} LabelsIntroduce(kind: SectionKind)
    ensures forall intro :: Label(kind) == Some(intro) <==> Introduces(intro, kind)
  {
  }

  lemma {:induction false} ApprovedTexts(text: string)
    ensures AllowedConflictText(text) <==>
            || text == "The selected approved sources conflict. FireLens is showing both statements and " +
                       "cannot determine which version governs; check the issuing authority or the most " +
                       "recent official document before acting."
            || text == "Reviewed sources conflict, so FireLens cannot combine them into one apparently " +
                       "certain answer. Inspect both reviewed sources before acting."
    ensures SHORT_HANDOFF == "FireLens found related official sources for the non-live part of this " +
                             "question. Open the links below for the official information."
  {
  }

  // ---------- answers without conflicting guidance ----------

  /** `parts` are the later sections under their labels, one text for each. */
  ghost predicate ArePartsOf(parts: seq<string>, later: seq<Section>) {
    |parts| == |later| && forall i :: 0 <= i < |later| ==> IsPart(parts[i], later[i])
  }

  ghost predicate IsPart(part: string, s: Section) {
    exists intro :: Introduces(intro, s.kind) && part == intro + s.text
  }

  /** `"".join(parts)` */
  function Concatenated(parts: seq<string>): string {
    if parts == [] then "" else parts[0] + Concatenated(parts[1..])
  }

  lemma {:induction false} LabelledConcatenates(later: seq<Section>, parts: seq<string>)
    requires ArePartsOf(parts, later)
    ensures AllLabelled(later) && Labelled(later) == Concatenated(parts)
  {
    if later != [] {
      LabelsIntroduce(later[0].kind);
      assert IsPart(parts[0], later[0]);
      forall i | 0 <= i < |later[1..]| ensures IsPart(parts[1..][i], later[1..][i]) {
        assert IsPart(parts[i + 1], later[i + 1]);
      }
      LabelledConcatenates(later[1..], parts[1..]);
    }
  }

  /** Records, a missing answer or a handoff open the answer; everything later needs a label. */
  ghost predicate CanOpen(kind: SectionKind) {
    kind in [CurrentRecords, Uncertainty, OfficialHandoff]
  }

  ghost predicate NeedsNoLabel(kind: SectionKind) {
    kind in [CurrentRecords, ConflictingGuidance, Uncertainty]
  }

  ghost predicate HasConflict(sections: seq<Section>) {
    exists i :: 0 <= i < |sections| && sections[i].kind == ConflictingGuidance
  }

  lemma {:induction false} HasConflictIff(sections: seq<Section>)
    ensures HasConflict(sections) <==> ConflictTexts(sections) != []
  {
    if sections != [] {
      HasConflictIff(sections[1..]);
      assert forall i :: 1 <= i < |sections| ==> sections[i] == sections[1..][i - 1];
      if sections[0].kind == ConflictingGuidance {
        assert HasConflict(sections);
      } else if HasConflict(sections) {
        var i :| 0 <= i < |sections| && sections[i].kind == ConflictingGuidance;
        assert sections[1..][i - 1].kind == ConflictingGuidance;
      }
    }
  }

  /** Section lists without conflicting guidance that have an answer. */
  ghost predicate PlainForm(sections: seq<Section>) {
    && sections != [] && CanOpen(sections[0].kind)
    && (forall i :: 1 <= i < |sections| ==> !NeedsNoLabel(sections[i].kind))
    && (forall i, j :: 0 <= i < j < |sections| ==> sections[i].kind != sections[j].kind)
  }

  lemma {:induction false} LabelledIff(sections: seq<Section>)
    requires sections != []
    ensures AllLabelled(sections[1..]) <==> forall i :: 1 <= i < |sections| ==> !NeedsNoLabel(sections[i].kind)
  {
    assert forall i :: 1 <= i < |sections| ==> sections[i] == sections[1..][i - 1];
    if AllLabelled(sections[1..]) {
      forall i | 1 <= i < |sections| ensures !NeedsNoLabel(sections[i].kind) {
        assert Label(sections[1..][i - 1].kind).Some?;
      }
    }
  }

  /** Without conflicting guidance exactly the plain forms have an answer. */
  lemma {:induction false} PlainFormIff(sections: seq<Section>)
    requires !HasConflict(sections)
    ensures CanonicalAnswers(sections) != [] <==> PlainForm(sections)
  {
    HasConflictIff(sections);
    if sections != [] {
      LabelledIff(sections);
      assert DistinctKinds(sections) <==>
             forall i, j :: 0 <= i < j < |sections| ==> sections[i].kind != sections[j].kind;
    }
  }

  /**
   It is the opening text and then all parts; right after records the guidance may also stand without its
   label, and that wording comes first.
   */
  lemma {:induction false} PlainAnswersAre(sections: seq<Section>, parts: seq<string>)
    requires !HasConflict(sections) && PlainForm(sections) && ArePartsOf(parts, sections[1..])
    ensures
      var labelled := sections[0].text + Concatenated(parts);
      CanonicalAnswers(sections) ==
      if |sections| > 1 && sections[0].kind == CurrentRecords && sections[1].kind == ReviewedGuidance then
        [sections[0].text + ("\n\n" + sections[1].text + Concatenated(parts[1..])), labelled]
      else [labelled]
  {
    HasConflictIff(sections);
    PlainFormIff(sections);
    LabelledConcatenates(sections[1..], parts);
    if |sections| > 1 {
      assert sections[2..] == sections[1..][1..];
      forall i | 0 <= i < |sections[2..]| ensures IsPart(parts[1..][i], sections[2..][i]) {
        assert IsPart(parts[i + 1], sections[1..][i + 1]);
      }
      LabelledConcatenates(sections[2..], parts[1..]);
    }
  }

  // ---------- answers with conflicting guidance ----------

  /** The forms with conflicting guidance and records, and the one answer of each. */
  lemma {:induction false} RecordsConflictAnswers(a: string, c: string, h: string, k: string)
    ensures
      var records, conflict := Section(CurrentRecords, a), Section(ConflictingGuidance, c);
      var pair := a + "\n\nConflicting reviewed sources: " + c;
      var handoff := "\n\nRelated official information: ";
      && CanonicalAnswers([records, conflict]) == [pair]
      && CanonicalAnswers([records, conflict, Section(OfficialHandoff, h)]) == [pair + handoff + h]
      && CanonicalAnswers([records, conflict, Section(OfficialHandoff, h), Section(OfficialHandoff, k)]) ==
          [pair + handoff + h + handoff + k]
  {
    var records, conflict := Section(CurrentRecords, a), Section(ConflictingGuidance, c);
    var one, two := Section(OfficialHandoff, h), Section(OfficialHandoff, k);
    FormAnswer([records, conflict], c);
    ExtendedAnswer([records, conflict], c, h);
    ExtendedAnswer([records, conflict, one], c, k);
    assert [records, conflict] + [one] == [records, conflict, one];
    assert [records, conflict, one] + [two] == [records, conflict, one, two];
  }

  lemma {:induction false} OtherConflictAnswers(opening: SectionKind, a: string, c: string, h: string)
    requires c != "" && (opening == Uncertainty || opening == OfficialHandoff)
    ensures
      var first, conflict := Section(opening, a), Section(ConflictingGuidance, c);
      var pair := "Official information: " + a + "\n\nConflicting reviewed sources: " + c;
      && CanonicalAnswers([conflict]) == [c]
      && CanonicalAnswers([first, conflict]) == [pair]
      && CanonicalAnswers([first, conflict, Section(OfficialHandoff, h)]) ==
          [pair + "\n\nRelated official information: " + h]
  {
    var first, conflict := Section(opening, a), Section(ConflictingGuidance, c);
    FormAnswer([conflict], c);
    FormAnswer([first, conflict], c);
    ExtendedAnswer([first, conflict], c, h);
    assert [first, conflict] + [Section(OfficialHandoff, h)] == [first, conflict, Section(OfficialHandoff, h)];
  }

  lemma {:induction false} FormAnswer(sections: seq<Section>, c: string)
    requires ConflictForm(sections) && (|sections| > 1 || c != "") && !EndsInHandoff(sections)
    requires sections[if |sections| == 1 then 0 else 1] == Section(ConflictingGuidance, c)
    ensures CanonicalAnswers(sections) == [RenderConflict(sections, c).value]
  {
    ConflictFormHasOneConflict(sections);
  }

  lemma {:induction false} ExtendedAnswer(form: seq<Section>, c: string, h: string)
    requires ConflictForm(form) && |form| > 1 && form[1] == Section(ConflictingGuidance, c)
    ensures CanonicalAnswers(form + [Section(OfficialHandoff, h)]) ==
            [RenderConflict(form, c).value + "\n\nRelated official information: " + h]
  {
    var sections := form + [Section(OfficialHandoff, h)];
    ConflictFormHasOneConflict(form);
    assert sections[..|sections| - 1] == form;
    DroppingHandoff(sections);
  }

  // ---------- conflict answers ----------

  /** With one approved conflict text the conflict answer is the text of its form, and missing without a form. */
  lemma {:induction false} ConflictAnswerIs(answer: Option<string>, sections: seq<Section>, c: string)
    requires ConflictTexts(sections) == [c]
    ensures IsCanonicalConflict(answer, sections) <==>
            AllowedConflictText(c) &&
            if ConflictForm(sections) then answer.Some? && IsRendering(answer.value, sections, c) else answer.None?
  {
    RendersExactlyConflictForms(sections, c);
  }

  /** The wordings of the forms. */
  ghost predicate IsRendering(answer: string, sections: seq<Section>, c: string)
    requires ConflictForm(sections)
  {
    match sections[0].kind
    case CurrentRecords =>
      var pair := sections[0].text + "\n\nConflicting reviewed sources: " + c;
      answer == if |sections| == 2 then pair else pair + "\n\nRelated official information: " + sections[2].text
    case Uncertainty =>
      answer == "Official information: " + sections[0].text + "\n\nConflicting reviewed sources: " + c
    case OfficialHandoff =>
      answer == "Official information: " + sections[0].text + "\n\nConflicting reviewed sources: " + c
    case _ => answer == c
  }

  /** Without a conflict section the approved texts stand alone; with several of them nothing is accepted. */
  lemma {:induction false} ConflictAnswerWithoutOne(answer: Option<string>, sections: seq<Section>)
    ensures !HasConflict(sections) ==>
              (IsCanonicalConflict(answer, sections) <==> answer.Some? && AllowedConflictText(answer.value))
    ensures |ConflictTexts(sections)| > 1 ==> !IsCanonicalConflict(answer, sections)
  {
    HasConflictIff(sections);
  }

  function Conflicting(): Section -> bool {
    (s: Section) => s.kind == ConflictingGuidance
  }

  lemma {:induction false} OnlyText(s: Section)
    ensures ConflictTexts([s]) == if s.kind == ConflictingGuidance then [s.text] else []
  {
    var later := [s][1..];
    assert ConflictTexts(later) == [];
    assert ConflictTexts([s]) == (if s.kind.ConflictingGuidance? then [s.text] else []) + ConflictTexts(later);
  }

  lemma {:induction false} OneMoreText(sections: seq<Section>, s: Section)
    ensures ConflictTexts(sections + [s]) ==
            ConflictTexts(sections) + if s.kind == ConflictingGuidance then [s.text] else []
  {
    if sections == [] {
      OnlyText(s);
      assert sections + [s] == [s];
    } else {
      assert (sections + [s])[1..] == sections[1..] + [s];
      OneMoreText(sections[1..], s);
      ConcatAssociative(
        if sections[0].kind.ConflictingGuidance? then [sections[0].text] else [], ConflictTexts(sections[1..]),
        if s.kind == ConflictingGuidance then [s.text] else []);
    }
  }

  /** The conflict texts are those of the conflict sections, in order. */
  lemma {:induction false} ConflictTextsAre(sections: seq<Section>)
    ensures |ConflictTexts(sections)| == |Places(sections, Conflicting())|
    ensures forall k :: 0 <= k < |ConflictTexts(sections)| ==>
              var i := Places(sections, Conflicting())[k];
              i < |sections| && ConflictTexts(sections)[k] == sections[i].text
  {
    if sections != [] {
      var before, last := sections[..|sections| - 1], sections[|sections| - 1];
      assert sections == before + [last];
      ConflictTextsAre(before);
      OneMoreText(before, last);
      OneMorePlace(before, last, Conflicting());
      assert forall i :: 0 <= i < |before| ==> sections[i] == before[i];
    }
  }

  // ---------- which lists have an answer ----------

  /** The sections are of these kinds, in this order. */
  ghost predicate Spells(sections: seq<Section>, kinds: seq<SectionKind>) {
    |kinds| == |sections| && forall i :: 0 <= i < |sections| ==> kinds[i] == sections[i].kind
  }

  const CONFLICT_FORMS: seq<seq<SectionKind>> := [
    [ConflictingGuidance],
    [CurrentRecords, ConflictingGuidance],
    [Uncertainty, ConflictingGuidance],
    [OfficialHandoff, ConflictingGuidance],
    [CurrentRecords, ConflictingGuidance, OfficialHandoff]
  ]

  const EXTENDED_FORMS: seq<seq<SectionKind>> := [
    [Uncertainty, ConflictingGuidance, OfficialHandoff],
    [OfficialHandoff, ConflictingGuidance, OfficialHandoff],
    [CurrentRecords, ConflictingGuidance, OfficialHandoff, OfficialHandoff]
  ]

  lemma {:induction false} ConflictFormIff(sections: seq<Section>)
    ensures ConflictForm(sections) <==> exists f :: 0 <= f < 5 && Spells(sections, CONFLICT_FORMS[f])
  {
    assert CONFLICT_FORMS[0] == [ConflictingGuidance];
    assert CONFLICT_FORMS[1] == [CurrentRecords, ConflictingGuidance];
    assert CONFLICT_FORMS[2] == [Uncertainty, ConflictingGuidance];
    assert CONFLICT_FORMS[3] == [OfficialHandoff, ConflictingGuidance];
    assert CONFLICT_FORMS[4] == [CurrentRecords, ConflictingGuidance, OfficialHandoff];
    forall f | 0 <= f < 5 ensures Spells(sections, CONFLICT_FORMS[f]) <==> HasKinds(sections, CONFLICT_FORMS[f]) {
    }
  }

  lemma {:induction false} ExtendedFormIff(sections: seq<Section>)
    ensures ExtraHandoffForm(sections) <==> exists f :: 0 <= f < 3 && Spells(sections, EXTENDED_FORMS[f])
  {
    assert EXTENDED_FORMS[0] == [Uncertainty, ConflictingGuidance, OfficialHandoff];
    assert EXTENDED_FORMS[1] == [OfficialHandoff, ConflictingGuidance, OfficialHandoff];
    assert EXTENDED_FORMS[2] == [CurrentRecords, ConflictingGuidance, OfficialHandoff, OfficialHandoff];
    forall f | 0 <= f < 3 ensures Spells(sections, EXTENDED_FORMS[f]) <==> HasKinds(sections, EXTENDED_FORMS[f]) {
    }
  }

  /** With conflicting guidance and no blank section, exactly the eight forms have an answer. */
  lemma {:induction false} ConflictListsWithAnswer(sections: seq<Section>)
    requires HasConflict(sections) && NoBlankSection(sections)
    ensures CanonicalAnswers(sections) != [] <==>
            || (exists f :: 0 <= f < 5 && Spells(sections, CONFLICT_FORMS[f]))
            || (exists f :: 0 <= f < 3 && Spells(sections, EXTENDED_FORMS[f]))
  {
    HasConflictIff(sections);
    ConflictAnswersByForm(sections);
    ConflictFormIff(sections);
    ExtendedFormIff(sections);
  }

  // ---------- composition over records ----------

  /** The static result answers with validated claims. */
  ghost predicate Validated(s: StaticResult) {
    s.answered && s.validationAccepted && s.hasClaims && |s.answer| > 0
  }

  ghost predicate TakesConflict(s: StaticResult) {
    Validated(s) && s.hasEvidence && s.mode == Conflict
  }

  ghost predicate TakesGuidance(s: StaticResult) {
    Validated(s) && s.hasEvidence && s.mode in {Grounded, PartialAnswer}
  }

  ghost predicate TakesBackground(s: StaticResult) {
    Validated(s) && s.mode == Background
  }

  ghost predicate TakesRedirect(s: StaticResult) {
    s.answered && s.hasLinks && |s.answer| > 0 && s.mode == ScopeRedirect
  }

  /** Records and one more section, before the handoff of unsupported topics if there is one. */
  ghost predicate Adds(c: Composed, live: string, intro: string, kind: SectionKind, text: string, handoff: string) {
    && c.mode == MixedAnswer
    && (handoff == "" ==>
          && c.answer == live + intro + text
          && c.sections == [Section(CurrentRecords, live), Section(kind, text)])
    && (handoff != "" ==>
          && c.answer == live + intro + text + ("\n\nRelated official information: " + handoff)
          && c.sections ==
              [Section(CurrentRecords, live), Section(kind, text), Section(OfficialHandoff, handoff)])
  }

  /** No static text is shown. */
  ghost predicate RecordsOnly(c: Composed, live: string, handoff: string) {
    if handoff == "" then c == Composed(Live, live, [Section(CurrentRecords, live)], false)
    else c == Composed(MixedAnswer, live + ("\n\nRelated official information: " + handoff),
                       [Section(CurrentRecords, live), Section(OfficialHandoff, handoff)], false)
  }

  lemma {:induction false} TakenIff(s: StaticResult)
    ensures TakesConflict(s) <==> IsAcceptedConflict(s)
    ensures TakesGuidance(s) <==> IsAcceptedGuidance(s)
    ensures TakesBackground(s) <==> IsAcceptedBackground(s)
    ensures TakesRedirect(s) <==> IsRedirect(s)
  {
  }

  /** Which static result is shown with the records, and under which words. */
  lemma {:induction false} ComposedTextIs(live: string, handoff: string, s: StaticResult)
    ensures
      var c := ComposeAnswer(live, handoff, Some(s));
      && (TakesGuidance(s) ==>
            !c.shortened &&
            Adds(c, live, "\n\nPreparedness guidance: ", ReviewedGuidance, s.claimText, handoff))
      && (TakesBackground(s) ==>
            !c.shortened &&
            Adds(c, live, "\n\nGeneral background: ", GeneralBackground, s.claimText, handoff))
      && (!TakesConflict(s) && !TakesGuidance(s) && !TakesBackground(s) && !TakesRedirect(s) ==>
            RecordsOnly(c, live, handoff))
  {
    TakenIff(s);
    if handoff == "" {
      assert live + "" == live;
      assert [Section(CurrentRecords, live)] + [] == [Section(CurrentRecords, live)];
      forall intro: string, text: string ensures live + intro + text + "" == live + intro + text {
      }
    }
  }

  lemma {:induction false} WithoutStaticResult(live: string, handoff: string)
    ensures RecordsOnly(ComposeAnswer(live, handoff, None), live, handoff)
  {
    if handoff == "" {
      assert live + "" == live;
      assert [Section(CurrentRecords, live)] + [] == [Section(CurrentRecords, live)];
    }
  }

  /** A conflict is shown in its own words unless that makes more than 6000 characters. */
  lemma {:induction false} ComposedConflictIs(live: string, handoff: string, s: StaticResult)
    requires TakesConflict(s)
    ensures
      var c := ComposeAnswer(live, handoff, Some(s));
      var intro := "\n\nConflicting reviewed sources: ";
      var rest := if handoff == "" then 0 else |"\n\nRelated official information: "| + |handoff|;
      var full := |live| + |intro| + |s.answer| + rest;
      && (full <= 6000 ==> !c.shortened && Adds(c, live, intro, ConflictingGuidance, s.answer, handoff))
      && (full > 6000 ==> c.shortened && Adds(c, live, intro, ConflictingGuidance, BOUNDED_CONFLICT_TEXT, handoff))
  {
    TakenIff(s);
    forall text: string
      ensures WithConflict(live, text, "") == live + "\n\nConflicting reviewed sources: " + text
    {
    }
  }

  /** A redirect is the handoff itself; the handoff of unsupported topics continues it. */
  lemma {:induction false} ComposedRedirectIs(live: string, handoff: string, s: StaticResult)
    requires TakesRedirect(s)
    ensures
      var c := ComposeAnswer(live, handoff, Some(s));
      var more := if handoff == "" then "" else "\n\n" + handoff;
      var full := |live| + |"\n\nRelated official information: "| + |s.answer| + |more|;
      var shown := (if full > 6000 then SHORT_HANDOFF else s.answer) + more;
      && (c.shortened <==> full > 6000) && c.mode == MixedAnswer
      && c.answer == live + "\n\nRelated official information: " + shown
      && c.sections == [Section(CurrentRecords, live), Section(OfficialHandoff, shown)]
  {
    TakenIff(s);
  }
}
