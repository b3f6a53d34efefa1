/**
 The renderers that fix how the sections of a live, mixed or conflict answer make up its text
 (src/firelens/contract_composition.py:8-125).
 */
module AnswerComposition {
  import opened Wrappers
  import opened AnswerKinds

  datatype Section = Section(kind: SectionKind, text: string)

  const DETERMINISTIC_CONFLICT_TEXT :=
    "The selected approved sources conflict. FireLens is showing both statements and " +
    "cannot determine which version governs; check the issuing authority or the most " +
    "recent official document before acting."

  const BOUNDED_CONFLICT_TEXT :=
    "Reviewed sources conflict, so FireLens cannot combine them into one apparently " +
    "certain answer. Inspect both reviewed sources before acting."

  const CONFLICT_LABEL := "\n\nConflicting reviewed sources: "
  const HANDOFF_LABEL := "\n\nRelated official information: "
  const INFORMATION_LABEL := "Official information: "

  predicate AllowedConflictText(text: string) {
    text == DETERMINISTIC_CONFLICT_TEXT || text == BOUNDED_CONFLICT_TEXT
  }

  predicate IsOpening(kind: SectionKind) {
    kind.CurrentRecords? || kind.Uncertainty? || kind.OfficialHandoff?
  }

  /** What introduces a section after the first; none for kinds that may only open an answer. */
  function Label(kind: SectionKind): Option<string> {
    match kind
    case ReviewedGuidance => Some("\n\nPreparedness guidance: ")
    case GeneralBackground => Some("\n\nGeneral background: ")
    case OfficialHandoff => Some(HANDOFF_LABEL)
    case SafetyBoundary => Some("\n\nWhat FireLens cannot decide: ")
    case Unavailable => Some("\n\nWhat FireLens cannot show: ")
    case CurrentRecords | ConflictingGuidance | Uncertainty => None
  }

  predicate AllLabelled(sections: seq<Section>) {
    forall i :: 0 <= i < |sections| ==> Label(sections[i].kind).Some?
  }

  predicate DistinctKinds(sections: seq<Section>) {
    forall i, j :: 0 <= i < j < |sections| ==> sections[i].kind != sections[j].kind
  }

  /** Each section under its label. */
  function Labelled(sections: seq<Section>): string
    requires AllLabelled(sections)
  {
    if sections == [] then "" else Label(sections[0].kind).value + sections[0].text + Labelled(sections[1..])
  }

  function ConflictTexts(sections: seq<Section>): seq<string> {
    if sections == [] then []
    else (if sections[0].kind.ConflictingGuidance? then [sections[0].text] else []) + ConflictTexts(sections[1..])
  }

  predicate HasKinds(sections: seq<Section>, kinds: seq<SectionKind>) {
    |sections| == |kinds| && forall i :: 0 <= i < |kinds| ==> sections[i].kind == kinds[i]
  }

  /** `_render_sectioned_conflict_answer` */
  function RenderConflict(sections: seq<Section>, conflict: string): Option<string> {
    if HasKinds(sections, [ConflictingGuidance]) then Some(conflict)
    else if 2 <= |sections| <= 3 && sections[0].kind.CurrentRecords? && sections[1].kind.ConflictingGuidance? then
      var answer := sections[0].text + CONFLICT_LABEL + conflict;
      if |sections| == 2 then Some(answer)
      else if sections[2].kind.OfficialHandoff? then Some(answer + HANDOFF_LABEL + sections[2].text)
      else None
    else if HasKinds(sections, [Uncertainty, ConflictingGuidance]) ||
            HasKinds(sections, [OfficialHandoff, ConflictingGuidance]) then
      Some(INFORMATION_LABEL + sections[0].text + CONFLICT_LABEL + conflict)
    else None
  }

  predicate EndsInHandoff(sections: seq<Section>) {
    |sections| > 2 && sections[|sections| - 1].kind.OfficialHandoff?
  }

  /** `_canonical_conflict_answers` */
  function ConflictAnswers(sections: seq<Section>): seq<string>
    requires ConflictTexts(sections) != []
  {
    var n := |sections| - 1;
    if EndsInHandoff(sections) then
      DroppingHandoff(sections);
      var rendered := RenderConflict(sections[..n], ConflictTexts(sections[..n])[0]);
      if rendered.Some? && rendered.value != "" then [rendered.value + HANDOFF_LABEL + sections[n].text] else []
    else
      var rendered := RenderConflict(sections, ConflictTexts(sections)[0]);
      if rendered.Some? && rendered.value != "" then [rendered.value] else []
  }

  lemma {:induction false} DroppingHandoff(sections: seq<Section>)
    requires sections != [] && !sections[|sections| - 1].kind.ConflictingGuidance?
    ensures ConflictTexts(sections[..|sections| - 1]) == ConflictTexts(sections)
  {
    var n := |sections| - 1;
    if n > 0 {
      assert sections[1..][..n - 1] == sections[..n][1..];
      DroppingHandoff(sections[1..]);
    }
  }

  /** `canonical_live_or_mixed_answers` */
  function CanonicalAnswers(sections: seq<Section>): seq<string> {
    if sections == [] then []
    else if ConflictTexts(sections) != [] then ConflictAnswers(sections)
    else if !IsOpening(sections[0].kind) || !DistinctKinds(sections) || !AllLabelled(sections[1..]) then []
    else
      var labelled := sections[0].text + Labelled(sections[1..]);
      if |sections| >= 2 && sections[0].kind.CurrentRecords? && sections[1].kind.ReviewedGuidance? then
        assert sections[2..] == sections[1..][1..];
        [sections[0].text + ("\n\n" + sections[1].text + Labelled(sections[2..])), labelled]
      else [labelled]
  }

  /** `is_canonical_conflict_answer` */
  predicate IsCanonicalConflict(answer: Option<string>, sections: seq<Section>) {
    var texts := ConflictTexts(sections);
    if texts == [] then answer.Some? && AllowedConflictText(answer.value)
    else if |texts| != 1 || !AllowedConflictText(texts[0]) then false
    else answer == RenderConflict(sections, texts[0])
  }

  // ---------- nothing is left out ----------

  /** The texts occur in the answer one after the other, without overlap. */
  ghost predicate ShowsInOrder(answer: string, sections: seq<Section>)
    decreases |sections|
  {
    sections == [] ||
    exists before: string, rest: string ::
      answer == before + sections[0].text + rest && ShowsInOrder(rest, sections[1..])
  }

  lemma {:induction false} ShowsOneMore(before: string, rest: string, sections: seq<Section>)
    requires sections != [] && ShowsInOrder(rest, sections[1..])
    ensures ShowsInOrder(before + sections[0].text + rest, sections)
  {
  }

  lemma {:induction false} LabelledShowsAll(sections: seq<Section>)
    requires AllLabelled(sections)
    ensures ShowsInOrder(Labelled(sections), sections)
  {
    if sections != [] {
      LabelledShowsAll(sections[1..]);
      ShowsOneMore(Label(sections[0].kind).value, Labelled(sections[1..]), sections);
    }
  }

  /** The section lists that `RenderConflict` accepts. */
  predicate ConflictForm(sections: seq<Section>) {
    || HasKinds(sections, [ConflictingGuidance])
    || HasKinds(sections, [CurrentRecords, ConflictingGuidance])
    || HasKinds(sections, [CurrentRecords, ConflictingGuidance, OfficialHandoff])
    || HasKinds(sections, [Uncertainty, ConflictingGuidance])
    || HasKinds(sections, [OfficialHandoff, ConflictingGuidance])
  }

  /** A conflict form with one more handoff: rendered for live and mixed answers, but not as a conflict answer. */
  predicate ExtraHandoffForm(sections: seq<Section>) {
    || HasKinds(sections, [CurrentRecords, ConflictingGuidance, OfficialHandoff, OfficialHandoff])
    || HasKinds(sections, [Uncertainty, ConflictingGuidance, OfficialHandoff])
    || HasKinds(sections, [OfficialHandoff, ConflictingGuidance, OfficialHandoff])
  }

  predicate NoBlankSection(sections: seq<Section>) {
    forall i :: 0 <= i < |sections| ==> sections[i].text != ""
  }

  lemma {:induction false} RendersExactlyConflictForms(sections: seq<Section>, conflict: string)
    ensures RenderConflict(sections, conflict).Some? <==> ConflictForm(sections)
    ensures RenderConflict(sections, conflict).Some? && conflict != "" ==>
              RenderConflict(sections, conflict).value != ""
  {
  }

  lemma {:induction false} ConflictFormHasOneConflict(sections: seq<Section>)
    requires ConflictForm(sections) || ExtraHandoffForm(sections)
    ensures
      var i := if sections[0].kind.ConflictingGuidance? then 0 else 1;
      ConflictTexts(sections) == [sections[i].text]
  {
    if |sections| >= 2 {
      assert sections[1..][0] == sections[1];
      assert ConflictTexts(sections[1..][1..]) == [] by {
        NoLaterConflict(sections[1..][1..]);
      }
    }
  }

  lemma {:induction false} NoLaterConflict(sections: seq<Section>)
    requires forall i :: 0 <= i < |sections| ==> !sections[i].kind.ConflictingGuidance?
    ensures ConflictTexts(sections) == []
  {
    if sections != [] {
      NoLaterConflict(sections[1..]);
    }
  }

  lemma {:induction false} ConflictTextsNotBlank(sections: seq<Section>)
    requires NoBlankSection(sections)
    ensures forall t :: t in ConflictTexts(sections) ==> t != ""
  {
    if sections != [] {
      ConflictTextsNotBlank(sections[1..]);
    }
  }

  lemma {:induction false} DroppedForms(sections: seq<Section>)
    requires EndsInHandoff(sections)
    ensures ConflictForm(sections[..|sections| - 1]) <==>
            ExtraHandoffForm(sections) || HasKinds(sections, [CurrentRecords, ConflictingGuidance, OfficialHandoff])
  {
  }

  /** For sections with conflicting guidance, the two renderers cover these forms and agree on the conflict forms. */
  lemma {:induction false} ConflictAnswersByForm(sections: seq<Section>)
    requires ConflictTexts(sections) != [] && NoBlankSection(sections)
    ensures CanonicalAnswers(sections) != [] <==> ConflictForm(sections) || ExtraHandoffForm(sections)
    ensures ConflictForm(sections) ==>
      CanonicalAnswers(sections) == [RenderConflict(sections, ConflictTexts(sections)[0]).value]
  {
    var n := |sections| - 1;
    ConflictTextsNotBlank(sections);
    var conflict := ConflictTexts(sections)[0];
    RendersExactlyConflictForms(sections, conflict);
    if EndsInHandoff(sections) {
      DroppingHandoff(sections);
      RendersExactlyConflictForms(sections[..n], conflict);
      DroppedForms(sections);
    }
  }

  predicate Agree(sections: seq<Section>, answer: string) {
    answer in CanonicalAnswers(sections) <==> IsCanonicalConflict(Some(answer), sections)
  }

  /**
   For every section list with conflicting guidance, the grammar of live and mixed answers and the
   grammar of conflict answers accept the same texts if and only if no handoff is added to a
   complete form and a rendered conflict text is one of the two approved ones.
   */
  lemma {:induction false} GrammarsAgreeIff(sections: seq<Section>)
    requires ConflictTexts(sections) != [] && NoBlankSection(sections)
    ensures (forall answer :: Agree(sections, answer)) <==>
            && !ExtraHandoffForm(sections)
            && (ConflictForm(sections) ==> AllowedConflictText(ConflictTexts(sections)[0]))
  {
    ConflictAnswersByForm(sections);
    RendersExactlyConflictForms(sections, ConflictTexts(sections)[0]);
    if ConflictForm(sections) {
      ConflictFormHasOneConflict(sections);
      assert Agree(sections, CanonicalAnswers(sections)[0]) <==> AllowedConflictText(ConflictTexts(sections)[0]);
    } else if ExtraHandoffForm(sections) {
      assert !Agree(sections, CanonicalAnswers(sections)[0]);
    }
  }

  /** Lists that open with current records and then an approved conflict text, without a repeated kind. */
  lemma {:induction false} RecordsThenConflictAgree(sections: seq<Section>, answer: string)
    requires |sections| >= 2 && NoBlankSection(sections) && DistinctKinds(sections)
    requires sections[0].kind.CurrentRecords? && sections[1].kind.ConflictingGuidance?
    requires AllowedConflictText(sections[1].text)
    ensures answer in CanonicalAnswers(sections) <==> IsCanonicalConflict(Some(answer), sections)
  {
    assert sections[1..][0] == sections[1];
    assert ConflictTexts(sections) == [sections[1].text] + ConflictTexts(sections[1..][1..]);
    GrammarsAgreeIff(sections);
    assert Agree(sections, answer);
  }

  /** A missing answer passes as the conflict answer of a list that has no rendering. */
  lemma {:induction false} MissingAnswerPassesUnrenderable(sections: seq<Section>)
    requires |ConflictTexts(sections)| == 1 && AllowedConflictText(ConflictTexts(sections)[0])
    ensures IsCanonicalConflict(None, sections) <==> !ConflictForm(sections)
  {
    RendersExactlyConflictForms(sections, ConflictTexts(sections)[0]);
  }

  // ---------- every section is shown ----------

  /** One more section behind a text that shows the sections before it. */
  lemma {:induction false} ShowsAppended(answer: string, sections: seq<Section>, between: string, last: Section)
    requires ShowsInOrder(answer, sections)
    ensures ShowsInOrder(answer + between + last.text, sections + [last])
    decreases |sections|
  {
    if sections == [] {
      assert answer + between + last.text == (answer + between) + last.text + "";
      ShowsOneMore(answer + between, "", [last]);
      assert sections + [last] == [last];
    } else {
      var before, rest :| answer == before + sections[0].text + rest && ShowsInOrder(rest, sections[1..]);
      ShowsAppended(rest, sections[1..], between, last);
      assert (sections + [last])[1..] == sections[1..] + [last];
      ShowsOneMore(before, rest + between + last.text, sections + [last]);
      assert answer + between + last.text == before + sections[0].text + (rest + between + last.text);
    }
  }

  /** The rendering of a conflict form shows its sections. */
  lemma {:induction false} ConflictFormShowsAll(sections: seq<Section>)
    requires ConflictForm(sections)
    requires
      var i := if sections[0].kind.ConflictingGuidance? then 0 else 1;
      ConflictTexts(sections) == [sections[i].text]
    ensures ShowsInOrder(RenderConflict(sections, ConflictTexts(sections)[0]).value, sections)
  {
    if |sections| == 1 {
      ShowsOneMore("", "", sections);
      assert "" + sections[0].text + "" == sections[0].text;
    } else {
      var opening := if sections[0].kind.CurrentRecords? then sections[0].text
                     else INFORMATION_LABEL + sections[0].text;
      OpeningShows(sections[0]);
      ShowsAppended(opening, [sections[0]], CONFLICT_LABEL, sections[1]);
      assert [sections[0]] + [sections[1]] == sections[..2];
      var pair := opening + CONFLICT_LABEL + sections[1].text;
      if |sections| == 2 {
        assert sections[..2] == sections;
      } else {
        ShowsAppended(pair, sections[..2], HANDOFF_LABEL, sections[2]);
        assert sections[..2] + [sections[2]] == sections;
      }
    }
  }

  lemma {:induction false} OpeningShows(section: Section)
    ensures ShowsInOrder(section.text, [section]) && ShowsInOrder(INFORMATION_LABEL + section.text, [section])
  {
    ShowsOneMore("", "", [section]);
    assert "" + section.text + "" == section.text;
    ShowsOneMore(INFORMATION_LABEL, "", [section]);
    assert INFORMATION_LABEL + section.text + "" == INFORMATION_LABEL + section.text;
  }

  lemma {:induction false} ConflictAnswersShowAll(sections: seq<Section>, answer: string)
    requires ConflictTexts(sections) != [] && answer in ConflictAnswers(sections)
    ensures ShowsInOrder(answer, sections)
  {
    var n := |sections| - 1;
    var conflict := ConflictTexts(sections)[0];
    if EndsInHandoff(sections) {
      DroppingHandoff(sections);
      RendersExactlyConflictForms(sections[..n], conflict);
      ConflictFormHasOneConflict(sections[..n]);
      ConflictFormShowsAll(sections[..n]);
      ShowsAppended(RenderConflict(sections[..n], conflict).value, sections[..n], HANDOFF_LABEL, sections[n]);
      assert sections == sections[..n] + [sections[n]];
    } else {
      RendersExactlyConflictForms(sections, conflict);
      ConflictFormHasOneConflict(sections);
      ConflictFormShowsAll(sections);
    }
  }

  lemma {:induction false} LabelledAnswersShowAll(sections: seq<Section>)
    requires sections != [] && AllLabelled(sections[1..])
    ensures ShowsInOrder(sections[0].text + Labelled(sections[1..]), sections)
  {
    LabelledShowsAll(sections[1..]);
    ShowsOneMore("", Labelled(sections[1..]), sections);
    assert "" + sections[0].text == sections[0].text;
  }

  lemma {:induction false} UnlabelledGuidanceShowsAll(sections: seq<Section>)
    requires |sections| >= 2 && AllLabelled(sections[2..])
    ensures ShowsInOrder(sections[0].text + ("\n\n" + sections[1].text + Labelled(sections[2..])), sections)
  {
    var later := "\n\n" + sections[1].text + Labelled(sections[2..]);
    assert sections[2..] == sections[1..][1..];
    LabelledShowsAll(sections[2..]);
    ShowsOneMore("\n\n", Labelled(sections[2..]), sections[1..]);
    ShowsOneMore("", later, sections);
    assert "" + sections[0].text == sections[0].text;
  }

  /** Whatever the sections are, every accepted answer shows each section's text, in section order. */
  lemma {:induction false} AcceptedAnswersShowEverySection(sections: seq<Section>, answer: string)
    requires answer in CanonicalAnswers(sections)
    ensures ShowsInOrder(answer, sections)
  {
    if ConflictTexts(sections) != [] {
      ConflictAnswersShowAll(sections, answer);
    } else {
      LabelledAnswersShowAll(sections);
      if |sections| >= 2 && sections[0].kind.CurrentRecords? && sections[1].kind.ReviewedGuidance? {
        assert sections[2..] == sections[1..][1..];
        UnlabelledGuidanceShowsAll(sections);
      }
    }
  }
}
