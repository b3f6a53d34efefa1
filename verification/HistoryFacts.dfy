/**
 What the labels, the prefix and the history of an answer read (src/firelens/api_contracts.py:17-84 and
 src/firelens/assistant_history.py:10-56), in their own words.
 */
module HistoryFacts {
  import opened Wrappers
  import opened Sequences
  import opened AnswerKinds
  import opened LiveContracts
  import opened AssistantHistory
  import opened AuthorityPrefix

  // ---------- the label tables ----------

  lemma {:induction false} SectionLabelsRead()
    ensures SectionLabel(CurrentRecords) == "Official" + " " + "current" + " " + "records"
    ensures SectionLabel(ReviewedGuidance) == "Reviewed" + " " + "guidance"
    ensures SectionLabel(ConflictingGuidance) == "Conflicting" + " " + "reviewed" + " " + "sources"
    ensures SectionLabel(GeneralBackground) == "General" + " " + "background"
    ensures SectionLabel(OfficialHandoff) == "Official" + " " + "source" + " " + "handoff"
    ensures SectionLabel(Uncertainty) ==
            "Uncertainty" + " " + "about" + " " + "what" + " " + ("FireLens" + " " + "could" + " " + "establish")
    ensures SectionLabel(SafetyBoundary) ==
            "A" + " " + "personal" + " " + "safety" + " " + "decision" + " " +
            ("FireLens" + " " + "did" + " " + "not" + " " + "make")
    ensures SectionLabel(Unavailable) ==
            "Information" + " " + "FireLens" + " " + "does" + " " + ("not" + " " + "hold")
  {
  }

  lemma {:induction false} ModeLabelsRead()
    ensures ModeLabel(Grounded) == "Reviewed" + " " + "official" + " " + "guidance"
    ensures ModeLabel(PartialAnswer) == "Reviewed" + " " + "guidance" + " " + "+" + " " + "uncertainty"
    ensures ModeLabel(Conflict) == "Conflicting" + " " + "reviewed" + " " + "sources"
    ensures ModeLabel(Background) == "General" + " " + "background"
    ensures ModeLabel(Live) == "Official" + " " + "current" + " " + "records"
    ensures ModeLabel(MixedAnswer) ==
            "Mixed" + " " + "official" + " " + "and" + " " + ("labelled" + " " + "non-live" + " " + "information")
    ensures ModeLabel(Capability) == "FireLens" + " " + "capability" + " " + "information"
    ensures ModeLabel(ScopeRedirect) == "Official" + " " + "source" + " " + "handoff"
    ensures ModeLabel(RequiresInput) == "FireLens" + " " + "task-continuation" + " " + "request"
    ensures ModeLabel(Abstention) == "FireLens" + " " + "abstention"
  {
  }

  lemma {:induction false} RecordsLabelsRead()
    ensures RecordsLabel(None) == "Official" + " " + "current" + " " + "records"
    ensures RecordsLabel(Some(AllFresh)) == "Official" + " " + "current" + " " + "records"
    ensures RecordsLabel(Some(AllStale)) ==
            "Official" + " " + "cached" + " " + "records" + " " + ("(refresh" + " " + "failed)")
    ensures RecordsLabel(Some(AggregateFreshness.Mixed)) ==
            "Official" + " " + "records" + " " + "with" + " " + ("mixed" + " " + "freshness")
  {
  }

  // ---------- the prefix ----------

  ghost function Boundary(sentence: string): string {
    "Safety" + " " + "boundary:" + " " + "FireLens" + " " + sentence
  }

  /** The reasons with a safety sentence; it takes the place of every authority. */
  lemma {:induction false} SafetyPrefixReads(
    mode: ResponseMode, kinds: seq<SectionKind>, freshness: Option<AggregateFreshness>
  )
    ensures
      ResponseHistoryPrefix(mode, Some(PersonalizedSafetyDecision), kinds, freshness) ==
      Boundary("cannot" + " " + "make" + " " + "a" + " " + "personal" + " " +
               ("safety" + " " + "or" + " " + "evacuation" + " " + "decision."))
    ensures
      ResponseHistoryPrefix(mode, Some(PersonalizedMedicalAdvice), kinds, freshness) ==
      Boundary("cannot" + " " + "provide" + " " + "personalized" + " " + ("medical" + " " + "advice."))
    ensures
      ResponseHistoryPrefix(mode, Some(PolicyManipulation), kinds, freshness) ==
      Boundary("did" + " " + "not" + " " + "bypass" + " " + "its" + " " +
               ("evidence" + " " + "or" + " " + "safety" + " " + "rules."))
  {
  }

  ghost predicate WithoutBoundary(reason: Option<ReasonCode>) {
    reason in [None, Some(OtherReason)]
  }

  /** Without sections the prefix names the records or the mode. */
  lemma {:induction false} PrefixWithoutSections(
    mode: ResponseMode, reason: Option<ReasonCode>, freshness: Option<AggregateFreshness>
  )
    requires WithoutBoundary(reason)
    ensures
      ResponseHistoryPrefix(mode, reason, [], freshness) ==
      "Authority: " +
      (if mode == Live then RecordsLabel(freshness)
       else if mode == MixedAnswer && freshness != None then
         RecordsLabel(freshness) + " + " +
         ("Reviewed" + " " + "or" + " " + "labelled" + " " + ("non-live" + " " + "information"))
       else ModeLabel(mode)) + "."
  {
  }

  /** The label of a section; records are named by their freshness. */
  ghost predicate Names(name: string, kind: SectionKind, freshness: Option<AggregateFreshness>) {
    if kind == CurrentRecords then name == RecordsLabel(freshness) else name == SectionLabel(kind)
  }

  lemma {:induction false} LabelsLength(kinds: seq<SectionKind>, freshness: Option<AggregateFreshness>)
    ensures |HistoryLabels(kinds, freshness)| == |kinds|
  {
    if kinds != [] {
      LabelsLength(kinds[..|kinds| - 1], freshness);
    }
  }

  lemma {:induction false} LabelAt(kinds: seq<SectionKind>, freshness: Option<AggregateFreshness>, i: nat)
    requires i < |kinds| == |HistoryLabels(kinds, freshness)|
    ensures Names(HistoryLabels(kinds, freshness)[i], kinds[i], freshness)
  {
    var n := |kinds| - 1;
    LabelsLength(kinds[..n], freshness);
    if i < n {
      LabelAt(kinds[..n], freshness, i);
    }
  }

  /** With sections it names every label once, where it first occurs. */
  lemma {:induction false} PrefixOfSections(
    mode: ResponseMode, reason: Option<ReasonCode>, kinds: seq<SectionKind>, freshness: Option<AggregateFreshness>,
    labels: seq<string>
  )
    requires WithoutBoundary(reason) && kinds != []
    requires |labels| == |kinds| && forall i :: 0 <= i < |kinds| ==> Names(labels[i], kinds[i], freshness)
    ensures
      ResponseHistoryPrefix(mode, reason, kinds, freshness) ==
      "Authority: " + Joined(Deduplicated(labels), " + ") + "."
  {
    LabelsLength(kinds, freshness);
    forall i | 0 <= i < |kinds| ensures labels[i] == HistoryLabels(kinds, freshness)[i] {
      LabelAt(kinds, freshness, i);
    }
    assert labels == HistoryLabels(kinds, freshness);
    JoinIsJoined(Deduplicated(labels), " + ");
  }

  // ---------- joining ----------

  /** The words with the separator before each but the first. */
  ghost function Joined(words: seq<string>, separator: string): string {
    if words == [] then "" else words[0] + Tail(words[1..], separator)
  }

  ghost function Tail(words: seq<string>, separator: string): string {
    if words == [] then "" else separator + words[0] + Tail(words[1..], separator)
  }

  lemma {:induction false} TailGrows(words: seq<string>, word: string, separator: string)
    ensures Tail(words + [word], separator) == Tail(words, separator) + (separator + word)
  {
    if words == [] {
      var only := [word];
      assert words + [word] == only && only[1..] == [];
      assert Tail(only, separator) == separator + word + Tail(only[1..], separator);
    } else {
      assert (words + [word])[1..] == words[1..] + [word];
      TailGrows(words[1..], word, separator);
      ConcatAssociative(separator + words[0], Tail(words[1..], separator), separator + word);
    }
  }

  lemma {:induction false} JoinIsJoined(words: seq<string>, separator: string)
    ensures Join(words, separator) == Joined(words, separator)
  {
    if |words| == 1 {
      assert words[1..] == [];
      assert words[0] + "" == words[0];
    } else if |words| > 1 {
      var n := |words| - 1;
      JoinIsJoined(words[..n], separator);
      assert words[1..] == words[..n][1..] + [words[n]];
      TailGrows(words[..n][1..], words[n], separator);
      ConcatAssociative(words[0], Tail(words[..n][1..], separator), separator + words[n]);
      ConcatAssociative(Join(words[..n], separator), separator, words[n]);
    }
  }

  // ---------- normalisation ----------

  /** The white space of `str.split`, character by character. */
  lemma {:induction false} SpacesAre(c: char)
    ensures IsSpace(c) <==>
            c as int in {0x09, 0x0a, 0x0b, 0x0c, 0x0d, 0x1c, 0x1d, 0x1e, 0x1f, 0x20, 0x85, 0xa0, 0x1680, 0x2000, 0x2001,
                         0x2002, 0x2003, 0x2004, 0x2005, 0x2006, 0x2007, 0x2008, 0x2009, 0x200a, 0x2028, 0x2029, 0x202f,
                         0x205f, 0x3000}
  {
  }

  lemma {:induction false} WordsSplit(a: string, c: char, b: string)
    requires IsSpace(c)
    ensures Words(a + [c] + b) == Words(a) + Words(b)
  {
    if b == "" {
      assert (a + [c] + b)[..|a|] == a;
      assert Words(a) + [] == Words(a);
    } else {
      var n := |b| - 1;
      WordsSplit(a, c, b[..n]);
      SplitStep(a + [c], Words(a), b[..n], b[n]);
      assert a + [c] + b == a + [c] + b[..n] + [b[n]] && b == b[..n] + [b[n]];
    }
  }

  /** A text of its own begins after white space; one more character goes to its last word or opens a new one. */
  lemma {:induction false} SplitStep(front: string, words: seq<string>, b: string, x: char)
    requires front != "" && IsSpace(front[|front| - 1]) && Words(front + b) == words + Words(b)
    ensures Words(front + b + [x]) == words + Words(b + [x])
  {
    var before := front + b;
    assert (before + [x])[..|before|] == before && (b + [x])[..|b|] == b;
    if !IsSpace(x) {
      VisibleCharacter(before, x);
      if b == "" {
        assert before == front && Words(b) == [] && words + [] == words;
        assert Words([x]) == [[x]] && b + [x] == [x];
      } else {
        assert before[|before| - 1] == b[|b| - 1];
        VisibleCharacter(b, x);
      }
    }
  }

  /** White space splits a text: the halves are normalised by themselves, and one blank stands between them. */
  lemma {:induction false} NormalizeSplits(a: string, c: char, b: string)
    requires IsSpace(c)
    ensures
      Normalize(a + [c] + b) ==
      if Normalize(a) == "" then Normalize(b)
      else if Normalize(b) == "" then Normalize(a)
      else Normalize(a) + " " + Normalize(b)
  {
    WordsSplit(a, c, b);
    WordsAreWords(a);
    WordsAreWords(b);
    JoinedWordsAreNormal(Words(a));
    JoinedWordsAreNormal(Words(b));
    assert Words(a) + [] == Words(a) && [] + Words(b) == Words(b);
    if Words(a) != [] && Words(b) != [] {
      JoinConcat(Words(a), Words(b));
    }
  }

  lemma {:induction false} JoinConcat(a: seq<string>, b: seq<string>)
    requires a != [] && b != []
    ensures Join(a + b, " ") == Join(a, " ") + " " + Join(b, " ")
  {
    var n := |b| - 1;
    assert (a + b)[..|a + b| - 1] == a + b[..n];
    if n == 0 {
      assert a + b[..n] == a;
    } else {
      JoinConcat(a, b[..n]);
      assert Join(a, " ") + " " + Join(b[..n], " ") + " " + b[n] ==
             Join(a, " ") + " " + (Join(b[..n], " ") + " " + b[n]);
    }
  }

  // ---------- shortening ----------

  lemma {:induction false} StrippedEnd(text: string)
    ensures
      var k := |StripEnd(text)|;
      && k <= |text| && StripEnd(text) == text[..k]
      && (k > 0 ==> !IsSpace(text[k - 1])) && forall i :: k <= i < |text| ==> IsSpace(text[i])
  {
    if text != "" && IsSpace(text[|text| - 1]) {
      StrippedEnd(text[..|text| - 1]);
      assert text[..|text| - 1][..|StripEnd(text)|] == text[..|StripEnd(text)|];
    } else {
      assert text[..|text|] == text;
    }
  }

  /** A text over its limit loses all but `limit - 3` characters and then its trailing white space. */
  lemma {:induction false} ShortenIs(text: string, limit: int)
    requires limit >= 3
    ensures |text| <= limit ==> Shorten(text, limit) == text
    ensures |text| > limit ==>
              var k := |Shorten(text, limit)| - 3;
              && 0 <= k <= limit - 3 && Shorten(text, limit) == text[..k] + "..."
              && (k > 0 ==> !IsSpace(text[k - 1])) && forall i :: k <= i < limit - 3 ==> IsSpace(text[i])
  {
    if |text| > limit {
      StrippedEnd(text[..limit - 3]);
      assert text[..limit - 3][..|StripEnd(text[..limit - 3])|] == text[..|StripEnd(text[..limit - 3])|];
    }
  }

  // ---------- the history ----------

  /** Texts that a history shows as they are. */
  ghost predicate IsShownAsIs(text: string) {
    IsNormal(text) && text != ""
  }

  /** Up to 6000 characters, an answer without visible limitations is shown whole behind its authority. */
  lemma {:induction false} HistoryOfAnswer(prefix: string, answer: string, limitations: seq<string>)
    requires IsShownAsIs(prefix) && IsShownAsIs(answer) && forall l :: l in limitations ==> Normalize(l) == ""
    requires |prefix| + |" Answer: "| + |answer| <= 6000
    ensures RenderHistory(prefix, answer, limitations) == Ok(prefix + " Answer: " + answer)
  {
    NormalIsFixed(prefix);
    NormalIsFixed(answer);
    NoneVisible(limitations);
    AssembledIsNormal(prefix, answer, answer);
    NormalIsFixed(prefix + ANSWER_LABEL + answer);
  }

  lemma {:induction false} NoneVisible(limitations: seq<string>)
    requires forall l :: l in limitations ==> Normalize(l) == ""
    ensures VisibleLimitations(limitations) == [] == Deduplicated(VisibleLimitations(limitations))
  {
    if limitations != [] {
      NoneVisible(limitations[..|limitations| - 1]);
    }
  }

  /** The visible limitations are the normalised ones that are not blank, in order. */
  lemma {:induction false} OneMoreLimitation(limitations: seq<string>, l: string)
    ensures VisibleLimitations(limitations + [l]) ==
            VisibleLimitations(limitations) + if Normalize(l) == "" then [] else [Normalize(l)]
  {
    assert (limitations + [l])[..|limitations|] == limitations;
  }

  /** Limitations follow the answer, each once and in the order of first mention, if everything fits. */
  lemma {:induction false} HistoryOfLimitations(prefix: string, answer: string, limitations: seq<string>, shown: string)
    requires IsShownAsIs(prefix) && IsShownAsIs(answer) && VisibleLimitations(limitations) != []
    requires shown == Joined(Deduplicated(VisibleLimitations(limitations)), " | ")
    requires |prefix| + |" Answer: "| + |" Limitations: "| + |shown| <= 6000 - |answer|
    requires |prefix| + |" Answer: "| + |" Limitations: "| + |shown| <= 6000 - |"..."|
    ensures RenderHistory(prefix, answer, limitations) ==
            Ok(prefix + " Answer: " + answer + " Limitations: " + shown)
  {
    NormalIsFixed(prefix);
    NormalIsFixed(answer);
    DeduplicatedIsDistinct(VisibleLimitations(limitations));
    JoinIsJoined(Deduplicated(VisibleLimitations(limitations)), " | ");
    LimitationTextIsNormal(limitations);
  }

  /** A blank prefix or answer has no history. */
  lemma {:induction false} BlankHasNoHistory(prefix: string, answer: string, limitations: seq<string>)
    ensures RenderHistory(prefix, answer, limitations) == Err(Blank) <==>
            (forall c :: c in prefix ==> IsSpace(c)) || (forall c :: c in answer ==> IsSpace(c))
  {
    BlankIff(prefix);
    BlankIff(answer);
    var opening := Normalize(prefix) + ANSWER_LABEL + Normalize(answer);
    if Normalize(prefix) != "" && Normalize(answer) != "" {
      NormalizeIsNormal(prefix);
      NormalizeIsNormal(answer);
      AssembledIsNormal(Normalize(prefix), Normalize(answer), Normalize(answer));
      NormalIsFixed(opening);
    }
  }

  /** Any text but white space has a bounded form: its normal form, shortened to 6000 characters. */
  lemma {:induction false} BoundedHistoryIs(text: string)
    ensures BoundedHistory(text) == Err(Blank) <==> forall c :: c in text ==> IsSpace(c)
    ensures BoundedHistory(text) != Err(Blank) ==> BoundedHistory(text) == Ok(Shorten(Normalize(text), 6000))
  {
    BlankIff(text);
  }

  lemma {:induction false} BlankIff(text: string)
    ensures Normalize(text) == "" <==> forall c :: c in text ==> IsSpace(c)
  {
    if c :| c in text && !IsSpace(c) {
      var i :| 0 <= i < |text| && text[i] == c;
      NormalizeKeepsSomething(text, i);
    } else {
      AllBlank(text);
    }
  }

  lemma {:induction false} AllBlank(text: string)
    requires forall c :: c in text ==> IsSpace(c)
    ensures Words(text) == []
  {
    if text != "" {
      assert text[|text| - 1] in text;
      AllBlank(text[..|text| - 1]);
    }
  }

  /** What a later turn makes of any text. */
  lemma {:induction false} TurnContentIs(text: string)
    ensures TurnContent(text) == Err(TooLong) <==> |text| > 6000
    ensures TurnContent(text) == Err(Blank) <==> |text| <= 6000 && forall c :: c in text ==> IsSpace(c)
    ensures TurnContent(text).Ok? ==> TurnContent(text).value == Normalize(text)
  {
    BlankIff(text);
  }
}
