/**
 The bounded transcript of an answer for a later turn (src/firelens/assistant_history.py:10-56) and the
 normalisation every later turn applies to it (src/firelens/contracts.py:235-241).
 */
module AssistantHistory {
  import opened Wrappers
  import opened Sequences

  const HISTORY_LIMIT := 6000
  const ELLIPSIS := "..."
  const ANSWER_LABEL := " Answer: "
  const LIMITATIONS_LABEL := " Limitations: "

  // ---------- " ".join(text.split()) ----------

  /** What Python's `str.split` treats as white space. */
  predicate IsSpace(c: char) {
    var n := c as int;
    || 0x09 <= n <= 0x0d || 0x1c <= n <= 0x20 || n == 0x85 || n == 0xa0 || n == 0x1680
    || 0x2000 <= n <= 0x200a || n == 0x2028 || n == 0x2029 || n == 0x202f || n == 0x205f || n == 0x3000
  }

  /** `text.split()` */
  function Words(text: string): (words: seq<string>) {
    if text == "" then []
    else
      var before, c := text[..|text| - 1], text[|text| - 1];
      if IsSpace(c) then Words(before)
      else if before == "" || IsSpace(before[|before| - 1]) || Words(before) == [] then Words(before) + [[c]]
      else
        var words := Words(before);
        words[|words| - 1 := words[|words| - 1] + [c]]
  }

  /** `separator.join(words)` */
  function Join(words: seq<string>, separator: string): string {
    if words == [] then ""
    else if |words| == 1 then words[0]
    else Join(words[..|words| - 1], separator) + separator + words[|words| - 1]
  }

  function Normalize(text: string): string {
    Join(Words(text), " ")
  }

  /** Single plain blanks between words and none at either end. */
  predicate IsNormal(text: string) {
    forall i :: 0 <= i < |text| && IsSpace(text[i]) ==>
      text[i] == ' ' && 0 < i < |text| - 1 && !IsSpace(text[i - 1])
  }

  predicate IsWord(word: string) {
    word != "" && forall i :: 0 <= i < |word| ==> !IsSpace(word[i])
  }

  lemma {:induction false} WordsAreWords(text: string)
    ensures forall k :: 0 <= k < |Words(text)| ==> IsWord(Words(text)[k])
  {
    if text != "" {
      WordsAreWords(text[..|text| - 1]);
    }
  }

  lemma {:induction false} JoinedWordsAreNormal(words: seq<string>)
    requires forall k :: 0 <= k < |words| ==> IsWord(words[k])
    ensures IsNormal(Join(words, " "))
    ensures Join(words, " ") == "" <==> words == []
  {
    if |words| > 1 {
      JoinedWordsAreNormal(words[..|words| - 1]);
    }
  }

  /** Normalisation always ends in normal form. */
  lemma {:induction false} NormalizeIsNormal(text: string)
    ensures IsNormal(Normalize(text))
  {
    WordsAreWords(text);
    JoinedWordsAreNormal(Words(text));
  }

  lemma {:induction false} JoinExtends(words: seq<string>, c: char, word: string)
    requires words != []
    ensures Join(words[|words| - 1 := words[|words| - 1] + [c]], " ") == Join(words, " ") + [c]
    ensures Join(words + [word], " ") == Join(words, " ") + " " + word
  {
    var n := |words| - 1;
    assert words[n := words[n] + [c]][..n] == words[..n];
    assert (words + [word])[..n + 1] == words;
    if n > 0 {
      ConcatAssociative(Join(words[..n], " ") + " ", words[n], [c]);
    }
  }

  /** The words of a text with one more visible character. */
  lemma {:induction false} VisibleCharacter(before: string, c: char)
    requires !IsSpace(c) && before != ""
    ensures !IsSpace(before[|before| - 1]) ==> Words(before) != []
    ensures Words(before + [c]) ==
            if IsSpace(before[|before| - 1]) || Words(before) == [] then Words(before) + [[c]]
            else Words(before)[|Words(before)| - 1 := Words(before)[|Words(before)| - 1] + [c]]
  {
    assert (before + [c])[..|before|] == before;
  }

  /** Text in normal form is left as it is, so normal forms are exactly the fixed points. */
  lemma {:induction false} NormalIsFixed(text: string)
    requires IsNormal(text)
    ensures Normalize(text) == text
    ensures text != "" ==> Words(text) != []
  {
    if |text| == 1 {
      assert Words(text) == [[text[0]]];
      assert [text[0]] == text;
    } else if |text| > 1 {
      var before, c := text[..|text| - 1], text[|text| - 1];
      assert text == before + [c];
      assert text[|text| - 1] == c && !IsSpace(c);
      VisibleCharacter(before, c);
      if IsSpace(before[|before| - 1]) {
        var shorter := before[..|before| - 1];
        assert before == shorter + " ";
        NormalIsFixed(shorter);
        assert Words(before) == Words(shorter);
      } else {
        NormalIsFixed(before);
      }
      JoinExtends(Words(before), c, [c]);
    }
  }

  /** Normalisation never lengthens a text, and shortens one that ends in white space. */
  lemma {:induction false} NormalizeShrinks(text: string)
    ensures |Normalize(text)| <= |text|
    ensures text != "" && IsSpace(text[|text| - 1]) ==> |Normalize(text)| < |text|
  {
    if text != "" {
      NormalizeShrinks(text[..|text| - 1]);
    }
  }

  /** Text with a visible character does not normalise to nothing. */
  lemma {:induction false} NormalizeKeepsSomething(text: string, i: nat)
    requires i < |text| && !IsSpace(text[i])
    ensures Normalize(text) != ""
  {
    var before := text[..|text| - 1];
    if i < |before| {
      NormalizeKeepsSomething(before, i);
    }
    WordsAreWords(text);
    JoinedWordsAreNormal(Words(text));
    assert Words(text) != [] by {
      WordsAreWords(before);
      JoinedWordsAreNormal(Words(before));
    }
  }

  // ---------- truncation ----------

  /** `text[:n]`, where a negative `n` counts from the end. */
  function Slice(text: string, n: int): string {
    if n >= |text| then text
    else if n >= 0 then text[..n]
    else if |text| + n >= 0 then text[..|text| + n]
    else ""
  }

  /** `text.rstrip()` */
  function StripEnd(text: string): string {
    if text != "" && IsSpace(text[|text| - 1]) then StripEnd(text[..|text| - 1]) else text
  }

  /** Text over its limit is cut three characters early and closed with an ellipsis. */
  function Shorten(text: string, limit: int): string {
    if |text| > limit then StripEnd(Slice(text, limit - 3)) + ELLIPSIS else text
  }

  lemma {:induction false} StripEndIsPrefix(text: string)
    ensures StripEnd(text) <= text
  {
    if text != "" && IsSpace(text[|text| - 1]) {
      StripEndIsPrefix(text[..|text| - 1]);
    }
  }

  lemma {:induction false} ShortenFits(text: string, limit: int)
    requires limit >= 3
    ensures |Shorten(text, limit)| <= limit
    ensures Shorten(text, limit) == text <==> |text| <= limit
    ensures text != "" ==> Shorten(text, limit) != ""
  {
    StripEndIsPrefix(Slice(text, limit - 3));
  }

  lemma {:induction false} PrefixOfNormal(text: string, n: nat)
    requires IsNormal(text) && n <= |text|
    ensures IsNormal(StripEnd(text[..n]))
    ensures n > 0 && !IsSpace(text[n - 1]) ==> StripEnd(text[..n]) == text[..n]
  {
    if n > 0 && IsSpace(text[n - 1]) {
      assert text[..n][..n - 1] == text[..n - 1];
      assert StripEnd(text[..n]) == StripEnd(text[..n - 1]) == text[..n - 1];
    }
  }

  lemma {:induction false} EllipsisKeepsNormal(text: string)
    requires IsNormal(text)
    ensures IsNormal(text + ELLIPSIS)
  {
  }

  /** Cutting a text in normal form and closing it with the ellipsis gives normal form again. */
  lemma {:induction false} ShortenIsNormal(text: string, limit: int)
    requires IsNormal(text)
    ensures IsNormal(Shorten(text, limit))
  {
    if |text| > limit {
      var n := if limit >= 3 then limit - 3 else if |text| + limit - 3 >= 0 then |text| + limit - 3 else 0;
      PrefixOfNormal(text, n);
      assert Slice(text, limit - 3) == text[..n];
      EllipsisKeepsNormal(StripEnd(text[..n]));
    }
  }

  lemma {:induction false} JoinNormal(a: string, b: string)
    requires IsNormal(a) && IsNormal(b) && a != "" && b != ""
    ensures IsNormal(a + " " + b)
  {
  }

  /** Two texts in normal form around a word. */
  lemma {:induction false} LabelledIsNormal(a: string, word: string, b: string)
    requires IsNormal(a) && IsNormal(b) && a != "" && b != "" && IsWord(word)
    ensures IsNormal(a + (" " + word + " ") + b)
  {
    assert a + (" " + word + " ") + b == a + " " + word + " " + b;
    JoinNormal(a, word);
    JoinNormal(a + " " + word, b);
  }

  // ---------- rendering ----------

  datatype HistoryError = Blank | TooLong

  /** The non-blank limitations in normal form, in order. */
  function VisibleLimitations(limitations: seq<string>): seq<string> {
    if limitations == [] then []
    else
      var last := Normalize(limitations[|limitations| - 1]);
      VisibleLimitations(limitations[..|limitations| - 1]) + if last == "" then [] else [last]
  }

  /** The limitations as one text; empty when none is visible. */
  function LimitationText(limitations: seq<string>): string {
    Join(Deduplicated(VisibleLimitations(limitations)), " | ")
  }

  /** What the limitations may use after `opening`, leaving three characters for the answer. */
  function LimitationBudget(opening: string): int {
    HISTORY_LIMIT - |opening| - |LIMITATIONS_LABEL| - |ELLIPSIS|
  }

  /** `bounded_assistant_history` */
  function BoundedHistory(text: string): Result<string, HistoryError> {
    if Normalize(text) == "" then Err(Blank) else Ok(Shorten(Normalize(text), HISTORY_LIMIT))
  }

  /** What is left for the answer between `opening` and the shown limitations. */
  function AnswerBudget(opening: string, shown: string): int {
    HISTORY_LIMIT - |opening| - |LIMITATIONS_LABEL| - |shown|
  }

  /** The history of an answer with limitations, all parts in normal form. */
  function WithLimitations(prefix: string, answer: string, limitations: string): string {
    var opening := prefix + ANSWER_LABEL;
    var shown := Shorten(limitations, LimitationBudget(opening));
    opening + Shorten(answer, AnswerBudget(opening, shown)) + LIMITATIONS_LABEL + shown
  }

  /** `render_assistant_history` */
  function RenderHistory(prefix: string, answer: string, limitations: seq<string>): Result<string, HistoryError> {
    if Normalize(prefix) == "" || Normalize(answer) == "" then Err(Blank)
    else if Deduplicated(VisibleLimitations(limitations)) == [] then
      BoundedHistory(Normalize(prefix) + ANSWER_LABEL + Normalize(answer))
    else Ok(WithLimitations(Normalize(prefix), Normalize(answer), LimitationText(limitations)))
  }

  /** `ConversationTurn.content`: 1 to 6000 characters, then normalised, never blank. */
  function TurnContent(text: string): Result<string, HistoryError> {
    if text == "" then Err(Blank)
    else if |text| > HISTORY_LIMIT then Err(TooLong)
    else if Normalize(text) == "" then Err(Blank)
    else Ok(Normalize(text))
  }

  lemma {:induction false} VisibleIsNormal(limitations: seq<string>)
    ensures forall t :: t in VisibleLimitations(limitations) ==> IsNormal(t) && t != ""
  {
    if limitations != [] {
      VisibleIsNormal(limitations[..|limitations| - 1]);
      NormalizeIsNormal(limitations[|limitations| - 1]);
    }
  }

  lemma {:induction false} JoinedLimitationsAreNormal(texts: seq<string>)
    requires texts != [] && forall t :: t in texts ==> IsNormal(t) && t != ""
    ensures IsNormal(Join(texts, " | ")) && Join(texts, " | ") != ""
  {
    if |texts| > 1 {
      var n := |texts| - 1;
      JoinedLimitationsAreNormal(texts[..n]);
      LabelledIsNormal(Join(texts[..n], " | "), "|", texts[n]);
    }
  }

  lemma {:induction false} LimitationTextIsNormal(limitations: seq<string>)
    requires Deduplicated(VisibleLimitations(limitations)) != []
    ensures IsNormal(LimitationText(limitations)) && LimitationText(limitations) != ""
  {
    VisibleIsNormal(limitations);
    DeduplicatedIsDistinct(VisibleLimitations(limitations));
    JoinedLimitationsAreNormal(Deduplicated(VisibleLimitations(limitations)));
  }

  /** A normalised authority prefix longer than this can push the history over its limit. */
  const MAX_SAFE_PREFIX := 5971

  /** Opening, answer and limitations in normal form, whichever of them were cut. */
  lemma {:induction false} AssembledIsNormal(prefix: string, answer: string, limitations: string)
    requires IsNormal(prefix) && IsNormal(answer) && IsNormal(limitations)
    requires prefix != "" && answer != "" && limitations != ""
    ensures IsNormal(prefix + ANSWER_LABEL + answer)
    ensures IsNormal(prefix + ANSWER_LABEL + answer + LIMITATIONS_LABEL + limitations)
  {
    LabelledIsNormal(prefix, "Answer:", answer);
    assert ANSWER_LABEL == " " + "Answer:" + " ";
    LabelledIsNormal(prefix + ANSWER_LABEL + answer, "Limitations:", limitations);
    assert LIMITATIONS_LABEL == " " + "Limitations:" + " ";
  }

  /** What a later turn needs of the history of an answer. */
  predicate GoodHistory(history: string, opening: string) {
    |history| <= HISTORY_LIMIT && IsNormal(history) && opening < history
  }

  lemma {:induction false} HistoryWithoutLimitations(prefix: string, answer: string)
    requires IsNormal(prefix) && IsNormal(answer) && prefix != "" && answer != ""
    requires |prefix| <= MAX_SAFE_PREFIX
    ensures
      var r := BoundedHistory(prefix + ANSWER_LABEL + answer);
      r.Ok? && GoodHistory(r.value, prefix + ANSWER_LABEL)
  {
    var opening := prefix + ANSWER_LABEL;
    var text := opening + answer;
    AssembledIsNormal(prefix, answer, answer);
    NormalIsFixed(text);
    ShortenFits(text, HISTORY_LIMIT);
    ShortenIsNormal(text, HISTORY_LIMIT);
    if |text| > HISTORY_LIMIT {
      KeepsOpening(text, |opening|, HISTORY_LIMIT - 3);
    }
  }

  /** Cutting after a visible character keeps everything up to it. */
  lemma {:induction false} KeepsOpening(text: string, visible: nat, n: nat)
    requires IsNormal(text) && visible < n < |text| && !IsSpace(text[visible])
    ensures text[..visible] < StripEnd(text[..n])
  {
    PrefixOfNormal(text, n);
    assert text[..n][..n - 1] == text[..n - 1];
    if IsSpace(text[n - 1]) {
      assert StripEnd(text[..n]) == StripEnd(text[..n - 1]) == text[..n - 1];
    }
  }

  lemma {:induction false} HistoryWithLimitations(prefix: string, answer: string, limitations: string)
    requires IsNormal(prefix) && IsNormal(answer) && IsNormal(limitations)
    requires prefix != "" && answer != "" && limitations != "" && |prefix| <= MAX_SAFE_PREFIX
    ensures GoodHistory(WithLimitations(prefix, answer, limitations), prefix + ANSWER_LABEL)
  {
    var opening := prefix + ANSWER_LABEL;
    var limitBudget := LimitationBudget(opening);
    var shown := Shorten(limitations, limitBudget);
    ShortenFits(limitations, limitBudget);
    ShortenIsNormal(limitations, limitBudget);
    var budget := AnswerBudget(opening, shown);
    var kept := Shorten(answer, budget);
    ShortenFits(answer, budget);
    ShortenIsNormal(answer, budget);
    AssembledIsNormal(prefix, kept, shown);
    assert opening <= opening + kept + LIMITATIONS_LABEL + shown;
  }

  /**
   The history of any answer fits, opens with its whole authority prefix, and a later turn accepts it
   without changing a character.
   */
  lemma {:induction false} HistorySurvivesTheNextTurn(prefix: string, answer: string, limitations: seq<string>)
    requires |Normalize(prefix)| <= MAX_SAFE_PREFIX
    ensures
      var r := RenderHistory(prefix, answer, limitations);
      && (r.Ok? <==> Normalize(prefix) != "" && Normalize(answer) != "")
      && (r.Ok? ==> GoodHistory(r.value, Normalize(prefix) + ANSWER_LABEL) && TurnContent(r.value) == r)
  {
    if Normalize(prefix) != "" && Normalize(answer) != "" {
      NormalizeIsNormal(prefix);
      NormalizeIsNormal(answer);
      if Deduplicated(VisibleLimitations(limitations)) == [] {
        HistoryWithoutLimitations(Normalize(prefix), Normalize(answer));
      } else {
        LimitationTextIsNormal(limitations);
        HistoryWithLimitations(Normalize(prefix), Normalize(answer), LimitationText(limitations));
      }
      NormalIsFixed(RenderHistory(prefix, answer, limitations).value);
    }
  }

  // ---------- what is cut, and when ----------

  /**
   With limitations the history is the full text exactly when that fits and the limitations alone leave
   three characters for the answer. The second half matters: beside an answer of one character the
   limitations can be cut although the full text fits.
   */
  lemma {:induction false} UncutIff(prefix: string, answer: string, limitations: string)
    requires prefix != "" && answer != "" && limitations != "" && |prefix| <= MAX_SAFE_PREFIX
    ensures
      var full := prefix + ANSWER_LABEL + answer + LIMITATIONS_LABEL + limitations;
      WithLimitations(prefix, answer, limitations) == full <==>
      |full| <= HISTORY_LIMIT && |limitations| <= LimitationBudget(prefix + ANSWER_LABEL)
  {
    var opening := prefix + ANSWER_LABEL;
    var shown := Shorten(limitations, LimitationBudget(opening));
    ShortenFits(limitations, LimitationBudget(opening));
    var kept := Shorten(answer, AnswerBudget(opening, shown));
    ShortenFits(answer, AnswerBudget(opening, shown));
    assert |WithLimitations(prefix, answer, limitations)| == |opening| + |kept| + |LIMITATIONS_LABEL| + |shown|;
  }

  /** A shortened text is the beginning of the text and an ellipsis. */
  ghost predicate CutFrom(shown: string, text: string) {
    exists kept: string :: kept <= text && shown == kept + ELLIPSIS
  }

  lemma {:induction false} ShortenCuts(text: string, limit: int)
    requires |text| > limit
    ensures CutFrom(Shorten(text, limit), text)
  {
    StripEndIsPrefix(Slice(text, limit - 3));
    assert StripEnd(Slice(text, limit - 3)) <= text;
  }

  /**
   The limitations close the history: whole if they keep within their budget, else their beginning and an
   ellipsis.
   */
  lemma {:induction false} LimitationsStayVisible(prefix: string, answer: string, limitations: string)
    requires |prefix| <= MAX_SAFE_PREFIX
    ensures
      var budget := LimitationBudget(prefix + ANSWER_LABEL);
      exists before, shown ::
        && WithLimitations(prefix, answer, limitations) == before + LIMITATIONS_LABEL + shown
        && (if |limitations| <= budget then shown == limitations else |shown| <= budget && CutFrom(shown, limitations))
  {
    var opening := prefix + ANSWER_LABEL;
    var budget := LimitationBudget(opening);
    var shown := Shorten(limitations, budget);
    ShortenFits(limitations, budget);
    if |limitations| > budget {
      ShortenCuts(limitations, budget);
    }
    var before := opening + Shorten(answer, AnswerBudget(opening, shown));
    assert WithLimitations(prefix, answer, limitations) == before + LIMITATIONS_LABEL + shown;
  }

  // ---------- how long a prefix may be ----------

  function Repeat(c: char, n: nat): (text: string)
    ensures |text| == n && forall i :: 0 <= i < n ==> text[i] == c
  {
    if n == 0 then "" else Repeat(c, n - 1) + [c]
  }

  lemma {:induction false} StripEndOfWord(text: string)
    requires text == "" || IsWord(text)
    ensures StripEnd(text) == text
  {
  }

  /** Behind a longer prefix the slice bound turns negative, and long limitations are hardly cut at all. */
  lemma {:induction false} LongPrefixOverflows(prefix: string, limitations: string)
    requires |prefix| > MAX_SAFE_PREFIX && IsWord(limitations) && |limitations| == |prefix| + 100
    ensures |WithLimitations(prefix, "x", limitations)| > HISTORY_LIMIT
  {
    var opening := prefix + ANSWER_LABEL;
    var budget := LimitationBudget(opening);
    var kept := Slice(limitations, budget - 3);
    StripEndOfWord(kept);
    var shown := Shorten(limitations, budget);
    assert shown == kept + ELLIPSIS;
    var answer := Shorten("x", AnswerBudget(opening, shown));
    assert |WithLimitations(prefix, "x", limitations)| == |opening| + |answer| + |LIMITATIONS_LABEL| + |shown|;
  }

  lemma {:induction false} OneLimitation(limitation: string)
    requires IsWord(limitation)
    ensures VisibleLimitations([limitation]) == [limitation] == Deduplicated([limitation])
    ensures LimitationText([limitation]) == limitation
  {
    NormalIsFixed(limitation);
    assert [limitation][..0] == [];
  }

  lemma {:induction false} SomeHistoryOverflows(prefix: string)
    requires |Normalize(prefix)| > MAX_SAFE_PREFIX
    ensures exists answer, limitations ::
              var r := RenderHistory(prefix, answer, limitations);
              r.Ok? && |r.value| > HISTORY_LIMIT
  {
    var limitation := Repeat('x', |Normalize(prefix)| + 100);
    OneLimitation(limitation);
    NormalIsFixed("x");
    LongPrefixOverflows(Normalize(prefix), limitation);
    assert RenderHistory(prefix, "x", [limitation]) == Ok(WithLimitations(Normalize(prefix), "x", limitation));
  }

  /** The prefix bound is exact: the history of every answer fits if and only if the prefix keeps within it. */
  lemma {:induction false} HistoryFitsIff(prefix: string)
    ensures
      (forall answer, limitations ::
         var r := RenderHistory(prefix, answer, limitations);
         r.Ok? ==> |r.value| <= HISTORY_LIMIT) <==>
      |Normalize(prefix)| <= MAX_SAFE_PREFIX
  {
    if |Normalize(prefix)| <= MAX_SAFE_PREFIX {
      forall answer, limitations
        ensures
          var r := RenderHistory(prefix, answer, limitations);
          r.Ok? ==> |r.value| <= HISTORY_LIMIT
      {
        HistorySurvivesTheNextTurn(prefix, answer, limitations);
      }
    } else {
      SomeHistoryOverflows(prefix);
    }
  }
}
