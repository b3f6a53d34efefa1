/**
 Content-level admission of corpus chunks and quarantine of whole sources
 (src/firelens/corpus_admission.py:88-224).
 */
module CorpusAdmission {
  import opened Wrappers
  import opened Sequences

  datatype Chunk = Chunk(
    chunkId: string,
    sourceId: string,
    sourceType: string,
    text: string,
    charCount: int,
    documentSha256: string,
    authorityClass: string
  )

  datatype Finding = Finding(sourceId: string, chunkId: Option<string>, code: string, blocking: bool)

  const MAX_ADMITTED_CHUNK_CHARS := 4000

  /** What the checks take from outside: white space, and the model-facing instruction patterns with their codes. */
  datatype Policy = Policy(isSpace: char -> bool, patterns: seq<(string, string -> bool)>)

  predicate IsBlank(text: string, policy: Policy) {
    forall i :: 0 <= i < |text| ==> policy.isSpace(text[i])
  }

  /** `[a-f0-9]{64}` */
  predicate IsSha256(text: string) {
    |text| == 64 && forall i :: 0 <= i < 64 ==> 'a' <= text[i] <= 'f' || '0' <= text[i] <= '9'
  }

  function ChunkFinding(c: Chunk, failed: bool, code: string): seq<Finding> {
    if failed then [Finding(c.sourceId, Some(c.chunkId), code, true)] else []
  }

  function PatternFindings(c: Chunk, patterns: seq<(string, string -> bool)>): seq<Finding> {
    if patterns == [] then []
    else PatternFindings(c, patterns[..|patterns| - 1]) +
         ChunkFinding(c, patterns[|patterns| - 1].1(c.text), patterns[|patterns| - 1].0)
  }

  function ContentFindings(c: Chunk, policy: Policy): seq<Finding> {
    ChunkFinding(c, c.sourceType !in {"pdf", "html"}, "unsupported_source_type") +
    ChunkFinding(c, IsBlank(c.text, policy) || c.charCount != |c.text|, "malformed_extraction") +
    ChunkFinding(c, |c.text| > MAX_ADMITTED_CHUNK_CHARS, "pathological_chunk_size") +
    ChunkFinding(c, !IsSha256(c.documentSha256), "invalid_document_hash") +
    ChunkFinding(c, c.authorityClass == "", "missing_authority") +
    PatternFindings(c, policy.patterns)
  }

  function ChunkFindings(c: Chunk, duplicate: bool, policy: Policy): seq<Finding> {
    ChunkFinding(c, duplicate, "duplicate_chunk_id") + ContentFindings(c, policy)
  }

  const HEX_DIGITS := "0123456789abcdef"

  lemma {:induction false} HexDigitIff(c: char)
    ensures c in HEX_DIGITS <==> 'a' <= c <= 'f' || '0' <= c <= '9'
  {
    if '0' <= c <= '9' {
      assert HEX_DIGITS[c as int - '0' as int] == c;
    } else if 'a' <= c <= 'f' {
      assert HEX_DIGITS[c as int - 'a' as int + 10] == c;
    }
  }

  /** The codes a chunk is reported under, said of its own fields. */
  ghost predicate Reports(c: Chunk, duplicate: bool, policy: Policy, code: string) {
    || (code == "duplicate_chunk_id" && duplicate)
    || (code == "unsupported_source_type" && c.sourceType != "pdf" && c.sourceType != "html")
    || (code == "malformed_extraction" && (|c.text| != c.charCount || forall x :: x in c.text ==> policy.isSpace(x)))
    || (code == "pathological_chunk_size" && |c.text| >= 4001)
    || (code == "invalid_document_hash" &&
        (|c.documentSha256| != 64 || exists x :: x in c.documentSha256 && x !in HEX_DIGITS))
    || (code == "missing_authority" && |c.authorityClass| == 0)
    || (exists p :: p in policy.patterns && p.0 == code && p.1(c.text))
  }

  lemma {:induction false} PatternFindingIff(c: Chunk, patterns: seq<(string, string -> bool)>, f: Finding)
    ensures f in PatternFindings(c, patterns) <==>
            f == Finding(c.sourceId, Some(c.chunkId), f.code, true) &&
            exists p :: p in patterns && p.0 == f.code && p.1(c.text)
  {
    if patterns != [] {
      var n := |patterns| - 1;
      PatternFindingIff(c, patterns[..n], f);
      assert patterns == patterns[..n] + [patterns[n]];
    }
  }

  lemma {:induction false} FixedChecks(c: Chunk, policy: Policy)
    ensures IsBlank(c.text, policy) <==> forall x :: x in c.text ==> policy.isSpace(x)
    ensures !IsSha256(c.documentSha256) <==>
            |c.documentSha256| != 64 || exists x :: x in c.documentSha256 && x !in HEX_DIGITS
  {
    forall x ensures x in HEX_DIGITS <==> 'a' <= x <= 'f' || '0' <= x <= '9' {
      HexDigitIff(x);
    }
    if i :| 0 <= i < |c.text| && !policy.isSpace(c.text[i]) {
      assert c.text[i] in c.text;
    }
    if i :| 0 <= i < |c.documentSha256| && c.documentSha256[i] !in HEX_DIGITS {
      assert c.documentSha256[i] in c.documentSha256;
    }
  }

  /** What is found about a chunk is one blocking finding for every code it is reported under. */
  lemma {:induction false} ChunkFindingIff(c: Chunk, duplicate: bool, policy: Policy, f: Finding)
    ensures f in ChunkFindings(c, duplicate, policy) <==>
            f == Finding(c.sourceId, Some(c.chunkId), f.code, true) && Reports(c, duplicate, policy, f.code)
  {
    FixedChecks(c, policy);
    PatternFindingIff(c, policy.patterns, f);
  }

  // ---------- what makes a source unacceptable ----------

  function Ids(chunks: seq<Chunk>): set<string> {
    set c | c in chunks :: c.chunkId
  }

  /** Some chunk of the source repeats the ID of an earlier chunk, of whatever source. */
  predicate RepeatsId(chunks: seq<Chunk>, source: string) {
    chunks != [] &&
    var before, last := chunks[..|chunks| - 1], chunks[|chunks| - 1];
    RepeatsId(before, source) || (last.sourceId == source && last.chunkId in Ids(before))
  }

  predicate HasFlaw(chunks: seq<Chunk>, source: string, policy: Policy) {
    exists c :: c in chunks && c.sourceId == source && ContentFindings(c, policy) != []
  }

  function SourcesOf(chunks: seq<Chunk>, hash: string): set<string> {
    set c | c in chunks && c.documentSha256 == hash :: c.sourceId
  }

  /** The source registers a document that another source registers too. */
  predicate SharesDocument(chunks: seq<Chunk>, source: string) {
    exists c, d :: c in chunks && d in chunks &&
      c.sourceId == source && d.sourceId != source && c.documentSha256 == d.documentSha256
  }

  predicate Rejected(chunks: seq<Chunk>, source: string, policy: Policy) {
    RepeatsId(chunks, source) || HasFlaw(chunks, source, policy) || SharesDocument(chunks, source)
  }

  /** Whole sources are kept or dropped. */
  function Retained(part: seq<Chunk>, chunks: seq<Chunk>, policy: Policy): seq<Chunk> {
    if part == [] then []
    else
      var last := part[|part| - 1];
      Retained(part[..|part| - 1], chunks, policy) +
      if Rejected(chunks, last.sourceId, policy) then [] else [last]
  }

  /** The chunk at `i` repeats the ID of an earlier one. */
  ghost predicate IsRepeat(chunks: seq<Chunk>, i: nat)
    requires i < |chunks|
  {
    exists j :: 0 <= j < i && chunks[j].chunkId == chunks[i].chunkId
  }

  lemma {:induction false} IsRepeatIff(chunks: seq<Chunk>, i: nat)
    requires i < |chunks|
    ensures IsRepeat(chunks, i) <==> chunks[i].chunkId in Ids(chunks[..i])
  {
    if IsRepeat(chunks, i) {
      var j :| 0 <= j < i && chunks[j].chunkId == chunks[i].chunkId;
      assert chunks[..i][j] in chunks[..i];
    }
  }

  lemma {:induction false} RepeatsIdIff(chunks: seq<Chunk>, source: string)
    ensures RepeatsId(chunks, source) <==>
            exists i :: 0 <= i < |chunks| && chunks[i].sourceId == source && IsRepeat(chunks, i)
  {
    if chunks != [] {
      var n := |chunks| - 1;
      var before := chunks[..n];
      RepeatsIdIff(before, source);
      IsRepeatIff(chunks, n);
      forall i | 0 <= i < n ensures IsRepeat(before, i) <==> IsRepeat(chunks, i) {
        assert before[..i] == chunks[..i];
        IsRepeatIff(before, i);
        IsRepeatIff(chunks, i);
      }
      assert forall i :: 0 <= i < n ==> before[i] == chunks[i];
    }
  }

  /** A chunk that alone makes its source unacceptable. */
  ghost predicate Blocking(chunks: seq<Chunk>, i: nat, policy: Policy)
    requires i < |chunks|
  {
    || (exists code :: Reports(chunks[i], IsRepeat(chunks, i), policy, code))
    || (exists j :: 0 <= j < |chunks| &&
          chunks[j].sourceId != chunks[i].sourceId && chunks[j].documentSha256 == chunks[i].documentSha256)
  }

  lemma {:induction false} ReportedIff(c: Chunk, duplicate: bool, policy: Policy)
    ensures (exists code :: Reports(c, duplicate, policy, code)) <==> duplicate || ContentFindings(c, policy) != []
  {
    var findings := ChunkFindings(c, duplicate, policy);
    if findings != [] {
      ChunkFindingIff(c, duplicate, policy, findings[0]);
      assert findings[0] in findings;
    }
    if code :| Reports(c, duplicate, policy, code) {
      ChunkFindingIff(c, duplicate, policy, Finding(c.sourceId, Some(c.chunkId), code, true));
    }
  }

  /** A source is unacceptable exactly when one of its chunks is reported or registers another source's document. */
  lemma {:induction false} RejectedIff(chunks: seq<Chunk>, source: string, policy: Policy)
    ensures Rejected(chunks, source, policy) <==>
            exists i :: 0 <= i < |chunks| && chunks[i].sourceId == source && Blocking(chunks, i, policy)
  {
    RepeatsIdIff(chunks, source);
    forall i | 0 <= i < |chunks|
      ensures (exists code :: Reports(chunks[i], IsRepeat(chunks, i), policy, code)) <==>
              IsRepeat(chunks, i) || ContentFindings(chunks[i], policy) != []
    {
      ReportedIff(chunks[i], IsRepeat(chunks, i), policy);
    }
    if SharesDocument(chunks, source) {
      var c, d :| c in chunks && d in chunks && c.sourceId == source && d.sourceId != source &&
          c.documentSha256 == d.documentSha256;
      var i :| 0 <= i < |chunks| && chunks[i] == c;
      var j :| 0 <= j < |chunks| && chunks[j] == d;
      assert Blocking(chunks, i, policy);
    }
    if HasFlaw(chunks, source, policy) {
      var c :| c in chunks && c.sourceId == source && ContentFindings(c, policy) != [];
      var i :| 0 <= i < |chunks| && chunks[i] == c;
      assert Blocking(chunks, i, policy);
    }
  }

  function Acceptable(chunks: seq<Chunk>, policy: Policy): Chunk -> bool {
    (c: Chunk) => !Rejected(chunks, c.sourceId, policy)
  }

  /** The retained chunks are those of acceptable sources, in order. */
  lemma {:induction false} RetainedArePlaces(part: seq<Chunk>, chunks: seq<Chunk>, policy: Policy)
    ensures
      Selects(Retained(part, chunks, policy), part, Places(part, Acceptable(chunks, policy)))
  {
    if part != [] {
      var before, last := part[..|part| - 1], part[|part| - 1];
      RetainedArePlaces(before, chunks, policy);
      var p := Acceptable(chunks, policy);
      assert part == before + [last];
      OneMorePlace(before, last, p);
      var kept := Retained(before, chunks, policy);
      assert kept + [] == kept;
      SelectsOneMore(kept, before, Places(before, p), last);
    }
  }

  // ---------- quarantine is clean, whole and idempotent ----------

  lemma {:induction false} RetainedMembers(part: seq<Chunk>, chunks: seq<Chunk>, policy: Policy)
    ensures forall c :: c in Retained(part, chunks, policy) <==> c in part && !Rejected(chunks, c.sourceId, policy)
  {
    if part != [] {
      RetainedMembers(part[..|part| - 1], chunks, policy);
      assert part == part[..|part| - 1] + [part[|part| - 1]];
    }
  }

  /** A repeated ID among retained chunks was one before, and it belongs to a source that was kept. */
  lemma {:induction false} RepeatSurvives(part: seq<Chunk>, chunks: seq<Chunk>, policy: Policy, source: string)
    requires RepeatsId(Retained(part, chunks, policy), source)
    ensures RepeatsId(part, source) && !Rejected(chunks, source, policy)
  {
    if part != [] {
      var before, last := part[..|part| - 1], part[|part| - 1];
      var kept := Retained(before, chunks, policy);
      RetainedMembers(before, chunks, policy);
      assert (kept + [last])[..|kept|] == kept && kept + [] == kept;
      if RepeatsId(kept, source) {
        RepeatSurvives(before, chunks, policy, source);
      } else {
        assert Ids(kept) <= Ids(before);
      }
    }
  }

  /** Auditing the retained chunks again finds nothing to block, for any source. */
  lemma {:induction false} RetainedIsClean(chunks: seq<Chunk>, policy: Policy, source: string)
    ensures !Rejected(Retained(chunks, chunks, policy), source, policy)
  {
    var kept := Retained(chunks, chunks, policy);
    RetainedMembers(chunks, chunks, policy);
    if RepeatsId(kept, source) {
      RepeatSurvives(chunks, chunks, policy, source);
    }
  }

  lemma {:induction false} RetainAll(part: seq<Chunk>, chunks: seq<Chunk>, policy: Policy)
    requires forall c :: c in part ==> !Rejected(chunks, c.sourceId, policy)
    ensures Retained(part, chunks, policy) == part
  {
    if part != [] {
      assert part == part[..|part| - 1] + [part[|part| - 1]];
      RetainAll(part[..|part| - 1], chunks, policy);
    }
  }

  /** Quarantining twice is quarantining once. */
  lemma {:induction false} QuarantineIsIdempotent(chunks: seq<Chunk>, policy: Policy)
    ensures
      var once := Retained(chunks, chunks, policy);
      Retained(once, once, policy) == once
  {
    var once := Retained(chunks, chunks, policy);
    forall c | c in once ensures !Rejected(once, c.sourceId, policy) {
      RetainedIsClean(chunks, policy, c.sourceId);
    }
    RetainAll(once, once, policy);
  }

  /** The chunks of one source, in order. */
  function ChunksOf(chunks: seq<Chunk>, source: string): seq<Chunk> {
    if chunks == [] then []
    else
      var last := chunks[|chunks| - 1];
      ChunksOf(chunks[..|chunks| - 1], source) + if last.sourceId == source then [last] else []
  }

  /** Every source is kept whole or dropped whole, and it is kept exactly when nothing blocks it. */
  lemma {:induction false} SourcesStayWhole(part: seq<Chunk>, chunks: seq<Chunk>, policy: Policy, source: string)
    ensures ChunksOf(Retained(part, chunks, policy), source) ==
            if Rejected(chunks, source, policy) then [] else ChunksOf(part, source)
  {
    if part != [] {
      var before, last := part[..|part| - 1], part[|part| - 1];
      SourcesStayWhole(before, chunks, policy, source);
      var kept := Retained(before, chunks, policy);
      assert (kept + [last])[..|kept|] == kept && kept + [] == kept;
    }
  }
}
