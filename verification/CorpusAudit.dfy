/** The audit and quarantine passes themselves (src/firelens/corpus_admission.py:88-224). */
module CorpusAudit {
  import opened Wrappers
  import opened Sequences
  import opened CorpusAdmission

  ghost predicate Blocks(findings: seq<Finding>, source: string) {
    exists f :: f in findings && f.blocking && f.sourceId == source
  }

  /** All findings concern one source and block it. */
  ghost predicate Concern(findings: seq<Finding>, source: string) {
    forall f :: f in findings ==> f.blocking && f.sourceId == source
  }

  lemma {:induction false} PatternFindingsConcern(c: Chunk, patterns: seq<(string, string -> bool)>)
    ensures Concern(PatternFindings(c, patterns), c.sourceId)
  {
    if patterns != [] {
      PatternFindingsConcern(c, patterns[..|patterns| - 1]);
    }
  }

  lemma {:induction false} ContentConcerns(c: Chunk, policy: Policy)
    ensures Concern(ContentFindings(c, policy), c.sourceId)
  {
    PatternFindingsConcern(c, policy.patterns);
  }

  /** Findings about one source block it exactly when there are any. */
  lemma {:induction false} ConcernBlocks(findings: seq<Finding>, concerned: string, source: string)
    requires Concern(findings, concerned)
    ensures Blocks(findings, source) <==> concerned == source && findings != []
  {
    if findings != [] {
      assert findings[0] in findings;
    }
  }

  lemma {:induction false} ChunkFindingsBlock(c: Chunk, duplicate: bool, policy: Policy, source: string)
    ensures Blocks(ChunkFindings(c, duplicate, policy), source) <==>
            c.sourceId == source && (duplicate || ContentFindings(c, policy) != [])
  {
    ContentConcerns(c, policy);
    var first, content := ChunkFinding(c, duplicate, "duplicate_chunk_id"), ContentFindings(c, policy);
    ConcernBlocks(first, c.sourceId, source);
    ConcernBlocks(content, c.sourceId, source);
    BlocksAppend(first, content, source);
  }

  lemma {:induction false} BlocksAppend(a: seq<Finding>, b: seq<Finding>, source: string)
    ensures Blocks(a + b, source) <==> Blocks(a, source) || Blocks(b, source)
  {
    assert forall f :: f in a + b <==> f in a || f in b;
  }

  /** The finding comes from the chunk at `i`. */
  ghost predicate FromChunk(f: Finding, chunks: seq<Chunk>, i: int, policy: Policy) {
    0 <= i < |chunks| && f in ChunkFindings(chunks[i], chunks[i].chunkId in Ids(chunks[..i]), policy)
  }

  /** The findings are those of the first `n` chunks. */
  ghost predicate FromFirst(findings: seq<Finding>, chunks: seq<Chunk>, n: int, policy: Policy) {
    forall f :: f in findings <==> exists i :: i < n && FromChunk(f, chunks, i, policy)
  }

  lemma {:induction false} FromOneMore(findings: seq<Finding>, chunks: seq<Chunk>, n: nat, policy: Policy)
    requires n < |chunks| && FromFirst(findings, chunks, n, policy)
    ensures FromFirst(findings + ChunkFindings(chunks[n], chunks[n].chunkId in Ids(chunks[..n]), policy),
                      chunks, n + 1, policy)
  {
    var added := ChunkFindings(chunks[n], chunks[n].chunkId in Ids(chunks[..n]), policy);
    forall f ensures f in findings + added <==> exists i :: i < n + 1 && FromChunk(f, chunks, i, policy) {
      assert f in added <==> FromChunk(f, chunks, n, policy);
    }
  }

  /** The sources that the findings about the first chunks block. */
  ghost predicate BlocksFlawed(findings: seq<Finding>, part: seq<Chunk>, policy: Policy) {
    forall s :: Blocks(findings, s) <==> RepeatsId(part, s) || HasFlaw(part, s, policy)
  }

  lemma {:induction false} BlocksOneMore(findings: seq<Finding>, chunks: seq<Chunk>, n: nat, policy: Policy)
    requires n < |chunks| && BlocksFlawed(findings, chunks[..n], policy)
    ensures BlocksFlawed(findings + ChunkFindings(chunks[n], chunks[n].chunkId in Ids(chunks[..n]), policy),
                         chunks[..n + 1], policy)
  {
    var c := chunks[n];
    var repeats := c.chunkId in Ids(chunks[..n]);
    var added := ChunkFindings(c, repeats, policy);
    PrefixStep(chunks, n, policy);
    forall s ensures Blocks(findings + added, s) <==>
                     Blocks(findings, s) || (c.sourceId == s && (repeats || ContentFindings(c, policy) != []))
    {
      BlocksAppend(findings, added, s);
      ChunkFindingsBlock(c, repeats, policy, s);
    }
  }

  /** The pass over the chunks. */
  method AuditChunks(chunks: seq<Chunk>, policy: Policy)
    returns (findings: seq<Finding>, sourcesByHash: map<string, set<string>>)
    ensures forall s :: Blocks(findings, s) <==> RepeatsId(chunks, s) || HasFlaw(chunks, s, policy)
    ensures forall f :: f in findings <==> exists i :: FromChunk(f, chunks, i, policy)
    ensures forall h :: (if h in sourcesByHash then sourcesByHash[h] else {}) == SourcesOf(chunks, h)
  {
    findings, sourcesByHash := [], map[];
    var seenIds: set<string> := {};
    for i := 0 to |chunks|
      invariant seenIds == Ids(chunks[..i])
      invariant BlocksFlawed(findings, chunks[..i], policy) && FromFirst(findings, chunks, i, policy)
      invariant forall h :: (if h in sourcesByHash then sourcesByHash[h] else {}) == SourcesOf(chunks[..i], h)
    {
      var c := chunks[i];
      PrefixStep(chunks, i, policy);
      var known := if c.documentSha256 in sourcesByHash then sourcesByHash[c.documentSha256] else {};
      sourcesByHash := sourcesByHash[c.documentSha256 := known + {c.sourceId}];
      BlocksOneMore(findings, chunks, i, policy);
      FromOneMore(findings, chunks, i, policy);
      findings := findings + ChunkFindings(c, c.chunkId in seenIds, policy);
      seenIds := seenIds + {c.chunkId};
    }
    assert chunks[..|chunks|] == chunks;
  }

  lemma {:induction false} PrefixStep(chunks: seq<Chunk>, i: nat, policy: Policy)
    requires i < |chunks|
    ensures
      var c, before, after := chunks[i], chunks[..i], chunks[..i + 1];
      && Ids(after) == Ids(before) + {c.chunkId}
      && (forall s :: RepeatsId(after, s) <==> RepeatsId(before, s) || (c.sourceId == s && c.chunkId in Ids(before)))
      && (forall s :: HasFlaw(after, s, policy) <==>
                      HasFlaw(before, s, policy) || (c.sourceId == s && ContentFindings(c, policy) != []))
      && (forall h :: SourcesOf(after, h) == SourcesOf(before, h) + if c.documentSha256 == h then {c.sourceId} else {})
  {
    var before, after := chunks[..i], chunks[..i + 1];
    assert after == before + [chunks[i]] && after[..i] == before;
    assert forall c :: c in after <==> c in before || c == chunks[i];
  }

  /** All findings are about whole sources, under one code. */
  ghost predicate AllAre(findings: seq<Finding>, code: string, blocking: bool) {
    forall f :: f in findings ==> f == Finding(f.sourceId, None, code, blocking)
  }

  /** Every source of a hash that several sources register. */
  method DuplicateDocumentFindings(sourcesByHash: map<string, set<string>>) returns (findings: seq<Finding>)
    ensures forall s :: Blocks(findings, s) <==>
                        exists h :: h in sourcesByHash && |sourcesByHash[h]| >= 2 && s in sourcesByHash[h]
    ensures AllAre(findings, "duplicate_document", true)
  {
    findings := [];
    var hashes := sourcesByHash.Keys;
    while hashes != {}
      invariant hashes <= sourcesByHash.Keys
      invariant AllAre(findings, "duplicate_document", true)
      invariant forall s :: Blocks(findings, s) <==>
                            exists h :: h in sourcesByHash && h !in hashes && |sourcesByHash[h]| >= 2 &&
                                s in sourcesByHash[h]
      decreases hashes
    {
      var h :| h in hashes;
      if |sourcesByHash[h]| >= 2 {
        var added := FindingsFor(sourcesByHash[h]);
        forall s ensures Blocks(findings + added, s) <==> Blocks(findings, s) || s in sourcesByHash[h] {
          BlocksAppend(findings, added, s);
        }
        findings := findings + added;
      }
      hashes := hashes - {h};
    }
  }

  method FindingsFor(sources: set<string>) returns (findings: seq<Finding>)
    ensures forall s :: Blocks(findings, s) <==> s in sources
    ensures AllAre(findings, "duplicate_document", true)
  {
    findings := [];
    var pending := sources;
    while pending != {}
      invariant pending <= sources
      invariant AllAre(findings, "duplicate_document", true)
      invariant forall s :: Blocks(findings, s) <==> s in sources - pending
      decreases pending
    {
      var source :| source in pending;
      var f := Finding(source, None, "duplicate_document", true);
      forall s ensures Blocks(findings + [f], s) <==> Blocks(findings, s) || s == source {
        BlocksAppend(findings, [f], s);
        assert f in [f];
      }
      findings := findings + [f];
      pending := pending - {source};
    }
  }

  lemma {:induction false} TwoSourcesShare(chunks: seq<Chunk>, hash: string, source: string)
    requires source in SourcesOf(chunks, hash)
    ensures |SourcesOf(chunks, hash)| >= 2 <==> exists other :: other in SourcesOf(chunks, hash) && other != source
  {
    var sources := SourcesOf(chunks, hash);
    if other :| other in sources && other != source {
      assert {source, other} <= sources;
      assert |sources - {source, other}| == |sources| - 2;
    } else {
      assert sources == {source};
    }
  }

  /** A shared document is exactly a hash with two or more sources. */
  lemma {:induction false} SharesIff(chunks: seq<Chunk>, source: string)
    ensures SharesDocument(chunks, source) <==>
            exists h :: |SourcesOf(chunks, h)| >= 2 && source in SourcesOf(chunks, h)
  {
    if SharesDocument(chunks, source) {
      var c, d :| c in chunks && d in chunks && c.sourceId == source && d.sourceId != source &&
          c.documentSha256 == d.documentSha256;
      assert source in SourcesOf(chunks, c.documentSha256) && d.sourceId in SourcesOf(chunks, c.documentSha256);
      TwoSourcesShare(chunks, c.documentSha256, source);
    }
    forall h | |SourcesOf(chunks, h)| >= 2 && source in SourcesOf(chunks, h) ensures SharesDocument(chunks, source) {
      TwoSourcesShare(chunks, h, source);
      var other :| other in SourcesOf(chunks, h) && other != source;
      var c :| c in chunks && c.documentSha256 == h && c.sourceId == source;
      var d :| d in chunks && d.documentSha256 == h && d.sourceId == other;
    }
  }

  lemma {:induction false} DocumentsIff(chunks: seq<Chunk>, source: string, registered: map<string, set<string>>)
    requires forall h :: (if h in registered then registered[h] else {}) == SourcesOf(chunks, h)
    ensures SharesDocument(chunks, source) <==>
            exists h :: h in registered && |registered[h]| >= 2 && source in registered[h]
  {
    SharesIff(chunks, source);
    assert forall h :: |SourcesOf(chunks, h)| >= 2 ==> h in registered && registered[h] == SourcesOf(chunks, h);
  }

  // ---------- near duplicates are reported, never blocked ----------

  /** At least 20 shingles on both sides and 92 per cent of the union shared. */
  predicate Similar(left: set<string>, right: set<string>) {
    && |left| >= 20 && |right| >= 20
    && 100 * |left * right| >= 92 * (if |left + right| > 1 then |left + right| else 1)
  }

  ghost predicate Warned(findings: seq<Finding>, source: string) {
    exists f :: f in findings && f.sourceId == source
  }

  /** Another source of the corpus is similar. */
  ghost predicate HasNearDuplicate(shingles: map<string, set<string>>, source: string) {
    source in shingles && exists t :: t in shingles && t != source && Similar(shingles[source], shingles[t])
  }

  /** Every unordered pair of sources is compared once; `ordered` lists the sources without repetition. */
  method NearDuplicateFindings(shingles: map<string, set<string>>, ordered: seq<string>)
    returns (findings: seq<Finding>)
    requires forall s :: s in ordered <==> s in shingles
    requires forall i, j :: 0 <= i < j < |ordered| ==> ordered[i] != ordered[j]
    ensures AllAre(findings, "near_duplicate_source", false)
    ensures forall s :: Warned(findings, s) <==> HasNearDuplicate(shingles, s)
  {
    findings := [];
    for i := 0 to |ordered|
      invariant AllAre(findings, "near_duplicate_source", false)
      invariant Compared(shingles, ordered, i, findings)
    {
      var added := CompareWithLater(shingles, ordered, i);
      ComparedOneMore(shingles, ordered, i, findings, added);
      findings := findings + added;
    }
    forall s ensures Warned(findings, s) <==> HasNearDuplicate(shingles, s) {
      PairsAreSimilar(shingles, ordered, s);
    }
  }

  /** The first `i` sources have been compared with all later ones. */
  ghost predicate Compared(shingles: map<string, set<string>>, ordered: seq<string>, i: nat, findings: seq<Finding>)
    requires forall s :: s in ordered <==> s in shingles
  {
    forall s :: Warned(findings, s) <==> exists a, b :: 0 <= a < i && Pair(shingles, ordered, a, b, s)
  }

  lemma {:induction false} ComparedOneMore(shingles: map<string, set<string>>, ordered: seq<string>, i: nat,
                                           findings: seq<Finding>, added: seq<Finding>)
    requires forall s :: s in ordered <==> s in shingles
    requires Compared(shingles, ordered, i, findings)
    requires forall s :: Warned(added, s) <==> exists b :: Pair(shingles, ordered, i, b, s)
    ensures Compared(shingles, ordered, i + 1, findings + added)
  {
    forall s
      ensures Warned(findings + added, s) <==> exists a, b :: 0 <= a < i + 1 && Pair(shingles, ordered, a, b, s)
    {
      WarnedAppend(findings, added, s);
    }
  }

  lemma {:induction false} WarnedAppend(a: seq<Finding>, b: seq<Finding>, source: string)
    ensures Warned(a + b, source) <==> Warned(a, source) || Warned(b, source)
  {
    assert forall f :: f in a + b <==> f in a || f in b;
  }

  /** The inner loop: one source against all later ones. */
  method CompareWithLater(shingles: map<string, set<string>>, ordered: seq<string>, i: nat)
    returns (findings: seq<Finding>)
    requires i < |ordered| && forall s :: s in ordered <==> s in shingles
    ensures AllAre(findings, "near_duplicate_source", false)
    ensures forall s :: Warned(findings, s) <==> exists b :: Pair(shingles, ordered, i, b, s)
  {
    findings := [];
    var left := shingles[ordered[i]];
    if |left| < 20 {
      return;
    }
    for j := i + 1 to |ordered|
      invariant AllAre(findings, "near_duplicate_source", false)
      invariant forall s :: Warned(findings, s) <==> exists b :: b < j && Pair(shingles, ordered, i, b, s)
    {
      var right := shingles[ordered[j]];
      if Similar(left, right) {
        var l := Finding(ordered[i], None, "near_duplicate_source", false);
        var r := Finding(ordered[j], None, "near_duplicate_source", false);
        forall s ensures Warned(findings + [l, r], s) <==> Warned(findings, s) || Pair(shingles, ordered, i, j, s) {
          WarnedAppend(findings, [l, r], s);
          assert l in [l, r] && r in [l, r];
        }
        findings := findings + [l, r];
      } else {
        assert forall s :: !Pair(shingles, ordered, i, j, s);
      }
    }
  }

  ghost predicate Pair(shingles: map<string, set<string>>, ordered: seq<string>, a: int, b: int, s: string)
    requires forall s :: s in ordered <==> s in shingles
  {
    0 <= a < b < |ordered| && (s == ordered[a] || s == ordered[b]) &&
        Similar(shingles[ordered[a]], shingles[ordered[b]])
  }

  lemma {:induction false} SimilarSymmetric(left: set<string>, right: set<string>)
    ensures Similar(left, right) <==> Similar(right, left)
  {
    assert left * right == right * left && left + right == right + left;
  }

  lemma {:induction false} PairsAreSimilar(shingles: map<string, set<string>>, ordered: seq<string>, s: string)
    requires forall s :: s in ordered <==> s in shingles
    requires forall i, j :: 0 <= i < j < |ordered| ==> ordered[i] != ordered[j]
    ensures (exists a, b :: 0 <= a < |ordered| && Pair(shingles, ordered, a, b, s)) <==> HasNearDuplicate(shingles, s)
  {
    forall a, b | Pair(shingles, ordered, a, b, s)
      ensures HasNearDuplicate(shingles, s)
    {
      SimilarSymmetric(shingles[ordered[a]], shingles[ordered[b]]);
      assert ordered[a] in shingles && ordered[b] in shingles;
    }
    if s in shingles {
      forall t | t in shingles && t != s && Similar(shingles[s], shingles[t])
        ensures exists a, b :: 0 <= a < |ordered| && Pair(shingles, ordered, a, b, s)
      {
        var i :| 0 <= i < |ordered| && ordered[i] == s;
        var j :| 0 <= j < |ordered| && ordered[j] == t;
        SimilarSymmetric(shingles[s], shingles[t]);
        assert Pair(shingles, ordered, i, j, s) || Pair(shingles, ordered, j, i, s);
      }
    }
  }

  // ---------- audit and quarantine ----------

  /** The source set of every chunk, in some order without repetition. */
  method SourcesInOrder(chunks: seq<Chunk>) returns (ordered: seq<string>)
    ensures forall s :: s in ordered <==> exists c :: c in chunks && c.sourceId == s
    ensures forall i, j :: 0 <= i < j < |ordered| ==> ordered[i] != ordered[j]
  {
    ordered := [];
    for i := 0 to |chunks|
      invariant forall s :: s in ordered <==> exists c :: c in chunks[..i] && c.sourceId == s
      invariant forall i, j :: 0 <= i < j < |ordered| ==> ordered[i] != ordered[j]
    {
      assert forall c :: c in chunks[..i + 1] <==> c in chunks[..i] || c == chunks[i] by {
        assert chunks[..i + 1] == chunks[..i] + [chunks[i]];
      }
      if chunks[i].sourceId !in ordered {
        ordered := ordered + [chunks[i].sourceId];
      }
    }
    assert chunks[..|chunks|] == chunks;
  }

  lemma {:induction false} ChunksArePlaces(chunks: seq<Chunk>, source: string)
    ensures Selects(ChunksOf(chunks, source), chunks, Places(chunks, (c: Chunk) => c.sourceId == source))
  {
    var p := (c: Chunk) => c.sourceId == source;
    ChunksAt(chunks, source, p);
  }

  lemma {:induction false} ChunksAt(chunks: seq<Chunk>, source: string, p: Chunk -> bool)
    requires forall c :: p(c) <==> c.sourceId == source
    ensures Selects(ChunksOf(chunks, source), chunks, Places(chunks, p))
  {
    if chunks != [] {
      var before, last := chunks[..|chunks| - 1], chunks[|chunks| - 1];
      ChunksAt(before, source, p);
      assert chunks == before + [last];
      OneMorePlace(before, last, p);
      var kept := ChunksOf(before, source);
      assert kept + [] == kept;
      SelectsOneMore(kept, before, Places(before, p), last);
    }
  }

  /** The texts of two sources: 20 shingles each and 23 of every 25 shared. */
  ghost predicate Close(left: set<string>, right: set<string>) {
    |left| >= 20 && |right| >= 20 && 25 * |left * right| >= 23 * |left + right|
  }

  lemma {:induction false} SimilarIsClose(left: set<string>, right: set<string>)
    ensures Similar(left, right) <==> Close(left, right)
  {
    if |left| >= 20 {
      assert |left + right| >= |left| by {
        assert left + right == left + (right - left) && left !! (right - left);
      }
    }
  }

  /** Some other source has nearly the same text. */
  ghost predicate NearlyRepeated(chunks: seq<Chunk>, source: string, shingles: seq<Chunk> -> set<string>) {
    exists c, d :: c in chunks && d in chunks && c.sourceId == source && d.sourceId != source &&
      Close(shingles(ChunksOf(chunks, source)), shingles(ChunksOf(chunks, d.sourceId)))
  }

  /** What an audit finds: of single chunks, of shared documents, and of nearly equal texts. */
  ghost predicate IsFound(f: Finding, chunks: seq<Chunk>, policy: Policy, shingles: seq<Chunk> -> set<string>) {
    match f.chunkId
    case Some(id) =>
      && f.blocking
      && exists i :: 0 <= i < |chunks| &&
           chunks[i].sourceId == f.sourceId && chunks[i].chunkId == id &&
           Reports(chunks[i], IsRepeat(chunks, i), policy, f.code)
    case None =>
      || (f.code == "duplicate_document" && f.blocking && SharesDocument(chunks, f.sourceId))
      || (f.code == "near_duplicate_source" && !f.blocking && NearlyRepeated(chunks, f.sourceId, shingles))
  }

  lemma {:induction false} FromChunkIff(f: Finding, chunks: seq<Chunk>, policy: Policy, i: int)
    ensures FromChunk(f, chunks, i, policy) <==>
            0 <= i < |chunks| && f == Finding(chunks[i].sourceId, Some(chunks[i].chunkId), f.code, true) &&
            Reports(chunks[i], IsRepeat(chunks, i), policy, f.code)
  {
    if 0 <= i < |chunks| {
      IsRepeatIff(chunks, i);
      ChunkFindingIff(chunks[i], IsRepeat(chunks, i), policy, f);
    }
  }

  lemma {:induction false} ChunksFoundIff(f: Finding, chunks: seq<Chunk>, policy: Policy,
                                          shingles: seq<Chunk> -> set<string>)
    ensures (exists i :: FromChunk(f, chunks, i, policy)) <==> f.chunkId.Some? && IsFound(f, chunks, policy, shingles)
  {
    forall i ensures FromChunk(f, chunks, i, policy) <==>
                     0 <= i < |chunks| && f == Finding(chunks[i].sourceId, Some(chunks[i].chunkId), f.code, true) &&
                     Reports(chunks[i], IsRepeat(chunks, i), policy, f.code)
    {
      FromChunkIff(f, chunks, policy, i);
    }
  }

  lemma {:induction false} NearlyRepeatedIff(
    chunks: seq<Chunk>, source: string, texts: map<string, set<string>>, shingles: seq<Chunk> -> set<string>
  )
    requires forall s :: s in texts <==> exists c :: c in chunks && c.sourceId == s
    requires forall s :: s in texts ==> texts[s] == shingles(ChunksOf(chunks, s))
    ensures HasNearDuplicate(texts, source) <==> NearlyRepeated(chunks, source, shingles)
  {
    forall s, t | s in texts && t in texts ensures Similar(texts[s], texts[t]) <==> Close(texts[s], texts[t]) {
      SimilarIsClose(texts[s], texts[t]);
    }
  }

  lemma {:induction false} WarnedIff(findings: seq<Finding>, f: Finding, code: string)
    requires AllAre(findings, code, false)
    ensures f in findings <==> f == Finding(f.sourceId, None, code, false) && Warned(findings, f.sourceId)
  {
  }

  lemma {:induction false} BlockedIff(findings: seq<Finding>, f: Finding, code: string)
    requires AllAre(findings, code, true)
    ensures f in findings <==> f == Finding(f.sourceId, None, code, true) && Blocks(findings, f.sourceId)
  {
  }

  /** The findings block exactly the unacceptable sources; `shingles` stands for `_source_shingles`. */
  method AuditCorpusAdmission(chunks: seq<Chunk>, policy: Policy, shingles: seq<Chunk> -> set<string>)
    returns (findings: seq<Finding>)
    ensures forall s :: Blocks(findings, s) <==> Rejected(chunks, s, policy)
    ensures forall f :: f in findings <==> IsFound(f, chunks, policy, shingles)
  {
    var chunkFindings, sourcesByHash := AuditChunks(chunks, policy);
    var documentFindings := DuplicateDocumentFindings(sourcesByHash);
    var ordered := SourcesInOrder(chunks);
    var sourceShingles := map s | s in ordered :: shingles(ChunksOf(chunks, s));
    var warnings := NearDuplicateFindings(sourceShingles, ordered);
    findings := chunkFindings + documentFindings + warnings;
    forall f ensures f in findings <==> IsFound(f, chunks, policy, shingles) {
      ChunksFoundIff(f, chunks, policy, shingles);
      BlockedIff(documentFindings, f, "duplicate_document");
      WarnedIff(warnings, f, "near_duplicate_source");
      DocumentsIff(chunks, f.sourceId, sourcesByHash);
      NearlyRepeatedIff(chunks, f.sourceId, sourceShingles, shingles);
    }
    forall s ensures Blocks(findings, s) <==> Rejected(chunks, s, policy) {
      BlocksAppend(chunkFindings, documentFindings, s);
      BlocksAppend(chunkFindings + documentFindings, warnings, s);
      DocumentsIff(chunks, s, sourcesByHash);
    }
  }

  method QuarantineRejectedSources(chunks: seq<Chunk>, policy: Policy, shingles: seq<Chunk> -> set<string>)
    returns (retained: seq<Chunk>, findings: seq<Finding>)
    ensures retained == Retained(chunks, chunks, policy)
    ensures forall s :: Blocks(findings, s) <==> Rejected(chunks, s, policy)
    ensures forall f :: f in findings <==> IsFound(f, chunks, policy, shingles)
  {
    findings := AuditCorpusAdmission(chunks, policy, shingles);
    var rejected := set f | f in findings && f.blocking :: f.sourceId;
    assert forall s :: s in rejected <==> Blocks(findings, s);
    retained := [];
    for i := 0 to |chunks|
      invariant retained == Retained(chunks[..i], chunks, policy)
    {
      assert chunks[..i + 1][..i] == chunks[..i];
      if chunks[i].sourceId !in rejected {
        retained := retained + [chunks[i]];
      }
    }
    assert chunks[..|chunks|] == chunks;
  }
}
