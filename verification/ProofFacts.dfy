/**
 What proof cards and the lists beside them show (src/firelens/proof_presentation.py:65-287 and
 src/firelens/_publication_authority.py:26-33), in terms of the claims and records of the response.
 */
module ProofFacts {
  import opened Wrappers
  import opened Sequences
  import opened ProofCards
  import opened ProofPresentation

  // ---------- the state of a card and the publication of its claim ----------

  /** A state of support belongs to one kind of publication only. */
  ghost predicate Belongs(state: SupportState, kind: PublicationKind) {
    && (state == Reviewed <==> kind == StructuredReviewed)
    && (state == LiveTyped <==> kind == OfficialLiveTyped)
    && (state == QuoteOnly <==> kind == OfficialQuoteOnly)
    && (state == Explanation <==> kind == SourceLinkedExplanation)
    && (state == Background <==> kind == GeneralBackground)
    && (state == Unknown <==> kind == Unsupported)
  }

  /** A claim whose publication may be shown. */
  ghost predicate Established(source: Source, claim: Claim) {
    !source.rejected && !claim.criticalFailed && claim.publication.Some?
  }

  lemma {:induction false} StateBelongs(source: Source, claim: Claim)
    ensures Established(source, claim) ==> Belongs(SupportStateOf(source, claim), claim.publication.value.kind)
    ensures !Established(source, claim) ==> SupportStateOf(source, claim) == Unknown
  {
  }

  /**
   After any attachment that succeeds, the card of a claim has a known state only if its claim is
   established, and then the state of that claim's own publication, with its text and authority.
   */
  lemma {:induction false} ClaimCardsShowTheirKind(inputs: Inputs, p: Presentation, card: Card, claim: Claim)
    requires WellFormed(inputs.source) && AllValid(inputs.source, p.cards) && Attached(inputs, p).1
    requires card in Attached(inputs, p).0.cards && FindClaim(inputs.source.claims, card.claimId) == Some(claim)
    ensures card.state != Unknown ==>
              && Established(inputs.source, claim) && Belongs(card.state, claim.publication.value.kind)
              && card.publication == claim.publication.value && card.claimText == claim.text
    ensures card.state == Unknown ==> card.publication == UNSUPPORTED || !Established(inputs.source, claim) ||
                                      claim.publication.value.kind == Unsupported
  {
    NoAttachmentStrengthensAuthority(inputs, p);
    StateBelongs(inputs.source, claim);
  }

  /** And an established claim that is built shows it. */
  lemma {:induction false} EstablishedClaimShowsItsKind(source: Source, claim: Claim, url: Option<string>)
    requires Established(source, claim) && ClaimCard(source, claim, url).Some?
    ensures
      var card, publication := ClaimCard(source, claim, url).value, claim.publication.value;
      && Belongs(card.state, publication.kind) && card.claimId == claim.id && card.claimText == claim.text
      && (publication.kind != Unsupported ==>
            card.publication == publication && card.text == source.describe(claim, card.state, url))
  {
    StateBelongs(source, claim);
  }

  // ---------- names ----------

  /** The first of name, number and ID that is not empty. */
  lemma {:induction false} TitleIs(record: Record)
    ensures record.name != "" ==> Title(record) == record.name
    ensures record.name == "" && record.number != "" ==> Title(record) == record.number
    ensures record.name == "" && record.number == "" ==> Title(record) == record.id
  {
  }

  /** A card built from a record of an accepted response shows that record as a live record. */
  lemma {:induction false} LiveCardShows(source: Source, record: Record)
    requires !source.rejected && LiveCard(source, record).Some?
    ensures
      var card := LiveCard(source, record).value;
      && card.state == LiveRecord && card.claimId == record.id
      && Restates(card, record) && card.text.title == Title(record)
      && card.publication.kind == OfficialLiveTyped && card.publication.liveId == Some(record.id)
  {
  }

  // ---------- the wording of cards ----------

  /** What an unknown card says in place of everything it was asked to say. */
  ghost predicate SaysNothing(text: CardText, notes: seq<string>) {
    && text.caption == "Not established from FireLens sources" && text.authority == "Authority not established"
    && text.review == "Review state not established"
    && text.critical == "Critical-field validation not established"
    && text.freshness == "Freshness not established"
    && text.passage == None && text.title == "" && text.revision == "" && text.url == None
    && text.notes == notes
  }

  lemma {:induction false} UnknownCardReads(source: Source, card: Card)
    requires UnknownCard(source, card).Some?
    ensures
      var shown := UnknownCard(source, card).value;
      && shown.claimId == card.claimId && shown.claimText == card.claimText && shown.state == Unknown
      && shown.derivation == None && shown.publication == Publication(Unsupported, None, "none")
      && SaysNothing(shown.text, card.text.notes)
  {
  }

  /** A card built for a record says that it was published live and not reviewed. */
  lemma {:induction false} LiveCardReads(source: Source, record: Record)
    requires !source.rejected && LiveCard(source, record).Some?
    ensures
      var shown := LiveCard(source, record).value;
      && shown.publication == Publication(OfficialLiveTyped, Some(record.id), "official_live_record")
      && shown.claimText == Title(record) && shown.text.notes == []
      && shown.text.caption == "Official live record as published"
      && shown.text.review == "Official live feed as published"
      && shown.text.critical == "Not applicable \U{2014} live record, not a reviewed claim"
  {
  }

  /** A rebound card keeps its own words and takes everything else from the record. */
  lemma {:induction false} ReboundCardReads(source: Source, card: Card, record: Record)
    requires !source.rejected && RebindLiveCard(source, card, record).Some?
    ensures
      var shown := RebindLiveCard(source, card, record).value;
      && shown.claimId == card.claimId && shown.state == card.state
      && shown.text.caption == card.text.caption && shown.text.review == card.text.review
      && shown.text.critical == card.text.critical && shown.text.notes == card.text.notes
      && shown.publication == Publication(OfficialLiveTyped, Some(record.id), "official_live_record")
      && shown.text.authority == record.authority && shown.text.passage == Some(record.status)
      && shown.text.revision == record.revision && shown.text.freshness == record.freshness
      && shown.text.url == record.url && shown.derivation == record.derivation
      && (|card.text.title| > 0 ==> shown.text.title == card.text.title)
      && (|card.text.title| == 0 && |record.name| > 0 ==> shown.text.title == record.name)
      && (|card.text.title| == 0 && |record.name| == 0 ==> shown.text.title == record.id)
      && (card.state == LiveTyped ==> shown.claimText == record.typedText)
      && (card.state != LiveTyped ==> shown.claimText == Title(record))
  {
  }

  /** A card of the live kind or state; its live fact must be one it is bound to. */
  ghost predicate NeedsLiveId(card: Card) {
    card.publication.kind == OfficialLiveTyped || card.state == LiveTyped
  }

  lemma {:induction false} LiveIdMatchesIff(card: Card, bound: set<string>)
    ensures LiveIdMatches(card, bound) <==>
            || !NeedsLiveId(card)
            || (exists id :: id in bound && card.publication.liveId == Some(id))
            || (card.publication.liveId == None && card.claimId in bound)
  {
  }

  /** The publications that a card model accepts. */
  lemma {:induction false} PublicationFitsIff(card: Card)
    ensures PublicationFits(card) <==>
            && (Belongs(card.state, card.publication.kind) ||
                  (card.publication.kind == OfficialLiveTyped && card.state == LiveRecord))
            && (card.publication.kind == OfficialLiveTyped ==>
                  exists id :: id != "" && card.publication.liveId == Some(id) && IsInputOf(id, card.derivation))
  {
    if card.publication.liveId.Some? {
      var id := card.publication.liveId.value;
      assert Some(id) == card.publication.liveId;
    }
  }

  /** Without a derivation, or without inputs of it, any live fact goes. */
  ghost predicate IsInputOf(id: string, derivation: Option<Derivation>) {
    derivation == None || |derivation.value.inputIds| == 0 || id in derivation.value.inputIds
  }

  // ---------- finding claims and records ----------

  function HasId<T>(idOf: T -> string, id: string): T -> bool {
    (item: T) => idOf(item) == id
  }

  /** Of several items with one ID the last is found. */
  lemma {:induction false} LookupIsLast<T>(items: seq<T>, id: string, idOf: T -> string)
    ensures
      var places := Places(items, HasId(idOf, id));
      && (Lookup(items, id, idOf).None? <==> places == [])
      && (places != [] ==>
            places[|places| - 1] < |items| && Lookup(items, id, idOf) == Some(items[places[|places| - 1]]))
  {
    if items != [] {
      var n := |items| - 1;
      LookupIsLast(items[..n], id, idOf);
      assert items == items[..n] + [items[n]];
      OneMorePlace(items[..n], items[n], HasId(idOf, id));
    }
  }

  lemma {:induction false} FoundIff<T>(items: seq<T>, id: string, idOf: T -> string)
    ensures Lookup(items, id, idOf).None? <==> forall i :: 0 <= i < |items| ==> idOf(items[i]) != id
  {
    var places := Places(items, HasId(idOf, id));
    LookupIsLast(items, id, idOf);
    PlacesAreExact(items, HasId(idOf, id));
    assert places != [] ==> places[0] in places;
  }

  /** Some claim or record has the card's ID, or a live typed card names a record. */
  lemma {:induction false} OwnedIff(source: Source, card: Card)
    ensures HasOwner(source, card) <==>
            || (exists i :: 0 <= i < |source.claims| && source.claims[i].id == card.claimId)
            || (exists i :: 0 <= i < |source.records| && source.records[i].id == card.claimId)
            || (card.state == LiveTyped && card.publication.kind == OfficialLiveTyped &&
                card.publication.liveId.Some? && card.publication.liveId.value != "" &&
                exists i :: 0 <= i < |source.records| && source.records[i].id == card.publication.liveId.value)
  {
    FoundIff(source.claims, card.claimId, (c: Claim) => c.id);
    FoundIff(source.records, card.claimId, (r: Record) => r.id);
    if card.publication.liveId.Some? {
      FoundIff(source.records, card.publication.liveId.value, (r: Record) => r.id);
    }
  }

  ghost predicate NoRecord(source: Source, id: string) {
    forall i :: 0 <= i < |source.records| ==> source.records[i].id != id
  }

  /**
   The record of a card is the one of its own ID, else of its live fact, else, unless the card is live
   typed, of the first input of its derivation that has one.
   */
  lemma {:induction false} CardRecordIs(source: Source, card: Card)
    ensures
      var record, live := CardRecord(source, card), card.publication.liveId;
      && (!NoRecord(source, card.claimId) ==> record == FindRecord(source.records, card.claimId) && record.Some?)
      && (NoRecord(source, card.claimId) && live.Some? && live.value != "" && !NoRecord(source, live.value) ==>
            record == FindRecord(source.records, live.value) && record.Some?)
      && (NoRecord(source, card.claimId) && (live.None? || live.value == "" || NoRecord(source, live.value)) ==>
            record == if NeedsLiveId(card) || card.derivation.None? then None
                      else FirstRecord(source, card.derivation.value.inputIds))
  {
    FoundIff(source.records, card.claimId, (r: Record) => r.id);
    if card.publication.liveId.Some? {
      FoundIff(source.records, card.publication.liveId.value, (r: Record) => r.id);
    }
  }

  lemma {:induction false} FirstRecordIs(source: Source, ids: seq<string>)
    ensures FirstRecord(source, ids).None? <==> forall i :: 0 <= i < |ids| ==> NoRecord(source, ids[i])
    ensures FirstRecord(source, ids).Some? ==>
              exists i :: 0 <= i < |ids| && FirstRecord(source, ids) == FindRecord(source.records, ids[i]) &&
                          forall j :: 0 <= j < i ==> NoRecord(source, ids[j])
  {
    if ids != [] {
      FoundIff(source.records, ids[0], (r: Record) => r.id);
      if NoRecord(source, ids[0]) {
        FirstRecordIs(source, ids[1..]);
        assert forall i :: 0 <= i < |ids[1..]| ==> ids[1..][i] == ids[i + 1];
        if FirstRecord(source, ids).Some? {
          var i :| 0 <= i < |ids[1..]| && FirstRecord(source, ids) == FindRecord(source.records, ids[1..][i]) &&
                   forall j :: 0 <= j < i ==> NoRecord(source, ids[1..][j]);
          assert ids[i + 1] == ids[1..][i];
          assert forall j :: 0 < j < i + 1 ==> ids[j] == ids[1..][j - 1];
        }
      }
    }
  }

  /** A card of an established claim is left as it is exactly if it shows the claim and is bound to it. */
  lemma {:induction false} ClaimCardStaysIff(source: Source, card: Card, claim: Claim, url: Option<string>)
    requires FindClaim(source.claims, card.claimId) == Some(claim) && Established(source, claim)
    requires card.state != Unknown && claim.publication.value.kind != Unsupported
    requires ClaimCard(source, claim, url) != Some(card)
    ensures PreserveCard(source, card, url) == Some(card) <==>
            && Belongs(card.state, claim.publication.value.kind) && card.state != LiveRecord
            && card.state != Supported && card.state != Conflicting
            && card.claimText == claim.text && card.publication == claim.publication.value
            && (card.publication.kind == OfficialLiveTyped ==>
                  var bound := if card.publication.liveId.Some? then card.publication.liveId.value else card.claimId;
                  bound == claim.id || (claim.publication.value.liveId == Some(bound) && bound != ""))
  {
    StateBelongs(source, claim);
  }

  // ---------- the lists beside the cards ----------

  lemma {:induction false} FirstItemsAre<T>(items: seq<T>)
    ensures |FirstItems(items)| == if |items| <= 12 then |items| else 12
    ensures forall k :: 0 <= k < |FirstItems(items)| ==> FirstItems(items)[k] == items[k]
  {
  }

  /** The claims that are listed as supported. */
  function IsSupported(source: Source): Claim -> bool {
    (c: Claim) => && !source.rejected && !c.criticalFailed && c.publication.Some?
                  && (c.publication.value.kind.StructuredReviewed? || c.publication.value.kind.OfficialLiveTyped?)
  }

  lemma {:induction false} SupportedLineAt(inputs: Inputs, claims: seq<Claim>, k: nat)
    requires k < |Places(claims, IsSupported(inputs.source))|
    ensures |SupportedClaimLines(inputs, claims)| == |Places(claims, IsSupported(inputs.source))|
    ensures Places(claims, IsSupported(inputs.source))[k] < |claims|
    ensures SupportedClaimLines(inputs, claims)[k] ==
            inputs.claimLine(claims[Places(claims, IsSupported(inputs.source))[k]])
  {
    var n := |claims| - 1;
    PlacesInRange(claims, IsSupported(inputs.source), k);
    SupportedLinesLength(inputs, claims[..n]);
    StateBelongs(inputs.source, claims[n]);
    if k < |Places(claims[..n], IsSupported(inputs.source))| {
      SupportedLineAt(inputs, claims[..n], k);
    }
  }

  lemma {:induction false} SupportedLinesLength(inputs: Inputs, claims: seq<Claim>)
    ensures |SupportedClaimLines(inputs, claims)| == |Places(claims, IsSupported(inputs.source))|
  {
    if claims != [] {
      SupportedLinesLength(inputs, claims[..|claims| - 1]);
      StateBelongs(inputs.source, claims[|claims| - 1]);
    }
  }

  lemma {:induction false} RecordLineAt(inputs: Inputs, records: seq<Record>, k: nat)
    requires k < |records|
    ensures |RecordLines(inputs, records)| == |records|
    ensures RecordLines(inputs, records)[k] == inputs.recordLine(records[k])
  {
    var n := |records| - 1;
    if n > 0 {
      RecordLineAt(inputs, records[..n], if k < n then k else 0);
    }
  }

  /** Lists in place stay; empty ones are filled with the first twelve lines. */
  lemma {:induction false} ListsAfter(inputs: Inputs, p: Presentation)
    ensures
      var after, claims, records := Attached(inputs, p).0, inputs.source.claims, inputs.source.records;
      && (p.supported != [] ==> after.supported == p.supported)
      && (p.supported == [] ==>
            after.supported == FirstItems(SupportedClaimLines(inputs, claims) + RecordLines(inputs, records)))
      && (p.unknown != [] ==> after.unknown == p.unknown)
      && (p.unknown == [] ==> after.unknown == FirstItems(Deduplicated(inputs.unknownLines)))
  {
  }

  /** A banner with a title that is not empty and a link. */
  ghost predicate HasLink(banner: Option<Banner>) {
    banner.Some? && banner.value.title.Some? && banner.value.title.value != "" && banner.value.url.Some?
  }

  /** The banner in place stays unless the response is rejected; a new one keeps its link as a last resort. */
  lemma {:induction false} BannerIs(inputs: Inputs, p: Presentation)
    ensures
      var after, was := Attached(inputs, p).0.banner, p.banner;
      && (!inputs.source.rejected && was.Some? ==> after == was)
      && (inputs.source.rejected || was.None? ==>
            && after.Some? && after.value.text == inputs.bannerText
            && match inputs.escalation
               case Some((title, url)) => after.value.title == Some(title) && after.value.url == Some(url)
               case None =>
                 && (HasLink(was) ==> after.value.title == was.value.title && after.value.url == was.value.url)
                 && (!HasLink(was) ==> after.value.title.None? && after.value.url.None?))
  {
  }
}
