/**
 Proof cards and the authority they carry (src/firelens/proof_presentation.py:190-355,
 src/firelens/_publication_authority.py:28-150, src/firelens/proof_contracts.py:54-165).
 */
module ProofCards {
  import opened Wrappers

  datatype PublicationKind =
    | StructuredReviewed
    | OfficialLiveTyped
    | OfficialQuoteOnly
    | SourceLinkedExplanation
    | GeneralBackground
    | Unsupported

  /** `details` stands for the identifiers, hashes and review fields that are only copied and compared. */
  datatype Publication = Publication(kind: PublicationKind, liveId: Option<string>, details: string)

  const UNSUPPORTED := Publication(Unsupported, None, "none")

  datatype SupportState =
    | Supported
    | Reviewed
    | LiveTyped
    | QuoteOnly
    | Explanation
    | Unknown
    | Background
    | Conflicting
    | LiveRecord

  datatype Derivation = Derivation(inputIds: seq<string>, details: string)

  /** The descriptive fields of a card. */
  datatype CardText = CardText(
    caption: string,
    authority: string,
    passage: Option<string>,
    title: string,
    revision: string,
    review: string,
    critical: string,
    freshness: string,
    notes: seq<string>,
    url: Option<string>
  )

  datatype Card = Card(
    claimId: string,
    claimText: string,
    state: SupportState,
    text: CardText,
    derivation: Option<Derivation>,
    publication: Publication
  )

  /** A public claim; `criticalFailed` is a failed critical-field check of its trust record. */
  datatype Claim = Claim(id: string, text: string, publication: Option<Publication>, criticalFailed: bool)

  /** An official record; a missing name or number is empty, `typedText` is its rendering as a typed claim. */
  datatype Record = Record(
    id: string,
    name: string,
    number: string,
    typedText: string,
    authority: string,
    status: string,
    revision: string,
    freshness: string,
    url: Option<string>,
    derivation: Option<Derivation>
  )

  /**
   What card building reads of a response and never changes. `describe` gives the descriptive fields
   of a claim's card from its trust, its evidence and the escalation link; `mentionsDistance` looks for
   a geodesic distance in a text; `otherChecks` stands for the remaining checks of the card model.
   */
  datatype Source = Source(
    claims: seq<Claim>,
    records: seq<Record>,
    rejected: bool,
    describe: (Claim, SupportState, Option<string>) -> CardText,
    mentionsDistance: string -> bool,
    otherChecks: Card -> bool
  )

  /** `result.name or result.incident_number or result.result_id` */
  function Title(record: Record): string {
    if record.name != "" then record.name else if record.number != "" then record.number else record.id
  }

  // ---------- publication authority ----------

  function StateOf(kind: PublicationKind): SupportState {
    match kind
    case StructuredReviewed => Reviewed
    case OfficialLiveTyped => LiveTyped
    case OfficialQuoteOnly => QuoteOnly
    case SourceLinkedExplanation => Explanation
    case GeneralBackground => Background
    case Unsupported => Unknown
  }

  /** `_bound_publication` of a claim */
  function BoundPublication(claim: Claim): Publication {
    if claim.publication.Some? then claim.publication.value else UNSUPPORTED
  }

  /** `_support_state` */
  function SupportStateOf(source: Source, claim: Claim): SupportState {
    if source.rejected || claim.criticalFailed then Unknown else StateOf(BoundPublication(claim).kind)
  }

  function LivePublication(record: Record): Publication {
    Publication(OfficialLiveTyped, Some(record.id), "official_live_record")
  }

  predicate IsLiveTyped(card: Card) {
    card.publication.kind.OfficialLiveTyped? || card.state.LiveTyped?
  }

  /** `_official_live_id_matches` for a set of identities the card may be bound to */
  predicate LiveIdMatches(card: Card, bound: set<string>) {
    IsLiveTyped(card) ==>
      if card.publication.liveId.Some? then card.publication.liveId.value in bound else card.claimId in bound
  }

  function ClaimIdentities(claim: Claim): set<string> {
    var live := BoundPublication(claim).liveId;
    {claim.id} + if live.Some? && live.value != "" then {live.value} else {}
  }

  /** `_proof_card_publication_error` finds nothing. */
  predicate PublicationFits(card: Card) {
    && (card.state == StateOf(card.publication.kind) ||
          (card.publication.kind.OfficialLiveTyped? && card.state.LiveRecord?))
    && (card.publication.kind.OfficialLiveTyped? ==>
          && card.publication.liveId.Some? && card.publication.liveId.value != ""
          && (card.derivation.Some? && card.derivation.value.inputIds != [] ==>
                card.publication.liveId.value in card.derivation.value.inputIds))
  }

  /** The checks of the card model: one that fails raises and no card exists. */
  predicate ValidCard(source: Source, card: Card) {
    && PublicationFits(card) && (source.mentionsDistance(card.claimText) ==> card.derivation.Some?)
    && source.otherChecks(card)
  }

  /** `make_proof_card`: a rejected card is unknown and unsupported, whatever was asked for. */
  function MakeCard(source: Source, card: Card, rejected: bool): Option<Card> {
    var made := if rejected then card.(state := Unknown, publication := UNSUPPORTED) else card;
    if ValidCard(source, made) then Some(made) else None
  }

  function UnknownForm(card: Card): Card {
    Card(
      card.claimId, card.claimText, Unknown,
      CardText(
        "Not established from FireLens sources", "Authority not established", None, "", "",
        "Review state not established",
        "Critical-field validation not established", "Freshness not established", card.text.notes, None),
      None, UNSUPPORTED)
  }

  /** `_unknown_card` */
  function UnknownCard(source: Source, card: Card): Option<Card> {
    MakeCard(source, UnknownForm(card), true)
  }

  // ---------- building ----------

  /** The card asked for a claim. */
  function ClaimForm(source: Source, claim: Claim, url: Option<string>): Card {
    var state := SupportStateOf(source, claim);
    Card(claim.id, claim.text, state, source.describe(claim, state, url), None, BoundPublication(claim))
  }

  /** `_claim_card` */
  function ClaimCard(source: Source, claim: Claim, url: Option<string>): Option<Card> {
    var unknown := SupportStateOf(source, claim).Unknown?;
    var made := MakeCard(source, ClaimForm(source, claim, url), unknown || source.rejected);
    if made.None? then None else if unknown then UnknownCard(source, made.value) else made
  }

  /** The card asked for a record. */
  function LiveForm(record: Record): Card {
    var text := CardText(
                  "Official live record as published", record.authority, Some(record.status), Title(record),
                  record.revision,
                  "Official live feed as published", "Not applicable \U{2014} live record, not a reviewed claim",
                  record.freshness, [], record.url);
    Card(record.id, Title(record), LiveRecord, text, record.derivation, LivePublication(record))
  }

  /** `_live_card` */
  function LiveCard(source: Source, record: Record): Option<Card> {
    var made := MakeCard(source, LiveForm(record), source.rejected);
    if made.None? then None else if source.rejected then UnknownCard(source, made.value) else made
  }

  // ---------- keeping ----------

  /** `{id_of(item): item for item in items}.get(id)`: a later item replaces an earlier one of the same ID. */
  function Lookup<T>(items: seq<T>, id: string, idOf: T -> string): (found: Option<T>)
    ensures found.Some? ==> found.value in items && idOf(found.value) == id
  {
    if items == [] then None
    else if idOf(items[|items| - 1]) == id then Some(items[|items| - 1])
    else Lookup(items[..|items| - 1], id, idOf)
  }

  function FindClaim(claims: seq<Claim>, id: string): (found: Option<Claim>)
    ensures found.Some? ==> found.value in claims && found.value.id == id
  {
    Lookup(claims, id, (c: Claim) => c.id)
  }

  function FindRecord(records: seq<Record>, id: string): (found: Option<Record>)
    ensures found.Some? ==> found.value in records && found.value.id == id
  {
    Lookup(records, id, (r: Record) => r.id)
  }

  function LiveOwner(source: Source, card: Card): Option<Record> {
    if card.publication.liveId.Some? && card.publication.liveId.value != "" then
      FindRecord(source.records, card.publication.liveId.value)
    else None
  }

  /** `_card_has_response_owner` */
  predicate HasOwner(source: Source, card: Card) {
    || FindClaim(source.claims, card.claimId).Some?
    || FindRecord(source.records, card.claimId).Some?
    || (card.state.LiveTyped? && card.publication.kind.OfficialLiveTyped? && LiveOwner(source, card).Some?)
  }

  /** A card with the fields of a record in place of its own. */
  function ReboundForm(card: Card, record: Record): Card {
    var title := if card.text.title != "" then card.text.title
                 else if record.name != "" then record.name
                 else record.id;
    var text := CardText(
                  card.text.caption, record.authority, Some(record.status), title, record.revision,
                  card.text.review, card.text.critical, record.freshness, card.text.notes, record.url);
    var claimText := if card.state.LiveTyped? then record.typedText else Title(record);
    Card(card.claimId, claimText, card.state, text, record.derivation, LivePublication(record))
  }

  /** `_rebind_live_card` */
  function RebindLiveCard(source: Source, card: Card, record: Record): Option<Card> {
    var made := MakeCard(source, ReboundForm(card, record), source.rejected);
    if made.None? then None else if source.rejected then UnknownCard(source, made.value) else made
  }

  /** `_proof_card_matches_claim` */
  predicate MatchesClaim(card: Card, claim: Claim, expected: SupportState) {
    && card.state == expected && card.claimText == claim.text && card.publication == BoundPublication(claim)
    && LiveIdMatches(card, ClaimIdentities(claim))
  }

  function FirstRecord(source: Source, ids: seq<string>): Option<Record> {
    if ids == [] then None
    else if FindRecord(source.records, ids[0]).Some? then FindRecord(source.records, ids[0])
    else FirstRecord(source, ids[1..])
  }

  /** The record a card without a claim belongs to: by its ID, its live fact, or the inputs of its derivation. */
  function CardRecord(source: Source, card: Card): Option<Record> {
    var own := FindRecord(source.records, card.claimId);
    var bound := if own.None? then LiveOwner(source, card) else own;
    if bound.None? && !IsLiveTyped(card) && card.derivation.Some? then
      FirstRecord(source, card.derivation.value.inputIds)
    else bound
  }

  /** `_preserve_existing_card` for a card of a claim */
  function PreserveClaimCard(source: Source, card: Card, claim: Claim, url: Option<string>): Option<Card> {
    var expected := SupportStateOf(source, claim);
    if card.state.Unknown? || expected.Unknown? then UnknownCard(source, card)
    else if !MatchesClaim(card, claim, expected) then ClaimCard(source, claim, url)
    else Some(card)
  }

  /** `_preserve_existing_card` for any other card */
  function PreserveOtherCard(source: Source, card: Card): Option<Card> {
    var record := CardRecord(source, card);
    if IsLiveTyped(card) && (record.None? || !LiveIdMatches(card, {record.value.id})) then UnknownCard(source, card)
    else if record.Some? && (card.state.LiveRecord? || card.state.LiveTyped?) then
      if source.mentionsDistance(card.claimText) && record.value.derivation.None? then UnknownCard(source, card)
      else RebindLiveCard(source, card, record.value)
    else if card.state.Unknown? then UnknownCard(source, card)
    else Some(card)
  }

  /** `_preserve_existing_card` */
  function PreserveCard(source: Source, card: Card, url: Option<string>): Option<Card> {
    var claim := FindClaim(source.claims, card.claimId);
    if claim.Some? then PreserveClaimCard(source, card, claim.value, url) else PreserveOtherCard(source, card)
  }

  // ---------- when the card model raises ----------

  /**
   The unknown form drops the derivation that the card model demands for a text with a distance, so a
   card can be neutralised only if it states none.
   */
  predicate CanNeutralise(source: Source, card: Card) {
    !source.mentionsDistance(card.claimText) && source.otherChecks(UnknownForm(card))
  }

  lemma {:induction false} NeutralisedIff(source: Source, card: Card)
    ensures UnknownCard(source, card).Some? <==> CanNeutralise(source, card)
  {
    assert PublicationFits(UnknownForm(card));
  }

  /** The card asked for with the authority of an unknown one. */
  function Downgraded(card: Card): Card {
    card.(state := Unknown, publication := UNSUPPORTED)
  }

  /** A claim's card has no derivation, so it can be built only for a text without a distance. */
  predicate ClaimBuildable(source: Source, claim: Claim, url: Option<string>) {
    var card, publication := ClaimForm(source, claim, url), BoundPublication(claim);
    && !source.mentionsDistance(claim.text)
    && if SupportStateOf(source, claim).Unknown? then
         source.otherChecks(Downgraded(card)) && source.otherChecks(UnknownForm(card))
       else
         && (publication.kind.OfficialLiveTyped? ==> publication.liveId.Some? && publication.liveId.value != "")
         && source.otherChecks(card)
  }

  lemma {:induction false} ClaimCardIff(source: Source, claim: Claim, url: Option<string>)
    ensures ClaimCard(source, claim, url).Some? <==> ClaimBuildable(source, claim, url)
  {
    var card := ClaimForm(source, claim, url);
    if SupportStateOf(source, claim).Unknown? {
      assert UnknownForm(Downgraded(card)) == UnknownForm(card);
      NeutralisedIff(source, Downgraded(card));
    }
  }

  /** The record has an ID, and the derivation of its distance, if any, was made for it. */
  predicate Bindable(record: Record) {
    record.id != "" && (record.derivation.Some? && record.derivation.value.inputIds != [] ==>
                          record.id in record.derivation.value.inputIds)
  }

  predicate LiveBuildable(source: Source, record: Record) {
    var card := LiveForm(record);
    if source.rejected then
      && !source.mentionsDistance(Title(record))
      && source.otherChecks(Downgraded(card)) && source.otherChecks(UnknownForm(card))
    else
      && (source.mentionsDistance(Title(record)) ==> record.derivation.Some?)
      && Bindable(record) && source.otherChecks(card)
  }

  lemma {:induction false} LiveCardIff(source: Source, record: Record)
    ensures LiveCard(source, record).Some? <==> LiveBuildable(source, record)
  {
    var card := LiveForm(record);
    if source.rejected {
      assert UnknownForm(Downgraded(card)) == UnknownForm(card);
      NeutralisedIff(source, Downgraded(card));
    }
  }

  /** A card that neither belongs to its record any more nor shows a fact. */
  predicate LosesRecord(source: Source, card: Card) {
    var record := CardRecord(source, card);
    || card.state.Unknown?
    || (IsLiveTyped(card) && (record.None? || !LiveIdMatches(card, {record.value.id})))
  }

  /** A card in place can be kept: neutralised, built again for its claim, bound to its record, or left alone. */
  predicate Keepable(source: Source, card: Card, url: Option<string>) {
    var claim, record := FindClaim(source.claims, card.claimId), CardRecord(source, card);
    if claim.Some? then
      var expected := SupportStateOf(source, claim.value);
      if card.state.Unknown? || expected.Unknown? then CanNeutralise(source, card)
      else MatchesClaim(card, claim.value, expected) || ClaimBuildable(source, claim.value, url)
    else if LosesRecord(source, card) then CanNeutralise(source, card)
    else
      record.Some? && (card.state.LiveRecord? || card.state.LiveTyped?) ==>
        var rebound := ReboundForm(card, record.value);
        && (source.mentionsDistance(card.claimText) || source.mentionsDistance(rebound.claimText) ==>
              record.value.derivation.Some?)
        && Bindable(record.value) && source.otherChecks(rebound)
  }

  lemma {:induction false} ReboundIff(source: Source, card: Card, record: Record)
    requires !source.rejected && (card.state.LiveRecord? || card.state.LiveTyped?)
    ensures
      var rebound := ReboundForm(card, record);
      RebindLiveCard(source, card, record).Some? <==>
      && (source.mentionsDistance(rebound.claimText) ==> record.derivation.Some?)
      && Bindable(record) && source.otherChecks(rebound)
  {
  }

  lemma {:induction false} KeptIff(source: Source, card: Card, url: Option<string>)
    requires !source.rejected
    ensures PreserveCard(source, card, url).Some? <==> Keepable(source, card, url)
  {
    var claim, record := FindClaim(source.claims, card.claimId), CardRecord(source, card);
    NeutralisedIff(source, card);
    if claim.Some? {
      ClaimCardIff(source, claim.value, url);
    } else if record.Some? && (card.state.LiveRecord? || card.state.LiveTyped?) {
      ReboundIff(source, card, record.value);
    }
  }

  // ---------- keeping twice is keeping once ----------

  /** A kept card is valid, still owned, and keeping it again changes nothing. */
  ghost predicate Settled(source: Source, card: Card, url: Option<string>) {
    ValidCard(source, card) && HasOwner(source, card) && PreserveCard(source, card, url) == Some(card)
  }

  lemma {:induction false} UnknownSettles(source: Source, card: Card, url: Option<string>)
    requires UnknownCard(source, card).Some?
    requires FindClaim(source.claims, card.claimId).Some? || FindRecord(source.records, card.claimId).Some?
    ensures Settled(source, UnknownCard(source, card).value, url)
  {
    assert UnknownForm(UnknownForm(card)) == UnknownForm(card);
  }

  lemma {:induction false} ClaimCardSettles(source: Source, claim: Claim, url: Option<string>)
    requires FindClaim(source.claims, claim.id) == Some(claim) && ClaimCard(source, claim, url).Some?
    ensures Settled(source, ClaimCard(source, claim, url).value, url)
  {
    if SupportStateOf(source, claim).Unknown? {
      UnknownSettles(source, ClaimCard(source, claim, url).value, url);
    }
  }

  lemma {:induction false} LookupFinds<T>(items: seq<T>, item: T, idOf: T -> string)
    requires item in items
    ensures Lookup(items, idOf(item), idOf).Some?
  {
    var n := |items| - 1;
    if idOf(items[n]) != idOf(item) {
      LookupFinds(items[..n], item, idOf);
    }
  }

  lemma {:induction false} RecordFound(records: seq<Record>, record: Record)
    requires record in records
    ensures FindRecord(records, record.id).Some?
  {
    LookupFinds(records, record, (r: Record) => r.id);
  }

  /** Two records whose cards show the same. */
  predicate ShowAlike(a: Record, b: Record) {
    && Title(a) == Title(b) && a.authority == b.authority && a.status == b.status && a.revision == b.revision
    && a.freshness == b.freshness && a.url == b.url && a.derivation == b.derivation
  }

  /** The card built for a record is bound to the last record of that ID, and stays only if that one shows the same. */
  lemma {:induction false} LiveCardStaysIff(source: Source, record: Record, url: Option<string>)
    requires source.claims == [] && !source.rejected && record in source.records && LiveCard(source, record).Some?
    ensures FindRecord(source.records, record.id).Some?
    ensures
      var card, last := LiveCard(source, record).value, FindRecord(source.records, record.id).value;
      HasOwner(source, card) && (PreserveCard(source, card, url) == Some(card) <==> ShowAlike(record, last))
  {
    RecordFound(source.records, record);
    var card, last := LiveCard(source, record).value, FindRecord(source.records, record.id).value;
    assert record.id != "" && card.publication.liveId == Some(record.id);
    assert CardRecord(source, card) == Some(last);
    if source.mentionsDistance(card.claimText) && last.derivation.None? {
      NeutralisedIff(source, card);
      assert record.derivation.Some?;
    } else {
      assert PreserveCard(source, card, url) == RebindLiveCard(source, card, last);
      if ShowAlike(record, last) {
        assert LivePublication(last) == card.publication;
      }
    }
  }

  /** A rebound card finds the same record again and is rebound to what it already is. */
  lemma {:induction false} ReboundSettles(source: Source, card: Card, record: Record, url: Option<string>)
    requires !source.rejected && FindClaim(source.claims, card.claimId).None? && record.id != ""
    requires PublicationFits(card) && HasOwner(source, card) && CardRecord(source, card) == Some(record)
    requires card.state.LiveRecord? || card.state.LiveTyped?
    requires RebindLiveCard(source, card, record).Some?
    ensures Settled(source, RebindLiveCard(source, card, record).value, url)
  {
    var kept := RebindLiveCard(source, card, record).value;
    assert HasOwner(source, kept);
    assert CardRecord(source, kept) == Some(record);
    assert RebindLiveCard(source, kept, record) == Some(kept);
  }

  lemma {:induction false} OtherCardSettles(source: Source, card: Card, url: Option<string>)
    requires ValidCard(source, card) && HasOwner(source, card) && FindClaim(source.claims, card.claimId).None?
    requires PreserveOtherCard(source, card).Some? && !source.rejected
    requires forall r :: r in source.records ==> r.id != ""
    ensures Settled(source, PreserveOtherCard(source, card).value, url)
  {
    var record := CardRecord(source, card);
    if card.state.LiveRecord? || card.state.LiveTyped? {
      if record.Some? && LiveIdMatches(card, {record.value.id}) {
        NeutralisedIff(source, card);
        ReboundSettles(source, card, record.value, url);
      } else {
        UnknownSettles(source, card, url);
      }
    } else if card.state.Unknown? && FindRecord(source.records, card.claimId).Some? {
      UnknownSettles(source, card, url);
    }
  }

  /** Keeping an owned card once is enough. */
  lemma {:induction false} PreservedCardSettles(source: Source, card: Card, url: Option<string>)
    requires ValidCard(source, card) && HasOwner(source, card) && !source.rejected
    requires forall r :: r in source.records ==> r.id != ""
    requires forall c :: c in source.claims ==> FindClaim(source.claims, c.id) == Some(c)
    requires PreserveCard(source, card, url).Some?
    ensures Settled(source, PreserveCard(source, card, url).value, url)
  {
    var claim := FindClaim(source.claims, card.claimId);
    if claim.None? {
      OtherCardSettles(source, card, url);
    } else if card.state.Unknown? || SupportStateOf(source, claim.value).Unknown? {
      UnknownSettles(source, card, url);
    } else if !MatchesClaim(card, claim.value, SupportStateOf(source, claim.value)) {
      ClaimCardSettles(source, claim.value, url);
    }
  }
}
