/**
 Attaching the proof fields of a response in place (`attach_proof_presentation` and the builders it
 calls, src/firelens/proof_presentation.py:65-188), and what no attachment can do to authority.
 */
module ProofPresentation {
  import opened Wrappers
  import opened Sequences
  import opened ProofCards

  const MAX_ITEMS := 12

  // ---------- building and keeping lists of cards; `None` is a card that raised ----------

  function ClaimCards(source: Source, claims: seq<Claim>, url: Option<string>): Option<seq<Card>> {
    if claims == [] then Some([])
    else
      var before, last := ClaimCards(source, claims[..|claims| - 1], url), ClaimCard(source, claims[|claims| - 1], url);
      if before.None? || last.None? then None else Some(before.value + [last.value])
  }

  function LiveCards(source: Source, records: seq<Record>): Option<seq<Card>> {
    if records == [] then Some([])
    else
      var before, last := LiveCards(source, records[..|records| - 1]), LiveCard(source, records[|records| - 1]);
      if before.None? || last.None? then None else Some(before.value + [last.value])
  }

  function FirstItems<T>(items: seq<T>): seq<T> {
    if |items| <= MAX_ITEMS then items else items[..MAX_ITEMS]
  }

  /** `build_proof_cards` */
  function BuildCards(source: Source, url: Option<string>): Option<seq<Card>> {
    var cards := if source.claims != [] then ClaimCards(source, source.claims, url)
                 else LiveCards(source, source.records);
    if cards.None? then None else Some(FirstItems(cards.value))
  }

  /** Every owned card, kept. */
  function KeepCards(source: Source, cards: seq<Card>, url: Option<string>): Option<seq<Card>> {
    if cards == [] then Some([])
    else
      var before, last := KeepCards(source, cards[..|cards| - 1], url), cards[|cards| - 1];
      if before.None? then None
      else if !HasOwner(source, last) then before
      else
        var kept := PreserveCard(source, last, url);
        if kept.None? then None else Some(before.value + [kept.value])
  }

  function CardsAfter(source: Source, cards: seq<Card>, url: Option<string>): Option<seq<Card>> {
    if source.rejected || cards == [] then BuildCards(source, url) else KeepCards(source, cards, url)
  }

  // ---------- the other fields ----------

  datatype Banner = Banner(text: string, title: Option<string>, url: Option<string>)

  /**
   What the proof fields are derived from. `escalation` is the link given by partial layers, related
   links, evidence or records, if any; the texts are the already clipped lines of the item lists.
   */
  datatype Inputs = Inputs(
    source: Source,
    escalation: Option<(string, string)>,
    bannerText: string,
    claimLine: Claim -> string,
    recordLine: Record -> string,
    unknownLines: seq<string>
  )

  datatype Presentation = Presentation(
    banner: Option<Banner>,
    supported: seq<string>,
    unknown: seq<string>,
    cards: seq<Card>
  )

  /** `_escalation`: the last resort is the link of the banner in place. */
  function Escalation(inputs: Inputs, banner: Option<Banner>): (Option<string>, Option<string>) {
    if inputs.escalation.Some? then (Some(inputs.escalation.value.0), Some(inputs.escalation.value.1))
    else if banner.Some? && banner.value.title.Some? && banner.value.title.value != "" && banner.value.url.Some? then
      (banner.value.title, banner.value.url)
    else (None, None)
  }

  function BannerAfter(inputs: Inputs, banner: Option<Banner>): Option<Banner> {
    if inputs.source.rejected || banner.None? then
      var link := Escalation(inputs, banner);
      Some(Banner(inputs.bannerText, link.0, link.1))
    else banner
  }

  function SupportedClaimLines(inputs: Inputs, claims: seq<Claim>): seq<string> {
    if claims == [] then []
    else
      var last := claims[|claims| - 1];
      var state := SupportStateOf(inputs.source, last);
      SupportedClaimLines(inputs, claims[..|claims| - 1]) +
      if state.Supported? || state.Reviewed? || state.LiveTyped? then [inputs.claimLine(last)] else []
  }

  function RecordLines(inputs: Inputs, records: seq<Record>): seq<string> {
    if records == [] then []
    else RecordLines(inputs, records[..|records| - 1]) + [inputs.recordLine(records[|records| - 1])]
  }

  function SupportedAfter(inputs: Inputs, supported: seq<string>): seq<string> {
    if supported != [] then supported
    else FirstItems(SupportedClaimLines(inputs, inputs.source.claims) + RecordLines(inputs, inputs.source.records))
  }

  function UnknownAfter(inputs: Inputs, unknown: seq<string>): seq<string> {
    if unknown != [] then unknown else FirstItems(Deduplicated(inputs.unknownLines))
  }

  function LinkAfter(inputs: Inputs, banner: Option<Banner>): Option<string> {
    Escalation(inputs, BannerAfter(inputs, banner)).1
  }

  /** The fields after attaching; when a card raises, the other fields are already set. */
  function Attached(inputs: Inputs, p: Presentation): (Presentation, bool) {
    var cards := CardsAfter(inputs.source, p.cards, LinkAfter(inputs, p.banner));
    (Presentation(
       BannerAfter(inputs, p.banner), SupportedAfter(inputs, p.supported), UnknownAfter(inputs, p.unknown),
       if cards.Some? then cards.value else p.cards),
     cards.Some?)
  }

  /** The proof fields of `AskResponse`. */
  class ProofFields {
    const inputs: Inputs
    var banner: Option<Banner>
    var supportedItems: seq<string>
    var unknownItems: seq<string>
    var proofCards: seq<Card>

    constructor (inputs: Inputs, fields: Presentation)
      ensures this.inputs == inputs && Fields() == fields
    {
      this.inputs := inputs;
      banner, supportedItems, unknownItems, proofCards := fields.banner, fields.supported, fields.unknown, fields.cards;
    }

    function Fields(): Presentation
      reads this
    {
      Presentation(banner, supportedItems, unknownItems, proofCards)
    }

    /** `attach_proof_presentation`; false stands for a card that raised. */
    method Attach() returns (attached: bool)
      modifies this
      ensures (Fields(), attached) == Attached(inputs, old(Fields()))
    {
      var source := inputs.source;
      if source.rejected || banner.None? {
        var link := Escalation(inputs, banner);
        banner := Some(Banner(inputs.bannerText, link.0, link.1));
      }
      if supportedItems == [] {
        supportedItems := SupportedAfter(inputs, []);
      }
      if unknownItems == [] {
        unknownItems := UnknownAfter(inputs, []);
      }
      var url := Escalation(inputs, banner).1;
      var cards := if source.rejected || proofCards == [] then BuildCards(source, url)
                   else KeepCards(source, proofCards, url);
      if cards.None? {
        return false;
      }
      proofCards := cards.value;
      return true;
    }
  }

  // ---------- well-formed responses ----------

  /** Claim IDs are unique and record IDs are not empty, as their models demand; records may share an ID. */
  ghost predicate WellFormed(source: Source) {
    && (forall c :: c in source.claims ==> FindClaim(source.claims, c.id) == Some(c))
    && (forall r :: r in source.records ==> r.id != "")
  }

  /** Cards that are in place passed the checks of the card model. */
  ghost predicate AllValid(source: Source, cards: seq<Card>) {
    forall c :: c in cards ==> ValidCard(source, c)
  }

  ghost predicate AllSettled(source: Source, cards: seq<Card>, url: Option<string>) {
    forall c :: c in cards ==> Settled(source, c, url)
  }

  // ---------- idempotence ----------

  lemma {:induction false} ClaimCardsSettle(source: Source, claims: seq<Claim>, url: Option<string>)
    requires WellFormed(source) && ClaimCards(source, claims, url).Some?
    requires forall c :: c in claims ==> c in source.claims
    ensures AllSettled(source, ClaimCards(source, claims, url).value, url)
    ensures |ClaimCards(source, claims, url).value| == |claims|
  {
    if claims != [] {
      ClaimCardsSettle(source, claims[..|claims| - 1], url);
      ClaimCardSettles(source, claims[|claims| - 1], url);
    }
  }

  lemma {:induction false} LiveCardsLength(source: Source, records: seq<Record>)
    requires LiveCards(source, records).Some?
    ensures |LiveCards(source, records).value| == |records|
  {
    if records != [] {
      LiveCardsLength(source, records[..|records| - 1]);
    }
  }

  lemma {:induction false} LiveCardsAt(source: Source, records: seq<Record>, i: nat)
    requires LiveCards(source, records).Some? && i < |records|
    ensures |LiveCards(source, records).value| == |records|
    ensures Some(LiveCards(source, records).value[i]) == LiveCard(source, records[i])
  {
    var n := |records| - 1;
    LiveCardsLength(source, records[..n]);
    if i < n {
      LiveCardsAt(source, records[..n], i);
    }
  }

  lemma {:induction false} KeptCardsSettle(source: Source, cards: seq<Card>, url: Option<string>)
    requires WellFormed(source) && !source.rejected && AllValid(source, cards) && KeepCards(source, cards, url).Some?
    ensures AllSettled(source, KeepCards(source, cards, url).value, url)
    ensures KeepCards(source, cards, url).value == [] <==> forall c :: c in cards ==> !HasOwner(source, c)
  {
    if cards != [] {
      var before, last := cards[..|cards| - 1], cards[|cards| - 1];
      assert forall c :: c in cards <==> c in before || c == last;
      KeptCardsSettle(source, before, url);
      if HasOwner(source, last) {
        PreservedCardSettles(source, last, url);
      }
    }
  }

  ghost predicate AllOwned(source: Source, cards: seq<Card>) {
    forall c :: c in cards ==> HasOwner(source, c)
  }

  ghost predicate AllStay(source: Source, cards: seq<Card>, url: Option<string>) {
    forall c :: c in cards ==> PreserveCard(source, c, url) == Some(c)
  }

  lemma {:induction false} KeptLength(source: Source, cards: seq<Card>, url: Option<string>)
    requires AllOwned(source, cards) && KeepCards(source, cards, url).Some?
    ensures |KeepCards(source, cards, url).value| == |cards|
  {
    if cards != [] {
      KeptLength(source, cards[..|cards| - 1], url);
    }
  }

  /** Keeping owned cards changes nothing exactly when no single card changes. */
  lemma {:induction false} CardsStayIff(source: Source, cards: seq<Card>, url: Option<string>)
    requires AllOwned(source, cards)
    ensures KeepCards(source, cards, url) == Some(cards) <==> AllStay(source, cards, url)
  {
    if cards != [] {
      var before, last := cards[..|cards| - 1], cards[|cards| - 1];
      assert cards == before + [last];
      assert HasOwner(source, last);
      CardsStayIff(source, before, url);
      var kept := KeepCards(source, before, url);
      if kept.Some? {
        KeptLength(source, before, url);
        assert forall c :: kept.value + [c] == cards <==> kept.value == before && c == last by {
          forall c | kept.value + [c] == cards ensures kept.value == before && c == last {
            assert (kept.value + [c])[..|before|] == kept.value && (kept.value + [c])[|before|] == c;
          }
        }
      }
    }
  }

  lemma {:induction false} SettledCardsStay(source: Source, cards: seq<Card>, url: Option<string>)
    requires AllSettled(source, cards, url)
    ensures KeepCards(source, cards, url) == Some(cards)
  {
    forall c | c in cards ensures HasOwner(source, c) && PreserveCard(source, c, url) == Some(c) {
      assert Settled(source, c, url);
    }
    CardsStayIff(source, cards, url);
  }

  lemma {:induction false} BannerSettles(inputs: Inputs, banner: Option<Banner>)
    ensures BannerAfter(inputs, BannerAfter(inputs, banner)) == BannerAfter(inputs, banner)
  {
  }

  /** Cards in place of which none belongs to the response, although it has claims or records to show. */
  ghost predicate OnlyOrphans(source: Source, cards: seq<Card>) {
    && !source.rejected && cards != [] && (source.claims != [] || source.records != [])
    && forall c :: c in cards ==> !HasOwner(source, c)
  }

  /** Neither claims nor cards are there, so the cards are built from the records. */
  ghost predicate FromRecords(source: Source, cards: seq<Card>) {
    !source.rejected && cards == [] && source.claims == []
  }

  /** Every record that gets a card looks like the last record with its ID. */
  ghost predicate SameIdShowsAlike(source: Source) {
    forall i :: 0 <= i < |source.records| && i < MAX_ITEMS ==>
      var last := FindRecord(source.records, source.records[i].id);
      last.Some? && ShowAlike(source.records[i], last.value)
  }

  lemma {:induction false} BuiltLiveCardStaysIff(source: Source, url: Option<string>, i: nat)
    requires FromRecords(source, []) && BuildCards(source, url).Some? && i < |source.records| && i < MAX_ITEMS
    ensures i < |BuildCards(source, url).value|
    ensures FindRecord(source.records, source.records[i].id).Some?
    ensures
      var card := BuildCards(source, url).value[i];
      && HasOwner(source, card)
      && (PreserveCard(source, card, url) == Some(card) <==>
          ShowAlike(source.records[i], FindRecord(source.records, source.records[i].id).value))
  {
    LiveCardsAt(source, source.records, i);
    LiveCardStaysIff(source, source.records[i], url);
  }

  lemma {:induction false} BuiltLiveCardsStayIff(source: Source, url: Option<string>)
    requires FromRecords(source, []) && BuildCards(source, url).Some?
    ensures
      var cards := BuildCards(source, url).value;
      && (KeepCards(source, cards, url) == Some(cards) <==> SameIdShowsAlike(source))
      && (cards == [] <==> source.records == [])
  {
    var cards := BuildCards(source, url).value;
    LiveCardsLength(source, source.records);
    forall i | 0 <= i < |cards|
      ensures
        && HasOwner(source, cards[i]) && FindRecord(source.records, source.records[i].id).Some?
        && (PreserveCard(source, cards[i], url) == Some(cards[i]) <==>
            ShowAlike(source.records[i], FindRecord(source.records, source.records[i].id).value))
    {
      BuiltLiveCardStaysIff(source, url, i);
    }
    CardsStayIff(source, cards, url);
    assert AllStay(source, cards, url) <==>
           forall i :: 0 <= i < |cards| ==> PreserveCard(source, cards[i], url) == Some(cards[i]);
  }

  lemma {:induction false} BuiltClaimCardsSettle(source: Source, url: Option<string>)
    requires WellFormed(source) && source.claims != [] && BuildCards(source, url).Some?
    ensures AllSettled(source, BuildCards(source, url).value, url) && BuildCards(source, url).value != []
  {
    ClaimCardsSettle(source, source.claims, url);
  }

  lemma {:induction false} BuiltCardsAreShown(source: Source, url: Option<string>)
    requires BuildCards(source, url).Some?
    ensures BuildCards(source, url).value == [] <==> source.claims == [] && source.records == []
  {
    if source.claims != [] {
      ClaimCardsLength(source, source.claims, url);
    } else {
      LiveCardsLength(source, source.records);
    }
  }

  lemma {:induction false} ClaimCardsLength(source: Source, claims: seq<Claim>, url: Option<string>)
    requires ClaimCards(source, claims, url).Some?
    ensures |ClaimCards(source, claims, url).value| == |claims|
  {
    if claims != [] {
      ClaimCardsLength(source, claims[..|claims| - 1], url);
    }
  }

  lemma {:induction false} KeptCardsStayIff(source: Source, cards: seq<Card>, url: Option<string>)
    requires WellFormed(source) && AllValid(source, cards) && !source.rejected && cards != []
    requires KeepCards(source, cards, url).Some?
    ensures
      var after := KeepCards(source, cards, url);
      CardsAfter(source, after.value, url) == after <==> !OnlyOrphans(source, cards)
  {
    var after := KeepCards(source, cards, url).value;
    KeptCardsSettle(source, cards, url);
    SettledCardsStay(source, after, url);
    if BuildCards(source, url).Some? {
      BuiltCardsAreShown(source, url);
    }
  }

  lemma {:induction false} CardsSettleIff(source: Source, cards: seq<Card>, url: Option<string>)
    requires WellFormed(source) && AllValid(source, cards) && CardsAfter(source, cards, url).Some?
    ensures
      var after := CardsAfter(source, cards, url);
      CardsAfter(source, after.value, url) == after <==>
      !OnlyOrphans(source, cards) && (FromRecords(source, cards) ==> SameIdShowsAlike(source))
  {
    if FromRecords(source, cards) {
      BuiltLiveCardsStayIff(source, url);
    } else if !source.rejected && cards == [] {
      BuiltClaimCardsSettle(source, url);
      SettledCardsStay(source, BuildCards(source, url).value, url);
    } else if !source.rejected {
      KeptCardsStayIff(source, cards, url);
    }
  }

  /**
   Attaching is idempotent but for two cases: every card in place was an orphan, so that the first call
   removes them all and the second builds new ones; or cards were built from records of which a later
   one has the same ID and shows something else, so that the second call binds the card to that one.
   */
  lemma {:induction false} AttachingTwiceIff(inputs: Inputs, p: Presentation)
    requires WellFormed(inputs.source) && AllValid(inputs.source, p.cards) && Attached(inputs, p).1
    ensures
      Attached(inputs, Attached(inputs, p).0) == Attached(inputs, p) <==>
      !OnlyOrphans(inputs.source, p.cards) && (FromRecords(inputs.source, p.cards) ==> SameIdShowsAlike(inputs.source))
  {
    var once := Attached(inputs, p).0;
    BannerSettles(inputs, p.banner);
    CardsSettleIff(inputs.source, p.cards, LinkAfter(inputs, p.banner));
    assert SupportedAfter(inputs, once.supported) == once.supported;
    assert UnknownAfter(inputs, once.unknown) == once.unknown;
  }

  /** One of two records that share an ID. */
  function Twin(name: string): Record {
    Record("fire-1", name, "", name, "BC Wildfire Service", "Being Held", "", "FRESH", None, None)
  }

  function TwinSource(describe: (Claim, SupportState, Option<string>) -> CardText): Source {
    Source([], [Twin("First"), Twin("Second")], false, describe, _ => false, _ => true)
  }

  lemma {:induction false} OneMoreLiveCard(source: Source, records: seq<Record>, record: Record)
    requires LiveCards(source, records).Some? && LiveCard(source, record).Some?
    ensures LiveCards(source, records + [record]) ==
            Some(LiveCards(source, records).value + [LiveCard(source, record).value])
  {
    assert (records + [record])[..|records|] == records;
  }

  lemma {:induction false} OneMoreKeptCard(source: Source, cards: seq<Card>, card: Card, url: Option<string>)
    requires HasOwner(source, card) && KeepCards(source, cards, url).Some? && PreserveCard(source, card, url).Some?
    ensures KeepCards(source, cards + [card], url) ==
            Some(KeepCards(source, cards, url).value + [PreserveCard(source, card, url).value])
  {
    assert (cards + [card])[..|cards|] == cards;
  }

  lemma {:induction false} CardsOfTwo(source: Source, a: Record, b: Record)
    requires LiveCard(source, a).Some? && LiveCard(source, b).Some?
    ensures LiveCards(source, [a, b]) == Some([LiveCard(source, a).value, LiveCard(source, b).value])
  {
    OneMoreLiveCard(source, [], a);
    OneMoreLiveCard(source, [a], b);
    assert [] + [a] == [a] && [a] + [b] == [a, b];
    var first, second := LiveCard(source, a).value, LiveCard(source, b).value;
    assert [] + [first] + [second] == [first, second];
  }

  lemma {:induction false} TwoAreKept(source: Source, a: Card, b: Card, url: Option<string>)
    requires HasOwner(source, a) && HasOwner(source, b)
    requires PreserveCard(source, a, url).Some? && PreserveCard(source, b, url).Some?
    ensures KeepCards(source, [a, b], url) ==
            Some([PreserveCard(source, a, url).value, PreserveCard(source, b, url).value])
  {
    OneMoreKeptCard(source, [], a, url);
    OneMoreKeptCard(source, [a], b, url);
    assert [] + [a] == [a] && [a] + [b] == [a, b];
    var first, second := PreserveCard(source, a, url).value, PreserveCard(source, b, url).value;
    assert [] + [first] + [second] == [first, second];
  }

  lemma {:induction false} TwinCard(source: Source, name: string)
    requires source == TwinSource(source.describe) && (name == "First" || name == "Second")
    ensures LiveCard(source, Twin(name)).Some? && LiveCard(source, Twin(name)).value.claimText == name
  {
  }

  lemma {:induction false} TwinIsRebound(source: Source, name: string, url: Option<string>)
    requires source == TwinSource(source.describe) && (name == "First" || name == "Second")
    requires LiveCard(source, Twin(name)).Some?
    ensures
      var card := LiveCard(source, Twin(name)).value;
      && HasOwner(source, card) && PreserveCard(source, card, url).Some?
      && PreserveCard(source, card, url).value.claimText == "Second"
  {
    var card := LiveCard(source, Twin(name)).value;
    assert FindRecord(source.records, "fire-1") == Some(Twin("Second"));
    assert PreserveCard(source, card, url) == RebindLiveCard(source, card, Twin("Second"));
  }

  /** The second attachment rebinds the card of the first record to the second. */
  lemma {:induction false} SharedIdIsRebound(inputs: Inputs, p: Presentation)
    requires inputs.source == TwinSource(inputs.source.describe) && p.cards == []
    ensures
      var once := Attached(inputs, p);
      var twice := Attached(inputs, once.0);
      && WellFormed(inputs.source) && once.1 && twice.1
      && |once.0.cards| == 2 && once.0.cards[0].claimText == "First"
      && |twice.0.cards| == 2 && twice.0.cards[0].claimText == "Second"
  {
    var source, url := inputs.source, LinkAfter(inputs, p.banner);
    TwinCard(source, "First");
    TwinCard(source, "Second");
    CardsOfTwo(source, Twin("First"), Twin("Second"));
    TwinIsRebound(source, "First", url);
    TwinIsRebound(source, "Second", url);
    TwoAreKept(source, LiveCard(source, Twin("First")).value, LiveCard(source, Twin("Second")).value, url);
    BannerSettles(inputs, p.banner);
  }

  // ---------- authority ----------

  /** A card that establishes nothing. */
  predicate Neutral(card: Card) {
    && card.state.Unknown? && card.publication == UNSUPPORTED && card.derivation.None?
    && card.text.authority == "Authority not established" && card.text.passage.None?
    && card.text.title == "" && card.text.revision == "" && card.text.url.None?
  }

  /** The card of a claim says no more than the claim: nothing at all, or exactly its text, state and publication. */
  predicate CarriesClaim(source: Source, card: Card, claim: Claim) {
    || Neutral(card)
    || (&& card.state == SupportStateOf(source, claim) && card.publication == BoundPublication(claim)
        && card.claimText == claim.text)
  }

  /** A card shows what a record publishes. */
  predicate Restates(card: Card, record: Record) {
    && card.publication == LivePublication(record) && card.derivation == record.derivation
    && card.text.authority == record.authority && card.text.passage == Some(record.status)
    && card.text.revision == record.revision && card.text.freshness == record.freshness && card.text.url == record.url
    && card.claimText == if card.state.LiveTyped? then record.typedText else Title(record)
  }

  /** Nothing is established for a claim of a rejected response or with a failed critical field. */
  predicate NothingEstablished(source: Source, claim: Claim) {
    source.rejected || claim.criticalFailed
  }

  /** A settled card of a claim carries that claim's authority. */
  lemma {:induction false} SettledCardCarriesItsClaim(source: Source, card: Card, url: Option<string>)
    requires Settled(source, card, url) && FindClaim(source.claims, card.claimId).Some?
    ensures
      var claim := FindClaim(source.claims, card.claimId).value;
      && CarriesClaim(source, card, claim)
      && (NothingEstablished(source, claim) ==> Neutral(card))
  {
  }

  /** Any other settled card of live authority restates one record of the response. */
  lemma {:induction false} SettledLiveCardRestatesARecord(source: Source, card: Card, url: Option<string>)
    requires Settled(source, card, url) && FindClaim(source.claims, card.claimId).None? && !source.rejected
    requires card.state.LiveRecord? || card.state.LiveTyped?
    ensures exists r :: r in source.records && Restates(card, r)
  {
    var record := CardRecord(source, card).value;
    assert Restates(card, record);
  }

  lemma {:induction false} RejectedCardsAreNeutral(source: Source, url: Option<string>)
    requires source.rejected && BuildCards(source, url).Some?
    ensures forall c :: c in BuildCards(source, url).value ==> Neutral(c)
  {
    if source.claims != [] {
      RejectedClaimCards(source, source.claims, url);
    } else {
      RejectedLiveCards(source, source.records);
    }
  }

  lemma {:induction false} RejectedClaimCards(source: Source, claims: seq<Claim>, url: Option<string>)
    requires source.rejected && ClaimCards(source, claims, url).Some?
    ensures forall c :: c in ClaimCards(source, claims, url).value ==> Neutral(c)
  {
    if claims != [] {
      RejectedClaimCards(source, claims[..|claims| - 1], url);
    }
  }

  lemma {:induction false} RejectedLiveCards(source: Source, records: seq<Record>)
    requires source.rejected && LiveCards(source, records).Some?
    ensures forall c :: c in LiveCards(source, records).value ==> Neutral(c)
  {
    if records != [] {
      RejectedLiveCards(source, records[..|records| - 1]);
    }
  }

  /**
   After any attachment that succeeds: a rejected response shows only neutral cards, and every card of a
   claim is neutral or carries exactly the claim's authority, neutral if a critical field failed.
   */
  lemma {:induction false} NoAttachmentStrengthensAuthority(inputs: Inputs, p: Presentation)
    requires WellFormed(inputs.source) && AllValid(inputs.source, p.cards) && Attached(inputs, p).1
    ensures
      var source, cards := inputs.source, Attached(inputs, p).0.cards;
      && (source.rejected ==> forall c :: c in cards ==> Neutral(c))
      && (forall c :: c in cards && FindClaim(source.claims, c.claimId).Some? ==>
            var claim := FindClaim(source.claims, c.claimId).value;
            CarriesClaim(source, c, claim) && (NothingEstablished(source, claim) ==> Neutral(c)))
  {
    var source, cards, url := inputs.source, Attached(inputs, p).0.cards, LinkAfter(inputs, p.banner);
    if source.claims != [] {
      AttachedCardsAreSettled(source, p.cards, url);
    }
    forall c | c in cards && FindClaim(source.claims, c.claimId).Some?
      ensures
        var claim := FindClaim(source.claims, c.claimId).value;
        CarriesClaim(source, c, claim) && (NothingEstablished(source, claim) ==> Neutral(c))
    {
      SettledCardCarriesItsClaim(source, c, url);
    }
    if source.rejected {
      RejectedCardsAreNeutral(source, url);
    }
  }

  lemma {:induction false} AttachedCardsAreSettled(source: Source, cards: seq<Card>, url: Option<string>)
    requires WellFormed(source) && AllValid(source, cards) && CardsAfter(source, cards, url).Some?
    requires source.claims != [] || (!source.rejected && cards != [])
    ensures AllSettled(source, CardsAfter(source, cards, url).value, url)
  {
    if source.rejected || cards == [] {
      BuiltClaimCardsSettle(source, url);
    } else {
      KeptCardsSettle(source, cards, url);
    }
  }

  lemma {:induction false} BuiltLiveCardRestatesARecord(source: Source, url: Option<string>, card: Card)
    requires FromRecords(source, []) && BuildCards(source, url).Some? && card in BuildCards(source, url).value
    ensures exists r :: r in source.records && Restates(card, r)
  {
    LiveCardsLength(source, source.records);
    var i :| 0 <= i < |BuildCards(source, url).value| && BuildCards(source, url).value[i] == card;
    LiveCardsAt(source, source.records, i);
    assert Restates(card, source.records[i]);
  }

  /** Live authority outside claims is always that of a record of the same response. */
  lemma {:induction false} LiveCardsRestateRecords(inputs: Inputs, p: Presentation, card: Card)
    requires WellFormed(inputs.source) && AllValid(inputs.source, p.cards) && Attached(inputs, p).1
    requires card in Attached(inputs, p).0.cards && FindClaim(inputs.source.claims, card.claimId).None?
    requires card.state.LiveRecord? || card.state.LiveTyped?
    ensures exists r :: r in inputs.source.records && Restates(card, r)
  {
    var source, url := inputs.source, LinkAfter(inputs, p.banner);
    if source.rejected {
      RejectedCardsAreNeutral(source, url);
    } else if FromRecords(source, p.cards) {
      BuiltLiveCardRestatesARecord(source, url, card);
    } else {
      AttachedCardsAreSettled(source, p.cards, url);
      SettledLiveCardRestatesARecord(source, card, url);
    }
  }

  // ---------- built cards ----------

  predicate Names(card: Option<Card>, id: string, text: string) {
    card.Some? ==> card.value.claimId == id && card.value.claimText == text
  }

  lemma {:induction false} ClaimCardNames(source: Source, claim: Claim, url: Option<string>)
    ensures Names(ClaimCard(source, claim, url), claim.id, claim.text)
  {
  }

  lemma {:induction false} LiveCardNames(source: Source, record: Record)
    ensures Names(LiveCard(source, record), record.id, Title(record))
  {
  }

  lemma {:induction false} ClaimCardsAt(source: Source, claims: seq<Claim>, url: Option<string>, i: nat)
    requires ClaimCards(source, claims, url).Some? && i < |claims|
    ensures |ClaimCards(source, claims, url).value| == |claims|
    ensures Some(ClaimCards(source, claims, url).value[i]) == ClaimCard(source, claims[i], url)
  {
    var n := |claims| - 1;
    ClaimCardsLength(source, claims[..n], url);
    if i < n {
      ClaimCardsAt(source, claims[..n], url, i);
    }
  }

  lemma {:induction false} ClaimCardsFollowClaims(source: Source, claims: seq<Claim>, url: Option<string>, i: nat)
    requires ClaimCards(source, claims, url).Some? && i < |claims|
    ensures
      var cards := ClaimCards(source, claims, url).value;
      |cards| == |claims| && cards[i].claimId == claims[i].id && cards[i].claimText == claims[i].text
  {
    ClaimCardsAt(source, claims, url, i);
    ClaimCardNames(source, claims[i], url);
  }

  lemma {:induction false} LiveCardsFollowRecords(source: Source, records: seq<Record>, i: nat)
    requires LiveCards(source, records).Some? && i < |records|
    ensures
      var cards := LiveCards(source, records).value;
      |cards| == |records| && cards[i].claimId == records[i].id && cards[i].claimText == Title(records[i])
  {
    LiveCardsAt(source, records, i);
    LiveCardNames(source, records[i]);
  }

  /** Built cards are those of the first twelve claims in order or, without any claim, of the first twelve records. */
  lemma {:induction false} BuiltCardsFollowTheResponse(source: Source, url: Option<string>)
    requires BuildCards(source, url).Some?
    ensures
      var cards, n := BuildCards(source, url).value, if source.claims != [] then |source.claims| else |source.records|;
      && |cards| == (if n <= MAX_ITEMS then n else MAX_ITEMS)
      && (source.claims != [] ==>
            forall i :: 0 <= i < |cards| ==>
                cards[i].claimId == source.claims[i].id && cards[i].claimText == source.claims[i].text)
      && (source.claims == [] ==>
            forall i :: 0 <= i < |cards| ==>
                cards[i].claimId == source.records[i].id && cards[i].claimText == Title(source.records[i]))
  {
    if source.claims != [] {
      forall i | 0 <= i < |source.claims|
        ensures
          var cards := ClaimCards(source, source.claims, url).value;
          |cards| == |source.claims| && cards[i].claimId == source.claims[i].id &&
              cards[i].claimText == source.claims[i].text
      {
        ClaimCardsFollowClaims(source, source.claims, url, i);
      }
      ClaimCardsFollowClaims(source, source.claims, url, 0);
    } else if source.records != [] {
      forall i | 0 <= i < |source.records|
        ensures
          var cards := LiveCards(source, source.records).value;
          |cards| == |source.records| && cards[i].claimId == source.records[i].id &&
              cards[i].claimText == Title(source.records[i])
      {
        LiveCardsFollowRecords(source, source.records, i);
      }
      LiveCardsFollowRecords(source, source.records, 0);
    }
  }

  // ---------- cards in place ----------

  function Owned(source: Source, cards: seq<Card>): seq<Card> {
    if cards == [] then []
    else
      var last := cards[|cards| - 1];
      if HasOwner(source, last) then Owned(source, cards[..|cards| - 1]) + [last]
      else Owned(source, cards[..|cards| - 1])
  }

  /** What keeping may do to one card. */
  predicate KeptFrom(source: Source, kept: Card, card: Card) {
    && kept.claimId == card.claimId
    && (card.state.Unknown? ==> Neutral(kept))
    && (kept.state == card.state || Neutral(kept) || FindClaim(source.claims, card.claimId).Some?)
  }

  lemma {:induction false} KeepingClaimCard(source: Source, card: Card, claim: Claim, url: Option<string>)
    requires FindClaim(source.claims, card.claimId) == Some(claim)
    requires PreserveClaimCard(source, card, claim, url).Some?
    ensures KeptFrom(source, PreserveClaimCard(source, card, claim, url).value, card)
  {
  }

  lemma {:induction false} ReboundIsKept(source: Source, card: Card, record: Record)
    requires !card.state.Unknown?
    ensures
      var rebound := RebindLiveCard(source, card, record);
      rebound.Some? ==> KeptFrom(source, rebound.value, card)
  {
  }

  lemma {:induction false} NeutralisedIsKept(source: Source, card: Card)
    ensures UnknownCard(source, card).Some? ==> KeptFrom(source, UnknownCard(source, card).value, card)
  {
  }

  /** A card without a claim is neutralised, rebound to its record, or left as it is. */
  lemma {:induction false} OtherCardOutcomes(source: Source, card: Card)
    ensures
      var record, kept := CardRecord(source, card), PreserveOtherCard(source, card);
      || kept == UnknownCard(source, card)
      || (record.Some? && !card.state.Unknown? && kept == RebindLiveCard(source, card, record.value))
      || (!card.state.Unknown? && kept == Some(card))
  {
  }

  lemma {:induction false} KeepingOtherCard(source: Source, card: Card)
    requires PreserveOtherCard(source, card).Some?
    ensures KeptFrom(source, PreserveOtherCard(source, card).value, card)
  {
    OtherCardOutcomes(source, card);
    NeutralisedIsKept(source, card);
    if CardRecord(source, card).Some? && !card.state.Unknown? {
      ReboundIsKept(source, card, CardRecord(source, card).value);
    }
  }

  lemma {:induction false} KeepingOne(source: Source, card: Card, url: Option<string>)
    requires PreserveCard(source, card, url).Some? && ValidCard(source, card)
    ensures KeptFrom(source, PreserveCard(source, card, url).value, card)
  {
    var claim := FindClaim(source.claims, card.claimId);
    if claim.Some? {
      KeepingClaimCard(source, card, claim.value, url);
    } else {
      KeepingOtherCard(source, card);
    }
  }

  /**
   Cards in place are kept one for one, in order, without the orphans. An unknown card stays unknown,
   and only the card of a claim can change to another state than unknown.
   */
  lemma {:induction false} UnknownIsNeverUpgraded(source: Source, cards: seq<Card>, url: Option<string>)
    requires AllValid(source, cards) && KeepCards(source, cards, url).Some?
    ensures
      var kept, owned := KeepCards(source, cards, url).value, Owned(source, cards);
      |kept| == |owned| && forall i :: 0 <= i < |owned| ==> KeptFrom(source, kept[i], owned[i])
  {
    if cards != [] {
      var before, last := cards[..|cards| - 1], cards[|cards| - 1];
      UnknownIsNeverUpgraded(source, before, url);
      if HasOwner(source, last) {
        KeepingOne(source, last, url);
      }
    }
  }
}
