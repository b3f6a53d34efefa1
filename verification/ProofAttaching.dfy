/**
 When attaching proof fields succeeds (src/firelens/proof_presentation.py:65-89 and 175-356): every card
 that is built or neutralised without a derivation must state no distance, or the card model raises.
 */
module ProofAttaching {
  import opened Wrappers
  import opened ProofCards
  import opened ProofPresentation

  // ---------- lists of cards ----------

  lemma {:induction false} ClaimCardsIff(source: Source, claims: seq<Claim>, url: Option<string>)
    ensures ClaimCards(source, claims, url).Some? <==> forall c :: c in claims ==> ClaimBuildable(source, c, url)
  {
    if claims != [] {
      var before, last := claims[..|claims| - 1], claims[|claims| - 1];
      ClaimCardsIff(source, before, url);
      ClaimCardIff(source, last, url);
      assert forall c :: c in claims <==> c in before || c == last;
    }
  }

  lemma {:induction false} LiveCardsIff(source: Source, records: seq<Record>)
    ensures LiveCards(source, records).Some? <==> forall r :: r in records ==> LiveBuildable(source, r)
  {
    if records != [] {
      var before, last := records[..|records| - 1], records[|records| - 1];
      LiveCardsIff(source, before);
      LiveCardIff(source, last);
      assert forall r :: r in records <==> r in before || r == last;
    }
  }

  lemma {:induction false} KeepCardsIff(source: Source, cards: seq<Card>, url: Option<string>)
    requires !source.rejected
    ensures KeepCards(source, cards, url).Some? <==>
            forall c :: c in cards && HasOwner(source, c) ==> Keepable(source, c, url)
  {
    if cards != [] {
      var before, last := cards[..|cards| - 1], cards[|cards| - 1];
      KeepCardsIff(source, before, url);
      KeptIff(source, last, url);
      assert forall c :: c in cards <==> c in before || c == last;
    }
  }

  // ---------- attaching ----------

  /** All claims or records can be shown, not only the twelve that will be; or all owned cards can be kept. */
  ghost predicate CanAttach(source: Source, cards: seq<Card>, url: Option<string>) {
    if !source.rejected && cards != [] then forall c :: c in cards && HasOwner(source, c) ==> Keepable(source, c, url)
    else if source.claims != [] then forall c :: c in source.claims ==> ClaimBuildable(source, c, url)
    else forall r :: r in source.records ==> LiveBuildable(source, r)
  }

  /** Attaching succeeds exactly when every card that it touches can be shown. */
  lemma {:induction false} AttachedIff(inputs: Inputs, p: Presentation)
    ensures Attached(inputs, p).1 <==> CanAttach(inputs.source, p.cards, LinkAfter(inputs, p.banner))
  {
    var source, url := inputs.source, LinkAfter(inputs, p.banner);
    if !source.rejected && p.cards != [] {
      KeepCardsIff(source, p.cards, url);
    } else if source.claims != [] {
      ClaimCardsIff(source, source.claims, url);
    } else {
      LiveCardsIff(source, source.records);
    }
  }

  /** A claim that states a distance is never built, whatever the state of the claim and of the response. */
  lemma {:induction false} DistanceClaimIsNeverBuilt(inputs: Inputs, p: Presentation, claim: Claim)
    requires claim in inputs.source.claims && inputs.source.mentionsDistance(claim.text)
    requires inputs.source.rejected || p.cards == []
    ensures !Attached(inputs, p).1
  {
    AttachedIff(inputs, p);
    assert !ClaimBuildable(inputs.source, claim, LinkAfter(inputs, p.banner));
  }

  /** Without regard to publication and distance, the neutral forms of a card are fit to show. */
  predicate NeutralFits(source: Source, card: Card) {
    source.otherChecks(Downgraded(card)) && source.otherChecks(UnknownForm(card))
  }

  ghost predicate NeutralCardsFit(source: Source, url: Option<string>) {
    && (forall c :: c in source.claims ==> NeutralFits(source, ClaimForm(source, c, url)))
    && (forall r :: r in source.records ==> NeutralFits(source, LiveForm(r)))
  }

  /** So a rejected response is neutralised exactly when none of its claims, or of its titles, states a distance. */
  lemma {:induction false} RejectedAttachesIff(inputs: Inputs, p: Presentation)
    requires inputs.source.rejected && NeutralCardsFit(inputs.source, LinkAfter(inputs, p.banner))
    ensures
      var source := inputs.source;
      Attached(inputs, p).1 <==>
      if source.claims != [] then forall c :: c in source.claims ==> !source.mentionsDistance(c.text)
      else forall r :: r in source.records ==> !source.mentionsDistance(Title(r))
  {
    var source, url := inputs.source, LinkAfter(inputs, p.banner);
    AttachedIff(inputs, p);
    forall c | c in source.claims ensures ClaimBuildable(source, c, url) <==> !source.mentionsDistance(c.text) {
      assert NeutralFits(source, ClaimForm(source, c, url));
    }
    forall r | r in source.records ensures LiveBuildable(source, r) <==> !source.mentionsDistance(Title(r)) {
      assert NeutralFits(source, LiveForm(r));
    }
  }

  /** The card that goes with a claim on a live fact: it carries the derivation of the distance in its text. */
  ghost predicate CardOfDistanceClaim(source: Source, card: Card, claim: Claim) {
    && source.mentionsDistance(claim.text) && claim in source.claims &&
        FindClaim(source.claims, claim.id) == Some(claim)
    && BoundPublication(claim).kind.OfficialLiveTyped? && !claim.criticalFailed
    && card.claimId == claim.id && card.claimText == claim.text && card.state.LiveTyped?
    && card.publication == BoundPublication(claim) && card.derivation.Some? && ValidCard(source, card)
  }

  /**
   Such a card is kept while the response is accepted. Once the response is rejected the card should become
   neutral; instead attaching raises.
   */
  lemma {:induction false} RejectionRaisesOnDistance(inputs: Inputs, p: Presentation, card: Card, claim: Claim)
    requires CardOfDistanceClaim(inputs.source, card, claim) && p.cards == [card]
    ensures
      var source := inputs.source;
      && Attached(inputs.(source := source.(rejected := false)), p).1
      && Attached(inputs.(source := source.(rejected := false)), p).0.cards == p.cards
      && !Attached(inputs.(source := source.(rejected := true)), p).1
  {
    var accepted := inputs.source.(rejected := false);
    var url := LinkAfter(inputs.(source := accepted), p.banner);
    assert SupportStateOf(accepted, claim).LiveTyped?;
    assert card.publication.liveId.value in ClaimIdentities(claim);
    assert PreserveCard(accepted, card, url) == Some(card);
    forall c | c in p.cards ensures HasOwner(accepted, c) && PreserveCard(accepted, c, url) == Some(c) {
      assert c == card;
    }
    CardsStayIff(accepted, p.cards, url);
    DistanceClaimIsNeverBuilt(inputs.(source := inputs.source.(rejected := true)), p, claim);
  }
}
