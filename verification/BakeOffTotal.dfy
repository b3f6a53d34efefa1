/**
 What a bake-off really spends, retrieval and generation together (src/firelens/model_bakeoff.py:75-203),
 and when that stays within the budget.
 */
module BakeOffTotal {
  import opened BakeOffBudget

  /** The true cost of the dispatched searches and of the generation calls behind them. */
  function RealCost(searches: seq<Search>, models: nat, call: (nat, nat) -> Call, b: Budget): real {
    TrueCost(searches[..Dispatched(searches, b)]) + GenerationCost(searches, models, call, b)
  }

  ghost predicate WithinReserves(searches: seq<Search>, call: (nat, nat) -> Call, b: Budget) {
    AllWithinReserve(searches, b) && CallsWithinReserve(call, b)
  }

  /** No case list of limited length costs more than the budget, if each search and call keeps to its reservation. */
  ghost predicate TotalStaysInBudget(caseLimit: nat, models: nat, b: Budget) {
    forall searches, call :: |searches| <= caseLimit && WithinReserves(searches, call, b) ==>
      RealCost(searches, models, call, b) <= b.max
  }

  // ---------- products as sums ----------

  function Product(n: nat, m: nat): nat {
    n * m
  }

  lemma {:induction false} ProductStep(n: nat, m: nat)
    ensures Product(n + 1, m) == Product(n, m) + m
  {
  }

  lemma {:induction false} SumAdds(m: nat, n: nat, price: real)
    ensures Sum(m + n, price) == Sum(m, price) + Sum(n, price)
  {
    SumIsProduct(m, price);
    SumIsProduct(n, price);
    SumIsProduct(m + n, price);
    assert (m + n) as real == m as real + n as real;
  }

  // ---------- no run costs more than its searches and calls ----------

  /** Generation never leaves the budget, and pays at most one reservation a row. */
  ghost predicate Bounded(g: Generation, spent: real, b: Budget) {
    !g.exceeded && spent + g.cost <= b.max && g.cost <= Sum(|g.rows|, b.generationReserve)
  }

  lemma {:induction false} ModelCallsBounded(
    g: Generation, model: nat, p: nat, packets: nat, call: (nat, nat) -> Call, spent: real, b: Budget
  )
    requires p <= packets && Bounded(g, spent, b) && CallsWithinReserve(call, b) && b.generationReserve >= 0.0
    ensures
      var after := ModelCalls(g, model, p, packets, call, spent, b);
      Bounded(after, spent, b) && |after.rows| <= |g.rows| + packets - p
    decreases packets - p
  {
    if p < packets && spent + g.cost + b.generationReserve <= b.max {
      match call(model, p)
      case ProviderError =>
        ModelCallsBounded(g.(rows := g.rows + [Row(model, p, 0.0)]), model, p + 1, packets, call, spent, b);
      case Answered(cost) =>
        var after := Generation(g.rows + [Row(model, p, cost)], g.cost + cost, g.exhausted, false);
        assert call(model, p).cost <= b.generationReserve;
        ModelCallsBounded(after, model, p + 1, packets, call, spent, b);
    }
  }

  lemma {:induction false} AllCallsBounded(
    g: Generation, model: nat, models: nat, packets: nat, call: (nat, nat) -> Call, spent: real, b: Budget
  )
    requires model <= models && Bounded(g, spent, b) && CallsWithinReserve(call, b) && b.generationReserve >= 0.0
    ensures
      var after := AllCalls(g, model, models, packets, call, spent, b);
      Bounded(after, spent, b) && |after.rows| <= |g.rows| + Product(models - model, packets)
    decreases models - model
  {
    if model < models {
      var next := ModelCalls(g, model, 0, packets, call, spent, b);
      ModelCallsBounded(g, model, 0, packets, call, spent, b);
      AllCallsBounded(next, model + 1, models, packets, call, spent, b);
      ProductStep(models - model - 1, packets);
    }
  }

  lemma {:induction false} CountedWithin(searches: seq<Search>, b: Budget)
    requires AllWithinReserve(searches, b)
    ensures Answerable(searches) <= |searches|
    ensures CountedCost(searches) <= Sum(Answerable(searches), b.retrievalReserve)
    ensures SkippedCost(searches) <= Sum(|searches| - Answerable(searches), b.retrievalReserve)
  {
    if searches != [] {
      CountedWithin(searches[..|searches| - 1], b);
    }
  }

  /** What the dispatched searches of a valid run come to. */
  lemma {:induction false} DispatchedWithin(searches: seq<Search>, b: Budget, k: nat)
    requires ValidBudget(b) && AllWithinReserve(searches, b) && k <= |searches|
    requires CountedCost(searches[..k]) <= b.max
    ensures CountedCost(searches[..DispatchedFrom(searches, b, k)]) <= b.max
    decreases |searches| - k
  {
    if k < |searches| && HasReserve(CountedCost(searches[..k]), b) {
      assert searches[..k + 1][..k] == searches[..k];
      DispatchedWithin(searches, b, k + 1);
    }
  }

  /** Retrieval and generation as bounds: `a` answerable searches out of `d`. */
  lemma {:induction false} RealCostBounds(searches: seq<Search>, models: nat, call: (nat, nat) -> Call, b: Budget)
    returns (d: nat, a: nat, skipped: real, counted: real, generated: real)
    requires ValidBudget(b) && WithinReserves(searches, call, b)
    ensures a <= d <= |searches| && (!HasReserve(0.0, b) ==> d == 0)
    ensures RealCost(searches, models, call, b) == skipped + counted + generated
    ensures counted + generated <= b.max
    ensures skipped <= Sum(d - a, b.retrievalReserve) && counted <= Sum(a, b.retrievalReserve)
    ensures generated <= Sum(Product(models, a), b.generationReserve)
  {
    d := Dispatched(searches, b);
    var ran := searches[..d];
    a := Answerable(ran);
    skipped, counted, generated := SkippedCost(ran), CountedCost(ran), GenerationCost(searches, models, call, b);
    assert searches[..0] == [];
    DispatchedWithin(searches, b, 0);
    CountedPlusSkipped(ran);
    CountedWithin(ran, b);
    var start := Generation([], 0.0, d < |searches|, false);
    AllCallsBounded(start, 0, models, a, call, counted, b);
    var after := AllCalls(start, 0, models, a, call, counted, b);
    SumGrows(|after.rows|, Product(models, a), b.generationReserve);
  }

  // ---------- the condition ----------

  /** No search is ever reserved, searches are free, or `caseLimit` searches with calls behind all but one fit. */
  predicate CasesFit(caseLimit: nat, models: nat, b: Budget) {
    || !HasReserve(0.0, b) || caseLimit == 0 || b.retrievalReserve == 0.0
    || Sum(caseLimit, b.retrievalReserve) + Sum(Product(models, caseLimit - 1), b.generationReserve) <= b.max
  }

  lemma {:induction false} CasesFitSuffices(
    searches: seq<Search>, caseLimit: nat, models: nat, call: (nat, nat) -> Call, b: Budget
  )
    requires ValidBudget(b) && CasesFit(caseLimit, models, b)
    requires |searches| <= caseLimit && WithinReserves(searches, call, b)
    ensures RealCost(searches, models, call, b) <= b.max
  {
    var r := b.retrievalReserve;
    var d, a, skipped, counted, generated := RealCostBounds(searches, models, call, b);
    if d == a || r == 0.0 {
      SumIsProduct(d - a, r);
    } else {
      SumAdds(d - a, a, r);
      SumGrows(d, caseLimit, r);
      MoreCalls(models, a, caseLimit - 1);
      SumGrows(Product(models, a), Product(models, caseLimit - 1), b.generationReserve);
    }
  }

  lemma {:induction false} MoreCalls(models: nat, a: nat, c: nat)
    requires a <= c
    ensures Product(models, a) <= Product(models, c)
  {
  }

  // ---------- a run that costs the most ----------

  /** One unanswerable search and `k` answerable ones, all at their reservation. */
  function Worst(k: nat, price: real): seq<Search> {
    if k == 0 then [Search(false, price)] else Worst(k - 1, price) + [Search(true, price)]
  }

  lemma {:induction false} WorstCosts(k: nat, price: real)
    ensures |Worst(k, price)| == k + 1 && Answerable(Worst(k, price)) == k
    ensures CountedCost(Worst(k, price)) == Sum(k, price) && TrueCost(Worst(k, price)) == Sum(k, price) + price
  {
    if k == 0 {
      assert [Search(false, price)][..0] == [];
    } else {
      WorstCosts(k - 1, price);
      var before := Worst(k - 1, price);
      assert (before + [Search(true, price)])[..|before|] == before;
    }
  }

  lemma {:induction false} WorstPrefix(k: nat, price: real, j: nat)
    requires j <= k
    ensures |Worst(k, price)| == k + 1 && Worst(k, price)[..j + 1] == Worst(j, price)
  {
    WorstCosts(k, price);
    WorstCosts(j, price);
    if j < k {
      WorstPrefix(k - 1, price, j);
      assert Worst(k, price)[..j + 1] == Worst(k - 1, price)[..j + 1];
    }
  }

  lemma {:induction false} WorstWithinReserve(k: nat, b: Budget)
    ensures AllWithinReserve(Worst(k, b.retrievalReserve), b)
  {
    if k > 0 {
      WorstWithinReserve(k - 1, b);
    }
  }

  /** As long as the last of them still finds its reserve, all of them are dispatched. */
  lemma {:induction false} WorstDispatched(k: nat, b: Budget, j: nat)
    requires ValidBudget(b) && HasReserve(0.0, b) && Sum(k, b.retrievalReserve) + b.generationReserve <= b.max
    requires j <= k + 1
    ensures |Worst(k, b.retrievalReserve)| == k + 1 && DispatchedFrom(Worst(k, b.retrievalReserve), b, j) == k + 1
    decreases k + 1 - j
  {
    var r := b.retrievalReserve;
    WorstCosts(k, r);
    if j <= k {
      if j == 0 {
        assert Worst(k, r)[..0] == [];
      } else {
        WorstPrefix(k, r, j - 1);
        WorstCosts(j - 1, r);
        SumGrows(j, k, r);
        assert Sum(j, r) == Sum(j - 1, r) + r;
      }
      WorstDispatched(k, b, j + 1);
    }
  }

  /** The first call of all costs `first`, every other one the full reservation. */
  function Prices(first: real, g: real): (nat, nat) -> Call {
    (model: nat, p: nat) => if model == 0 && p == 0 then Answered(first) else Answered(g)
  }

  function Paid(first: real, g: real, n: nat): real {
    if n == 0 then 0.0 else if n == 1 then first else Paid(first, g, n - 1) + g
  }

  /** What generation under these prices has paid, and why it stops. */
  ghost predicate Paying(state: Generation, first: real, spent: real, b: Budget) {
    && !state.exceeded && spent + state.cost <= b.max
    && state.cost == Paid(first, b.generationReserve, |state.rows|)
    && (state.exhausted ==> spent + state.cost + b.generationReserve > b.max)
  }

  lemma {:induction false} ModelPays(
    state: Generation, model: nat, p: nat, packets: nat, first: real, spent: real, b: Budget
  )
    requires p <= packets && Paying(state, first, spent, b) && 0.0 <= first <= b.generationReserve
    requires !state.exhausted ==> (|state.rows| == 0 <==> model == 0 && p == 0)
    ensures
      var after := ModelCalls(state, model, p, packets, Prices(first, b.generationReserve), spent, b);
      && Paying(after, first, spent, b) && (state.exhausted && p < packets ==> after == state)
      && (!after.exhausted ==> !state.exhausted && |after.rows| == |state.rows| + packets - p)
    decreases packets - p
  {
    if p < packets && spent + state.cost + b.generationReserve <= b.max {
      var cost := if model == 0 && p == 0 then first else b.generationReserve;
      var after := Generation(state.rows + [Row(model, p, cost)], state.cost + cost, state.exhausted, false);
      ModelPays(after, model, p + 1, packets, first, spent, b);
    }
  }

  lemma {:induction false} AllPay(
    state: Generation, model: nat, models: nat, packets: nat, first: real, spent: real, b: Budget
  )
    requires model <= models && packets >= 1 && Paying(state, first, spent, b) && 0.0 <= first <= b.generationReserve
    requires !state.exhausted ==> (|state.rows| == 0 <==> model == 0)
    ensures
      var after := AllCalls(state, model, models, packets, Prices(first, b.generationReserve), spent, b);
      && Paying(after, first, spent, b)
      && (!after.exhausted ==> !state.exhausted && |after.rows| == |state.rows| + Product(models - model, packets))
    decreases models - model
  {
    if model < models {
      ModelPays(state, model, 0, packets, first, spent, b);
      var next := ModelCalls(state, model, 0, packets, Prices(first, b.generationReserve), spent, b);
      AllPay(next, model + 1, models, packets, first, spent, b);
      ProductStep(models - model - 1, packets);
    }
  }

  lemma {:induction false} PaidIsSum(first: real, g: real, n: nat)
    requires n >= 1
    ensures Paid(first, g, n) == first + Sum(n - 1, g)
  {
    if n > 1 {
      PaidIsSum(first, g, n - 1);
    }
  }

  lemma {:induction false} SumOrder(m: nat, n: nat, price: real)
    requires price > 0.0
    ensures Sum(m, price) < Sum(n, price) <==> m < n
  {
    if m < n {
      SumGrows(m, n - 1, price);
    } else {
      SumGrows(n, m, price);
    }
  }

  /** The last whole number of steps up to an amount. */
  lemma {:induction false} WholeSteps(amount: real, step: real) returns (k: nat)
    requires 0.0 < step <= amount
    ensures k >= 1 && Sum(k, step) <= amount < Sum(k + 1, step)
  {
    var n := EnoughSteps(amount, step);
    SumIsProduct(n, step);
    k := LastStep(amount, step, n);
  }

  lemma {:induction false} LastStep(amount: real, step: real, n: nat) returns (k: nat)
    requires 0.0 < step <= amount < Sum(n, step)
    ensures k >= 1 && Sum(k, step) <= amount < Sum(k + 1, step)
  {
    if Sum(n - 1, step) <= amount {
      k := n - 1;
    } else {
      k := LastStep(amount, step, n - 1);
    }
  }

  /** The generation calls behind the worst searches. */
  function WorstCalls(k: nat, models: nat, first: real, b: Budget): Generation {
    AllCalls(
      Generation([], 0.0, false, false), 0, models, k, Prices(first, b.generationReserve),
      Sum(k, b.retrievalReserve), b)
  }

  lemma {:induction false} WorstRealCost(k: nat, models: nat, first: real, b: Budget)
    requires ValidBudget(b) && HasReserve(0.0, b) && Sum(k, b.retrievalReserve) + b.generationReserve <= b.max
    ensures RealCost(Worst(k, b.retrievalReserve), models, Prices(first, b.generationReserve), b) ==
            Sum(k, b.retrievalReserve) + b.retrievalReserve + WorstCalls(k, models, first, b).cost
  {
    var searches := Worst(k, b.retrievalReserve);
    WorstCosts(k, b.retrievalReserve);
    WorstDispatched(k, b, 0);
    assert searches[..k + 1] == searches;
  }

  lemma {:induction false} WorstPays(k: nat, models: nat, first: real, b: Budget)
    requires ValidBudget(b) && k >= 1 && 0.0 <= first <= b.generationReserve
    requires Sum(k, b.retrievalReserve) + b.generationReserve <= b.max
    ensures
      var after := WorstCalls(k, models, first, b);
      Paying(after, first, Sum(k, b.retrievalReserve), b) && (!after.exhausted ==> |after.rows| == Product(models, k))
  {
    AllPay(Generation([], 0.0, false, false), 0, models, k, first, Sum(k, b.retrievalReserve), b);
  }

  /** If all calls fit what is left, all of them are paid in full. */
  lemma {:induction false} AllCallsPaid(k: nat, models: nat, b: Budget)
    requires ValidBudget(b) && k >= 1 && b.generationReserve > 0.0
    requires Sum(k, b.retrievalReserve) + b.generationReserve <= b.max
    requires Sum(k, b.retrievalReserve) + Sum(Product(models, k), b.generationReserve) <= b.max
    ensures WorstCalls(k, models, b.generationReserve, b).cost >= Sum(Product(models, k), b.generationReserve)
  {
    var g := b.generationReserve;
    var after, all := WorstCalls(k, models, g, b), Product(models, k);
    WorstPays(k, models, g, b);
    if |after.rows| > 0 {
      PaidIsSum(g, g, |after.rows|);
    }
    assert after.cost == Sum(|after.rows|, g);
    if after.exhausted {
      SumOrder(all, |after.rows| + 1, g);
      SumGrows(all, |after.rows|, g);
    }
  }

  /** Otherwise the first price can be chosen so that the calls use up the budget to the last cent. */
  lemma {:induction false} BudgetUsedUp(k: nat, models: nat, b: Budget) returns (first: real)
    requires ValidBudget(b) && k >= 1 && b.generationReserve > 0.0
    requires Sum(k, b.retrievalReserve) + b.generationReserve <= b.max
    requires Sum(k, b.retrievalReserve) + Sum(Product(models, k), b.generationReserve) > b.max
    ensures 0.0 <= first <= b.generationReserve
    ensures Sum(k, b.retrievalReserve) + WorstCalls(k, models, first, b).cost == b.max
  {
    var g, left, all := b.generationReserve, b.max - Sum(k, b.retrievalReserve), Product(models, k);
    var steps := WholeSteps(left, g);
    first := left - Sum(steps, g);
    var after := WorstCalls(k, models, first, b);
    WorstPays(k, models, first, b);
    var n := |after.rows|;
    SumOrder(steps, all, g);
    assert n >= 1;
    PaidIsSum(first, g, n);
    SumOrder(steps, n - 1, g);
    SumOrder(steps, n, g);
  }

  /** The most answerable searches that can be followed by a generation call. */
  lemma {:induction false} MostSearches(limit: nat, b: Budget) returns (k: nat)
    requires HasReserve(0.0, b) && limit >= 1
    ensures 1 <= k <= limit && Sum(k, b.retrievalReserve) + b.generationReserve <= b.max
    ensures k == limit || Sum(k + 1, b.retrievalReserve) + b.generationReserve > b.max
  {
    if Sum(limit, b.retrievalReserve) + b.generationReserve <= b.max {
      k := limit;
    } else {
      assert Sum(1, b.retrievalReserve) == b.retrievalReserve;
      k := MostSearches(limit - 1, b);
    }
  }

  lemma {:induction false} NoPackets(
    g: Generation, model: nat, models: nat, call: (nat, nat) -> Call, spent: real, b: Budget
  )
    requires model <= models
    ensures AllCalls(g, model, models, 0, call, spent, b) == g
    decreases models - model
  {
    if model < models {
      NoPackets(g, model + 1, models, call, spent, b);
    }
  }

  lemma {:induction false} UnanswerableAre(n: nat, price: real)
    ensures Answerable(Unanswerable(n, price)) == 0
  {
    if n > 0 {
      UnanswerableAre(n - 1, price);
      var before := Unanswerable(n - 1, price);
      assert (before + [Search(false, price)])[..|before|] == before;
    }
  }

  lemma {:induction false} UnanswerableRealCost(n: nat, models: nat, call: (nat, nat) -> Call, b: Budget)
    requires ValidBudget(b) && HasReserve(0.0, b)
    ensures RealCost(Unanswerable(n, b.retrievalReserve), models, call, b) == Sum(n, b.retrievalReserve)
  {
    var searches := Unanswerable(n, b.retrievalReserve);
    WorstSearches(n, b);
    UnanswerableAre(n, b.retrievalReserve);
    assert searches[..n] == searches;
    NoPackets(Generation([], 0.0, false, false), 0, models, call, 0.0, b);
  }

  /** A run beyond the budget in which every search and call keeps to its reservation. */
  lemma {:induction false} CasesFitNeeded(caseLimit: nat, models: nat, b: Budget)
    returns (searches: seq<Search>, call: (nat, nat) -> Call)
    requires ValidBudget(b) && !CasesFit(caseLimit, models, b)
    ensures |searches| <= caseLimit && WithinReserves(searches, call, b)
    ensures RealCost(searches, models, call, b) > b.max
  {
    var r, g := b.retrievalReserve, b.generationReserve;
    if Sum(caseLimit, r) > b.max {
      searches, call := Unanswerable(caseLimit, r), Prices(g, g);
      WorstSearches(caseLimit, b);
      UnanswerableRealCost(caseLimit, models, call, b);
    } else {
      SumIsProduct(Product(models, caseLimit - 1), g);
      var k := MostSearches(caseLimit - 1, b);
      var first := g;
      if Sum(k, r) + Sum(Product(models, k), g) > b.max {
        first := BudgetUsedUp(k, models, b);
      } else {
        AllCallsPaid(k, models, b);
        SomeCalls(models, k, caseLimit - 1, g);
      }
      searches, call := Worst(k, r), Prices(first, g);
      WorstWithinReserve(k, b);
      WorstCosts(k, r);
      WorstRealCost(k, models, first, b);
    }
  }

  lemma {:induction false} SomeCalls(models: nat, k: nat, c: nat, g: real)
    requires k >= 1 && g > 0.0 && Sum(Product(models, c), g) > 0.0
    ensures Sum(Product(models, k), g) >= g
  {
    SumGrows(1, Product(models, k), g);
  }

  lemma {:induction false} CasesFitInNumbers(caseLimit: nat, models: nat, b: Budget)
    ensures CasesFit(caseLimit, models, b) <==>
            || b.generationReserve + b.retrievalReserve > b.max || caseLimit == 0 || b.retrievalReserve == 0.0
            || caseLimit as real * b.retrievalReserve +
               (models * (caseLimit - 1)) as real * b.generationReserve <= b.max
  {
    if caseLimit > 0 {
      SumIsProduct(caseLimit, b.retrievalReserve);
      SumIsProduct(Product(models, caseLimit - 1), b.generationReserve);
    }
  }

  /**
   What a bake-off really spends stays within its budget, for every list of at most `caseLimit` cases and
   all calls within their reservations, exactly when no search is ever reserved, searches are free, or
   `caseLimit` searches and the calls of all models behind all but one of them fit the budget.
   */
  lemma {:induction false} TotalInBudgetIff(caseLimit: nat, models: nat, b: Budget)
    requires ValidBudget(b)
    ensures TotalStaysInBudget(caseLimit, models, b) <==>
            || b.generationReserve + b.retrievalReserve > b.max || caseLimit == 0 || b.retrievalReserve == 0.0
            || caseLimit as real * b.retrievalReserve +
               (models * (caseLimit - 1)) as real * b.generationReserve <= b.max
  {
    CasesFitInNumbers(caseLimit, models, b);
    if CasesFit(caseLimit, models, b) {
      forall searches, call | |searches| <= caseLimit && WithinReserves(searches, call, b)
        ensures RealCost(searches, models, call, b) <= b.max
      {
        CasesFitSuffices(searches, caseLimit, models, call, b);
      }
    } else {
      var searches, call := CasesFitNeeded(caseLimit, models, b);
    }
  }
}
