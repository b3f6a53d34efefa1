/**
 Cost reservation in the model bake-off (src/firelens/model_bakeoff.py:64-66 and 75-203): a call is
 dispatched only while its reserved envelope still fits the budget.
 */
module BakeOffBudget {
  import opened Wrappers

  /** One retrieval: whether its support was answerable, and what it cost. */
  datatype Search = Search(answerable: bool, cost: real)

  datatype Call = Answered(cost: real) | ProviderError

  datatype Row = Row(model: nat, packet: nat, cost: real)

  datatype Budget = Budget(max: real, retrievalReserve: real, generationReserve: real)

  /** The costs the loop adds up: those of answerable searches. */
  function CountedCost(searches: seq<Search>): real {
    if searches == [] then 0.0
    else
      var last := searches[|searches| - 1];
      CountedCost(searches[..|searches| - 1]) + if last.answerable then last.cost else 0.0
  }

  function TrueCost(searches: seq<Search>): real {
    if searches == [] then 0.0 else TrueCost(searches[..|searches| - 1]) + searches[|searches| - 1].cost
  }

  function SkippedCost(searches: seq<Search>): real {
    if searches == [] then 0.0
    else
      var last := searches[|searches| - 1];
      SkippedCost(searches[..|searches| - 1]) + if last.answerable then 0.0 else last.cost
  }

  function Answerable(searches: seq<Search>): nat {
    if searches == [] then 0
    else Answerable(searches[..|searches| - 1]) + if searches[|searches| - 1].answerable then 1 else 0
  }

  function RowsCost(rows: seq<Row>): real {
    if rows == [] then 0.0 else RowsCost(rows[..|rows| - 1]) + rows[|rows| - 1].cost
  }

  function RowsOf(rows: seq<Row>, model: nat): nat {
    if rows == [] then 0
    else RowsOf(rows[..|rows| - 1], model) + if rows[|rows| - 1].model == model then 1 else 0
  }

  /** No answerable search costs more than its reservation. */
  ghost predicate SearchesWithinReserve(searches: seq<Search>, b: Budget) {
    forall i :: 0 <= i < |searches| && searches[i].answerable ==> searches[i].cost <= b.retrievalReserve
  }

  ghost predicate CallsWithinReserve(call: (nat, nat) -> Call, b: Budget) {
    forall m, p :: call(m, p).Answered? ==> call(m, p).cost <= b.generationReserve
  }

  /** Before a search, its own reservation and that of one generation call still fit the budget. */
  predicate HasReserve(counted: real, b: Budget) {
    counted + b.generationReserve + b.retrievalReserve <= b.max
  }

  /** How many searches are dispatched: up to the first that finds no reserve left. */
  function Dispatched(searches: seq<Search>, b: Budget): nat {
    DispatchedFrom(searches, b, 0)
  }

  function DispatchedFrom(searches: seq<Search>, b: Budget, k: nat): (n: nat)
    requires k <= |searches|
    ensures k <= n <= |searches|
    decreases |searches| - k
  {
    if k < |searches| && HasReserve(CountedCost(searches[..k]), b) then DispatchedFrom(searches, b, k + 1) else k
  }

  ghost predicate ValidBudget(b: Budget) {
    b.max > 0.0 && b.retrievalReserve >= 0.0 && b.generationReserve >= 0.0
  }

  /** The retrieval loop; `searched` counts the cases whose search ran. */
  method Retrieve(searches: seq<Search>, b: Budget)
    returns (cost: real, packets: nat, searched: nat, exhausted: bool, exceeded: bool)
    requires ValidBudget(b)
    ensures searched == Dispatched(searches, b) && cost == CountedCost(searches[..searched])
    ensures packets == Answerable(searches[..searched]) - if exceeded then 1 else 0
    ensures exceeded ==> cost > b.max
    ensures !exceeded ==> cost <= b.max
    ensures exhausted <==> !exceeded && searched < |searches|
    ensures exhausted ==> !HasReserve(cost, b)
    ensures SearchesWithinReserve(searches, b) ==>
              !exceeded && forall k :: 0 <= k <= searched ==> CountedCost(searches[..k]) <= b.max
  {
    cost, packets, searched, exhausted, exceeded := 0.0, 0, 0, false, false;
    while searched < |searches| && !exhausted && !exceeded
      invariant searched <= |searches| && cost == CountedCost(searches[..searched])
      invariant Dispatched(searches, b) == DispatchedFrom(searches, b, searched)
      invariant exhausted ==> !HasReserve(cost, b) && !exceeded && searched < |searches|
      invariant packets == Answerable(searches[..searched]) - if exceeded then 1 else 0
      invariant if exceeded then cost > b.max else cost <= b.max
      invariant SearchesWithinReserve(searches, b) ==>
                  !exceeded && forall k :: 0 <= k <= searched ==> CountedCost(searches[..k]) <= b.max
      decreases |searches| - searched, !exhausted
    {
      if !HasReserve(cost, b) {
        exhausted := true;
      } else {
        var search := searches[searched];
        assert searches[..searched + 1][..searched] == searches[..searched];
        searched := searched + 1;
        if search.answerable {
          cost := cost + search.cost;
          if cost > b.max {
            exceeded := true;
          } else {
            packets := packets + 1;
          }
        }
      }
    }
  }

  /** What the generation loops carry. */
  datatype Generation = Generation(rows: seq<Row>, cost: real, exhausted: bool, exceeded: bool)

  /** The calls of one model from packet `p` on, when `spent` went to retrieval. */
  function ModelCalls(g: Generation, model: nat, p: nat, packets: nat, call: (nat, nat) -> Call, spent: real,
                      b: Budget): Generation
    requires p <= packets
    decreases packets - p
  {
    if p == packets then g
    else if spent + g.cost + b.generationReserve > b.max then g.(exhausted := true)
    else
      match call(model, p)
      case ProviderError => ModelCalls(g.(rows := g.rows + [Row(model, p, 0.0)]), model, p + 1, packets, call, spent, b)
      case Answered(cost) =>
        var exceeded := g.exceeded || spent + (g.cost + cost) > b.max;
        var after := Generation(g.rows + [Row(model, p, cost)], g.cost + cost, g.exhausted, exceeded);
        if exceeded then after else ModelCalls(after, model, p + 1, packets, call, spent, b)
  }

  /** The calls of all models from one on. */
  function AllCalls(g: Generation, model: nat, models: nat, packets: nat, call: (nat, nat) -> Call, spent: real,
                    b: Budget): Generation
    requires model <= models
    decreases models - model
  {
    if model == models then g
    else AllCalls(ModelCalls(g, model, 0, packets, call, spent, b), model + 1, models, packets, call, spent, b)
  }

  /** The generation loops over models and packets. */
  method Generate(models: nat, packets: nat, call: (nat, nat) -> Call, retrievalCost: real, b: Budget,
                  exhausted: bool, exceeded: bool)
    returns (cost: real, rows: seq<Row>, exhausted': bool, exceeded': bool)
    ensures Generation(rows, cost, exhausted', exceeded') ==
            AllCalls(Generation([], 0.0, exhausted, exceeded), 0, models, packets, call, retrievalCost, b)
    ensures cost == RowsCost(rows) && RecordCalls(rows, packets, call)
    ensures !exhausted' && !exceeded' ==> forall m :: 0 <= m < models ==> RowsOf(rows, m) == packets
    ensures !exceeded' && retrievalCost <= b.max ==> retrievalCost + cost <= b.max
    ensures (exhausted ==> exhausted') && (exceeded ==> exceeded')
    ensures CallsWithinReserve(call, b) && retrievalCost <= b.max ==>
              forall k :: 0 <= k <= |rows| ==> retrievalCost + RowsCost(rows[..k]) <= b.max
    ensures CallsWithinReserve(call, b) && retrievalCost <= b.max ==> exceeded' == exceeded
  {
    cost, rows, exhausted', exceeded' := 0.0, [], exhausted, exceeded;
    ghost var start := Generation([], 0.0, exhausted, exceeded);
    AllRecord(start, 0, models, packets, call, retrievalCost, b);
    for m := 0 to models
      invariant AllCalls(Generation(rows, cost, exhausted', exceeded'), m, models, packets, call, retrievalCost, b) ==
                AllCalls(start, 0, models, packets, call, retrievalCost, b)
      invariant Accounted(rows, cost, retrievalCost, b, call, exceeded, exceeded')
      invariant (exhausted ==> exhausted') && (exceeded ==> exceeded')
      invariant !exhausted' && !exceeded' ==> forall k :: 0 <= k < m ==> RowsOf(rows, k) == packets
      invariant forall k :: k >= m ==> RowsOf(rows, k) == 0
    {
      ghost var state := Generation(rows, cost, exhausted', exceeded');
      ModelAccounted(state, m, 0, packets, call, retrievalCost, b, exceeded);
      ghost var after := ModelCalls(state, m, 0, packets, call, retrievalCost, b);
      forall k: nat
        ensures if k != m then RowsOf(after.rows, k) == RowsOf(state.rows, k)
                else !after.exhausted && !after.exceeded ==> RowsOf(after.rows, k) == RowsOf(state.rows, k) + packets
      {
        ModelRows(state, m, 0, packets, call, retrievalCost, b, k);
      }
      cost, rows, exhausted', exceeded' :=
        GenerateForModel(m, packets, call, retrievalCost, b, rows, cost, exhausted', exceeded');
    }
    if CallsWithinReserve(call, b) && retrievalCost <= b.max {
      forall k | 0 <= k <= |rows| ensures retrievalCost + RowsCost(rows[..k]) <= b.max {
        NeverOverAt(rows, retrievalCost, b, k);
      }
    }
  }

  /** What the loop variables record, and what they keep when no call exceeds its reservation. */
  ghost predicate Accounted(rows: seq<Row>, cost: real, retrievalCost: real, b: Budget, call: (nat, nat) -> Call,
                            exceededBefore: bool, exceeded: bool)
  {
    && cost == RowsCost(rows)
    && (!exceeded && retrievalCost <= b.max ==> retrievalCost + cost <= b.max)
    && (CallsWithinReserve(call, b) && retrievalCost <= b.max ==>
          && exceeded == exceededBefore && NeverOver(rows, retrievalCost, b))
  }

  /** The budget holds after every row. */
  ghost predicate NeverOver(rows: seq<Row>, spent: real, b: Budget) {
    spent + RowsCost(rows) <= b.max && (rows != [] ==> NeverOver(rows[..|rows| - 1], spent, b))
  }

  lemma {:induction false} NeverOverAt(rows: seq<Row>, spent: real, b: Budget, k: nat)
    requires NeverOver(rows, spent, b) && k <= |rows|
    ensures spent + RowsCost(rows[..k]) <= b.max
  {
    if k == |rows| {
      assert rows[..k] == rows;
    } else {
      NeverOverAt(rows[..|rows| - 1], spent, b, k);
      assert rows[..|rows| - 1][..k] == rows[..k];
    }
  }

  lemma {:induction false} RowAdded(rows: seq<Row>, row: Row, model: nat)
    ensures RowsCost(rows + [row]) == RowsCost(rows) + row.cost
    ensures RowsOf(rows + [row], model) == RowsOf(rows, model) + if row.model == model then 1 else 0
    ensures (rows + [row])[..|rows|] == rows
  {
    assert (rows + [row])[..|rows|] == rows;
  }

  /** One more row keeps the account of what was spent. */
  lemma {:induction false} RowAccounted(rows: seq<Row>, row: Row, cost: real, spent: real, b: Budget,
                                        call: (nat, nat) -> Call, exceededBefore: bool, exceeded: bool)
    requires Accounted(rows, cost, spent, b, call, exceededBefore, exceeded)
    requires CallsWithinReserve(call, b) && spent <= b.max ==> spent + cost + row.cost <= b.max
    ensures Accounted(rows + [row], cost + row.cost, spent, b, call, exceededBefore,
                      exceeded || spent + (cost + row.cost) > b.max)
  {
    RowAdded(rows, row, 0);
  }

  lemma {:induction false} FreeRowAccounted(rows: seq<Row>, row: Row, cost: real, spent: real, b: Budget,
                                            call: (nat, nat) -> Call, exceededBefore: bool, exceeded: bool)
    requires Accounted(rows, cost, spent, b, call, exceededBefore, exceeded) && row.cost == 0.0
    ensures Accounted(rows + [row], cost, spent, b, call, exceededBefore, exceeded)
  {
    RowAdded(rows, row, 0);
  }

  /** The calls of one model keep the account. */
  lemma {:induction false} ModelAccounted(g: Generation, model: nat, p: nat, packets: nat, call: (nat, nat) -> Call,
                                          spent: real, b: Budget, exceededBefore: bool)
    requires p <= packets && Accounted(g.rows, g.cost, spent, b, call, exceededBefore, g.exceeded)
    ensures
      var after := ModelCalls(g, model, p, packets, call, spent, b);
      && Accounted(after.rows, after.cost, spent, b, call, exceededBefore, after.exceeded)
      && (g.exhausted ==> after.exhausted) && (g.exceeded ==> after.exceeded)
    decreases packets - p
  {
    if p < packets && spent + g.cost + b.generationReserve <= b.max {
      match call(model, p)
      case ProviderError =>
        var row := Row(model, p, 0.0);
        FreeRowAccounted(g.rows, row, g.cost, spent, b, call, exceededBefore, g.exceeded);
        ModelAccounted(g.(rows := g.rows + [row]), model, p + 1, packets, call, spent, b, exceededBefore);
      case Answered(cost) =>
        var row, exceeded := Row(model, p, cost), g.exceeded || spent + (g.cost + cost) > b.max;
        assert CallsWithinReserve(call, b) ==> call(model, p).cost <= b.generationReserve;
        RowAccounted(g.rows, row, g.cost, spent, b, call, exceededBefore, g.exceeded);
        if !exceeded {
          var after := Generation(g.rows + [row], g.cost + cost, g.exhausted, exceeded);
          ModelAccounted(after, model, p + 1, packets, call, spent, b, exceededBefore);
        }
    }
  }

  /** And make one row a packet unless they stop; no other model gets a row. */
  lemma {:induction false} ModelRows(g: Generation, model: nat, p: nat, packets: nat, call: (nat, nat) -> Call,
                                     spent: real, b: Budget, k: nat)
    requires p <= packets
    ensures
      var after := ModelCalls(g, model, p, packets, call, spent, b);
      if k != model then RowsOf(after.rows, k) == RowsOf(g.rows, k)
      else !after.exhausted && !after.exceeded ==> RowsOf(after.rows, k) == RowsOf(g.rows, k) + packets - p
    decreases packets - p
  {
    if p < packets && spent + g.cost + b.generationReserve <= b.max {
      var charge := if call(model, p).Answered? then call(model, p).cost else 0.0;
      var rows := g.rows + [Row(model, p, charge)];
      RowAdded(g.rows, Row(model, p, charge), k);
      if call(model, p).ProviderError? {
        ModelRows(g.(rows := rows), model, p + 1, packets, call, spent, b, k);
      } else {
        var after := Generation(rows, g.cost + charge, g.exhausted, false);
        ModelRows(after, model, p + 1, packets, call, spent, b, k);
      }
    }
  }

  /** What a call is recorded at. */
  ghost predicate Records(r: Row, call: (nat, nat) -> Call) {
    match call(r.model, r.packet)
    case Answered(cost) => r.cost == cost
    case ProviderError => r.cost == 0.0
  }

  ghost predicate Before(a: Row, b: Row) {
    a.model < b.model || (a.model == b.model && a.packet < b.packet)
  }

  /** Every row records its own call; the rows are ordered by model and then by packet. */
  ghost predicate RecordCalls(rows: seq<Row>, packets: nat, call: (nat, nat) -> Call) {
    && (forall i :: 0 <= i < |rows| ==> rows[i].packet < packets && Records(rows[i], call))
    && (forall i, j :: 0 <= i < j < |rows| ==> Before(rows[i], rows[j]))
  }

  ghost predicate AllBefore(rows: seq<Row>, model: nat, p: nat) {
    forall i :: 0 <= i < |rows| ==> rows[i].model < model || (rows[i].model == model && rows[i].packet < p)
  }

  lemma {:induction false} ModelRecords(g: Generation, model: nat, p: nat, packets: nat, call: (nat, nat) -> Call,
                                        spent: real, b: Budget)
    requires p <= packets && RecordCalls(g.rows, packets, call) && AllBefore(g.rows, model, p)
    ensures
      var after := ModelCalls(g, model, p, packets, call, spent, b);
      RecordCalls(after.rows, packets, call) && AllBefore(after.rows, model, packets)
    decreases packets - p
  {
    if p < packets && spent + g.cost + b.generationReserve <= b.max {
      var charge := if call(model, p).Answered? then call(model, p).cost else 0.0;
      var rows := g.rows + [Row(model, p, charge)];
      RecordedOneMore(g.rows, Row(model, p, charge), packets, call);
      if call(model, p).ProviderError? {
        ModelRecords(g.(rows := rows), model, p + 1, packets, call, spent, b);
      } else {
        var exceeded := g.exceeded || spent + (g.cost + charge) > b.max;
        if !exceeded {
          ModelRecords(Generation(rows, g.cost + charge, g.exhausted, exceeded), model, p + 1, packets, call, spent, b);
        }
      }
    }
  }

  lemma {:induction false} RecordedOneMore(rows: seq<Row>, row: Row, packets: nat, call: (nat, nat) -> Call)
    requires RecordCalls(rows, packets, call) && AllBefore(rows, row.model, row.packet)
    requires row.packet < packets && Records(row, call)
    ensures RecordCalls(rows + [row], packets, call) && AllBefore(rows + [row], row.model, row.packet + 1)
  {
    assert forall i :: 0 <= i < |rows| ==> Before(rows[i], row);
  }

  lemma {:induction false} AllRecord(g: Generation, model: nat, models: nat, packets: nat, call: (nat, nat) -> Call,
                                     spent: real, b: Budget)
    requires model <= models && RecordCalls(g.rows, packets, call) && AllBefore(g.rows, model, 0)
    ensures RecordCalls(AllCalls(g, model, models, packets, call, spent, b).rows, packets, call)
    decreases models - model
  {
    if model < models {
      ModelRecords(g, model, 0, packets, call, spent, b);
      AllRecord(ModelCalls(g, model, 0, packets, call, spent, b), model + 1, models, packets, call, spent, b);
    }
  }

  method GenerateForModel(model: nat, packets: nat, call: (nat, nat) -> Call, retrievalCost: real, b: Budget,
                          rows: seq<Row>, cost: real, exhausted: bool, exceeded: bool)
    returns (cost': real, rows': seq<Row>, exhausted': bool, exceeded': bool)
    ensures Generation(rows', cost', exhausted', exceeded') ==
            ModelCalls(Generation(rows, cost, exhausted, exceeded), model, 0, packets, call, retrievalCost, b)
  {
    cost', rows', exhausted', exceeded' := cost, rows, exhausted, exceeded;
    ghost var whole := ModelCalls(
        Generation(rows, cost, exhausted, exceeded), model, 0, packets, call, retrievalCost, b);
    for p := 0 to packets
      invariant whole == ModelCalls(
                  Generation(rows', cost', exhausted', exceeded'), model, p, packets, call, retrievalCost, b)
    {
      if retrievalCost + cost' + b.generationReserve > b.max {
        exhausted' := true;
        return;
      }
      var outcome := call(model, p);
      var charge := if outcome.Answered? then outcome.cost else 0.0;
      rows' := rows' + [Row(model, p, charge)];
      if outcome.Answered? {
        cost' := cost' + outcome.cost;
        if retrievalCost + cost' > b.max {
          exceeded' := true;
        }
        if exceeded' {
          return;
        }
      }
    }
  }

  datatype Report = Report(
    retrievalCost: real,
    generationCost: real,
    packets: nat,
    rows: seq<Row>,
    exhausted: bool,
    exceeded: bool,
    complete: bool
  )

  /** What the generation calls cost after retrieval. */
  function GenerationCost(searches: seq<Search>, models: nat, call: (nat, nat) -> Call, b: Budget): real {
    var searched := Dispatched(searches, b);
    var counted := CountedCost(searches[..searched]);
    var exceeded := counted > b.max;
    var packets := Answerable(searches[..searched]) - if exceeded then 1 else 0;
    if packets < 0 then 0.0
    else
      AllCalls(
        Generation([], 0.0, !exceeded && searched < |searches|, exceeded), 0, models, packets, call, counted, b).cost
  }

  /**
   The bake-off over distinct models. A complete report stays inside the budget whatever the calls
   cost; if no call costs more than its reservation, the counted cost never leaves the budget.
   */
  method RunBakeOff(searches: seq<Search>, models: nat, call: (nat, nat) -> Call, b: Budget)
    returns (report: Option<Report>, ghost searched: nat)
    ensures report.Some? <==> ValidBudget(b)
    ensures searched == if report.Some? then Dispatched(searches, b) else 0
    ensures report.Some? ==>
              var r := report.value;
              && r.retrievalCost == CountedCost(searches[..searched]) && r.generationCost == RowsCost(r.rows)
              && r.generationCost == GenerationCost(searches, models, call, b)
              && RecordCalls(r.rows, r.packets, call)
              && TrueCost(searches[..searched]) == r.retrievalCost + SkippedCost(searches[..searched])
              && (r.complete <==> r.packets > 0 && models > 0 && !r.exhausted && !r.exceeded)
              && (r.complete ==> searched == |searches| && r.packets == Answerable(searches))
              && (r.complete ==> forall m :: 0 <= m < models ==> RowsOf(r.rows, m) == r.packets)
              && (r.complete ==> r.retrievalCost + r.generationCost <= b.max)
    ensures report.Some? && SearchesWithinReserve(searches, b) && CallsWithinReserve(call, b) ==>
              var r := report.value;
              && !r.exceeded
              && (forall k :: 0 <= k <= searched ==> CountedCost(searches[..k]) <= b.max)
              && forall k :: 0 <= k <= |r.rows| ==> r.retrievalCost + RowsCost(r.rows[..k]) <= b.max
  {
    if b.max <= 0.0 || b.retrievalReserve < 0.0 || b.generationReserve < 0.0 {
      return None, 0;
    }
    var retrievalCost, packets, ran, exhausted, exceeded := Retrieve(searches, b);
    searched := ran;
    CountedPlusSkipped(searches[..searched]);
    assert searches[..|searches|] == searches;
    var generationCost, rows, exhausted', exceeded' :=
      Generate(models, packets, call, retrievalCost, b, exhausted, exceeded);
    var complete := packets > 0 && models > 0 && !(exhausted' || exceeded') &&
                    EveryModelComplete(rows, models, packets);
    report := Some(Report(retrievalCost, generationCost, packets, rows, exhausted', exceeded', complete));
  }

  predicate EveryModelComplete(rows: seq<Row>, models: nat, packets: nat) {
    forall m :: 0 <= m < models ==> RowsOf(rows, m) == packets
  }

  // ---------- what the counted cost leaves out ----------

  /** Unanswerable searches are paid for but never counted. */
  lemma {:induction false} CountedPlusSkipped(searches: seq<Search>)
    ensures TrueCost(searches) == CountedCost(searches) + SkippedCost(searches)
  {
    if searches != [] {
      CountedPlusSkipped(searches[..|searches| - 1]);
    }
  }

  /** `n` unanswerable searches at one price. */
  function Unanswerable(n: nat, price: real): seq<Search> {
    if n == 0 then [] else Unanswerable(n - 1, price) + [Search(false, price)]
  }

  /** `n` times a price, added up. */
  function Sum(n: nat, price: real): real {
    if n == 0 then 0.0 else Sum(n - 1, price) + price
  }

  lemma {:induction false} SumIsProduct(n: nat, price: real)
    ensures Sum(n, price) == n as real * price
  {
    if n > 0 {
      SumIsProduct(n - 1, price);
      assert (n - 1) as real * price + price == ((n - 1) as real + 1.0) * price;
    }
  }

  lemma {:induction false} UnanswerableCost(n: nat, price: real)
    ensures CountedCost(Unanswerable(n, price)) == 0.0
    ensures TrueCost(Unanswerable(n, price)) == Sum(n, price)
  {
    if n > 0 {
      UnanswerableCost(n - 1, price);
      var before := Unanswerable(n - 1, price);
      assert (before + [Search(false, price)])[..|before|] == before;
    }
  }

  lemma {:induction false} UnanswerableSearches(n: nat, price: real, i: nat)
    requires i < n
    ensures |Unanswerable(n, price)| == n && Unanswerable(n, price)[i] == Search(false, price)
  {
    PrefixOfUnanswerable(n, price, i + 1);
    PrefixOfUnanswerable(i + 1, price, i);
    assert Unanswerable(n, price)[..i + 1][i] == Unanswerable(n, price)[i];
  }

  /** Enough steps of one size exceed any amount. */
  lemma {:induction false} EnoughSteps(amount: real, step: real) returns (n: nat)
    requires step > 0.0
    ensures n as real * step > amount
  {
    if amount < 0.0 {
      n := 0;
    } else {
      var quotient := amount / step;
      n := quotient.Floor + 1;
      assert quotient * step == amount;
      StrictScale(quotient, n as real, step);
    }
  }

  /** No search costs more than its reservation, answerable or not. */
  ghost predicate AllWithinReserve(searches: seq<Search>, b: Budget) {
    forall i :: 0 <= i < |searches| ==> searches[i].cost <= b.retrievalReserve
  }

  lemma {:induction false} TrueCostWithin(searches: seq<Search>, b: Budget)
    requires AllWithinReserve(searches, b)
    ensures TrueCost(searches) <= Sum(|searches|, b.retrievalReserve)
  {
    if searches != [] {
      TrueCostWithin(searches[..|searches| - 1], b);
    }
  }

  lemma {:induction false} SumGrows(m: nat, n: nat, price: real)
    requires m <= n && price >= 0.0
    ensures Sum(m, price) <= Sum(n, price)
    decreases n
  {
    if m < n {
      SumGrows(m, n - 1, price);
    }
  }

  lemma {:induction false} PrefixOfUnanswerable(n: nat, price: real, k: nat)
    requires k <= n
    ensures |Unanswerable(n, price)| == n && Unanswerable(n, price)[..k] == Unanswerable(k, price)
    decreases n
  {
    if k < n {
      PrefixOfUnanswerable(n - 1, price, k);
      assert Unanswerable(n, price)[..k] == Unanswerable(n - 1, price)[..k];
    } else if n > 0 {
      PrefixOfUnanswerable(n - 1, price, n - 1);
      assert Unanswerable(n, price)[..n] == Unanswerable(n, price);
    }
  }

  /** Nothing is counted, so the reservation that fits once fits every time. */
  lemma {:induction false} AllUnanswerableDispatched(n: nat, price: real, k: nat, b: Budget)
    requires HasReserve(0.0, b) && k <= n
    ensures |Unanswerable(n, price)| == n && DispatchedFrom(Unanswerable(n, price), b, k) == n
    decreases n - k
  {
    PrefixOfUnanswerable(n, price, k);
    if k < n {
      UnanswerableCost(k, price);
      AllUnanswerableDispatched(n, price, k + 1, b);
    }
  }

  lemma {:induction false} UnanswerableWithinReserve(n: nat, b: Budget)
    ensures AllWithinReserve(Unanswerable(n, b.retrievalReserve), b)
  {
    var searches := Unanswerable(n, b.retrievalReserve);
    PrefixOfUnanswerable(n, b.retrievalReserve, n);
    forall i | 0 <= i < |searches| ensures searches[i].cost <= b.retrievalReserve {
      UnanswerableSearches(n, b.retrievalReserve, i);
    }
  }

  /** What `n` unanswerable searches at their full reservation do: all are run, nothing is counted. */
  lemma {:induction false} WorstSearches(n: nat, b: Budget)
    requires HasReserve(0.0, b)
    ensures
      var searches := Unanswerable(n, b.retrievalReserve);
      && |searches| == n && AllWithinReserve(searches, b) && Dispatched(searches, b) == n
      && CountedCost(searches[..n]) == 0.0 && TrueCost(searches[..n]) == Sum(n, b.retrievalReserve)
  {
    AllUnanswerableDispatched(n, b.retrievalReserve, 0, b);
    PrefixOfUnanswerable(n, b.retrievalReserve, n);
    UnanswerableCost(n, b.retrievalReserve);
    UnanswerableWithinReserve(n, b);
  }

  /** What the searches that are run really cost stays within the budget, for any case list of limited length. */
  ghost predicate RetrievalStaysInBudget(caseLimit: nat, b: Budget) {
    forall searches :: |searches| <= caseLimit && AllWithinReserve(searches, b) ==>
      TrueCost(searches[..Dispatched(searches, b)]) <= b.max
  }

  /** No list of at most `caseLimit` searches costs more than that many reservations. */
  lemma {:induction false} RetrievalCostsAtMost(searches: seq<Search>, caseLimit: nat, b: Budget)
    requires ValidBudget(b) && |searches| <= caseLimit && AllWithinReserve(searches, b)
    ensures TrueCost(searches[..Dispatched(searches, b)]) <= caseLimit as real * b.retrievalReserve
  {
    var ran := searches[..Dispatched(searches, b)];
    TrueCostWithin(ran, b);
    SumGrows(|ran|, caseLimit, b.retrievalReserve);
    SumIsProduct(caseLimit, b.retrievalReserve);
  }

  /**
   The budget holds for what retrieval really costs exactly when no search can be dispatched at all or
   the case limit times the reservation fits the budget: the guard adds nothing for unanswerable searches.
   */
  lemma {:induction false} RetrievalInBudgetIff(caseLimit: nat, b: Budget)
    requires ValidBudget(b)
    ensures RetrievalStaysInBudget(caseLimit, b) <==>
            !HasReserve(0.0, b) || caseLimit as real * b.retrievalReserve <= b.max
  {
    SumIsProduct(caseLimit, b.retrievalReserve);
    if HasReserve(0.0, b) && caseLimit as real * b.retrievalReserve > b.max {
      WorstSearches(caseLimit, b);
      assert !RetrievalStaysInBudget(caseLimit, b);
    } else {
      forall searches | |searches| <= caseLimit && AllWithinReserve(searches, b)
        ensures TrueCost(searches[..Dispatched(searches, b)]) <= b.max
      {
        if HasReserve(0.0, b) {
          RetrievalCostsAtMost(searches, caseLimit, b);
        } else {
          assert searches[..0] == [];
          assert Dispatched(searches, b) == 0;
        }
      }
    }
  }

  /** Without a case limit the searches that are run can cost any amount, each within its reservation. */
  lemma {:induction false} SpendingIsUnbounded(b: Budget, amount: real) returns (searches: seq<Search>)
    requires ValidBudget(b) && b.retrievalReserve > 0.0 && HasReserve(0.0, b)
    ensures AllWithinReserve(searches, b) && Dispatched(searches, b) == |searches|
    ensures CountedCost(searches) == 0.0 && TrueCost(searches) > amount
  {
    var n := EnoughSteps(amount, b.retrievalReserve);
    SumIsProduct(n, b.retrievalReserve);
    WorstSearches(n, b);
    searches := Unanswerable(n, b.retrievalReserve);
    assert searches[..n] == searches;
  }

  lemma {:induction false} StrictScale(a: real, b: real, step: real)
    requires a < b && step > 0.0
    ensures a * step < b * step
  {
  }
}
