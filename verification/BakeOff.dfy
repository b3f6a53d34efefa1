/**
 Case selection and cost reservation of the model bake-off (src/firelens/model_bakeoff.py:37-49
 and 75-173), with costs as exact numbers.
 */
module BakeOff {
  import opened Sequences

  // ---------- round-robin selection ----------

  datatype Case = Case(id: string, category: string, eligible: bool)

  function Eligible(cases: seq<Case>): seq<Case> {
    if cases == [] then []
    else
      var before, last := Eligible(cases[..|cases| - 1]), cases[|cases| - 1];
      if last.eligible then before + [last] else before
  }

  /** The cases of one category, in order. */
  function OfCategory(cases: seq<Case>, category: string): seq<Case> {
    if cases == [] then []
    else
      var before, last := OfCategory(cases[..|cases| - 1], category), cases[|cases| - 1];
      if last.category == category then before + [last] else before
  }

  function InCategory(category: string): Case -> bool {
    (c: Case) => c.category == category
  }

  function MayRun(): Case -> bool {
    (c: Case) => c.eligible
  }

  /** The eligible cases and those of one category are picked in dataset order. */
  lemma {:induction false} PickedInOrder(cases: seq<Case>, category: string)
    ensures Selects(Eligible(cases), cases, Places(cases, MayRun()))
    ensures Selects(OfCategory(cases, category), cases, Places(cases, InCategory(category)))
  {
    if cases != [] {
      var before, last := cases[..|cases| - 1], cases[|cases| - 1];
      assert cases == before + [last];
      PickedInOrder(before, category);
      OneMorePlace(before, last, MayRun());
      OneMorePlace(before, last, InCategory(category));
      SelectsOneMore(Eligible(before), before, Places(before, MayRun()), last);
      SelectsOneMore(OfCategory(before, category), before, Places(before, InCategory(category)), last);
    }
  }

  lemma {:induction false} OfCategorySnoc(cases: seq<Case>, c: Case, category: string)
    ensures OfCategory(cases + [c], category) ==
            if c.category == category then OfCategory(cases, category) + [c] else OfCategory(cases, category)
  {
    assert (cases + [c])[..|cases|] == cases;
  }

  type Pools = map<string, seq<Case>>

  /** What is left in the pools of the given categories. */
  function Left(categories: seq<string>, pools: Pools): nat
    requires forall c :: c in categories ==> c in pools
  {
    if categories == [] then 0
    else Left(categories[..|categories| - 1], pools) + |pools[categories[|categories| - 1]]|
  }

  /** Selected and waiting cases make up the eligible ones, category by category and in dataset order. */
  ghost predicate Conserved(eligible: seq<Case>, selected: seq<Case>, pools: Pools) {
    forall c :: if c in pools then OfCategory(eligible, c) == OfCategory(selected, c) + pools[c]
                else OfCategory(eligible, c) == [] && OfCategory(selected, c) == []
  }

  /** After `round` full rounds every category has been drawn from `round` times, or is exhausted. */
  ghost predicate Even(selected: seq<Case>, pools: Pools, category: string, round: nat)
    requires category in pools
  {
    |OfCategory(selected, category)| == round || (pools[category] == [] && |OfCategory(selected, category)| <= round)
  }

  /** The pools hold exactly the eligible cases, and the categories list the pools. */
  ghost predicate Pooled(eligible: seq<Case>, pools: Pools, categories: seq<string>) {
    && Distinct(categories) && (forall c :: c in categories <==> c in pools)
    && (forall c :: OfCategory(eligible, c) == PoolFor(pools, c))
    && Left(categories, pools) == |eligible|
  }

  /** The pools of the eligible cases; the categories are listed in some order, which the source sorts. */
  method BuildPools(cases: seq<Case>) returns (pools: Pools, categories: seq<string>)
    ensures Pooled(Eligible(cases), pools, categories)
    ensures Conserved(Eligible(cases), [], pools)
  {
    pools, categories := map[], [];
    for i := 0 to |cases|
      invariant Pooled(Eligible(cases[..i]), pools, categories)
    {
      assert cases[..i + 1][..i] == cases[..i];
      if cases[i].eligible {
        pools, categories := AddToPool(pools, categories, cases[i], Eligible(cases[..i]));
      }
    }
    assert cases[..|cases|] == cases;
    forall c | c in pools ensures OfCategory(Eligible(cases), c) == OfCategory([], c) + pools[c] {
      assert [] + pools[c] == pools[c];
    }
  }

  method AddToPool(pools: Pools, categories: seq<string>, item: Case, ghost eligible: seq<Case>)
    returns (pools': Pools, categories': seq<string>)
    requires Pooled(eligible, pools, categories)
    ensures Pooled(eligible + [item], pools', categories')
  {
    var pool := PoolFor(pools, item.category);
    pools' := pools[item.category := pool + [item]];
    categories' := if item.category in pools then categories else categories + [item.category];
    PoolGrows(pools, categories, item, eligible);
  }

  function PoolFor(pools: Pools, category: string): seq<Case> {
    if category in pools then pools[category] else []
  }

  lemma {:induction false} PoolGrows(pools: Pools, categories: seq<string>, item: Case, eligible: seq<Case>)
    requires Pooled(eligible, pools, categories)
    ensures Pooled(eligible + [item], pools[item.category := PoolFor(pools, item.category) + [item]],
                   if item.category in pools then categories else categories + [item.category])
  {
    LeftGrows(pools, categories, item);
    forall c ensures OfCategory(eligible + [item], c) ==
                     PoolFor(pools[item.category := PoolFor(pools, item.category) + [item]], c)
    {
      OfCategorySnoc(eligible, item, c);
      assert OfCategory(eligible, c) == PoolFor(pools, c);
    }
  }

  lemma {:induction false} LeftGrows(pools: Pools, categories: seq<string>, item: Case)
    requires Distinct(categories) && forall c :: c in categories <==> c in pools
    ensures
      var pool := PoolFor(pools, item.category);
      var categories' := if item.category in pools then categories else categories + [item.category];
      var pools' := pools[item.category := pool + [item]];
      && Distinct(categories') && (forall c :: c in categories' <==> c in pools')
      && Left(categories', pools') == Left(categories, pools) + 1
  {
    var category := item.category;
    if category in pools {
      LeftUpdate(categories, pools, category, pools[category] + [item]);
    } else {
      LeftFrame(categories, pools, pools[category := [] + [item]]);
      assert (categories + [category])[..|categories|] == categories;
      assert forall i :: 0 <= i < |categories| ==> categories[i] in categories;
    }
  }

  lemma {:induction false} LeftFrame(categories: seq<string>, pools: Pools, pools': Pools)
    requires forall c :: c in categories ==> c in pools && c in pools' && pools[c] == pools'[c]
    ensures Left(categories, pools) == Left(categories, pools')
  {
    if categories != [] {
      LeftFrame(categories[..|categories| - 1], pools, pools');
    }
  }

  /** Replacing the pool of one listed category changes the total by the difference. */
  lemma {:induction false} LeftUpdate(categories: seq<string>, pools: Pools, category: string, pool: seq<Case>)
    requires Distinct(categories) && category in categories && forall c :: c in categories ==> c in pools
    ensures Left(categories, pools[category := pool]) == Left(categories, pools) - |pools[category]| + |pool|
  {
    var n := |categories| - 1;
    assert categories == categories[..n] + [categories[n]];
    if categories[n] == category {
      LeftFrame(categories[..n], pools, pools[category := pool]);
    } else {
      LeftUpdate(categories[..n], pools, category, pool);
    }
  }

  lemma {:induction false} LeftZeroIff(categories: seq<string>, pools: Pools)
    requires forall c :: c in categories ==> c in pools
    ensures Left(categories, pools) == 0 <==> forall c :: c in categories ==> pools[c] == []
  {
    if categories != [] {
      LeftZeroIff(categories[..|categories| - 1], pools);
      assert categories == categories[..|categories| - 1] + [categories[|categories| - 1]];
    }
  }

  /** Drawing the first waiting case of one category concerns that category only. */
  lemma {:induction false} DrawKeeps(eligible: seq<Case>, selected: seq<Case>, pools: Pools, category: string)
    requires Conserved(eligible, selected, pools) && category in pools && pools[category] != []
    requires OfCategory(eligible, category) == OfCategory(selected, category) + pools[category]
    requires forall c :: c in pools[category] ==> c.category == category
    ensures
      var selected', pools' := selected + [pools[category][0]], pools[category := pools[category][1..]];
      && Conserved(eligible, selected', pools')
      && |OfCategory(selected', category)| == |OfCategory(selected, category)| + 1
      && (forall c :: c != category ==> OfCategory(selected', c) == OfCategory(selected, c))
  {
    var first := pools[category][0];
    var selected', pools' := selected + [first], pools[category := pools[category][1..]];
    assert first in pools[category];
    forall c ensures OfCategory(selected', c) ==
                     if c == category then OfCategory(selected, c) + [first] else OfCategory(selected, c)
    {
      OfCategorySnoc(selected, first, c);
    }
    assert pools[category] == [first] + pools[category][1..];
    ConcatAssociative(OfCategory(selected, category), [first], pools[category][1..]);
  }

  lemma {:induction false} OfCategoryMembers(cases: seq<Case>, category: string)
    ensures forall c :: c in OfCategory(cases, category) ==> c.category == category
  {
    if cases != [] {
      OfCategoryMembers(cases[..|cases| - 1], category);
    }
  }

  /** Half-way through a round: the first `i` categories have had their turn, unless the limit came first. */
  ghost predicate Turned(selected: seq<Case>, pools: Pools, categories: seq<string>, i: nat, limit: int, round: nat)
    requires forall c :: c in categories ==> c in pools
  {
    && (forall k :: 0 <= k < |categories| && k < i ==>
          Even(selected, pools, categories[k], round + 1) ||
          (|selected| >= limit && Even(selected, pools, categories[k], round)))
    && (forall k :: i <= k < |categories| ==> Even(selected, pools, categories[k], round))
  }

  lemma {:induction false} TurnKeeps(
    eligible: seq<Case>, selected: seq<Case>, pools: Pools, categories: seq<string>, i: nat, limit: int, round: nat
  )
    requires Distinct(categories) && (forall c :: c in categories ==> c in pools) && i < |categories|
    requires Conserved(eligible, selected, pools) && Turned(selected, pools, categories, i, limit, round)
    requires pools[categories[i]] != [] && |selected| < limit
    ensures
      var category := categories[i];
      var selected', pools' := selected + [pools[category][0]], pools[category := pools[category][1..]];
      && Conserved(eligible, selected', pools') && Turned(selected', pools', categories, i + 1, limit, round)
      && Left(categories, pools') == Left(categories, pools) - 1
  {
    var category := categories[i];
    OfCategoryMembers(eligible, category);
    assert forall c :: c in pools[category] ==> c in OfCategory(eligible, category);
    DrawKeeps(eligible, selected, pools, category);
    LeftUpdate(categories, pools, category, pools[category][1..]);
    assert forall k :: 0 <= k < |categories| && k != i ==> categories[k] != category;
  }

  /** One pass over the categories. */
  method OneRound(categories: seq<string>, pools: Pools, selected: seq<Case>, limit: int,
                  ghost eligible: seq<Case>, ghost round: nat)
    returns (selected': seq<Case>, pools': Pools)
    requires Distinct(categories) && forall c :: c in categories <==> c in pools
    requires Conserved(eligible, selected, pools)
    requires |selected| < limit && Left(categories, pools) > 0
    requires forall c :: c in pools ==> Even(selected, pools, c, round)
    ensures pools'.Keys == pools.Keys && Conserved(eligible, selected', pools')
    ensures |selected'| + Left(categories, pools') == |selected| + Left(categories, pools)
    ensures |selected| < |selected'| <= limit
    ensures forall c :: c in pools' ==> Even(selected', pools', c, round) || Even(selected', pools', c, round + 1)
    ensures |selected'| < limit ==> forall c :: c in pools' ==> Even(selected', pools', c, round + 1)
  {
    selected', pools' := selected, pools;
    for i := 0 to |categories|
      invariant pools'.Keys == pools.Keys
      invariant InRound(eligible, categories, selected, pools, selected', pools', i, limit, round)
    {
      var category := categories[i];
      if pools'[category] != [] && |selected'| < limit {
        TurnTaken(eligible, categories, selected, pools, selected', pools', i, limit, round);
        selected', pools' := selected' + [pools'[category][0]], pools'[category := pools'[category][1..]];
      } else {
        TurnSkipped(eligible, categories, selected, pools, selected', pools', i, limit, round);
      }
    }
    LeftZeroIff(categories, pools);
    AllTurned(selected', pools', categories, limit, round);
  }

  /** What a round knows after `i` turns. */
  ghost predicate InRound(eligible: seq<Case>, categories: seq<string>, selected: seq<Case>, pools: Pools,
                          selected': seq<Case>, pools': Pools, i: nat, limit: int, round: nat)
    requires forall c :: c in categories ==> c in pools && c in pools'
  {
    && Conserved(eligible, selected', pools') && Turned(selected', pools', categories, i, limit, round)
    && |selected'| + Left(categories, pools') == |selected| + Left(categories, pools)
    && |selected| <= |selected'| <= limit
    && (|selected'| == |selected| ==>
          pools' == pools && forall k :: 0 <= k < |categories| && k < i ==> pools[categories[k]] == [])
  }

  lemma {:induction false} TurnTaken(eligible: seq<Case>, categories: seq<string>, selected: seq<Case>, pools: Pools,
                                     selected': seq<Case>, pools': Pools, i: nat, limit: int, round: nat)
    requires Distinct(categories) && (forall c :: c in categories ==> c in pools && c in pools') && i < |categories|
    requires InRound(eligible, categories, selected, pools, selected', pools', i, limit, round)
    requires pools'[categories[i]] != [] && |selected'| < limit
    ensures
      var category := categories[i];
      InRound(eligible, categories, selected, pools, selected' + [pools'[category][0]],
              pools'[category := pools'[category][1..]], i + 1, limit, round)
  {
    TurnKeeps(eligible, selected', pools', categories, i, limit, round);
  }

  /** A category is passed over when its pool is empty, or when the limit is reached. */
  lemma {:induction false} TurnSkipped(eligible: seq<Case>, categories: seq<string>, selected: seq<Case>, pools: Pools,
                                       selected': seq<Case>, pools': Pools, i: nat, limit: int, round: nat)
    requires (forall c :: c in categories ==> c in pools && c in pools') && i < |categories| && |selected| < limit
    requires InRound(eligible, categories, selected, pools, selected', pools', i, limit, round)
    requires pools'[categories[i]] == [] || |selected'| >= limit
    ensures InRound(eligible, categories, selected, pools, selected', pools', i + 1, limit, round)
  {
  }

  lemma {:induction false} AllTurned(selected: seq<Case>, pools: Pools, categories: seq<string>, limit: int, round: nat)
    requires forall c :: c in categories <==> c in pools
    requires Turned(selected, pools, categories, |categories|, limit, round)
    ensures forall c :: c in pools ==> Even(selected, pools, c, round) || Even(selected, pools, c, round + 1)
    ensures |selected| < limit ==> forall c :: c in pools ==> Even(selected, pools, c, round + 1)
  {
    forall c | c in pools ensures exists k :: 0 <= k < |categories| && categories[k] == c {
      assert c in categories;
    }
  }

  /**
   `_balanced_cases`: as many cases as allowed, each category in dataset order, and no category more
   than one ahead of another that still has cases.
   */
  method BalancedCases(cases: seq<Case>, limit: int) returns (selected: seq<Case>)
    ensures |selected| == if limit <= 0 then 0 else if limit <= |Eligible(cases)| then limit else |Eligible(cases)|
    ensures forall c :: OfCategory(selected, c) <= OfCategory(Eligible(cases), c)
    ensures forall a, b :: |OfCategory(selected, a)| > |OfCategory(selected, b)| + 1 ==>
                             OfCategory(selected, b) == OfCategory(Eligible(cases), b)
  {
    var pools, categories := BuildPools(cases);
    selected := [];
    ghost var round: nat := 0;
    while |selected| < limit && Left(categories, pools) > 0
      invariant Distinct(categories) && forall c :: c in categories <==> c in pools
      invariant Conserved(Eligible(cases), selected, pools)
      invariant |selected| + Left(categories, pools) == |Eligible(cases)|
      invariant selected == [] || |selected| <= limit
      invariant forall c :: c in pools ==> Even(selected, pools, c, round) || Even(selected, pools, c, round + 1)
      invariant |selected| < limit ==> forall c :: c in pools ==> Even(selected, pools, c, round)
      decreases Left(categories, pools)
    {
      selected, pools := OneRound(categories, pools, selected, limit, Eligible(cases), round);
      round := if |selected| < limit then round + 1 else round;
    }
    LeftZeroIff(categories, pools);
    BalanceHolds(Eligible(cases), selected, pools, round);
  }

  lemma {:induction false} BalanceHolds(eligible: seq<Case>, selected: seq<Case>, pools: Pools, round: nat)
    requires Conserved(eligible, selected, pools)
    requires forall c :: c in pools ==> Even(selected, pools, c, round) || Even(selected, pools, c, round + 1)
    ensures forall c :: OfCategory(selected, c) <= OfCategory(eligible, c)
    ensures forall a, b :: |OfCategory(selected, a)| > |OfCategory(selected, b)| + 1 ==>
                             OfCategory(selected, b) == OfCategory(eligible, b)
  {
    forall a, b | |OfCategory(selected, a)| > |OfCategory(selected, b)| + 1
      ensures OfCategory(selected, b) == OfCategory(eligible, b)
    {
      assert a in pools && |OfCategory(selected, a)| <= round + 1;
      assert OfCategory(selected, b) + [] == OfCategory(selected, b);
    }
  }
}
