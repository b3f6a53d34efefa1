/**
 Record identity of official live rows (src/firelens/live_identity.py).

 Every row carries an official key or a fallback key; rows of one fetch that share a key
 are numbered `#2`, `#3`, ... in fetch order.
 */
module LiveIdentity {
  import opened Sequences

  // ---------- decimal numerals ----------

  function Digit(d: nat): char
    requires d < 10
  {
    "0123456789"[d]
  }

  /** `str(n)` for a non-negative integer. */
  function Decimal(n: nat): (s: string)
    ensures |s| > 0 && '#' !in s
    ensures |s| == 1 <==> n < 10
  {
    if n < 10 then [Digit(n)] else Decimal(n / 10) + [Digit(n % 10)]
  }

  lemma {:induction false} DecimalInjective(m: nat, n: nat)
    requires Decimal(m) == Decimal(n)
    ensures m == n
  {
    if m < 10 || n < 10 {
      assert m < 10 && n < 10;
      assert Decimal(m)[0] == Digit(m) && Decimal(n)[0] == Digit(n);
    } else {
      var a, b := Decimal(m / 10), Decimal(n / 10);
      assert Decimal(m) == a + [Digit(m % 10)] && Decimal(n) == b + [Digit(n % 10)];
      assert a == Decimal(m)[..|Decimal(m)| - 1] == Decimal(n)[..|Decimal(n)| - 1] == b;
      assert Digit(m % 10) == Decimal(m)[|Decimal(m)| - 1] == Decimal(n)[|Decimal(n)| - 1] == Digit(n % 10);
      DecimalInjective(m / 10, n / 10);
    }
  }

  /** A larger number never has fewer digits. */
  lemma {:induction false} DecimalLength(m: nat, n: nat)
    requires m <= n
    ensures |Decimal(m)| <= |Decimal(n)|
  {
    if m >= 10 {
      DecimalLength(m / 10, n / 10);
    }
  }

  /** The number a string of decimal digits stands for. */
  function Value(s: string): int {
    if s == "" then 0 else 10 * Value(s[..|s| - 1]) + (s[|s| - 1] as int - '0' as int)
  }

  /** A numeral is written in digits, without a leading zero, and stands for its number. */
  lemma {:induction false} DecimalIs(n: nat)
    ensures Value(Decimal(n)) == n
    ensures forall c :: c in Decimal(n) ==> '0' <= c <= '9'
    ensures n > 0 ==> Decimal(n)[0] != '0'
  {
    DigitIs(n % 10);
    if n < 10 {
      assert Decimal(n)[..0] == "";
    } else {
      DecimalIs(n / 10);
      assert Decimal(n)[..|Decimal(n)| - 1] == Decimal(n / 10);
    }
  }

  lemma {:induction false} DigitIs(d: nat)
    requires d < 10
    ensures Digit(d) as int == '0' as int + d
  {
  }

  // ---------- record IDs ----------

  /** The first row of a key has no suffix, the n-th row has `#n`. */
  function Suffix(occurrence: nat): string {
    if occurrence <= 1 then "" else "#" + Decimal(occurrence)
  }

  function Label(kind: string, local: string): string {
    kind + ":" + local
  }

  /** The number of rows up to and including row `i` that share its key. */
  function Occurrence(keys: seq<string>, i: nat): (n: nat)
    requires i < |keys|
    ensures n >= 1
  {
    Count(keys[..i + 1], keys[i])
  }

  /** `"<kind>:<key><suffix>"`: the suffix numbers the rows up to and including row `i` that share its key. */
  function RecordId(kind: string, keys: seq<string>, i: nat): string
    requires i < |keys|
  {
    Label(kind, keys[i] + Suffix(Occurrence(keys, i)))
  }

  function IdAt(kind: string, keys: seq<string>): nat -> string {
    (i: nat) => if i < |keys| then RecordId(kind, keys, i) else ""
  }

  /** `record_ids`: the IDs of all rows, in fetch order. */
  function RecordIds(kind: string, keys: seq<string>): (ids: seq<string>)
    ensures |ids| == |keys|
  {
    Tabulate(IdAt(kind, keys), |keys|)
  }

  /** The number of rows before `i` with the key of row `i`. */
  function Earlier(keys: seq<string>, i: nat): nat
    requires i < |keys|
  {
    |Places(keys[..i], SameKey(keys[i]))|
  }

  function SameKey(key: string): string -> bool {
    (k: string) => k == key
  }

  lemma {:induction false} CountIsPlaces(keys: seq<string>, key: string)
    ensures Count(keys, key) == |Places(keys, SameKey(key))|
  {
    if keys != [] {
      CountIsPlaces(keys[..|keys| - 1], key);
    }
  }

  /** The first row of a key is named by it alone, and a row behind `n` others of its key has `#` and `n + 1`. */
  lemma {:induction false} IdsRead(kind: string, keys: seq<string>, i: nat)
    requires i < |keys|
    ensures
      var n := Earlier(keys, i);
      RecordIds(kind, keys)[i] ==
      if n == 0 then kind + ":" + (keys[i] + "") else kind + ":" + (keys[i] + ("#" + Decimal(n + 1)))
  {
    RecordIdsAt(kind, keys, i);
    OccurrenceIs(keys, i);
  }

  lemma {:induction false} OccurrenceIs(keys: seq<string>, i: nat)
    requires i < |keys|
    ensures Occurrence(keys, i) == Earlier(keys, i) + 1
  {
    CountIsPlaces(keys[..i], keys[i]);
    RunningCount(keys, i);
  }

  lemma {:induction false} RecordIdsAt(kind: string, keys: seq<string>, i: nat)
    requires i < |keys|
    ensures RecordIds(kind, keys)[i] == RecordId(kind, keys, i)
  {
    TabulateAt(IdAt(kind, keys), |keys|, i);
  }

  /** First pass: how many rows carry each key. */
  method CountKeys(keys: seq<string>) returns (counts: map<string, nat>)
    ensures forall k :: k in keys ==> k in counts && counts[k] == Count(keys, k)
  {
    counts := map[];
    for i := 0 to |keys|
      invariant forall k :: k in counts <==> k in keys[..i]
      invariant forall k :: k in counts ==> counts[k] == Count(keys[..i], k)
    {
      assert keys[..i + 1][..i] == keys[..i];
      counts := counts[keys[i] := (if keys[i] in counts then counts[keys[i]] else 0) + 1];
    }
    assert keys[..|keys|] == keys;
  }

  /** After `i` rows, `seen` counts the rows of every repeated key met so far. */
  ghost predicate Tallied(keys: seq<string>, seen: map<string, nat>, i: nat)
    requires i <= |keys|
  {
    && (forall k :: k in seen ==> Count(keys, k) != 1 && seen[k] == Count(keys[..i], k))
    && (forall k :: k in keys[..i] && k !in seen ==> Count(keys, k) == 1)
  }

  lemma {:induction false} TallyStep(keys: seq<string>, seen: map<string, nat>, i: nat)
    requires i < |keys| && Tallied(keys, seen, i)
    ensures
      var key := keys[i];
      var n := (if key in seen then seen[key] else 0) + 1;
      if Count(keys, key) == 1 then Occurrence(keys, i) == 1 && Tallied(keys, seen, i + 1)
      else Occurrence(keys, i) == n && Tallied(keys, seen[key := n], i + 1)
  {
    RunningCount(keys, i);
    assert forall k :: k in keys[..i + 1] <==> k in keys[..i] || k == keys[i];
  }

  /** The text that the second pass builds for the `n`-th row of a key. */
  lemma {:induction false} IdText(kind: string, keys: seq<string>, i: nat, n: nat, suffix: string)
    requires i < |keys| && n == Occurrence(keys, i) && suffix == (if n == 1 then "" else "#" + Decimal(n))
    ensures Label(kind, keys[i] + suffix) == RecordId(kind, keys, i)
    ensures n == 1 ==> Label(kind, keys[i]) == RecordId(kind, keys, i)
  {
    assert suffix == Suffix(n);
    assert keys[i] + "" == keys[i];
  }

  /** Second pass: only the rows of a repeated key are numbered. */
  method AssignRecordIds(kind: string, keys: seq<string>) returns (ids: seq<string>)
    ensures ids == RecordIds(kind, keys)
  {
    var counts := CountKeys(keys);
    var seen: map<string, nat> := map[];
    ids := [];
    for i := 0 to |keys|
      invariant Tallied(keys, seen, i)
      invariant ids == Tabulate(IdAt(kind, keys), i)
    {
      var key := keys[i];
      TallyStep(keys, seen, i);
      var id: string;
      if counts[key] == 1 {
        id := Label(kind, key);
        IdText(kind, keys, i, 1, "");
      } else {
        var number := (if key in seen then seen[key] else 0) + 1;
        var suffix := if number == 1 then "" else "#" + Decimal(number);
        seen := seen[key := number];
        id := Label(kind, key + suffix);
        IdText(kind, keys, i, number, suffix);
      }
      assert id == IdAt(kind, keys)(i);
      ids := ids + [id];
    }
  }

  lemma {:induction false} RunningCount(keys: seq<string>, i: nat)
    requires i < |keys|
    ensures Occurrence(keys, i) == Count(keys[..i], keys[i]) + 1 <= Count(keys, keys[i])
    ensures forall k :: k != keys[i] ==> Count(keys[..i + 1], k) == Count(keys[..i], k)
  {
    assert keys == keys[..i + 1] + keys[i + 1..];
    CountAppend(keys[..i + 1], keys[i + 1..], keys[i]);
    CountStep(keys, i, keys[i]);
    forall k | k != keys[i] ensures Count(keys[..i + 1], k) == Count(keys[..i], k) {
      CountStep(keys, i, k);
    }
  }

  lemma {:induction false} CountStep(keys: seq<string>, i: nat, k: string)
    requires i < |keys|
    ensures Count(keys[..i + 1], k) == Count(keys[..i], k) + if keys[i] == k then 1 else 0
  {
    assert keys[..i + 1][..i] == keys[..i];
  }

  /** Some row's own key reads like the numbered form of another, sufficiently repeated, key. */
  ghost predicate ForgedSuffix(keys: seq<string>) {
    exists key, n: nat :: 2 <= n <= Count(keys, key) && key + Suffix(n) in keys
  }

  lemma {:induction false} SuffixCancels(a: string, m: nat, b: string, n: nat)
    requires a + Suffix(m) == b + Suffix(n) && m >= 2 && n >= 2
    ensures a == b && m == n
  {
    HashCancels(a, Decimal(m), b, Decimal(n));
    DecimalInjective(m, n);
  }

  /** The mark of a suffix is the last `#` of the string. */
  lemma {:induction false} LastHash(a: string, x: string)
    requires '#' !in x
    ensures (a + ("#" + x))[|a|] == '#'
    ensures forall i :: |a| < i < |a + ("#" + x)| ==> (a + ("#" + x))[i] != '#'
    ensures (a + ("#" + x))[..|a|] == a && (a + ("#" + x))[|a| + 1..] == x
  {
    var s := a + ("#" + x);
    forall i | |a| < i < |s| ensures s[i] != '#' {
      assert s[i] == x[i - |a| - 1];
    }
  }

  lemma {:induction false} HashCancels(a: string, x: string, b: string, y: string)
    requires a + ("#" + x) == b + ("#" + y) && '#' !in x && '#' !in y
    ensures a == b && x == y
  {
    LastHash(a, x);
    LastHash(b, y);
    assert |a| == |b|;
  }

  lemma {:induction false} LabelInjective(kind: string, s: string, t: string)
    ensures Label(kind, s) == Label(kind, t) <==> s == t
  {
    assert s == Label(kind, s)[|kind| + 1..];
    assert t == Label(kind, t)[|kind| + 1..];
  }

  /** Equal keys with different occurrence numbers have different IDs. */
  lemma {:induction false} SuffixInjective(a: string, m: nat, n: nat)
    requires 1 <= m < n
    ensures a + Suffix(m) != a + Suffix(n)
  {
    if m == 1 {
      assert |a + Suffix(m)| < |a + Suffix(n)|;
    } else if a + Suffix(m) == a + Suffix(n) {
      SuffixCancels(a, m, a, n);
    }
  }

  /** The weakest condition: IDs are pairwise distinct exactly when no key forges a used suffix. */
  lemma {:induction false} IdsDistinctIffNoForgedSuffix(kind: string, keys: seq<string>)
    ensures Distinct(RecordIds(kind, keys)) <==> !ForgedSuffix(keys)
  {
    var ids := RecordIds(kind, keys);
    if ForgedSuffix(keys) {
      var key, n: nat :| 2 <= n <= Count(keys, key) && key + Suffix(n) in keys;
      var i, j := ForgedSuffixCollides(kind, keys, key, n);
      RecordIdsAt(kind, keys, i);
      RecordIdsAt(kind, keys, j);
      assert ids[i] == ids[j];
    } else {
      forall i, j | 0 <= i < j < |ids| ensures ids[i] != ids[j] {
        RecordIdsAt(kind, keys, i);
        RecordIdsAt(kind, keys, j);
        if ids[i] == ids[j] {
          CollisionIsForged(kind, keys, i, j);
        }
      }
    }
  }

  lemma {:induction false} ForgedSuffixCollides(
    kind: string, keys: seq<string>, key: string, n: nat) returns (i: nat, j: nat
  )
    requires 2 <= n <= Count(keys, key) && key + Suffix(n) in keys
    ensures i < |keys| && j < |keys| && i != j && RecordId(kind, keys, i) == RecordId(kind, keys, j)
  {
    var forged := key + Suffix(n);
    i := OccurrenceAt(keys, key, n);
    j := OccurrenceAt(keys, forged, 1);
    assert |forged| > |key|;
    assert forged + "" == forged;
  }

  lemma {:induction false} CollisionIsForged(kind: string, keys: seq<string>, i: nat, j: nat)
    requires i < j < |keys| && RecordId(kind, keys, i) == RecordId(kind, keys, j)
    ensures ForgedSuffix(keys)
  {
    var a, m, b, n := keys[i], Occurrence(keys, i), keys[j], Occurrence(keys, j);
    LabelInjective(kind, a + Suffix(m), b + Suffix(n));
    RunningCount(keys, i);
    RunningCount(keys, j);
    assert a != b by {
      if a == b {
        CountGrows(keys, i, j);
        SuffixInjective(a, m, n);
      }
    }
    CollidingKeysForge(a, m, b, n);
    if m >= 2 {
      assert a + Suffix(m) in keys;
    } else {
      assert b + Suffix(n) in keys;
    }
  }

  lemma {:induction false} CollidingKeysForge(a: string, m: nat, b: string, n: nat)
    requires a + Suffix(m) == b + Suffix(n) && a != b
    ensures (m >= 2 && a + Suffix(m) == b) || (n >= 2 && b + Suffix(n) == a)
  {
    assert a + "" == a && b + "" == b;
    if m >= 2 && n >= 2 {
      SuffixCancels(a, m, b, n);
    }
  }

  /** A key that occurs once keeps the same ID in any two fetches, whatever the other rows and their order. */
  lemma {:induction false} UniqueKeyIdStable(kind: string, keys: seq<string>, i: nat, keys': seq<string>, i': nat)
    requires i < |keys| && i' < |keys'| && keys[i] == keys'[i']
    requires Count(keys, keys[i]) == 1 && Count(keys', keys[i]) == 1
    ensures RecordId(kind, keys, i) == RecordId(kind, keys', i') == Label(kind, keys[i])
  {
    RunningCount(keys, i);
    RunningCount(keys', i');
    assert keys[i] + "" == keys[i];
  }

  /**
   For a repeated key the other rows decide: in any two fetches, rows of one key have the same ID
   exactly when equally many rows of that key come before them.
   */
  lemma {:induction false} RepeatedKeyIdDependsOnOtherRows(
    kind: string, keys: seq<string>, i: nat, keys': seq<string>, i': nat
  )
    requires i < |keys| && i' < |keys'| && keys[i] == keys'[i']
    ensures RecordId(kind, keys, i) == RecordId(kind, keys', i') <==> Occurrence(keys, i) == Occurrence(keys', i')
    ensures Occurrence(keys, i) == Occurrence(keys', i') <==> Count(keys[..i], keys[i]) == Count(keys'[..i'], keys[i])
  {
    RunningCount(keys, i);
    RunningCount(keys', i');
    NumbersDecideIds(kind, keys[i], Occurrence(keys, i), Occurrence(keys', i'));
  }

  lemma {:induction false} NumbersDecideIds(kind: string, key: string, n: nat, m: nat)
    requires n >= 1 && m >= 1
    ensures Label(kind, key + Suffix(n)) == Label(kind, key + Suffix(m)) <==> n == m
  {
    LabelInjective(kind, key + Suffix(n), key + Suffix(m));
    if n < m {
      SuffixInjective(key, n, m);
    } else if m < n {
      SuffixInjective(key, m, n);
    }
  }
}
