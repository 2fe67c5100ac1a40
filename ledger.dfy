/**
 * The transaction ledger as the aggregate queries see it: a sequence of
 * transactions, filtered by the WHERE clauses the queries use and grouped by a
 * key with a SUM per group.
 */
module Ledger {
  import opened Wrappers
  import opened Dates
  import opened Grouping

  datatype TxType = Income | Expense

  /** The text stored in `tx_type`. */
  function TypeLabel(t: TxType): string {
    match t
    case Income => "income"
    case Expense => "expense"
  }

  /**
   * A row of the `transactions` table without its id. Amounts are integer cents
   * (`Numeric(12, 2)`); category, bucket and note are nullable.
   */
  datatype Tx = Tx(
    txType: TxType,
    amount: int,
    currency: string,
    category: Option<string>,
    bucket: Option<string>,
    occurredOn: Date,
    note: Option<string>)

  /** What the schemas guarantee of every stored transaction: a positive amount on a real date. */
  predicate ValidTx(t: Tx) {
    t.amount > 0 && ValidDate(t.occurredOn)
  }

  predicate ValidLedger(txs: seq<Tx>) {
    forall i :: 0 <= i < |txs| ==> ValidTx(txs[i])
  }

  /** `case((tx_type == 'income', amount), else_=0)`. */
  function IncomePart(t: Tx): int {
    if t.txType == Income then t.amount else 0
  }

  /** `case((tx_type == 'expense', amount), else_=0)`. */
  function ExpensePart(t: Tx): int {
    if t.txType == Expense then t.amount else 0
  }

  /** The plain `amount` column. */
  function AmountOf(t: Tx): int {
    t.amount
  }

  function CategoryOf(t: Tx): Option<string> {
    t.category
  }

  function BucketOf(t: Tx): Option<string> {
    t.bucket
  }

  function DayOf(t: Tx): Date {
    t.occurredOn
  }

  function MonthOfTx(t: Tx): MonthKey {
    MonthOf(t.occurredOn)
  }

  /** The optional inclusive date window: an absent bound is unbounded on its side. */
  predicate InRange(d: Date, from: Option<Date>, to: Option<Date>) {
    (from.None? || DateLe(from.value, d)) && (to.None? || DateLe(d, to.value))
  }

  /** `WHERE occurred_on >= date_from AND occurred_on <= date_to`, each only when given. */
  function Between(txs: seq<Tx>, from: Option<Date>, to: Option<Date>): seq<Tx> {
    if txs == [] then []
    else
      var t := txs[|txs| - 1];
      var rest := Between(txs[..|txs| - 1], from, to);
      if InRange(t.occurredOn, from, to) then rest + [t] else rest
  }

  /** `WHERE tx_type == ty`. */
  function OfType(txs: seq<Tx>, ty: TxType): seq<Tx> {
    if txs == [] then []
    else
      var t := txs[|txs| - 1];
      var rest := OfType(txs[..|txs| - 1], ty);
      if t.txType == ty then rest + [t] else rest
  }

  /** The window keeps exactly the rows dated inside it. */
  lemma {:induction false} BetweenMembers(txs: seq<Tx>, from: Option<Date>, to: Option<Date>)
    ensures forall i :: 0 <= i < |Between(txs, from, to)| ==>
      Between(txs, from, to)[i] in txs && InRange(Between(txs, from, to)[i].occurredOn, from, to)
    ensures forall i :: 0 <= i < |txs| && InRange(txs[i].occurredOn, from, to) ==> txs[i] in Between(txs, from, to)
  {
    if txs != [] {
      var init, t := txs[..|txs| - 1], txs[|txs| - 1];
      assert txs == init + [t];
      BetweenMembers(init, from, to);
    }
  }

  /** The type filter keeps exactly the rows of that type. */
  lemma {:induction false} OfTypeMembers(txs: seq<Tx>, ty: TxType)
    ensures forall i :: 0 <= i < |OfType(txs, ty)| ==> OfType(txs, ty)[i] in txs && OfType(txs, ty)[i].txType == ty
    ensures forall i :: 0 <= i < |txs| && txs[i].txType == ty ==> txs[i] in OfType(txs, ty)
  {
    if txs != [] {
      var init, t := txs[..|txs| - 1], txs[|txs| - 1];
      assert txs == init + [t];
      OfTypeMembers(init, ty);
    }
  }

  /** The rows of one group: those whose key is `k`. */
  function Matching<K(==)>(txs: seq<Tx>, key: Tx -> K, k: K): (r: seq<Tx>)
  {
    if txs == [] then []
    else
      var t := txs[|txs| - 1];
      var rest := Matching(txs[..|txs| - 1], key, k);
      if key(t) == k then rest + [t] else rest
  }

  /** The distinct values of the GROUP BY key, each where it first occurs. */
  function KeysOf<K(==)>(txs: seq<Tx>, key: Tx -> K): seq<K> {
    Distinct(MapSeq(txs, key))
  }

  /** The keys are the values the rows take, each once. */
  lemma KeysOfMembers<K>(txs: seq<Tx>, key: Tx -> K)
    ensures forall i :: 0 <= i < |KeysOf(txs, key)| ==> KeysOf(txs, key)[i] in MapSeq(txs, key)
    ensures forall i :: 0 <= i < |txs| ==> key(txs[i]) in KeysOf(txs, key)
    ensures NoDuplicates(KeysOf(txs, key))
  {
    var m := MapSeq(txs, key);
    DistinctMembers(m);
    assert forall i :: 0 <= i < |txs| ==> m[i] == key(txs[i]);
  }

  /** A group's key with its SUM. */
  datatype Group<K> = Group(key: K, total: int)

  function TotalOf<K>(g: Group<K>): int {
    g.total
  }

  function KeyOf<K>(g: Group<K>): K {
    g.key
  }

  /** The keys of a list of groups, in order. */
  function GroupKeys<K>(gs: seq<Group<K>>): seq<K> {
    MapSeq(gs, KeyOf)
  }

  /** One row per key of `ks`: the key and the sum of `part` over its rows. */
  function GroupsFor<K(==)>(txs: seq<Tx>, key: Tx -> K, part: Tx -> int, ks: seq<K>): (r: seq<Group<K>>)
    ensures |r| == |ks|
    ensures forall i :: 0 <= i < |ks| ==> r[i] == Group(ks[i], SumVal(Matching(txs, key, ks[i]), part))
  {
    if ks == [] then []
    else GroupsFor(txs, key, part, ks[..|ks| - 1]) + [Group(ks[|ks| - 1], SumVal(Matching(txs, key, ks[|ks| - 1]), part))]
  }

  /** `SELECT key, SUM(part) ... GROUP BY key`, in an order the contracts do not rely on. */
  function GroupBy<K(==)>(txs: seq<Tx>, key: Tx -> K, part: Tx -> int): seq<Group<K>> {
    GroupsFor(txs, key, part, KeysOf(txs, key))
  }

  /** GROUP BY emits one row for each key that occurs, with the sum over exactly that key's rows. */
  lemma GroupByRows<K>(txs: seq<Tx>, key: Tx -> K, part: Tx -> int)
    ensures var g := GroupBy(txs, key, part);
      && (forall i :: 0 <= i < |g| ==> g[i].key in MapSeq(txs, key) && g[i].total == SumVal(Matching(txs, key, g[i].key), part))
      && (forall i :: 0 <= i < |txs| ==> exists j :: 0 <= j < |g| && g[j].key == key(txs[i]))
      && (forall i, j :: 0 <= i < j < |g| ==> g[i].key != g[j].key)
  {
    var g := GroupBy(txs, key, part);
    var ks := KeysOf(txs, key);
    var m := MapSeq(txs, key);
    KeysOfMembers(txs, key);
    assert forall i :: 0 <= i < |g| ==> g[i].key == ks[i];
    forall i | 0 <= i < |txs|
      ensures exists j :: 0 <= j < |g| && g[j].key == key(txs[i])
    {
      assert m[i] in ks;
      var j :| 0 <= j < |ks| && ks[j] == m[i];
      assert g[j].key == key(txs[i]);
    }
  }

  lemma KeysOfAppend<K>(txs: seq<Tx>, t: Tx, key: Tx -> K)
    ensures KeysOf(txs + [t], key) == if key(t) in KeysOf(txs, key) then KeysOf(txs, key) else KeysOf(txs, key) + [key(t)]
  {
    var m := MapSeq(txs + [t], key);
    assert m[..|m| - 1] == MapSeq(txs, key);
  }

  lemma GroupsForSnoc<K>(txs: seq<Tx>, key: Tx -> K, part: Tx -> int, ks: seq<K>, k: K)
    ensures SumVal(GroupsFor(txs, key, part, ks + [k]), TotalOf)
         == SumVal(GroupsFor(txs, key, part, ks), TotalOf) + SumVal(Matching(txs, key, k), part)
  {
    assert (ks + [k])[..|ks|] == ks;
    var g := GroupsFor(txs, key, part, ks + [k]);
    assert g[..|g| - 1] == GroupsFor(txs, key, part, ks);
  }

  lemma MatchingAppend<K>(txs: seq<Tx>, t: Tx, key: Tx -> K, k: K)
    ensures Matching(txs + [t], key, k) == if key(t) == k then Matching(txs, key, k) + [t] else Matching(txs, key, k)
  {
    assert (txs + [t])[..|txs|] == txs;
  }

  lemma {:induction false} MatchingNone<K>(txs: seq<Tx>, key: Tx -> K, k: K)
    requires forall i :: 0 <= i < |txs| ==> key(txs[i]) != k
    ensures Matching(txs, key, k) == []
  {
    if txs != [] {
      MatchingNone(txs[..|txs| - 1], key, k);
    }
  }

  /** Adding one transaction adds its part to the group of its key, if that key is listed. */
  lemma {:induction false} GroupsForAppend<K>(txs: seq<Tx>, t: Tx, key: Tx -> K, part: Tx -> int, ks: seq<K>)
    requires NoDuplicates(ks)
    ensures SumVal(GroupsFor(txs + [t], key, part, ks), TotalOf)
         == SumVal(GroupsFor(txs, key, part, ks), TotalOf) + (if key(t) in ks then part(t) else 0)
  {
    if ks != [] {
      var init, k := ks[..|ks| - 1], ks[|ks| - 1];
      assert ks == init + [k];
      GroupsForAppend(txs, t, key, part, init);
      GroupsForSnoc(txs, key, part, init, k);
      GroupsForSnoc(txs + [t], key, part, init, k);
      MatchingAppend(txs, t, key, k);
      SumValAppend(Matching(txs, key, k), [t], part);
      assert [t][..0] == [];
      assert key(t) in ks <==> key(t) in init || key(t) == k;
      assert key(t) in init ==> key(t) != k;
    }
  }

  /** The group sums add up to the sum over all rows: a GROUP BY partitions the rows. */
  lemma {:induction false} GroupByPartition<K>(txs: seq<Tx>, key: Tx -> K, part: Tx -> int)
    ensures SumVal(GroupBy(txs, key, part), TotalOf) == SumVal(txs, part)
  {
    if txs != [] {
      var init, t := txs[..|txs| - 1], txs[|txs| - 1];
      assert txs == init + [t];
      assert SumVal(txs, part) == SumVal(init, part) + part(t);
      GroupByPartition(init, key, part);
      GroupByStep(init, t, key, part);
    }
  }

  /** One more row adds its part to the sum of the group sums. */
  lemma GroupByStep<K>(init: seq<Tx>, t: Tx, key: Tx -> K, part: Tx -> int)
    ensures SumVal(GroupBy(init + [t], key, part), TotalOf) == SumVal(GroupBy(init, key, part), TotalOf) + part(t)
  {
    var txs := init + [t];
    var ks0 := KeysOf(init, key);
    KeysOfMembers(init, key);
    KeysOfAppend(init, t, key);
    GroupsForAppend(init, t, key, part, ks0);
    if key(t) !in ks0 {
      var k := key(t);
      assert KeysOf(txs, key) == ks0 + [k];
      GroupsForSnoc(txs, key, part, ks0, k);
      NewKeyGroup(init, t, key);
      assert [t][..0] == [];
      assert SumVal([t], part) == part(t);
    }
  }

  /** The group of a key that first occurs in the last row holds that row alone. */
  lemma NewKeyGroup<K>(init: seq<Tx>, t: Tx, key: Tx -> K)
    requires key(t) !in KeysOf(init, key)
    ensures Matching(init + [t], key, key(t)) == [t]
  {
    var k := key(t);
    KeysOfMembers(init, key);
    MatchingNone(init, key, k);
    MatchingAppend(init, t, key, k);
  }

  /** `SELECT key, SUM(amount) ... GROUP BY key ORDER BY SUM(amount) DESC`. */
  function RankedGroups<K(==)>(rows: seq<Tx>, key: Tx -> K): (r: seq<Group<K>>)
    ensures |r| == |KeysOf(rows, key)|
    ensures NonIncreasing(r, TotalOf)
    ensures forall i :: 0 <= i < |r| ==>
      r[i].key in MapSeq(rows, key) && r[i].total == SumVal(Matching(rows, key, r[i].key), AmountOf)
    ensures forall i :: 0 <= i < |rows| ==> exists j :: 0 <= j < |r| && r[j].key == key(rows[i])
    ensures forall i, j :: 0 <= i < j < |r| ==> r[i].key != r[j].key
    ensures SumVal(r, TotalOf) == SumVal(rows, AmountOf)
  {
    var g := GroupBy(rows, key, AmountOf);
    var r := SortDesc(g, TotalOf);
    RankedGroupsFacts(rows, key, g, r);
    r
  }

  lemma RankedGroupsFacts<K>(rows: seq<Tx>, key: Tx -> K, g: seq<Group<K>>, r: seq<Group<K>>)
    requires g == GroupBy(rows, key, AmountOf)
    requires multiset(r) == multiset(g)
    ensures forall i :: 0 <= i < |r| ==>
      r[i].key in MapSeq(rows, key) && r[i].total == SumVal(Matching(rows, key, r[i].key), AmountOf)
    ensures forall i :: 0 <= i < |rows| ==> exists j :: 0 <= j < |r| && r[j].key == key(rows[i])
    ensures forall i, j :: 0 <= i < j < |r| ==> r[i].key != r[j].key
    ensures SumVal(r, TotalOf) == SumVal(rows, AmountOf)
  {
    GroupByRows(rows, key, AmountOf);
    GroupByPartition(rows, key, AmountOf);
    SumValPermutation(g, r, TotalOf);
    forall i | 0 <= i < |r|
      ensures r[i].key in MapSeq(rows, key) && r[i].total == SumVal(Matching(rows, key, r[i].key), AmountOf)
    {
      assert r[i] in multiset(g);
      var p :| 0 <= p < |g| && g[p] == r[i];
    }
    forall i | 0 <= i < |rows| ensures exists j :: 0 <= j < |r| && r[j].key == key(rows[i]) {
      var p :| 0 <= p < |g| && g[p].key == key(rows[i]);
      assert g[p] in multiset(r);
      var j :| 0 <= j < |r| && r[j] == g[p];
    }
    KeysDistinctPermutation(g, r, KeyOf);
  }

  /** The same query with `LIMIT n`: the `n` groups of largest sum. */
  function TopGroups<K(==)>(rows: seq<Tx>, key: Tx -> K, n: nat): (r: seq<Group<K>>)
    ensures |r| == if n < |KeysOf(rows, key)| then n else |KeysOf(rows, key)|
    ensures NonIncreasing(r, TotalOf)
    ensures forall i :: 0 <= i < |r| ==>
      r[i].key in MapSeq(rows, key) && r[i].total == SumVal(Matching(rows, key, r[i].key), AmountOf)
    ensures forall i, j :: 0 <= i < j < |r| ==> r[i].key != r[j].key
    ensures forall i, j :: 0 <= i < |rows| && 0 <= j < |r| && key(rows[i]) !in GroupKeys(r) ==>
      SumVal(Matching(rows, key, key(rows[i])), AmountOf) <= r[j].total
  {
    var all := RankedGroups(rows, key);
    TopGroupsFacts(rows, key, all, n);
    Take(all, n)
  }

  /** The first `n` of the ranked groups keep the ranked groups' properties. */
  lemma TopGroupsFacts<K>(rows: seq<Tx>, key: Tx -> K, all: seq<Group<K>>, n: nat)
    requires |all| == |KeysOf(rows, key)|
    requires NonIncreasing(all, TotalOf)
    requires forall i :: 0 <= i < |all| ==>
      all[i].key in MapSeq(rows, key) && all[i].total == SumVal(Matching(rows, key, all[i].key), AmountOf)
    requires forall i :: 0 <= i < |rows| ==> exists j :: 0 <= j < |all| && all[j].key == key(rows[i])
    requires forall i, j :: 0 <= i < j < |all| ==> all[i].key != all[j].key
    ensures var r := Take(all, n);
      && |r| == (if n < |KeysOf(rows, key)| then n else |KeysOf(rows, key)|)
      && NonIncreasing(r, TotalOf)
      && (forall i :: 0 <= i < |r| ==>
        r[i].key in MapSeq(rows, key) && r[i].total == SumVal(Matching(rows, key, r[i].key), AmountOf))
      && (forall i, j :: 0 <= i < j < |r| ==> r[i].key != r[j].key)
    ensures forall i, j :: 0 <= i < |rows| && 0 <= j < |Take(all, n)| && key(rows[i]) !in GroupKeys(Take(all, n)) ==>
      SumVal(Matching(rows, key, key(rows[i])), AmountOf) <= Take(all, n)[j].total
  {
    var r := Take(all, n);
    assert forall i :: 0 <= i < |r| ==> r[i] == all[i];
    TopGroupsLeftOut(rows, key, all, n);
  }

  lemma TopGroupsLeftOut<K>(rows: seq<Tx>, key: Tx -> K, all: seq<Group<K>>, n: nat)
    requires NonIncreasing(all, TotalOf)
    requires forall i :: 0 <= i < |all| ==> all[i].total == SumVal(Matching(rows, key, all[i].key), AmountOf)
    requires forall i :: 0 <= i < |rows| ==> exists j :: 0 <= j < |all| && all[j].key == key(rows[i])
    ensures forall i, j :: 0 <= i < |rows| && 0 <= j < |Take(all, n)| && key(rows[i]) !in GroupKeys(Take(all, n)) ==>
      SumVal(Matching(rows, key, key(rows[i])), AmountOf) <= Take(all, n)[j].total
  {
    var r := Take(all, n);
    forall i, j | 0 <= i < |rows| && 0 <= j < |r| && key(rows[i]) !in GroupKeys(r)
      ensures SumVal(Matching(rows, key, key(rows[i])), AmountOf) <= r[j].total
    {
      var p :| 0 <= p < |all| && all[p].key == key(rows[i]);
      LeftOutIsSmaller(all, n, p, j);
    }
  }

  /** A group whose key did not make the cut sums to no more than any group that did. */
  lemma LeftOutIsSmaller<K>(all: seq<Group<K>>, n: nat, p: nat, j: nat)
    requires NonIncreasing(all, TotalOf)
    requires p < |all| && j < |Take(all, n)|
    requires all[p].key !in GroupKeys(Take(all, n))
    ensures all[p].total <= Take(all, n)[j].total
  {
    var r := Take(all, n);
    forall q | 0 <= q < |r| ensures r[q] != all[p] {
      assert GroupKeys(r)[q] == r[q].key;
    }
    TopPrefix(all, TotalOf, n, all[p]);
    assert r[j] in r;
  }

  /** The rows of one type sum, as plain amounts, to that type's conditional sum over all rows. */
  lemma {:induction false} OfTypeSum(txs: seq<Tx>)
    ensures SumVal(OfType(txs, Expense), AmountOf) == SumVal(txs, ExpensePart)
    ensures SumVal(OfType(txs, Income), AmountOf) == SumVal(txs, IncomePart)
  {
    if txs != [] {
      var init, t := txs[..|txs| - 1], txs[|txs| - 1];
      OfTypeSum(init);
      assert OfType(txs, Expense) == if t.txType == Expense then OfType(init, Expense) + [t] else OfType(init, Expense);
      assert OfType(txs, Income) == if t.txType == Income then OfType(init, Income) + [t] else OfType(init, Income);
      SumValAppend(OfType(init, Expense), [t], AmountOf);
      SumValAppend(OfType(init, Income), [t], AmountOf);
      assert SumVal([t], AmountOf) == t.amount by { assert [t][..0] == []; }
      assert SumVal(txs, ExpensePart) == SumVal(init, ExpensePart) + ExpensePart(t);
      assert SumVal(txs, IncomePart) == SumVal(init, IncomePart) + IncomePart(t);
    }
  }

  /** A group's rows are exactly the rows whose key is `k`. */
  lemma {:induction false} MatchingMembers<K>(txs: seq<Tx>, key: Tx -> K, k: K)
    ensures forall i :: 0 <= i < |Matching(txs, key, k)| ==>
      Matching(txs, key, k)[i] in txs && key(Matching(txs, key, k)[i]) == k
    ensures forall i :: 0 <= i < |txs| && key(txs[i]) == k ==> txs[i] in Matching(txs, key, k)
  {
    if txs != [] {
      var init, t := txs[..|txs| - 1], txs[|txs| - 1];
      assert txs == init + [t];
      MatchingMembers(init, key, k);
      MatchingAppend(init, t, key, k);
    }
  }

  /**
   * A row of a query that groups by a period (a month or a day) and sums income
   * and expense separately with `case`.
   */
  datatype Period<K> = Period(key: K, income: int, expense: int)

  function PeriodKey<K>(p: Period<K>): K {
    p.key
  }

  function PeriodNet<K>(p: Period<K>): int {
    p.income - p.expense
  }

  /** One row per key of `ks`, with the income and the expense of that key's rows. */
  function PeriodsFor<K(==)>(txs: seq<Tx>, key: Tx -> K, ks: seq<K>): (r: seq<Period<K>>)
    ensures |r| == |ks|
    ensures forall i :: 0 <= i < |ks| ==> r[i] == Period(ks[i],
      SumVal(Matching(txs, key, ks[i]), IncomePart), SumVal(Matching(txs, key, ks[i]), ExpensePart))
  {
    if ks == [] then []
    else
      var k := ks[|ks| - 1];
      PeriodsFor(txs, key, ks[..|ks| - 1])
        + [Period(k, SumVal(Matching(txs, key, k), IncomePart), SumVal(Matching(txs, key, k), ExpensePart))]
  }

  /** `SELECT key, SUM(income part), SUM(expense part) ... GROUP BY key`, unordered. */
  function PeriodsOf<K(==)>(txs: seq<Tx>, key: Tx -> K): seq<Period<K>> {
    PeriodsFor(txs, key, KeysOf(txs, key))
  }

  lemma {:induction false} PeriodsForNet<K>(txs: seq<Tx>, key: Tx -> K, ks: seq<K>)
    ensures SumVal(PeriodsFor(txs, key, ks), PeriodNet)
         == SumVal(GroupsFor(txs, key, IncomePart, ks), TotalOf) - SumVal(GroupsFor(txs, key, ExpensePart, ks), TotalOf)
  {
    if ks != [] {
      var init, k := ks[..|ks| - 1], ks[|ks| - 1];
      assert ks == init + [k];
      PeriodsForNet(txs, key, init);
      GroupsForSnoc(txs, key, IncomePart, init, k);
      GroupsForSnoc(txs, key, ExpensePart, init, k);
      var p := PeriodsFor(txs, key, ks);
      assert p[..|p| - 1] == PeriodsFor(txs, key, init);
    }
  }

  /**
   * Whatever order the period rows come back in: each row's key occurs among the
   * rows with that key's sums, every row's key has a period, keys are distinct,
   * and the nets add up to total income minus total expense.
   */
  lemma SortedPeriodsFacts<K>(rows: seq<Tx>, key: Tx -> K, r: seq<Period<K>>)
    requires multiset(r) == multiset(PeriodsOf(rows, key))
    ensures forall i :: 0 <= i < |r| ==>
      && r[i].key in MapSeq(rows, key)
      && r[i].income == SumVal(Matching(rows, key, r[i].key), IncomePart)
      && r[i].expense == SumVal(Matching(rows, key, r[i].key), ExpensePart)
    ensures forall i :: 0 <= i < |rows| ==> exists j :: 0 <= j < |r| && r[j].key == key(rows[i])
    ensures forall i, j :: 0 <= i < j < |r| ==> r[i].key != r[j].key
    ensures SumVal(r, PeriodNet) == SumVal(rows, IncomePart) - SumVal(rows, ExpensePart)
  {
    PeriodsRows(rows, key, r);
    PeriodsComplete(rows, key, r);
    PeriodsDistinct(rows, key, r);
    PeriodsNetTotal(rows, key, r);
  }

  lemma PeriodsRows<K>(rows: seq<Tx>, key: Tx -> K, r: seq<Period<K>>)
    requires multiset(r) == multiset(PeriodsOf(rows, key))
    ensures forall i :: 0 <= i < |r| ==>
      && r[i].key in MapSeq(rows, key)
      && r[i].income == SumVal(Matching(rows, key, r[i].key), IncomePart)
      && r[i].expense == SumVal(Matching(rows, key, r[i].key), ExpensePart)
  {
    KeysOfMembers(rows, key);
    var ks := KeysOf(rows, key);
    var g := PeriodsOf(rows, key);
    forall i | 0 <= i < |r| ensures
      && r[i].key in MapSeq(rows, key)
      && r[i].income == SumVal(Matching(rows, key, r[i].key), IncomePart)
      && r[i].expense == SumVal(Matching(rows, key, r[i].key), ExpensePart)
    {
      assert r[i] in multiset(g);
      var p :| 0 <= p < |g| && g[p] == r[i];
      assert g[p].key == ks[p];
    }
  }

  lemma PeriodsComplete<K>(rows: seq<Tx>, key: Tx -> K, r: seq<Period<K>>)
    requires multiset(r) == multiset(PeriodsOf(rows, key))
    ensures forall i :: 0 <= i < |rows| ==> exists j :: 0 <= j < |r| && r[j].key == key(rows[i])
  {
    KeysOfMembers(rows, key);
    var ks := KeysOf(rows, key);
    var g := PeriodsOf(rows, key);
    forall i | 0 <= i < |rows| ensures exists j :: 0 <= j < |r| && r[j].key == key(rows[i]) {
      assert MapSeq(rows, key)[i] in ks;
      var p :| 0 <= p < |ks| && ks[p] == key(rows[i]);
      assert g[p] in multiset(r);
      var j :| 0 <= j < |r| && r[j] == g[p];
    }
  }

  lemma PeriodsDistinct<K>(rows: seq<Tx>, key: Tx -> K, r: seq<Period<K>>)
    requires multiset(r) == multiset(PeriodsOf(rows, key))
    ensures forall i, j :: 0 <= i < j < |r| ==> r[i].key != r[j].key
  {
    KeysOfMembers(rows, key);
    var ks := KeysOf(rows, key);
    var g := PeriodsOf(rows, key);
    forall i, j | 0 <= i < j < |g| ensures PeriodKey(g[i]) != PeriodKey(g[j]) {
      assert g[i].key == ks[i] && g[j].key == ks[j];
    }
    KeysDistinctPermutation(g, r, PeriodKey);
  }

  lemma PeriodsNetTotal<K>(rows: seq<Tx>, key: Tx -> K, r: seq<Period<K>>)
    requires multiset(r) == multiset(PeriodsOf(rows, key))
    ensures SumVal(r, PeriodNet) == SumVal(rows, IncomePart) - SumVal(rows, ExpensePart)
  {
    SumValPermutation(PeriodsOf(rows, key), r, PeriodNet);
    PeriodsForNet(rows, key, KeysOf(rows, key));
    GroupByPartition(rows, key, IncomePart);
    GroupByPartition(rows, key, ExpensePart);
  }
}
