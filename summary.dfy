/**
 * The monthly summary: derive each transaction's month key, keep the
 * transactions of the selected month, total the amounts per category and
 * list the totals from largest to smallest. No transaction in the month
 * gives the "no data" report instead of a table.
 */
module Summary {
  import opened Months
  import opened Fields
  import opened Ledger

  /** Category totals, in cents, in the order they are listed. */
  type Totals = seq<(string, nat)>

  datatype Report = NoData | Table(totals: Totals)

  /** The `ym` column: a date's month as `YYYY-MM` text. */
  function MonthKey(d: Date): string {
    Format(YearMonth(d.year, d.month))
  }

  /** `df[df['ym'] == month]`: the transactions of one month, in file order. */
  function InMonth(txns: seq<Txn>, month: string): seq<Txn> {
    if txns == [] then []
    else (if MonthKey(txns[0].date) == month then [txns[0]] else []) + InMonth(txns[1..], month)
  }

  /** The sum of all amounts. */
  function Total(txns: seq<Txn>): nat {
    if txns == [] then 0 else Total(txns[..|txns| - 1]) + txns[|txns| - 1].amount
  }

  /** The sum of the amounts of category `c`. */
  function CategoryTotal(txns: seq<Txn>, c: string): nat {
    if txns == [] then 0
    else
      var last := txns[|txns| - 1];
      CategoryTotal(txns[..|txns| - 1], c) + (if last.category == c then last.amount else 0)
  }

  /** The categories that occur in `txns`. */
  function Categories(txns: seq<Txn>): set<string> {
    set t | t in txns :: t.category
  }

  function Keys(g: Totals): set<string> {
    set e | e in g :: e.0
  }

  /** No category is listed twice: the first is not among the rest, and so on. */
  predicate DistinctKeys(g: Totals) {
    g == [] || (g[0].0 !in Keys(g[1..]) && DistinctKeys(g[1..]))
  }

  function Sum(g: Totals): nat {
    if g == [] then 0 else g[0].1 + Sum(g[1..])
  }

  /** The total listed for `k`, adding up every entry for it (0 if none). */
  function Lookup(g: Totals, k: string): nat {
    if g == [] then 0 else (if g[0].0 == k then g[0].1 else 0) + Lookup(g[1..], k)
  }

  /** Add amount `a` to the entry of `c`, or append an entry for `c`. */
  function AddAmount(g: Totals, c: string, a: nat): Totals {
    if g == [] then [(c, a)]
    else if g[0].0 == c then [(c, g[0].1 + a)] + g[1..]
    else [g[0]] + AddAmount(g[1..], c, a)
  }

  /** `groupby('category')['amount'].sum()`, categories in order of first appearance. */
  function Group(txns: seq<Txn>): Totals {
    if txns == [] then []
    else
      var last := txns[|txns| - 1];
      AddAmount(Group(txns[..|txns| - 1]), last.category, last.amount)
  }

  predicate NonIncreasing(g: Totals) {
    forall i, j :: 0 <= i < j < |g| ==> g[i].1 >= g[j].1
  }

  /** Put `e` before the first entry whose total does not exceed its own. */
  function Insert(e: (string, nat), g: Totals): Totals {
    if g == [] || e.1 >= g[0].1 then [e] + g else [g[0]] + Insert(e, g[1..])
  }

  /** `sort_values(ascending=False)`. */
  function SortDescending(g: Totals): Totals {
    if g == [] then [] else Insert(g[0], SortDescending(g[1..]))
  }

  /** The summary shown for `month`. */
  function MonthlySummary(txns: seq<Txn>, month: string): (r: Report)
    ensures r.NoData? <==> forall t :: t in txns ==> MonthKey(t.date) != month
  {
    var f := InMonth(txns, month);
    InMonthSpec(txns, month);
    if f == [] then NoData
    else
      assert f[0] in f;
      Table(SortDescending(Group(f)))
  }

  /**
   * The filter keeps exactly the transactions whose month key is the selected
   * month, each as many times as it occurs (two identical purchases count twice).
   */
  lemma {:induction false} InMonthSpec(txns: seq<Txn>, month: string)
    ensures forall t :: t in InMonth(txns, month) <==> t in txns && MonthKey(t.date) == month
    ensures forall t :: multiset(InMonth(txns, month))[t] == (if MonthKey(t.date) == month then multiset(txns)[t] else 0)
  {
    if txns != [] {
      InMonthSpec(txns[1..], month);
      assert txns == [txns[0]] + txns[1..];
    }
  }

  /** Adding an amount raises its category's total by it and leaves the other totals alone. */
  lemma {:induction false} AddAmountTotals(g: Totals, c: string, a: nat)
    ensures Sum(AddAmount(g, c, a)) == Sum(g) + a
    ensures forall k :: Lookup(AddAmount(g, c, a), k) == Lookup(g, k) + (if k == c then a else 0)
  {
    var r := AddAmount(g, c, a);
    if g == [] {
      assert r[1..] == [];
    } else if g[0].0 == c {
      assert r[1..] == g[1..];
    } else {
      AddAmountTotals(g[1..], c, a);
      assert r[1..] == AddAmount(g[1..], c, a);
    }
  }

  /** Adding an amount lists its category once more at most: the keys gain `c` and stay distinct. */
  lemma {:induction false} AddAmountKeys(g: Totals, c: string, a: nat)
    ensures Keys(AddAmount(g, c, a)) == Keys(g) + {c}
    ensures DistinctKeys(g) ==> DistinctKeys(AddAmount(g, c, a))
  {
    var r := AddAmount(g, c, a);
    if g == [] {
      assert r[1..] == [];
    } else if g[0].0 == c {
      assert r[1..] == g[1..];
      assert g == [g[0]] + g[1..];
      assert Keys(g) == {c} + Keys(g[1..]);
      assert Keys(r) == {c} + Keys(g[1..]);
    } else {
      AddAmountKeys(g[1..], c, a);
      assert r[1..] == AddAmount(g[1..], c, a);
      assert g == [g[0]] + g[1..];
      assert Keys(g) == {g[0].0} + Keys(g[1..]);
      assert Keys(r) == {g[0].0} + Keys(r[1..]);
    }
  }

  lemma {:induction false} LookupAbsent(g: Totals, k: string)
    requires k !in Keys(g)
    ensures Lookup(g, k) == 0
  {
    if g != [] {
      assert g[0] in g;
      assert Keys(g[1..]) <= Keys(g);
      LookupAbsent(g[1..], k);
    }
  }

  /** With distinct keys, an entry's total is everything listed for its category. */
  lemma {:induction false} LookupEntry(g: Totals, i: nat)
    requires DistinctKeys(g) && i < |g|
    ensures Lookup(g, g[i].0) == g[i].1
  {
    if i == 0 {
      LookupAbsent(g[1..], g[0].0);
    } else {
      assert g[1..][i - 1] == g[i];
      assert g[i] in g[1..];
      LookupEntry(g[1..], i - 1);
    }
  }

  /**
   * Grouping lists each category of the input once, with the sum of its
   * amounts, and the totals add up to the input's total.
   */
  lemma {:induction false} GroupSpec(txns: seq<Txn>)
    ensures DistinctKeys(Group(txns))
    ensures Keys(Group(txns)) == Categories(txns)
    ensures Sum(Group(txns)) == Total(txns)
    ensures forall k :: Lookup(Group(txns), k) == CategoryTotal(txns, k)
  {
    if txns != [] {
      var init, last := txns[..|txns| - 1], txns[|txns| - 1];
      GroupSpec(init);
      AddAmountTotals(Group(init), last.category, last.amount);
      AddAmountKeys(Group(init), last.category, last.amount);
      assert txns == init + [last];
      assert Categories(txns) == Categories(init) + {last.category};
    }
  }

  /** Inserting adds exactly one entry: the result is a permutation of `g` plus `e`. */
  lemma {:induction false} InsertPermutes(e: (string, nat), g: Totals)
    ensures multiset(Insert(e, g)) == multiset(g) + multiset{e}
  {
    if !(g == [] || e.1 >= g[0].1) {
      InsertPermutes(e, g[1..]);
      assert g == [g[0]] + g[1..];
    }
  }

  lemma {:induction false} InsertKeysAndSum(e: (string, nat), g: Totals)
    ensures Keys(Insert(e, g)) == Keys(g) + {e.0}
    ensures Sum(Insert(e, g)) == Sum(g) + e.1
    ensures e.0 !in Keys(g) && DistinctKeys(g) ==> DistinctKeys(Insert(e, g))
  {
    var r := Insert(e, g);
    if g == [] || e.1 >= g[0].1 {
      assert r[1..] == g;
      assert Keys(r) == {e.0} + Keys(g);
    } else {
      var rest := Insert(e, g[1..]);
      InsertKeysAndSum(e, g[1..]);
      assert r[1..] == rest;
      assert g == [g[0]] + g[1..];
      assert Keys(g) == {g[0].0} + Keys(g[1..]);
      assert Keys(r) == {g[0].0} + Keys(rest);
    }
  }

  lemma {:induction false} InsertSorted(e: (string, nat), g: Totals)
    requires NonIncreasing(g)
    ensures NonIncreasing(Insert(e, g))
  {
    if !(g == [] || e.1 >= g[0].1) {
      var rest := Insert(e, g[1..]);
      InsertSorted(e, g[1..]);
      InsertBelow(e, g[1..], g[0].1);
      assert Insert(e, g) == [g[0]] + rest;
    }
  }

  /** Everything inserted into a list bounded by `b`, with `e` itself below `b`, stays below `b`. */
  lemma InsertBelow(e: (string, nat), g: Totals, b: nat)
    requires e.1 <= b
    requires forall i :: 0 <= i < |g| ==> g[i].1 <= b
    ensures forall i :: 0 <= i < |Insert(e, g)| ==> Insert(e, g)[i].1 <= b
  {
    InsertPermutes(e, g);
    var r := Insert(e, g);
    forall i | 0 <= i < |r|
      ensures r[i].1 <= b
    {
      assert r[i] in multiset(r);
      if r[i] != e {
        assert r[i] in multiset(g);
      }
    }
  }

  /** Sorting lists the same entries (a permutation), largest total first. */
  lemma {:induction false} SortPermutes(g: Totals)
    ensures multiset(SortDescending(g)) == multiset(g)
    ensures NonIncreasing(SortDescending(g))
  {
    if g != [] {
      SortPermutes(g[1..]);
      InsertPermutes(g[0], SortDescending(g[1..]));
      InsertSorted(g[0], SortDescending(g[1..]));
      assert g == [g[0]] + g[1..];
    }
  }

  /** Sorting keeps the categories, their distinctness and the sum of the totals. */
  lemma {:induction false} SortKeysAndSum(g: Totals)
    ensures Keys(SortDescending(g)) == Keys(g)
    ensures Sum(SortDescending(g)) == Sum(g)
    ensures DistinctKeys(g) ==> DistinctKeys(SortDescending(g))
  {
    if g != [] {
      SortKeysAndSum(g[1..]);
      InsertKeysAndSum(g[0], SortDescending(g[1..]));
      assert g == [g[0]] + g[1..];
      assert Keys(g) == {g[0].0} + Keys(g[1..]);
    }
  }

  /**
   * A summary table lists every category of the month exactly once, with the
   * sum of that category's amounts in the month, largest total first, and
   * the totals add up to the month's total.
   */
  lemma SummaryTotals(txns: seq<Txn>, month: string)
    requires MonthlySummary(txns, month).Table?
    ensures var rows := MonthlySummary(txns, month).totals;
            var f := InMonth(txns, month);
            && NonIncreasing(rows)
            && DistinctKeys(rows)
            && Keys(rows) == Categories(f)
            && (forall i :: 0 <= i < |rows| ==> rows[i].1 == CategoryTotal(f, rows[i].0))
            && Sum(rows) == Total(f)
  {
    var f := InMonth(txns, month);
    var g := Group(f);
    var rows := SortDescending(g);
    GroupSpec(f);
    SortPermutes(g);
    SortKeysAndSum(g);
    forall i | 0 <= i < |rows|
      ensures rows[i].1 == CategoryTotal(f, rows[i].0)
    {
      assert rows[i] in multiset(rows);
      var j :| 0 <= j < |g| && g[j] == rows[i];
      LookupEntry(g, j);
    }
  }

  /** A transaction counts for a month exactly when its year and month are that month's. */
  lemma MonthKeyMatches(d: Date, ym: YearMonth)
    requires ValidDate(d) && ValidYearMonth(ym)
    ensures MonthKey(d) == Format(ym) <==> d.year == ym.year && d.month == ym.month
  {
    FormatInjective(YearMonth(d.year, d.month), ym);
  }

  /**
   * With the month text from `month_period`, a transaction is counted exactly
   * when its year and month are the parsed month, or the current month when
   * the text does not parse.
   */
  lemma CountedForPeriod(d: Date, s: string, now: YearMonth)
    requires ValidDate(d) && ValidYearMonth(now)
    ensures MonthKey(d) == MonthPeriod(s, now) <==>
            YearMonth(d.year, d.month) == (if Parse(s).Some? then Parse(s).value else now)
  {
    match Parse(s)
    case Some(ym) => MonthKeyMatches(d, ym);
    case None => MonthKeyMatches(d, now);
  }

  /**
   * In a month where category A has 10.00 and 5.50 and category B has 20.00,
   * the table is B = 20.00 then A = 15.50; a row of another month is ignored.
   */
  lemma SummaryExample(d0: Date, d1: Date, d2: Date, d3: Date)
    requires MonthKey(d2) == MonthKey(d0) && MonthKey(d3) == MonthKey(d0)
    requires MonthKey(d1) != MonthKey(d0)
    ensures var txns := [Txn(d0, 1000, "A", "", "default"),
                         Txn(d1, 700, "A", "", "default"),
                         Txn(d2, 550, "A", "", "default"),
                         Txn(d3, 2000, "B", "", "default")];
            MonthlySummary(txns, MonthKey(d0)) == Table([("B", 2000), ("A", 1550)])
  {
    var t0 := Txn(d0, 1000, "A", "", "default");
    var t2 := Txn(d2, 550, "A", "", "default");
    var t3 := Txn(d3, 2000, "B", "", "default");
    ExampleFilter(t0, Txn(d1, 700, "A", "", "default"), t2, t3);
    ExampleGroup(t0, t2, t3);
    ExampleSort();
  }

  lemma ExampleFilter(t0: Txn, t1: Txn, t2: Txn, t3: Txn)
    requires MonthKey(t2.date) == MonthKey(t0.date) && MonthKey(t3.date) == MonthKey(t0.date)
    requires MonthKey(t1.date) != MonthKey(t0.date)
    ensures InMonth([t0, t1, t2, t3], MonthKey(t0.date)) == [t0, t2, t3]
  {
    var m := MonthKey(t0.date);
    assert InMonth([t3], m) == [t3] by { assert [t3][1..] == []; }
    assert InMonth([t2, t3], m) == [t2, t3] by { assert [t2, t3][1..] == [t3]; }
    assert InMonth([t1, t2, t3], m) == [t2, t3] by { assert [t1, t2, t3][1..] == [t2, t3]; }
    assert [t0, t1, t2, t3][1..] == [t1, t2, t3];
  }

  lemma ExampleGroup(t0: Txn, t2: Txn, t3: Txn)
    requires t0.category == "A" && t0.amount == 1000
    requires t2.category == "A" && t2.amount == 550
    requires t3.category == "B" && t3.amount == 2000
    ensures Group([t0, t2, t3]) == [("A", 1550), ("B", 2000)]
  {
    assert Group([t0]) == [("A", 1000)] by { assert [t0][..0] == []; }
    assert Group([t0, t2]) == [("A", 1550)] by { assert [t0, t2][..1] == [t0]; }
    assert [t0, t2, t3][..2] == [t0, t2];
    assert AddAmount([("A", 1550)], "B", 2000) == [("A", 1550)] + AddAmount([], "B", 2000);
  }

  lemma ExampleSort()
    ensures SortDescending([("A", 1550), ("B", 2000)]) == [("B", 2000), ("A", 1550)]
  {
    assert SortDescending([("B", 2000)]) == [("B", 2000)];
    assert [("A", 1550), ("B", 2000)][1..] == [("B", 2000)];
    assert Insert(("A", 1550), [("B", 2000)]) == [("B", 2000)] + Insert(("A", 1550), []);
  }
}
