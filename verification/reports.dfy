/** The reports tab: item count, total stock value, the low-stock list and the
    per-category breakdown, all derived from the current list. */
module Reports {
  import opened Types
  import Seqs
  import StableSort
  import Inventory

  // ---------------------------------------------------------------- totals

  /** `totalItems`: the number of entries in the list. */
  function TotalItems(items: seq<Item>): nat {
    |items|
  }

  /** `totalValue`: the running total `sum + price * quantity`, started at 0
      and taken from the first item to the last. */
  function TotalValue(items: seq<Item>): real
    decreases |items|
  {
    if |items| == 0 then 0.0
    else TotalValue(items[..|items| - 1]) + Value(items[|items| - 1])
  }

  /** The running total is the sum of the items' values. */
  lemma {:induction false} TotalValueIsSum(items: seq<Item>)
    ensures TotalValue(items) == Seqs.Sum(items, Value)
    decreases |items|
  {
    if |items| > 0 {
      var pre := items[..|items| - 1];
      var x := items[|items| - 1];
      assert items == pre + [x];
      TotalValueIsSum(pre);
      Seqs.SumAppend(pre, [x], Value);
      assert Seqs.Sum([x], Value) == Value(x) by {
        assert [x][1..] == [];
      }
    }
  }

  /** The total of a list with one more item at the end. */
  lemma TotalValueSnoc(items: seq<Item>, x: Item)
    ensures TotalValue(items + [x]) == TotalValue(items) + Value(x)
  {
    assert (items + [x])[..|items|] == items;
  }

  /** Adding an item raises the total value by exactly that item's value. */
  lemma AddRaisesTotal(items: seq<Item>, item: Item, freshId: string)
    ensures TotalValue(Inventory.AddItem(items, item, freshId)) == TotalValue(items) + Value(item)
    ensures TotalItems(Inventory.AddItem(items, item, freshId)) == TotalItems(items) + 1
  {
    TotalValueSnoc(items, item.(id := freshId));
  }

  /** A non-empty list of items with positive price and quantity, as the item
      dialog produces, has a positive total value. */
  lemma {:induction false} TotalValuePositive(items: seq<Item>)
    requires |items| > 0
    requires forall x :: x in items ==> x.price > 0.0 && x.quantity > 0
    ensures TotalValue(items) > 0.0
    decreases |items|
  {
    var pre := items[..|items| - 1];
    var x := items[|items| - 1];
    assert x in items;
    assert x.price * x.quantity as real > 0.0;
    if |pre| > 0 {
      assert forall y :: y in pre ==> y in items;
      TotalValuePositive(pre);
    }
  }

  // ---------------------------------------------------------------- low stock

  /** Items with fewer than this many units are low on stock. */
  const LowStockThreshold: int := 5

  predicate IsLowStock(x: Item) {
    x.quantity < LowStockThreshold
  }

  /** `lowStockItems`: the items with a quantity below the threshold, in list order. */
  function LowStock(items: seq<Item>): (r: seq<Item>)
    ensures forall x :: x in r <==> x in items && x.quantity < 5
    ensures Seqs.IsSubsequence(r, items)
  {
    Seqs.Filter(items, IsLowStock)
  }

  /** The low-stock list keeps every low item as often as it occurs and nothing else. */
  lemma LowStockExact(items: seq<Item>, x: Item)
    ensures multiset(LowStock(items))[x] == if x.quantity < 5 then multiset(items)[x] else 0
  {
    Seqs.FilterCount(items, IsLowStock, x);
  }

  /** The threshold is strict: four units are low, five are not. */
  lemma LowStockBoundary(x: Item)
    ensures x.quantity == 4 ==> LowStock([x]) == [x]
    ensures x.quantity == 5 ==> LowStock([x]) == []
  {
    assert [x][1..] == [];
  }

  /** The seed list has no low-stock item: the printer has exactly five units. */
  lemma SeedHasNoLowStock()
    ensures LowStock(Inventory.Seed) == []
  {
    Seqs.FilterNone(Inventory.Seed, IsLowStock);
  }

  /** The seed list's totals: three items worth 26000 together. */
  lemma SeedTotals()
    ensures TotalValue(Inventory.Seed) == 26000.0
    ensures TotalItems(Inventory.Seed) == 3
  {
    var s := Inventory.Seed;
    var first, second := [s[0]], [s[0], s[1]];
    TotalValueSnoc([], s[0]);
    assert [] + [s[0]] == first;
    TotalValueSnoc(first, s[1]);
    assert first + [s[1]] == second;
    TotalValueSnoc(second, s[2]);
    assert second + [s[2]] == s;
  }

  // ---------------------------------------------------------------- category breakdown

  /** One row of the breakdown: a category, how many entries it has and their total value. */
  datatype CategoryTotal = CategoryTotal(category: string, count: nat, value: real)

  function InCategory(c: string): Item -> bool {
    (x: Item) => x.category == c
  }

  function IsCategory(c: string): CategoryTotal -> bool {
    (e: CategoryTotal) => e.category == c
  }

  /** Counts one more item into a row. */
  function Bump(e: CategoryTotal, x: Item): CategoryTotal {
    CategoryTotal(e.category, e.count + 1, e.value + Value(x))
  }

  /** One `forEach` step over the record of rows kept in creation order: create
      the item's row with zero count and value if it is missing, then add the
      item to it. */
  function Accumulate(acc: seq<CategoryTotal>, x: Item): seq<CategoryTotal> {
    var i := Seqs.FirstWhere(acc, IsCategory(x.category));
    var rows := if i == |acc| then acc + [CategoryTotal(x.category, 0, 0.0)] else acc;
    rows[i := Bump(rows[i], x)]
  }

  /** The record after the `forEach` over all items, entries in creation order
      (the order `Object.entries` lists string keys in). */
  function Tally(items: seq<Item>): seq<CategoryTotal>
    decreases |items|
  {
    if |items| == 0 then []
    else Accumulate(Tally(items[..|items| - 1]), items[|items| - 1])
  }

  function ValueOf(e: CategoryTotal): real { e.value }
  function CountOf(e: CategoryTotal): real { e.count as real }
  function Greater(a: real, b: real): bool { a > b }

  /** `categoryBreakdown`: the rows sorted by value, largest first, by the
      comparator `b.value - a.value`. */
  function Breakdown(items: seq<Item>): (r: seq<CategoryTotal>)
    ensures multiset(r) == multiset(Tally(items))
  {
    StableSort.SortBy(Tally(items), ValueOf, Greater)
  }

  /** The row a category should have: its number of items and their total value. */
  function Summary(items: seq<Item>, c: string): CategoryTotal {
    var members := Seqs.Filter(items, InCategory(c));
    CategoryTotal(c, |members|, TotalValue(members))
  }

  /** The position of the first item of category `c` (|items| when there is none). */
  function FirstIndex(items: seq<Item>, c: string): nat {
    Seqs.FirstWhere(items, InCategory(c))
  }

  /** Some row of `rows` is for category `c`. */
  predicate Lists(rows: seq<CategoryTotal>, c: string) {
    exists e :: e in rows && e.category == c
  }

  function DifferentCategory(a: CategoryTotal, b: CategoryTotal): bool {
    a.category != b.category
  }

  /** Each row is the summary of its category and has at least one item. */
  ghost predicate RowsSummarise(items: seq<Item>, rows: seq<CategoryTotal>) {
    forall e :: e in rows ==> e.count > 0 && e == Summary(items, e.category)
  }

  /** Every item's category has a row. */
  ghost predicate RowsCover(items: seq<Item>, rows: seq<CategoryTotal>) {
    forall x :: x in items ==> Lists(rows, x.category)
  }

  /** The rows follow the order in which their categories first occur. */
  ghost predicate RowsInFirstOrder(items: seq<Item>, rows: seq<CategoryTotal>) {
    forall i, j :: 0 <= i < j < |rows| ==>
      FirstIndex(items, rows[i].category) < FirstIndex(items, rows[j].category)
  }

  /** `rows` describes `items` exactly: one row per category that occurs, each
      with its count and value, in order of first occurrence. */
  ghost predicate Describes(items: seq<Item>, rows: seq<CategoryTotal>) {
    RowsSummarise(items, rows) && RowsCover(items, rows) && RowsInFirstOrder(items, rows)
  }

  /** Adding one more item to a category's members. */
  lemma SummarySnoc(pre: seq<Item>, x: Item, c: string)
    ensures Summary(pre + [x], c) ==
            if x.category == c then Bump(Summary(pre, c), x) else Summary(pre, c)
  {
    var members := Seqs.Filter(pre, InCategory(c));
    var after := Seqs.Filter(pre + [x], InCategory(c));
    Seqs.FilterSnoc(pre, x, InCategory(c));
    assert InCategory(c)(x) == (x.category == c);
    if x.category == c {
      assert after == members + [x];
      TotalValueSnoc(members, x);
      assert Summary(pre + [x], c) == CategoryTotal(c, |members| + 1, TotalValue(members) + Value(x));
    } else {
      assert after == members;
    }
  }

  /** Where a category is first seen once one more item is appended. */
  lemma FirstIndexSnoc(pre: seq<Item>, x: Item, c: string)
    ensures FirstIndex(pre + [x], c) ==
            if FirstIndex(pre, c) < |pre| then FirstIndex(pre, c)
            else if x.category == c then |pre| else |pre| + 1
  {
    Seqs.FirstWhereAppend(pre, [x], InCategory(c));
  }

  /** Every summarised row is for a category that occurs in the items, and
      appending an item does not move where it is first seen. */
  lemma RowsOccur(pre: seq<Item>, x: Item, rows: seq<CategoryTotal>)
    requires RowsSummarise(pre, rows)
    ensures forall k :: 0 <= k < |rows| ==> FirstIndex(pre, rows[k].category) < |pre|
    ensures forall k :: 0 <= k < |rows| ==>
              FirstIndex(pre + [x], rows[k].category) == FirstIndex(pre, rows[k].category)
  {
    forall k | 0 <= k < |rows|
      ensures FirstIndex(pre, rows[k].category) < |pre|
      ensures FirstIndex(pre + [x], rows[k].category) == FirstIndex(pre, rows[k].category)
    {
      assert rows[k] in rows;
      Seqs.FirstWhereFilter(pre, InCategory(rows[k].category));
      FirstIndexSnoc(pre, x, rows[k].category);
    }
  }

  /** A category without a row does not occur in the items. */
  lemma AbsentCategory(pre: seq<Item>, rows: seq<CategoryTotal>, c: string)
    requires RowsCover(pre, rows) && !Lists(rows, c)
    ensures FirstIndex(pre, c) == |pre|
    ensures Summary(pre, c) == CategoryTotal(c, 0, 0.0)
  {
    forall j | 0 <= j < |pre|
      ensures pre[j].category != c
    {
      assert pre[j] in pre;
    }
    Seqs.FirstWhereFilter(pre, InCategory(c));
  }

  /** The step for an item whose category has row `i`: the rows stay exact. */
  lemma ExistingSummarise(pre: seq<Item>, x: Item, rows: seq<CategoryTotal>, i: nat)
    requires RowsSummarise(pre, rows) && RowsInFirstOrder(pre, rows)
    requires i < |rows| && rows[i].category == x.category
    ensures RowsSummarise(pre + [x], rows[i := Bump(rows[i], x)])
  {
    var r := rows[i := Bump(rows[i], x)];
    forall e | e in r
      ensures e.count > 0 && e == Summary(pre + [x], e.category)
    {
      var k :| 0 <= k < |r| && r[k] == e;
      assert rows[k] in rows;
      SummarySnoc(pre, x, rows[k].category);
    }
  }

  /** The step for an item whose category has row `i`: every category keeps its row. */
  lemma ExistingCover(pre: seq<Item>, x: Item, rows: seq<CategoryTotal>, i: nat)
    requires RowsCover(pre, rows)
    requires i < |rows| && rows[i].category == x.category
    ensures RowsCover(pre + [x], rows[i := Bump(rows[i], x)])
  {
    var r := rows[i := Bump(rows[i], x)];
    forall y | y in pre + [x]
      ensures Lists(r, y.category)
    {
      if y in pre {
        var e :| e in rows && e.category == y.category;
        var k :| 0 <= k < |rows| && rows[k] == e;
        assert r[k] in r;
      } else {
        assert r[i] in r;
      }
    }
  }

  /** The step for an item whose category has row `i`: the order is kept. */
  lemma ExistingOrder(pre: seq<Item>, x: Item, rows: seq<CategoryTotal>, i: nat)
    requires RowsSummarise(pre, rows) && RowsInFirstOrder(pre, rows)
    requires i < |rows| && rows[i].category == x.category
    ensures RowsInFirstOrder(pre + [x], rows[i := Bump(rows[i], x)])
  {
    RowsOccur(pre, x, rows);
  }

  /** The step for an item of a new category: the new row is exact. */
  lemma NewSummarise(pre: seq<Item>, x: Item, rows: seq<CategoryTotal>)
    requires RowsSummarise(pre, rows) && RowsCover(pre, rows) && !Lists(rows, x.category)
    ensures RowsSummarise(pre + [x], rows + [Bump(CategoryTotal(x.category, 0, 0.0), x)])
  {
    var added := Bump(CategoryTotal(x.category, 0, 0.0), x);
    AbsentCategory(pre, rows, x.category);
    forall e | e in rows + [added]
      ensures e.count > 0 && e == Summary(pre + [x], e.category)
    {
      SummarySnoc(pre, x, e.category);
    }
  }

  /** The step for an item of a new category: every category has a row. */
  lemma NewCover(pre: seq<Item>, x: Item, rows: seq<CategoryTotal>)
    requires RowsCover(pre, rows)
    ensures RowsCover(pre + [x], rows + [Bump(CategoryTotal(x.category, 0, 0.0), x)])
  {
    var r := rows + [Bump(CategoryTotal(x.category, 0, 0.0), x)];
    forall y | y in pre + [x]
      ensures Lists(r, y.category)
    {
      if y in pre {
        var e :| e in rows && e.category == y.category;
        assert e in r;
      } else {
        assert r[|rows|] in r;
      }
    }
  }

  /** The step for an item of a new category: its row comes last, as its
      category is seen last. */
  lemma NewOrder(pre: seq<Item>, x: Item, rows: seq<CategoryTotal>)
    requires RowsSummarise(pre, rows) && RowsCover(pre, rows) && RowsInFirstOrder(pre, rows)
    requires !Lists(rows, x.category)
    ensures RowsInFirstOrder(pre + [x], rows + [Bump(CategoryTotal(x.category, 0, 0.0), x)])
  {
    var r := rows + [Bump(CategoryTotal(x.category, 0, 0.0), x)];
    RowsOccur(pre, x, rows);
    AbsentCategory(pre, rows, x.category);
    FirstIndexSnoc(pre, x, x.category);
    forall i, j | 0 <= i < j < |r|
      ensures FirstIndex(pre + [x], r[i].category) < FirstIndex(pre + [x], r[j].category)
    {
      assert r[i] == rows[i];
      if j < |rows| {
        assert r[j] == rows[j];
      }
    }
  }

  /** One `forEach` step keeps the record describing the items seen so far. */
  lemma AccumulateDescribes(pre: seq<Item>, x: Item, rows: seq<CategoryTotal>)
    requires Describes(pre, rows)
    ensures Describes(pre + [x], Accumulate(rows, x))
  {
    var i := Seqs.FirstWhere(rows, IsCategory(x.category));
    if i < |rows| {
      assert Accumulate(rows, x) == rows[i := Bump(rows[i], x)];
      ExistingSummarise(pre, x, rows, i);
      ExistingCover(pre, x, rows, i);
      ExistingOrder(pre, x, rows, i);
    } else {
      assert Accumulate(rows, x) == rows + [Bump(CategoryTotal(x.category, 0, 0.0), x)];
      assert !Lists(rows, x.category) by {
        forall e | e in rows
          ensures e.category != x.category
        {
          var j :| 0 <= j < |rows| && rows[j] == e;
          assert !IsCategory(x.category)(rows[j]);
        }
      }
      NewSummarise(pre, x, rows);
      NewCover(pre, x, rows);
      NewOrder(pre, x, rows);
    }
  }

  /** The record built by the `forEach` describes the items. */
  lemma {:induction false} TallyDescribes(items: seq<Item>)
    ensures Describes(items, Tally(items))
    decreases |items|
  {
    if |items| > 0 {
      var pre := items[..|items| - 1];
      var x := items[|items| - 1];
      assert items == pre + [x];
      TallyDescribes(pre);
      AccumulateDescribes(pre, x, Tally(pre));
    }
  }

  /** The `forEach` step adds one to the total count and the item's value to the total value. */
  lemma AccumulateTotals(rows: seq<CategoryTotal>, x: Item)
    ensures Seqs.Sum(Accumulate(rows, x), CountOf) == Seqs.Sum(rows, CountOf) + 1.0
    ensures Seqs.Sum(Accumulate(rows, x), ValueOf) == Seqs.Sum(rows, ValueOf) + Value(x)
  {
    var i := Seqs.FirstWhere(rows, IsCategory(x.category));
    var blank := CategoryTotal(x.category, 0, 0.0);
    var acc := if i == |rows| then rows + [blank] else rows;
    if i == |rows| {
      Seqs.SumAppend(rows, [blank], CountOf);
      Seqs.SumAppend(rows, [blank], ValueOf);
      assert [blank][1..] == [];
    }
    Seqs.SumUpdate(acc, i, Bump(acc[i], x), CountOf);
    Seqs.SumUpdate(acc, i, Bump(acc[i], x), ValueOf);
  }

  /** The rows' counts add up to the number of items and their values to the total value. */
  lemma {:induction false} TallyTotals(items: seq<Item>)
    ensures Seqs.Sum(Tally(items), CountOf) == TotalItems(items) as real
    ensures Seqs.Sum(Tally(items), ValueOf) == TotalValue(items)
    decreases |items|
  {
    if |items| > 0 {
      var pre := items[..|items| - 1];
      TallyTotals(pre);
      AccumulateTotals(Tally(pre), items[|items| - 1]);
    }
  }

  /** Greater-than is a strict total order on values. */
  lemma GreaterStrictTotal()
    ensures StableSort.StrictTotalOrder(Greater)
  {
  }

  /** The breakdown is complete and exact: one row per category that occurs,
      each with its number of items and their total value. */
  lemma BreakdownRows(items: seq<Item>)
    ensures forall e :: e in Breakdown(items) ==> e.count > 0 && e == Summary(items, e.category)
    ensures forall x :: x in items ==> Lists(Breakdown(items), x.category)
    ensures Seqs.Pairwise(Breakdown(items), DifferentCategory)
  {
    var rows := Tally(items);
    var r := Breakdown(items);
    TallyDescribes(items);
    assert forall e :: e in r <==> e in rows by {
      assert forall e :: e in r <==> e in multiset(r);
      assert forall e :: e in rows <==> e in multiset(rows);
    }
    assert Seqs.Pairwise(rows, DifferentCategory);
    StableSort.SortByPairwise(rows, ValueOf, Greater, DifferentCategory);
  }

  /** The breakdown lists values from largest to smallest, and rows of equal
      value in the order their categories first occur. */
  lemma BreakdownOrder(items: seq<Item>)
    ensures forall i, j :: 0 <= i < j < |Breakdown(items)| ==>
              Breakdown(items)[i].value >= Breakdown(items)[j].value
    ensures forall i, j ::
              (0 <= i < j < |Breakdown(items)| && Breakdown(items)[i].value == Breakdown(items)[j].value) ==>
              FirstIndex(items, Breakdown(items)[i].category) < FirstIndex(items, Breakdown(items)[j].category)
  {
    var rows := Tally(items);
    GreaterStrictTotal();
    StableSort.SortBySorted(rows, ValueOf, Greater);
    TallyDescribes(items);
    var before := (a: CategoryTotal, b: CategoryTotal) => FirstIndex(items, a.category) < FirstIndex(items, b.category);
    assert Seqs.Pairwise(rows, before);
    StableSort.SortByTiesInOrder(rows, ValueOf, Greater, before);
  }

  /** The breakdown's counts add up to the item count and its values to the total value. */
  lemma BreakdownTotals(items: seq<Item>)
    ensures Seqs.Sum(Breakdown(items), CountOf) == TotalItems(items) as real
    ensures Seqs.Sum(Breakdown(items), ValueOf) == TotalValue(items)
  {
    TallyTotals(items);
    StableSort.SortBySum(Tally(items), ValueOf, Greater, CountOf);
    StableSort.SortBySum(Tally(items), ValueOf, Greater, ValueOf);
  }

  /** The seed list's breakdown: electronics (laptop and printer) first, then furniture. */
  lemma SeedBreakdown()
    ensures Breakdown(Inventory.Seed) ==
            [CategoryTotal("Electronics", 2, 19750.0), CategoryTotal("Furniture", 1, 6250.0)]
  {
    var s := Inventory.Seed;
    assert s[..2][..1] == [s[0]];
    assert s[..2] == [s[0], s[1]];
    assert [s[0]][..0] == [];
    assert Tally([]) == [];
    assert Tally([s[0]]) == [CategoryTotal("Electronics", 1, 18000.0)];
    assert Tally([s[0], s[1]]) ==
           [CategoryTotal("Electronics", 1, 18000.0), CategoryTotal("Furniture", 1, 6250.0)];
    assert Tally(s) == [CategoryTotal("Electronics", 2, 19750.0), CategoryTotal("Furniture", 1, 6250.0)];
  }
}
