/** The inventory table: the sort-header state machine and the sorted view of
    the (already searched) items. */
module InventoryTable {
  import opened Types
  import Text
  import Seqs
  import StableSort
  import Inventory

  /** The columns whose header sorts the table. */
  datatype SortField = Name | Category | Quantity | Price

  datatype Direction = Asc | Desc

  /** The table's sort state: a column and a direction. */
  datatype SortState = SortState(field: SortField, direction: Direction)

  /** The table opens sorted by name, ascending. */
  const InitialSort: SortState := SortState(Name, Asc)

  /** The other direction. */
  function Flip(d: Direction): (e: Direction)
    ensures e != d
  {
    if d == Asc then Desc else Asc
  }

  /** `handleSort`: clicking the current column flips the direction, clicking
      another column sorts by it ascending. */
  function HandleSort(s: SortState, f: SortField): (r: SortState)
    ensures r.field == f
    ensures s.field == f ==> r.direction != s.direction
    ensures s.field != f ==> r.direction == Asc
  {
    if s.field == f then SortState(f, Flip(s.direction)) else SortState(f, Asc)
  }

  /** Clicking the current column twice restores the state. */
  lemma HandleSortTwice(s: SortState)
    ensures HandleSort(HandleSort(s, s.field), s.field) == s
  {
  }

  /** Clicking a new column twice leaves it sorted descending. */
  lemma HandleSortNewColumnTwice(s: SortState, f: SortField)
    requires s.field != f
    ensures HandleSort(HandleSort(s, f), f) == SortState(f, Desc)
  {
  }

  /** JavaScript's `a[field] < b[field]` for the chosen column: string order on
      the text columns, number order on the numeric ones. */
  predicate KeyLess(f: SortField, a: Item, b: Item) {
    match f
    case Name => Text.StrLess(a.name, b.name)
    case Category => Text.StrLess(a.category, b.category)
    case Quantity => a.quantity < b.quantity
    case Price => a.price < b.price
  }

  /** The two items have the same value in the chosen column: the comparator returns 0. */
  predicate SameKey(f: SortField, a: Item, b: Item) {
    match f
    case Name => a.name == b.name
    case Category => a.category == b.category
    case Quantity => a.quantity == b.quantity
    case Price => a.price == b.price
  }

  /** The items tied with `x` in the chosen column. */
  function TiedWith(f: SortField, x: Item): Item -> bool {
    (y: Item) => SameKey(f, x, y)
  }

  function NameOf(x: Item): string { x.name }
  function CategoryOf(x: Item): string { x.category }
  function QuantityOf(x: Item): int { x.quantity }
  function PriceOf(x: Item): real { x.price }
  function IntLess(a: int, b: int): bool { a < b }
  function RealLess(a: real, b: real): bool { a < b }

  /** The key order for a direction: descending uses the comparator with its signs flipped. */
  function Order<K>(less: (K, K) -> bool, d: Direction): (K, K) -> bool {
    if d == Asc then less else StableSort.Reversed(less)
  }

  /** `sortedItems`: a copy of the items stably sorted by the chosen column in
      the chosen direction. */
  function SortItems(items: seq<Item>, st: SortState): (r: seq<Item>)
    ensures multiset(r) == multiset(items)
    ensures |r| == |items|
  {
    match st.field
    case Name => StableSort.SortBy(items, NameOf, Order(Text.StrLess, st.direction))
    case Category => StableSort.SortBy(items, CategoryOf, Order(Text.StrLess, st.direction))
    case Quantity => StableSort.SortBy(items, QuantityOf, Order(IntLess, st.direction))
    case Price => StableSort.SortBy(items, PriceOf, Order(RealLess, st.direction))
  }

  /** What a correct table sort delivers: ascending means no item is followed by
      one with a smaller key, descending means no item is followed by one with a
      larger key, and tied items keep their input order. */
  ghost predicate SortedView(items: seq<Item>, st: SortState, r: seq<Item>) {
    && (st.direction == Asc ==> forall i, j :: 0 <= i < j < |r| ==> !KeyLess(st.field, r[j], r[i]))
    && (st.direction == Desc ==> forall i, j :: 0 <= i < j < |r| ==> !KeyLess(st.field, r[i], r[j]))
    && (forall x :: Seqs.Filter(r, TiedWith(st.field, x)) == Seqs.Filter(items, TiedWith(st.field, x)))
  }

  /** The string order is a strict total order. */
  lemma StrLessStrictTotal()
    ensures StableSort.StrictTotalOrder(Text.StrLess)
  {
    forall a | true
      ensures !Text.StrLess(a, a)
    {
      Text.StrLessIrreflexive(a);
    }
    forall a, b, c | Text.StrLess(a, b) && Text.StrLess(b, c)
      ensures Text.StrLess(a, c)
    {
      Text.StrLessTransitive(a, b, c);
    }
    forall a, b | true
      ensures a == b || Text.StrLess(a, b) || Text.StrLess(b, a)
    {
      Text.StrLessTotal(a, b);
    }
  }

  /** The key order of either direction is a strict total order. */
  lemma OrderStrictTotal<K(!new)>(less: (K, K) -> bool, d: Direction)
    requires StableSort.StrictTotalOrder(less)
    ensures StableSort.StrictTotalOrder(Order(less, d))
  {
    if d == Desc {
      StableSort.ReversedStrictTotal(less);
    }
  }

  /** The generic sort by one column's key meets `SortedView`. */
  lemma SortByColumn<K(!new)>(items: seq<Item>, st: SortState, key: Item -> K, less: (K, K) -> bool)
    requires StableSort.StrictTotalOrder(less)
    requires forall a, b :: less(key(a), key(b)) == KeyLess(st.field, a, b)
    requires forall a, b :: (key(a) == key(b)) == SameKey(st.field, a, b)
    ensures SortedView(items, st, StableSort.SortBy(items, key, Order(less, st.direction)))
  {
    var ord := Order(less, st.direction);
    var r := StableSort.SortBy(items, key, ord);
    OrderStrictTotal(less, st.direction);
    StableSort.SortBySorted(items, key, ord);
    forall x
      ensures Seqs.Filter(r, TiedWith(st.field, x)) == Seqs.Filter(items, TiedWith(st.field, x))
    {
      StableSort.SortByStable(items, key, ord, key(x));
      Seqs.FilterExt(r, TiedWith(st.field, x), StableSort.HasKey(key, key(x)));
      Seqs.FilterExt(items, TiedWith(st.field, x), StableSort.HasKey(key, key(x)));
    }
  }

  /** The table's sort meets `SortedView`: ordered by the column in the chosen
      direction, and stable. */
  lemma SortItemsCorrect(items: seq<Item>, st: SortState)
    ensures SortedView(items, st, SortItems(items, st))
  {
    match st.field
    case Name =>
      StrLessStrictTotal();
      SortByColumn(items, st, NameOf, Text.StrLess);
    case Category =>
      StrLessStrictTotal();
      SortByColumn(items, st, CategoryOf, Text.StrLess);
    case Quantity =>
      SortByColumn(items, st, QuantityOf, IntLess);
    case Price =>
      SortByColumn(items, st, PriceOf, RealLess);
  }

  /** Uniqueness for one column: any result meeting `SortedView` is the sort's. */
  lemma ColumnUnique<K(!new)>(items: seq<Item>, st: SortState, r: seq<Item>, key: Item -> K, less: (K, K) -> bool)
    requires StableSort.StrictTotalOrder(less)
    requires forall a, b :: less(key(a), key(b)) == KeyLess(st.field, a, b)
    requires forall a, b :: (key(a) == key(b)) == SameKey(st.field, a, b)
    requires SortedView(items, st, r)
    ensures r == StableSort.SortBy(items, key, Order(less, st.direction))
  {
    var ord := Order(less, st.direction);
    OrderStrictTotal(less, st.direction);
    forall k
      ensures StableSort.Ties(r, key, k) == StableSort.Ties(items, key, k)
    {
      if x :| x in r && key(x) == k {
        Seqs.FilterExt(r, TiedWith(st.field, x), StableSort.HasKey(key, k));
        Seqs.FilterExt(items, TiedWith(st.field, x), StableSort.HasKey(key, k));
      } else {
        Seqs.FilterNone(r, StableSort.HasKey(key, k));
        forall x | x in items
          ensures key(x) != k
        {
          assert x in Seqs.Filter(items, TiedWith(st.field, x));
        }
        Seqs.FilterNone(items, StableSort.HasKey(key, k));
      }
    }
    StableSort.SortByUnique(items, r, key, ord);
  }

  /** The specification determines the table's order: every sequence that meets
      `SortedView` is exactly `SortItems`, so any stable sort shows the same table. */
  lemma SortItemsUnique(items: seq<Item>, st: SortState, r: seq<Item>)
    requires SortedView(items, st, r)
    ensures r == SortItems(items, st)
  {
    match st.field
    case Name =>
      StrLessStrictTotal();
      ColumnUnique(items, st, r, NameOf, Text.StrLess);
    case Category =>
      StrLessStrictTotal();
      ColumnUnique(items, st, r, CategoryOf, Text.StrLess);
    case Quantity =>
      ColumnUnique(items, st, r, QuantityOf, IntLess);
    case Price =>
      ColumnUnique(items, st, r, PriceOf, RealLess);
  }

  /** Two items with equal prices keep their input order when sorted by price ascending. */
  lemma PriceTiesKeepOrder(a: Item, b: Item)
    requires a.price == b.price && a != b
    ensures SortItems([a, b], SortState(Price, Asc)) == [a, b]
  {
    var r := SortItems([a, b], SortState(Price, Asc));
    SortItemsCorrect([a, b], SortState(Price, Asc));
    assert Seqs.Filter([a, b], TiedWith(Price, a)) == [a, b];
    assert Seqs.Filter(r, TiedWith(Price, a)) == [a, b];
    Seqs.FilterAll(r, TiedWith(Price, a));
  }

  /** What the table shows: the searched items, each as often as in the search
      result, sorted by the current column in the current direction. */
  function TableView(items: seq<Item>, term: string, st: SortState): (r: seq<Item>)
    ensures forall x :: x in r <==> x in items && Text.Contains(Text.Lower(x.name), Text.Lower(term))
    ensures multiset(r) == multiset(Inventory.Search(items, term))
    ensures SortedView(Inventory.Search(items, term), st, r)
    ensures |r| <= |items|
  {
    var shown := Inventory.Search(items, term);
    var r := SortItems(shown, st);
    SortItemsCorrect(shown, st);
    assert forall x :: x in r <==> x in multiset(r);
    assert forall x :: x in shown <==> x in multiset(shown);
    r
  }

  /** The opening table of the seed list: sorted by name ascending. */
  lemma SeedInitialView()
    ensures TableView(Inventory.Seed, "", InitialSort)
         == [Inventory.Seed[0], Inventory.Seed[1], Inventory.Seed[2]]
  {
    Inventory.SearchEmptyTerm(Inventory.Seed);
    var want := [Inventory.Seed[0], Inventory.Seed[1], Inventory.Seed[2]];
    assert want == Inventory.Seed;
    assert Text.StrLess("Laptop", "Office Chair");
    assert Text.StrLess("Office Chair", "Printer");
    Text.StrLessTransitive("Laptop", "Office Chair", "Printer");
    forall x
      ensures Seqs.Filter(want, TiedWith(Name, x)) == Seqs.Filter(Inventory.Seed, TiedWith(Name, x))
    {
    }
    SortItemsUnique(Inventory.Seed, InitialSort, want);
  }
}
