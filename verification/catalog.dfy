/** The product catalog of script.js: the fixed product list, the category
    filter and the sort that `renderProducts` applies before drawing one card
    per product. Prices are whole cents and ratings whole tenths of a star. */
module Catalog {
  import opened Seqs

  /** A product record; the image URL is presentational and not modelled. */
  datatype Product = Product(id: nat, name: string, priceCents: nat, ratingTenths: int, category: string)

  /** The hardcoded catalog. */
  const Products: seq<Product> := [
    Product(1, "Wireless Headphones", 12999, 45, "electronics"),
    Product(2, "Smart Watch", 19999, 47, "electronics"),
    Product(3, "Cotton T-Shirt", 2999, 42, "clothing"),
    Product(4, "Coffee Maker", 8999, 44, "home"),
    Product(5, "Running Shoes", 7999, 46, "clothing"),
    Product(6, "Bluetooth Speaker", 5999, 43, "electronics")
  ]

  /** The value of the category select that keeps every product. */
  const ALL_CATEGORIES: string := "all"

  /** The orders the sort select can ask for; any other value of it leaves
      the filtered order alone. */
  datatype Order = PriceAscending | PriceDescending | RatingDescending

  datatype Option<T> = None | Some(value: T)

  /** The sort select value as an order: "price-asc" sorts by price
      ascending, "price-desc" by price descending, "rating" by rating
      descending, and any other value asks for no sort. */
  function OrderOf(sortBy: string): (o: Option<Order>)
    ensures sortBy == "price-asc" ==> o == Some(PriceAscending)
    ensures sortBy == "price-desc" ==> o == Some(PriceDescending)
    ensures sortBy == "rating" ==> o == Some(RatingDescending)
    ensures o.Some? <==> sortBy in {"price-asc", "price-desc", "rating"}
  {
    if sortBy == "price-asc" then Some(PriceAscending)
    else if sortBy == "price-desc" then Some(PriceDescending)
    else if sortBy == "rating" then Some(RatingDescending)
    else None
  }

  /** The `filter` callback of `renderProducts`. */
  function InCategory(category: string): Product -> bool {
    (product: Product) => product.category == category
  }

  /** The category step of `renderProducts`: a copy of the whole list for
      "all", otherwise exactly the products of that category in list order;
      ByCategoryCount adds that each keeps its multiplicity. */
  function ByCategory(products: seq<Product>, category: string): (r: seq<Product>)
    ensures category == ALL_CATEGORIES ==> r == products
    ensures category != ALL_CATEGORIES ==> forall p :: p in r <==> p in products && p.category == category
    ensures IsSubsequence(r, products)
  {
    if category == ALL_CATEGORIES then
      SubsequenceReflexive(products);
      products
    else Filter(products, InCategory(category))
  }

  /** Filtering by a category keeps each product of it as often as it occurs
      in the list, and no other product. */
  lemma ByCategoryCount(products: seq<Product>, category: string, p: Product)
    requires category != ALL_CATEGORIES
    ensures multiset(ByCategory(products, category))[p] == if p.category == category then multiset(products)[p] else 0
  {
    FilterCount(products, InCategory(category), p);
  }

  /** The comparators of `renderProducts`: `a.price - b.price`,
      `b.price - a.price` and `b.rating - a.rating`. A result that is not
      positive lets `a` stay before `b`, which for each order means a price
      no higher, a price no lower, or a rating no lower. */
  function Compare(a: Product, b: Product, order: Order): (c: int)
    ensures order == PriceAscending ==> (c <= 0 <==> a.priceCents <= b.priceCents)
    ensures order == PriceDescending ==> (c <= 0 <==> a.priceCents >= b.priceCents)
    ensures order == RatingDescending ==> (c <= 0 <==> a.ratingTenths >= b.ratingTenths)
  {
    match order
    case PriceAscending => a.priceCents - b.priceCents
    case PriceDescending => b.priceCents - a.priceCents
    case RatingDescending => b.ratingTenths - a.ratingTenths
  }

  /** Each comparator is a consistent order, as `sort` requires: swapping
      the arguments negates the result, and "may come before" is transitive. */
  lemma CompareConsistent(a: Product, b: Product, c: Product, order: Order)
    ensures Compare(a, b, order) == -Compare(b, a, order)
    ensures Compare(a, b, order) <= 0 && Compare(b, c, order) <= 0 ==> Compare(a, c, order) <= 0
  {
  }

  ghost predicate SortedBy(s: seq<Product>, order: Order) {
    SortedUpTo(s, |s|, order)
  }

  /** The first `k` products of `s` are in the comparator's order. */
  ghost predicate SortedUpTo(s: seq<Product>, k: nat, order: Order)
    requires k <= |s|
  {
    forall m, n :: 0 <= m < n < k ==> Compare(s[m], s[n], order) <= 0
  }

  /** `filteredProducts.sort(compare)`: an insertion sort in place. */
  method SortInPlace(a: array<Product>, order: Order)
    modifies a
    ensures SortedBy(a[..], order)
    ensures multiset(a[..]) == multiset(old(a[..]))
  {
    var i := 0;
    while i < a.Length
      invariant 0 <= i <= a.Length
      invariant SortedUpTo(a[..], i, order)
      invariant multiset(a[..]) == multiset(old(a[..]))
    {
      InsertAt(a, i, order);
      i := i + 1;
    }
  }

  /** One pass of the insertion sort: moves `a[i]` left past the products
      the comparator puts after it, so products that compare equal keep
      their order. It leaves `a[..i + 1]` sorted, permutes only that prefix
      and leaves the rest of the array alone. */
  method InsertAt(a: array<Product>, i: nat, order: Order)
    requires i < a.Length && SortedUpTo(a[..], i, order)
    modifies a
    ensures SortedUpTo(a[..], i + 1, order)
    ensures multiset(a[..]) == multiset(old(a[..]))
    ensures a[i + 1..] == old(a[i + 1..])
  {
    InsertStart(a[..], i, order);
    var j := i;
    while 0 < j && Compare(a[j - 1], a[j], order) > 0
      invariant 0 <= j <= i
      invariant Inserting(a[..], i, j, order)
      invariant multiset(a[..]) == multiset(old(a[..]))
      invariant forall k :: i < k < a.Length ==> a[k] == old(a[k])
    {
      MoveLeft(a, i, j, order);
      j := j - 1;
    }
    InsertDone(a[..], i, j, order);
  }

  /** One step of a pass: exchanges the inserted product at `j` with its
      left neighbour, which the comparator puts after it. */
  method MoveLeft(a: array<Product>, i: nat, j: nat, order: Order)
    requires 0 < j && Inserting(a[..], i, j, order) && Compare(a[j - 1], a[j], order) > 0
    modifies a
    ensures Inserting(a[..], i, j - 1, order)
    ensures multiset(a[..]) == multiset(old(a[..]))
    ensures forall k :: i < k < a.Length ==> a[k] == old(a[k])
  {
    ghost var before := a[..];
    Swap(a, j - 1, j);
    InsertStep(before, a[..], i, j, order);
  }

  /** The state in the middle of a pass: the product being inserted sits at
      `j`, it compares strictly before every product after it up to `i`, and
      the other products up to `i` are in order. */
  ghost predicate Inserting(s: seq<Product>, i: nat, j: nat, order: Order) {
    && j <= i < |s|
    && (forall m, n :: 0 <= m < n <= i && m != j && n != j ==> Compare(s[m], s[n], order) <= 0)
    && (forall n :: j < n <= i ==> Compare(s[j], s[n], order) < 0)
  }

  /** A pass starts with the product to insert in place and a sorted prefix
      before it. */
  lemma InsertStart(s: seq<Product>, i: nat, order: Order)
    requires i < |s| && SortedUpTo(s, i, order)
    ensures Inserting(s, i, i, order)
  {
  }

  /** Exchanging the inserted product with a left neighbour that the
      comparator puts after it moves the pass one place left. */
  lemma InsertStep(s: seq<Product>, t: seq<Product>, i: nat, j: nat, order: Order)
    requires 0 < j && Inserting(s, i, j, order) && Compare(s[j - 1], s[j], order) > 0
    requires t == s[j - 1 := s[j]][j := s[j - 1]]
    ensures Inserting(t, i, j - 1, order)
  {
  }

  /** A pass stops when the inserted product reaches the front or a
      neighbour that may stay before it: then the whole prefix up to `i` is
      in order. */
  lemma InsertDone(s: seq<Product>, i: nat, j: nat, order: Order)
    requires Inserting(s, i, j, order) && (j == 0 || Compare(s[j - 1], s[j], order) <= 0)
    ensures SortedUpTo(s, i + 1, order)
  {
  }

  /** Exchanges two neighbouring products. */
  method Swap(a: array<Product>, i: nat, j: nat)
    requires i < j < a.Length
    modifies a
    ensures a[..] == old(a[..])[i := old(a[j])][j := old(a[i])]
    ensures multiset(a[..]) == multiset(old(a[..]))
  {
    a[i], a[j] := a[j], a[i];
  }

  /** `renderProducts`: the products the grid shows, in the order it shows
      them, for the catalog `products`. The sort works on a copy, so the
      catalog itself stays as it was. */
  method RenderProducts(products: seq<Product>, category: string, sortBy: string) returns (shown: seq<Product>)
    ensures multiset(shown) == multiset(ByCategory(products, category))
    ensures sortBy == "price-asc" ==> forall i, j :: 0 <= i < j < |shown| ==> shown[i].priceCents <= shown[j].priceCents
    ensures sortBy == "price-desc" ==> forall i, j :: 0 <= i < j < |shown| ==> shown[i].priceCents >= shown[j].priceCents
    ensures sortBy == "rating" ==> forall i, j :: 0 <= i < j < |shown| ==> shown[i].ratingTenths >= shown[j].ratingTenths
    ensures OrderOf(sortBy) == None ==> shown == ByCategory(products, category)
  {
    var filtered := ByCategory(products, category);
    var a := new Product[|filtered|](k requires 0 <= k < |filtered| => filtered[k]);
    assert a[..] == filtered;
    var order := OrderOf(sortBy);
    if order.Some? {
      SortInPlace(a, order.value);
      shown := a[..];
      SortedMeans(shown, sortBy);
    } else {
      shown := a[..];
      assert shown == filtered;
    }
  }

  /** The grid as the page draws it: `renderProducts` over the hardcoded
      catalog. */
  method RenderCatalog(category: string, sortBy: string) returns (shown: seq<Product>)
    ensures multiset(shown) == multiset(ByCategory(Products, category))
    ensures sortBy == "price-asc" ==> forall i, j :: 0 <= i < j < |shown| ==> shown[i].priceCents <= shown[j].priceCents
    ensures sortBy == "price-desc" ==> forall i, j :: 0 <= i < j < |shown| ==> shown[i].priceCents >= shown[j].priceCents
    ensures sortBy == "rating" ==> forall i, j :: 0 <= i < j < |shown| ==> shown[i].ratingTenths >= shown[j].ratingTenths
    ensures OrderOf(sortBy) == None ==> shown == ByCategory(Products, category)
  {
    shown := RenderProducts(Products, category, sortBy);
  }

  /** What the sort of `renderProducts` puts in order, select value by
      select value: prices ascending, prices descending, ratings descending. */
  lemma SortedMeans(s: seq<Product>, sortBy: string)
    requires OrderOf(sortBy).Some? && SortedBy(s, OrderOf(sortBy).value)
    ensures sortBy == "price-asc" ==> forall i, j :: 0 <= i < j < |s| ==> s[i].priceCents <= s[j].priceCents
    ensures sortBy == "price-desc" ==> forall i, j :: 0 <= i < j < |s| ==> s[i].priceCents >= s[j].priceCents
    ensures sortBy == "rating" ==> forall i, j :: 0 <= i < j < |s| ==> s[i].ratingTenths >= s[j].ratingTenths
  {
    var order := OrderOf(sortBy).value;
    forall i, j | 0 <= i < j < |s| ensures Compare(s[i], s[j], order) <= 0 {
    }
  }
}
