/** The catalog query: the new-arrival test, the facet and search filter, the
    three sort orders and the sold and home selections built from them.

    The script reads its filter from a global state object and the clock from
    Date.now(); here the filter is a Filters value, the clock is `now`
    (milliseconds) and `new Date(s).getTime()` is the parameter `date`, which
    gives None where the script would get NaN. */
module Catalog {
  import opened Strings
  import opened Seqs
  import opened Options
  import opened Numbers
  import opened Inventory
  import opened Sorting

  /** 1000 * 60 * 60 * 24 milliseconds. */
  const DayMs: nat := 86400000

  /** The catalog's filter state. */
  datatype Filters = Filters(
    audience: string,
    category: string,
    condition: string,
    sort: string,
    search: string,
    newOnly: bool)

  /** The filter the page starts with. */
  const DefaultFilters := Filters("all", "all", "all", "Newest", "", false)

  const PriceLowHigh := "Price Low\U{2192}High"
  const PriceHighLow := "Price High\U{2192}Low"

  /** Not sold, and created at most seven days before now: the test
      `daysSince(createdAt) <= 7` on integer milliseconds. An unreadable date
      gives NaN days, which is never at most 7. */
  predicate IsNewArrival(item: Item, now: int, date: string -> Option<int>) {
    item.status != "sold" &&
    match date(item.createdAt)
    case Some(t) => now - t <= 7 * DayMs
    case None => false
  }

  /** The integer test is the script's test on fractional days. */
  lemma IsNewArrivalDays(item: Item, now: int, date: string -> Option<int>)
    ensures IsNewArrival(item, now, date) <==>
      item.status != "sold" && date(item.createdAt).Some? &&
      (now - date(item.createdAt).value) as real / DayMs as real <= 7.0
  {
    if date(item.createdAt).Some? {
      var d := (now - date(item.createdAt).value) as real;
      assert d / DayMs as real <= 7.0 <==> d <= 7.0 * DayMs as real;
    }
  }

  /** Only available and reserved items are in the catalog. */
  predicate Listed(item: Item) {
    item.status == "available" || item.status == "reserved"
  }

  /** The search text as the filter uses it. */
  function SearchTerm(f: Filters): string {
    ToLower(Trim(f.search))
  }

  /** What the search looks in: the title and the notes, lower-cased. */
  function Haystack(item: Item): string {
    ToLower(item.title + " " + item.notes)
  }

  /** The filter callback: listed, every facet other than "all" equal, new
      when asked, and the search text a substring of the haystack when there
      is a search text. */
  predicate Matches(item: Item, f: Filters, now: int, date: string -> Option<int>) {
    Listed(item) &&
    (f.audience == "all" || item.audience == f.audience) &&
    (f.category == "all" || item.category == f.category) &&
    (f.condition == "all" || item.condition == f.condition) &&
    (!f.newOnly || IsNewArrival(item, now, date)) &&
    (SearchTerm(f) == "" || Contains(Haystack(item), SearchTerm(f)))
  }

  function Matcher(f: Filters, now: int, date: string -> Option<int>): Item -> bool {
    (item: Item) => Matches(item, f, now, date)
  }

  function ApplyCatalogFilters(items: seq<Item>, f: Filters, now: int, date: string -> Option<int>): seq<Item> {
    Filter(items, Matcher(f, now, date))
  }

  // ---------------------------------------------------------------------
  // The filter.

  /** The result keeps the input's order. */
  lemma FilteredIsSubsequence(items: seq<Item>, f: Filters, now: int, date: string -> Option<int>)
    ensures IsSubsequence(ApplyCatalogFilters(items, f, now, date), items)
  {
    FilterIsSubsequence(items, Matcher(f, now, date));
  }

  /** An item is kept, as often as it occurs, exactly when the callback accepts it. */
  lemma FilteredCount(items: seq<Item>, f: Filters, now: int, date: string -> Option<int>, x: Item)
    ensures Count(ApplyCatalogFilters(items, f, now, date), x) ==
      if Matches(x, f, now, date) then Count(items, x) else 0
  {
    FilterCount(items, Matcher(f, now, date), x);
  }

  /** Every kept item is listed and passes each facet, the new-arrival test
      and the search. */
  lemma FilteredFacets(items: seq<Item>, f: Filters, now: int, date: string -> Option<int>)
    ensures forall x :: x in ApplyCatalogFilters(items, f, now, date) ==>
      x in items &&
      (x.status == "available" || x.status == "reserved") &&
      (f.audience != "all" ==> x.audience == f.audience) &&
      (f.category != "all" ==> x.category == f.category) &&
      (f.condition != "all" ==> x.condition == f.condition) &&
      (f.newOnly ==> x.status != "sold" && date(x.createdAt).Some? &&
                     now - date(x.createdAt).value <= 7 * DayMs) &&
      (SearchTerm(f) != "" ==>
         exists i :: 0 <= i <= |Haystack(x)| && StartsWith(Haystack(x)[i..], SearchTerm(f)))
  {
    var r := ApplyCatalogFilters(items, f, now, date);
    forall x | x in r
      ensures SearchTerm(f) != "" ==>
        exists i :: 0 <= i <= |Haystack(x)| && StartsWith(Haystack(x)[i..], SearchTerm(f))
    {
      ContainsIsInfix(Haystack(x), SearchTerm(f));
    }
  }

  /** With the filter the page starts with, the catalog is exactly the
      available and reserved items, in order. */
  lemma DefaultFiltersListed(items: seq<Item>, now: int, date: string -> Option<int>)
    ensures ApplyCatalogFilters(items, DefaultFilters, now, date) == Filter(items, Listed)
  {
    assert Trim("") == "";
    assert SearchTerm(DefaultFilters) == "";
    FilterAgree(items, Matcher(DefaultFilters, now, date), Listed);
  }

  // ---------------------------------------------------------------------
  // The sort.

  function PriceOf(item: Item): ExtNum {
    item.price
  }

  /** `new Date(createdAt)` as a number: NaN for an unreadable date. */
  function CreatedAt(date: string -> Option<int>): Item -> ExtNum {
    (item: Item) => match date(item.createdAt) case Some(t) => Finite(t as real) case None => NaN
  }

  /** The key a sort option orders by. */
  function SortKey(sort: string, date: string -> Option<int>): Item -> ExtNum {
    if sort == PriceLowHigh || sort == PriceHighLow then PriceOf else CreatedAt(date)
  }

  /** Whether the comparator is `b - a` rather than `a - b`: every option but
      the ascending price one. */
  function SortDescending(sort: string): bool {
    sort != PriceLowHigh
  }

  /** A sorted copy of the items: by price, either way, or newest first for
      any other option. */
  function SortItems(items: seq<Item>, sort: string, date: string -> Option<int>): seq<Item> {
    SortBy(items, SortKey(sort, date), SortDescending(sort))
  }

  /** The sorted copy holds the same items, as often. */
  lemma SortItemsPermutes(items: seq<Item>, sort: string, date: string -> Option<int>)
    ensures multiset(SortItems(items, sort, date)) == multiset(items)
  {
    SortPermutes(items, SortKey(sort, date), SortDescending(sort));
  }

  /** Items with the same key keep their input order. */
  lemma SortItemsStable(items: seq<Item>, sort: string, date: string -> Option<int>, k: ExtNum)
    ensures WithKey(SortItems(items, sort, date), SortKey(sort, date), k) ==
            WithKey(items, SortKey(sort, date), k)
  {
    SortStable(items, SortKey(sort, date), SortDescending(sort), k);
  }

  lemma SortedNoNaN(items: seq<Item>, sort: string, date: string -> Option<int>)
    requires NoNaN(items, SortKey(sort, date))
    ensures Sorted(SortItems(items, sort, date), SortKey(sort, date), SortDescending(sort))
    ensures NoNaN(SortItems(items, sort, date), SortKey(sort, date))
  {
    SortSorted(items, SortKey(sort, date), SortDescending(sort));
    SortNoNaN(items, SortKey(sort, date), SortDescending(sort));
  }

  /** When every price is a number, "Price Low→High" gives non-decreasing prices. */
  lemma SortItemsPriceAscending(items: seq<Item>, date: string -> Option<int>)
    requires forall i :: 0 <= i < |items| ==> !items[i].price.NaN?
    ensures var r := SortItems(items, PriceLowHigh, date);
      forall i, j :: 0 <= i < j < |r| ==> AtMost(r[i].price, r[j].price)
  {
    var r := SortItems(items, PriceLowHigh, date);
    SortedNoNaN(items, PriceLowHigh, date);
    forall i, j | 0 <= i < j < |r|
      ensures AtMost(r[i].price, r[j].price)
    {
      CompareAtMost(r[i].price, r[j].price);
    }
  }

  /** When every price is a number, "Price High→Low" gives non-increasing prices. */
  lemma SortItemsPriceDescending(items: seq<Item>, date: string -> Option<int>)
    requires forall i :: 0 <= i < |items| ==> !items[i].price.NaN?
    ensures var r := SortItems(items, PriceHighLow, date);
      forall i, j :: 0 <= i < j < |r| ==> AtMost(r[j].price, r[i].price)
  {
    var r := SortItems(items, PriceHighLow, date);
    SortedNoNaN(items, PriceHighLow, date);
    forall i, j | 0 <= i < j < |r|
      ensures AtMost(r[j].price, r[i].price)
    {
      CompareAtMost(r[j].price, r[i].price);
    }
  }

  /** a was created no earlier than b, both dates being readable. */
  predicate NewerFirst(a: Item, b: Item, date: string -> Option<int>) {
    date(a.createdAt).Some? && date(b.createdAt).Some? &&
    date(b.createdAt).value <= date(a.createdAt).value
  }

  /** When every date can be read, any other option puts newer items first. */
  lemma SortItemsNewestFirst(items: seq<Item>, sort: string, date: string -> Option<int>)
    requires sort != PriceLowHigh && sort != PriceHighLow
    requires forall i :: 0 <= i < |items| ==> date(items[i].createdAt).Some?
    ensures forall i, j :: 0 <= i < j < |SortItems(items, sort, date)| ==>
      NewerFirst(SortItems(items, sort, date)[i], SortItems(items, sort, date)[j], date)
  {
    var key := CreatedAt(date);
    assert SortKey(sort, date) == key && SortDescending(sort);
    var r := SortItems(items, sort, date);
    SortedNoNaN(items, sort, date);
    forall i, j | 0 <= i < j < |r|
      ensures NewerFirst(r[i], r[j], date)
    {
      assert Cmp(key, true, r[i], r[j]) <= 0;
      assert !key(r[i]).NaN? && !key(r[j]).NaN?;
      CompareAtMost(key(r[j]), key(r[i]));
    }
  }

  // ---------------------------------------------------------------------
  // The sold page and the home page's new arrivals.

  predicate IsSold(item: Item) {
    item.status == "sold"
  }

  predicate NotSold(item: Item) {
    item.status != "sold"
  }

  /** The sold items, newest first. */
  function SoldView(items: seq<Item>, date: string -> Option<int>): seq<Item> {
    SortItems(Filter(items, IsSold), "Newest", date)
  }

  /** The first eight unsold items, newest first. */
  function HomeView(items: seq<Item>, date: string -> Option<int>): (r: seq<Item>)
    ensures |r| <= 8
  {
    var s := SortItems(Filter(items, NotSold), "Newest", date);
    if |s| <= 8 then s else s[..8]
  }

  /** The sold page shows every sold item, as often as it occurs, and nothing else. */
  lemma SoldViewContents(items: seq<Item>, date: string -> Option<int>, x: Item)
    ensures Count(SoldView(items, date), x) == if x.status == "sold" then Count(items, x) else 0
  {
    SortItemsPermutes(Filter(items, IsSold), "Newest", date);
    FilterCount(items, IsSold, x);
    MultisetCount(SoldView(items, date), Filter(items, IsSold), x);
  }

  /** When every date can be read, the sold page puts newer items first. */
  lemma SoldViewNewest(items: seq<Item>, date: string -> Option<int>)
    requires forall i :: 0 <= i < |items| ==> date(items[i].createdAt).Some?
    ensures forall i, j :: 0 <= i < j < |SoldView(items, date)| ==>
      NewerFirst(SoldView(items, date)[i], SoldView(items, date)[j], date)
  {
    var sold := Filter(items, IsSold);
    forall i | 0 <= i < |sold|
      ensures date(sold[i].createdAt).Some?
    {
      assert sold[i] in items;
    }
    SortItemsNewestFirst(sold, "Newest", date);
  }

  /** The home page shows eight unsold items, or all of them when there are
      fewer, each at most as often as it occurs among the unsold items. */
  lemma HomeViewSize(items: seq<Item>, date: string -> Option<int>)
    ensures |HomeView(items, date)| == if |Filter(items, NotSold)| <= 8 then |Filter(items, NotSold)| else 8
    ensures forall x :: x in HomeView(items, date) ==> x in items && x.status != "sold"
    ensures multiset(HomeView(items, date)) <= multiset(Filter(items, NotSold))
  {
    var u := Filter(items, NotSold);
    var s := SortItems(u, "Newest", date);
    SortItemsPermutes(u, "Newest", date);
    assert |s| == |u| by {
      assert |multiset(s)| == |multiset(u)|;
    }
    var r := HomeView(items, date);
    assert s == r + s[|r|..];
    assert multiset(s) == multiset(r) + multiset(s[|r|..]);
    forall x | x in HomeView(items, date)
      ensures x in u
    {
      assert x in s;
      assert x in multiset(s);
    }
  }

  /** When every date can be read, the home page is newest first, and no
      unsold item left off it is newer than an item on it. */
  lemma HomeViewNewest(items: seq<Item>, date: string -> Option<int>)
    requires forall i :: 0 <= i < |items| ==> date(items[i].createdAt).Some?
    ensures forall i, j :: 0 <= i < j < |HomeView(items, date)| ==>
      NewerFirst(HomeView(items, date)[i], HomeView(items, date)[j], date)
    ensures forall x :: x in items && x.status != "sold" && x !in HomeView(items, date) ==>
      forall i :: 0 <= i < |HomeView(items, date)| ==> NewerFirst(HomeView(items, date)[i], x, date)
  {
    var u := Filter(items, NotSold);
    var s := SortItems(u, "Newest", date);
    var r := HomeView(items, date);
    SortItemsPermutes(u, "Newest", date);
    SortItemsNewestFirst(u, "Newest", date);
    assert r == s[..|r|];
    forall i, j | 0 <= i < j < |r|
      ensures NewerFirst(r[i], r[j], date)
    {
      assert r[i] == s[i] && r[j] == s[j];
    }
    forall x | x in items && x.status != "sold" && x !in r
      ensures forall i :: 0 <= i < |r| ==> NewerFirst(r[i], x, date)
    {
      assert x in u;
      assert x in multiset(s);
      var j :| 0 <= j < |s| && s[j] == x;
      assert j >= |r|;
      forall i | 0 <= i < |r|
        ensures NewerFirst(r[i], x, date)
      {
        assert r[i] == s[i];
      }
    }
  }

  /** Equal multisets count every element alike. */
  lemma MultisetCount<T>(a: seq<T>, b: seq<T>, x: T)
    requires multiset(a) == multiset(b)
    ensures Count(a, x) == Count(b, x)
  {
    MultisetCountOf(a, x);
    MultisetCountOf(b, x);
  }
}
