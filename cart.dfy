/** The cart: an ordered list of item ids without blanks or repeats, the
    operations that rewrite it, the shared-link form of it, and the lookup of
    the cart's items in the inventory.

    The script keeps the list in localStorage as JSON; here it is the field of
    a Cart object. Every operation reads the stored list, changes it and
    stores it back through setCartIds, which cleans it. */
module CartList {
  import opened Strings
  import opened Seqs
  import opened Options
  import opened Inventory

  predicate NonEmpty(id: string) {
    id != ""
  }

  /** What setCartIds stores: `[...new Set(ids.filter(Boolean))]`. */
  function Clean(ids: seq<string>): seq<string> {
    Distinct(Filter(ids, NonEmpty))
  }

  /** A list as the cart keeps it: no blank id and no id twice. */
  predicate IsCartList(ids: seq<string>) {
    NoDuplicates(ids) && forall i :: 0 <= i < |ids| ==> ids[i] != ""
  }

  /** addToCart: the id is appended when it is not already there. */
  function Added(ids: seq<string>, id: string): seq<string> {
    Clean(if id in ids then ids else ids + [id])
  }

  function Other(id: string): string -> bool {
    (x: string) => x != id
  }

  /** removeFromCart: every occurrence of the id is dropped. */
  function Removed(ids: seq<string>, id: string): seq<string> {
    Clean(Filter(ids, Other(id)))
  }

  /** The ids of a shared link's `items` parameter: split on `|`, trimmed,
      blanks dropped. */
  function SharedIds(incoming: string): seq<string> {
    Filter(Map(Split(incoming, '|'), Trim), NonEmpty)
  }

  /** applySharedCartFromQuery: a missing or empty parameter leaves the cart
      alone; otherwise the shared ids replace it. */
  function ApplyShared(ids: seq<string>, incoming: Option<string>): seq<string> {
    match incoming
    case None => ids
    case Some(s) => if s == "" then ids else Clean(SharedIds(s))
  }

  // ---------------------------------------------------------------------
  // The stored list.

  /** The stored list has no blank and no repeat, holds exactly the non-blank
      ids given, keeps their order, and lists them in the order of their
      first occurrence. */
  lemma CleanProperties(ids: seq<string>)
    ensures IsCartList(Clean(ids))
    ensures forall x :: x in Clean(ids) <==> x in ids && x != ""
    ensures IsSubsequence(Clean(ids), ids)
    ensures forall i, j :: 0 <= i < j < |Clean(ids)| ==>
      FirstIndex(ids, Clean(ids)[i]) < FirstIndex(ids, Clean(ids)[j])
  {
    var f := Filter(ids, NonEmpty);
    var c := Clean(ids);
    FilterIsSubsequence(ids, NonEmpty);
    DistinctIsSubsequence(f);
    SubsequenceTransitive(c, f, ids);
    DistinctFirstOccurrenceOrder(f);
    forall i, j | 0 <= i < j < |c|
      ensures FirstIndex(ids, c[i]) < FirstIndex(ids, c[j])
    {
      FilterFirstIndexOrder(ids, NonEmpty, c[i], c[j]);
    }
  }

  /** A list the cart would keep is stored as it is. */
  lemma CleanOfCartList(ids: seq<string>)
    requires IsCartList(ids)
    ensures Clean(ids) == ids
  {
    FilterAllKept(ids, NonEmpty);
    DistinctOfNoDuplicates(ids);
  }

  lemma CleanIdempotent(ids: seq<string>)
    ensures Clean(Clean(ids)) == Clean(ids)
  {
    CleanProperties(ids);
    CleanOfCartList(Clean(ids));
  }

  /** On a cart list, adding appends a new non-blank id and changes nothing otherwise. */
  lemma AddedToCartList(ids: seq<string>, id: string)
    requires IsCartList(ids)
    ensures Added(ids, id) == if id == "" || id in ids then ids else ids + [id]
  {
    if id in ids {
      CleanOfCartList(ids);
    } else if id == "" {
      FilterAppend(ids, [id], NonEmpty);
      assert Filter([id], NonEmpty) == [];
      FilterAllKept(ids, NonEmpty);
      assert Filter(ids + [id], NonEmpty) == ids;
      DistinctOfNoDuplicates(ids);
    } else {
      assert IsCartList(ids + [id]);
      CleanOfCartList(ids + [id]);
    }
  }

  /** The list after adding holds the id, unless it is blank, and what it held. */
  lemma AddedContents(ids: seq<string>, id: string)
    ensures forall x :: x in Added(ids, id) <==> (x in ids || x == id) && x != ""
  {
    CleanProperties(if id in ids then ids else ids + [id]);
  }

  /** Adding the same id twice is adding it once. */
  lemma AddTwice(ids: seq<string>, id: string)
    ensures Added(Added(ids, id), id) == Added(ids, id)
  {
    var a := Added(ids, id);
    CleanProperties(if id in ids then ids else ids + [id]);
    AddedToCartList(a, id);
  }

  /** Removing drops exactly the id; every other id stays. */
  lemma RemovedContents(ids: seq<string>, id: string)
    ensures forall x :: x in Removed(ids, id) <==> x in ids && x != id && x != ""
  {
    CleanProperties(Filter(ids, Other(id)));
  }

  /** On a cart list, removing keeps the others in their order. */
  lemma RemovedFromCartList(ids: seq<string>, id: string)
    requires IsCartList(ids)
    ensures Removed(ids, id) == Filter(ids, Other(id))
    ensures IsSubsequence(Removed(ids, id), ids)
  {
    var f := Filter(ids, Other(id));
    assert IsCartList(f) by {
      forall i, j | 0 <= i < j < |f|
        ensures f[i] != f[j]
      {
        FilterNoDuplicates(ids, Other(id));
      }
    }
    CleanOfCartList(f);
    FilterIsSubsequence(ids, Other(id));
  }

  lemma {:induction false} FilterNoDuplicates<T>(s: seq<T>, p: T -> bool)
    requires NoDuplicates(s)
    ensures NoDuplicates(Filter(s, p))
  {
    if s != [] {
      var init := s[..|s| - 1];
      FilterNoDuplicates(init, p);
      assert s[|s| - 1] !in init;
      assert s[|s| - 1] !in Filter(init, p);
    }
  }

  // ---------------------------------------------------------------------
  // The shared link: `?items=` followed by the ids joined with `|`.

  /** Ids as a link can carry them. */
  predicate Shareable(ids: seq<string>) {
    IsCartList(ids) && forall i :: 0 <= i < |ids| ==> IsTrimmed(ids[i]) && '|' !in ids[i]
  }

  /** Opening the link of a non-empty cart gives that cart, whatever the cart
      held before; the link of an empty cart has an empty parameter and
      changes nothing. */
  lemma ShareRoundTrip(before: seq<string>, ids: seq<string>)
    requires Shareable(ids)
    ensures ApplyShared(before, Some(Join(ids, '|'))) == if ids == [] then before else ids
  {
    if ids != [] {
      SplitJoin(ids, '|');
      TrimAllTrimmed(ids);
      FilterAllKept(ids, NonEmpty);
      assert SharedIds(Join(ids, '|')) == ids;
      JoinEnds(ids, '|');
      CleanOfCartList(ids);
    }
  }

  /** The shared ids are non-blank, trimmed, and free of `|`. */
  lemma SharedIdsClean(incoming: string)
    ensures forall i :: 0 <= i < |SharedIds(incoming)| ==>
      SharedIds(incoming)[i] != "" && IsTrimmed(SharedIds(incoming)[i]) && '|' !in SharedIds(incoming)[i]
  {
    var pieces := Split(incoming, '|');
    var trimmed := Map(pieces, Trim);
    forall i | 0 <= i < |trimmed|
      ensures '|' !in trimmed[i]
    {
      var l := LeadingSpaces(pieces[i]);
      assert trimmed[i] == pieces[i][l..l + |trimmed[i]|];
    }
  }

  // ---------------------------------------------------------------------
  // The cart's items: `ids.map(id => items.find(item => item.id === id)).filter(Boolean)`.

  /** The position of the first item with the id, or |items|. */
  function FindIndex(items: seq<Item>, id: string): (k: nat)
    ensures k <= |items|
    ensures k < |items| ==> items[k].id == id
    ensures forall j :: 0 <= j < k ==> items[j].id != id
  {
    if items == [] then 0 else if items[0].id == id then 0 else 1 + FindIndex(items[1..], id)
  }

  function Find(items: seq<Item>, id: string): Option<Item> {
    var k := FindIndex(items, id);
    if k < |items| then Some(items[k]) else None
  }

  function Known(items: seq<Item>): string -> bool {
    (id: string) => Find(items, id).Some?
  }

  function IdOf(item: Item): string {
    item.id
  }

  function CartItems(ids: seq<string>, items: seq<Item>): seq<Item> {
    if ids == [] then []
    else
      CartItems(ids[..|ids| - 1], items) +
      match Find(items, ids[|ids| - 1]) case Some(item) => [item] case None => []
  }

  /** The cart shows, in cart order, one item per id that the inventory has,
      and that item is the first inventory item with the id. */
  lemma {:induction false} CartItemsFound(ids: seq<string>, items: seq<Item>)
    ensures Map(CartItems(ids, items), IdOf) == Filter(ids, Known(items))
    ensures forall k :: 0 <= k < |CartItems(ids, items)| ==>
      CartItems(ids, items)[k] in items && Find(items, CartItems(ids, items)[k].id) == Some(CartItems(ids, items)[k])
  {
    if ids != [] {
      var init := ids[..|ids| - 1];
      CartItemsFound(init, items);
      var found := Find(items, ids[|ids| - 1]);
      var tail := match found case Some(item) => [item] case None => [];
      assert CartItems(ids, items) == CartItems(init, items) + tail;
      MapAppend(CartItems(init, items), tail, IdOf);
    }
  }

  lemma MapAppend<T, U>(a: seq<T>, b: seq<T>, f: T -> U)
    ensures Map(a + b, f) == Map(a, f) + Map(b, f)
  {
  }

  // ---------------------------------------------------------------------
  // The stored list as state.

  class Cart {
    var ids: seq<string>

    /** Nothing stored reads as the empty list. */
    constructor()
      ensures ids == []
    {
      ids := [];
    }

    method SetCartIds(newIds: seq<string>)
      modifies this
      ensures ids == Clean(newIds)
    {
      ids := Clean(newIds);
    }

    method AddToCart(id: string)
      modifies this
      ensures ids == Added(old(ids), id)
    {
      var current := ids;
      if id !in current {
        current := current + [id];
      }
      SetCartIds(current);
    }

    method RemoveFromCart(id: string)
      modifies this
      ensures ids == Removed(old(ids), id)
    {
      SetCartIds(Filter(ids, Other(id)));
    }

    /** `incoming` is the link's `items` parameter, None when it has none. */
    method ApplySharedCartFromQuery(incoming: Option<string>)
      modifies this
      ensures ids == ApplyShared(old(ids), incoming)
    {
      if incoming.None? || incoming.value == "" {
        return;
      }
      SetCartIds(SharedIds(incoming.value));
    }
  }
}
