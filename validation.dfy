/** Soft validation of the inventory (validateItems in js/app.js): every
    finding becomes a diagnostic in the order the script logs it, and no item
    is rejected. */
module Validation {
  import opened Strings
  import opened Seqs
  import opened Numbers
  import opened Inventory

  datatype Diagnostic =
    | MissingField(field: string, item: string)
    | InvalidStatus(item: string, status: string)
    | InvalidCondition(item: string, condition: string)
    | InvalidCategory(item: string, category: string)
    | InvalidAudience(item: string, audience: string)
    | NonNumericPrice(item: string)
    | DuplicateId(id: string)

  const ValidStatuses: seq<string> := ["available", "reserved", "sold"]
  const ValidConditions: seq<string> := ["New", "Very Good", "Good", "Fair"]
  const ValidCategories: seq<string> := ["Tops", "Bottoms", "Outerwear"]
  const ValidAudiences: seq<string> := ["mens", "womens", "unisex"]

  /** How a diagnostic names an item: its id, or its row in the file. */
  function Label(item: Item, index: nat): string {
    if item.id != "" then item.id else "row " + NatToString(index + 2)
  }

  /** A field is missing when it is undefined, null or the empty string. The
      price is a number, the images an array and featured a boolean, so those
      three are never missing; a name that is not a field is undefined. */
  predicate FieldMissing(item: Item, field: string) {
    if field == "id" then item.id == ""
    else if field == "title" then item.title == ""
    else if field == "category" then item.category == ""
    else if field == "size" then item.size == ""
    else if field == "fitsLike" then item.fitsLike == ""
    else if field == "condition" then item.condition == ""
    else if field == "status" then item.status == ""
    else if field == "notes" then item.notes == ""
    else if field == "createdAt" then item.createdAt == ""
    else if field == "audience" then item.audience == ""
    else !(field == "price" || field == "images" || field == "featured")
  }

  /** One diagnostic per missing field among fields, in their order. */
  function MissingFields(item: Item, name: string, fields: seq<string>): seq<Diagnostic> {
    if fields == [] then []
    else
      var last := fields[|fields| - 1];
      MissingFields(item, name, fields[..|fields| - 1])
        + (if FieldMissing(item, last) then [MissingField(last, name)] else [])
  }

  /** The diagnostics of one item, in the order the checks run. */
  function ItemDiagnostics(item: Item, index: nat): seq<Diagnostic> {
    var name := Label(item, index);
    MissingFields(item, name, RequiredHeader)
      + (if item.status !in ValidStatuses then [InvalidStatus(name, item.status)] else [])
      + (if item.condition !in ValidConditions then [InvalidCondition(name, item.condition)] else [])
      + (if item.category !in ValidCategories then [InvalidCategory(name, item.category)] else [])
      + (if item.audience !in ValidAudiences then [InvalidAudience(name, item.audience)] else [])
      + (if item.price.NaN? then [NonNumericPrice(name)] else [])
  }

  /** The per-item diagnostics of all items, item by item. */
  function PerItem(items: seq<Item>): seq<Diagnostic> {
    if items == [] then []
    else PerItem(items[..|items| - 1]) + ItemDiagnostics(items[|items| - 1], |items| - 1)
  }

  /** The ids of the items, in order. */
  function Ids(items: seq<Item>): (ids: seq<string>)
    ensures |ids| == |items|
    ensures forall i :: 0 <= i < |items| ==> ids[i] == items[i].id
  {
    if items == [] then [] else Ids(items[..|items| - 1]) + [items[|items| - 1].id]
  }

  /** One report for each id of order that occurs more than once in ids. */
  function DuplicateReports(order: seq<string>, ids: seq<string>): seq<Diagnostic> {
    if order == [] then []
    else
      var id := order[|order| - 1];
      DuplicateReports(order[..|order| - 1], ids) + (if Count(ids, id) > 1 then [DuplicateId(id)] else [])
  }

  /** Everything validateItems logs, in order: the per-item findings, then the
      duplicated ids in the order they first appear (the id map's order). */
  function Diagnostics(items: seq<Item>): seq<Diagnostic> {
    PerItem(items) + DuplicateReports(Distinct(Ids(items)), Ids(items))
  }

  /** The REQUIRED_FIELDS loop for one item. */
  method CheckFields(item: Item, name: string) returns (found: seq<Diagnostic>)
    ensures found == MissingFields(item, name, RequiredHeader)
  {
    found := [];
    for f := 0 to |RequiredHeader|
      invariant found == MissingFields(item, name, RequiredHeader[..f])
    {
      if FieldMissing(item, RequiredHeader[f]) {
        found := found + [MissingField(RequiredHeader[f], name)];
      }
      assert RequiredHeader[..f + 1][..f] == RequiredHeader[..f];
    }
    assert RequiredHeader[..|RequiredHeader|] == RequiredHeader;
  }

  /** The checks validateItems makes on the item at index. */
  method CheckItem(item: Item, index: nat) returns (found: seq<Diagnostic>)
    ensures found == ItemDiagnostics(item, index)
  {
    var name := Label(item, index);
    found := CheckFields(item, name);
    ghost var expected := MissingFields(item, name, RequiredHeader);
    if item.status !in ValidStatuses {
      found := found + [InvalidStatus(name, item.status)];
    }
    expected := expected + (if item.status !in ValidStatuses then [InvalidStatus(name, item.status)] else []);
    assert found == expected;
    if item.condition !in ValidConditions {
      found := found + [InvalidCondition(name, item.condition)];
    }
    expected := expected + (if item.condition !in ValidConditions then [InvalidCondition(name, item.condition)] else []);
    assert found == expected;
    if item.category !in ValidCategories {
      found := found + [InvalidCategory(name, item.category)];
    }
    expected := expected + (if item.category !in ValidCategories then [InvalidCategory(name, item.category)] else []);
    assert found == expected;
    if item.audience !in ValidAudiences {
      found := found + [InvalidAudience(name, item.audience)];
    }
    expected := expected + (if item.audience !in ValidAudiences then [InvalidAudience(name, item.audience)] else []);
    assert found == expected;
    if item.price.NaN? {
      found := found + [NonNumericPrice(name)];
    }
  }

  /** validateItems: one pass over the items that logs the per-item findings
      and counts ids in a map whose keys remember their insertion order, then
      one pass over that map for the duplicates. */
  method ValidateItems(items: seq<Item>) returns (log: seq<Diagnostic>)
    ensures log == Diagnostics(items)
  {
    var idCounts: map<string, nat> := map[];
    var keys: seq<string> := [];
    log := [];
    for index := 0 to |items|
      invariant log == PerItem(items[..index])
      invariant keys == Distinct(Ids(items[..index]))
      invariant Tallies(idCounts, Ids(items[..index]))
    {
      var item := items[index];
      var found := CheckItem(item, index);
      PrefixStep(items, index);
      ghost var before := Ids(items[..index]);
      TallyStep(idCounts, before, item.id);
      DistinctSnoc(before, item.id);
      log := log + found;
      if item.id in idCounts {
        idCounts := idCounts[item.id := idCounts[item.id] + 1];
      } else {
        idCounts := idCounts[item.id := 1];
        keys := keys + [item.id];
      }
    }
    assert items[..|items|] == items;
    var reports := ReportDuplicates(idCounts, keys, Ids(items));
    log := log + reports;
  }

  /** The `idCounts.forEach` pass: one report per key counted more than once,
      in key order. */
  method ReportDuplicates(idCounts: map<string, nat>, keys: seq<string>, ghost ids: seq<string>)
    returns (reports: seq<Diagnostic>)
    requires Tallies(idCounts, ids)
    requires forall k :: 0 <= k < |keys| ==> keys[k] in ids
    ensures reports == DuplicateReports(keys, ids)
  {
    reports := [];
    for k := 0 to |keys|
      invariant reports == DuplicateReports(keys[..k], ids)
    {
      assert keys[..k + 1][..k] == keys[..k];
      if idCounts[keys[k]] > 1 {
        reports := reports + [DuplicateId(keys[k])];
      }
    }
    assert keys[..|keys|] == keys;
  }

  /** Extending the prefix of items by one item. */
  lemma PrefixStep(items: seq<Item>, index: nat)
    requires index < |items|
    ensures Ids(items[..index + 1]) == Ids(items[..index]) + [items[index].id]
    ensures PerItem(items[..index + 1]) == PerItem(items[..index]) + ItemDiagnostics(items[index], index)
  {
    assert items[..index + 1][..index] == items[..index];
  }

  /** The counts map has a key for each id of ids, with its count. */
  ghost predicate Tallies(counts: map<string, nat>, ids: seq<string>) {
    (forall id :: id in counts <==> id in ids) &&
    (forall id :: id in counts ==> counts[id] == Count(ids, id))
  }

  /** `idCounts.set(id, (idCounts.get(id) || 0) + 1)` keeps the counts right. */
  lemma TallyStep(counts: map<string, nat>, ids: seq<string>, x: string)
    requires Tallies(counts, ids)
    ensures Tallies(if x in counts then counts[x := counts[x] + 1] else counts[x := 1], ids + [x])
  {
    forall id
      ensures Count(ids + [x], id) == Count(ids, id) + (if x == id then 1 else 0)
    {
      CountSnoc(ids, x, id);
    }
    CountPositive(ids, x);
    var next := if x in counts then counts[x := counts[x] + 1] else counts[x := 1];
    forall id
      ensures id in next <==> id in ids + [x]
    {
      assert id in ids + [x] <==> id in ids || id == x;
    }
  }

  // ---------------------------------------------------------------------
  // What is reported, and when.

  lemma {:induction false} MissingFieldsIff(item: Item, name: string, fields: seq<string>, f: string)
    ensures MissingField(f, name) in MissingFields(item, name, fields) <==> f in fields && FieldMissing(item, f)
    ensures forall d :: d in MissingFields(item, name, fields) ==> d.MissingField?
  {
    if fields != [] {
      var init := fields[..|fields| - 1];
      MissingFieldsIff(item, name, init, f);
      assert fields == init + [fields[|fields| - 1]];
    }
  }

  /** A field is reported missing on an item exactly when it is one of the
      thirteen and is empty; price, images and featured never are. */
  lemma MissingReported(item: Item, index: nat, f: string)
    ensures MissingField(f, Label(item, index)) in ItemDiagnostics(item, index) <==>
      f in RequiredHeader && FieldMissing(item, f)
    ensures f == "price" || f == "images" || f == "featured" ==>
      MissingField(f, Label(item, index)) !in ItemDiagnostics(item, index)
  {
    MissingFieldsIff(item, Label(item, index), RequiredHeader, f);
  }

  /** The price is reported exactly when it is NaN: an infinite price passes. */
  lemma PriceReported(item: Item, index: nat)
    ensures NonNumericPrice(Label(item, index)) in ItemDiagnostics(item, index) <==> item.price.NaN?
  {
    MissingFieldsIff(item, Label(item, index), RequiredHeader, "");
  }

  /** The category is reported exactly when it is not one of the three names. */
  lemma CategoryReported(item: Item, index: nat)
    ensures InvalidCategory(Label(item, index), item.category) in ItemDiagnostics(item, index) <==>
      !IsCategory(item.category)
  {
    MissingFieldsIff(item, Label(item, index), RequiredHeader, "");
  }

  /** Status, condition and audience are each reported exactly when they are
      not among the allowed values, which are compared as they are (the
      conversion has lower-cased status and audience, not condition). */
  lemma EnumsReported(item: Item, index: nat)
    ensures InvalidStatus(Label(item, index), item.status) in ItemDiagnostics(item, index) <==>
      item.status !in ValidStatuses
    ensures InvalidCondition(Label(item, index), item.condition) in ItemDiagnostics(item, index) <==>
      item.condition !in ValidConditions
    ensures InvalidAudience(Label(item, index), item.audience) in ItemDiagnostics(item, index) <==>
      item.audience !in ValidAudiences
  {
    MissingFieldsIff(item, Label(item, index), RequiredHeader, "");
  }

  /** For a converted row that means: exactly when no category prefix matches. */
  lemma ConvertedCategoryReported(values: Csv.Row, index: nat)
    requires |values| == Columns
    ensures var item := ConvertRow(values);
      InvalidCategory(Label(item, index), item.category) in ItemDiagnostics(item, index) <==>
        !HasCategoryPrefix(Cell(values, 2))
  {
    CategoryReported(ConvertRow(values), index);
    NormalizeCategoryResult(Cell(values, 2));
  }

  /** A blank price cell becomes the price 0, and nothing is reported about it. */
  lemma BlankPriceSilent(values: Csv.Row, index: nat)
    requires |values| == Columns && Trim(values[3]) == ""
    ensures ConvertRow(values).price == Finite(0.0)
    ensures NonNumericPrice(Label(ConvertRow(values), index)) !in ItemDiagnostics(ConvertRow(values), index)
    ensures MissingField("price", Label(ConvertRow(values), index)) !in ItemDiagnostics(ConvertRow(values), index)
  {
    var item := ConvertRow(values);
    PriceReported(item, index);
    MissingReported(item, index, "price");
  }

  lemma {:induction false} DuplicateReportsCount(order: seq<string>, ids: seq<string>, id: string)
    ensures Count(DuplicateReports(order, ids), DuplicateId(id)) ==
      if Count(ids, id) > 1 then Count(order, id) else 0
    ensures forall d :: d in DuplicateReports(order, ids) ==> d.DuplicateId?
  {
    if order != [] {
      var init := order[..|order| - 1];
      var last := order[|order| - 1];
      DuplicateReportsCount(init, ids, id);
      CountAppend(DuplicateReports(init, ids), if Count(ids, last) > 1 then [DuplicateId(last)] else [], DuplicateId(id));
      assert [DuplicateId(last)][..0] == [];
    }
  }

  /** An item's own findings are never duplicate reports. */
  lemma ItemDiagnosticsKinds(item: Item, index: nat)
    ensures forall d :: d in ItemDiagnostics(item, index) ==> !d.DuplicateId?
  {
    MissingFieldsIff(item, Label(item, index), RequiredHeader, "");
  }

  lemma {:induction false} PerItemHasNoDuplicateReports(items: seq<Item>, id: string)
    ensures Count(PerItem(items), DuplicateId(id)) == 0
  {
    if items != [] {
      var init := items[..|items| - 1];
      var found := ItemDiagnostics(items[|items| - 1], |items| - 1);
      PerItemHasNoDuplicateReports(init, id);
      ItemDiagnosticsKinds(items[|items| - 1], |items| - 1);
      CountPositive(found, DuplicateId(id));
      CountAppend(PerItem(init), found, DuplicateId(id));
    }
  }

  lemma DistinctCount<T>(s: seq<T>, x: T)
    ensures Count(Distinct(s), x) == if x in s then 1 else 0
  {
    var d := Distinct(s);
    CountPositive(d, x);
    CountOfNoDuplicates(d, x);
  }

  lemma {:induction false} CountOfNoDuplicates<T>(s: seq<T>, x: T)
    requires NoDuplicates(s)
    ensures Count(s, x) <= 1
  {
    if s != [] {
      var init := s[..|s| - 1];
      CountOfNoDuplicates(init, x);
      if s[|s| - 1] == x {
        CountPositive(init, x);
      }
    }
  }

  /** Each id that occurs more than once is reported, once; no other is. */
  lemma DuplicateReported(items: seq<Item>, id: string)
    ensures Count(Diagnostics(items), DuplicateId(id)) == if Count(Ids(items), id) > 1 then 1 else 0
    ensures DuplicateId(id) in Diagnostics(items) <==> Count(Ids(items), id) > 1
  {
    var ids := Ids(items);
    PerItemHasNoDuplicateReports(items, id);
    DuplicateReportsCount(Distinct(ids), ids, id);
    DistinctCount(ids, id);
    CountPositive(ids, id);
    CountAppend(PerItem(items), DuplicateReports(Distinct(ids), ids), DuplicateId(id));
    CountPositive(Diagnostics(items), DuplicateId(id));
  }
}

