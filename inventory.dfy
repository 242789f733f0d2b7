/** Turning the tokenizer's rows into inventory records (csvRowsToItems and
    normalizeCategory in js/app.js). */
module Inventory {
  import opened Strings
  import opened Seqs
  import opened Numbers
  import opened Csv

  /** One piece of inventory; the fields the row conversion produces. */
  datatype Item = Item(
    id: string,
    title: string,
    category: string,
    price: ExtNum,
    size: string,
    fitsLike: string,
    condition: string,
    status: string,
    notes: string,
    images: seq<string>,
    createdAt: string,
    featured: bool,
    audience: string)

  /** The only header the feed accepts, in this order. */
  const RequiredHeader: seq<string> :=
    ["id", "title", "category", "price", "size", "fitsLike", "condition", "status", "notes",
     "images", "createdAt", "featured", "audience"]

  const Columns := 13

  /** Coerces a category by a case-insensitive prefix of its trimmed text; an
      input no prefix matches is returned as it was. */
  function NormalizeCategory(input: string): string {
    var value := ToLower(Trim(input));
    if StartsWith(value, "top") then "Tops"
    else if StartsWith(value, "bottom") then "Bottoms"
    else if StartsWith(value, "outer") then "Outerwear"
    else input
  }

  /** One of the three prefixes matches the lower-cased, trimmed text. */
  predicate HasCategoryPrefix(input: string) {
    var value := ToLower(Trim(input));
    StartsWith(value, "top") || StartsWith(value, "bottom") || StartsWith(value, "outer")
  }

  predicate IsCategory(c: string) {
    c == "Tops" || c == "Bottoms" || c == "Outerwear"
  }

  /** The image cell: the trimmed, non-empty `|`-separated segments in order. */
  function ImagesOf(cell: string): seq<string> {
    if cell == "" then [] else Filter(Map(Split(cell, '|'), Trim), (x: string) => x != "")
  }

  /** Cell k of a row, trimmed. */
  function Cell(values: Row, k: nat): string {
    if k < |values| then Trim(values[k]) else ""
  }

  /** One data row. Only rows with exactly as many cells as the header are
      converted; on those, cell k is the trimmed field k of the header. */
  function ConvertRow(values: Row): Item {
    Item(
      id := Cell(values, 0),
      title := Cell(values, 1),
      category := NormalizeCategory(Cell(values, 2)),
      price := NumberOf(Cell(values, 3)),
      size := Cell(values, 4),
      fitsLike := Cell(values, 5),
      condition := Cell(values, 6),
      status := ToLower(Cell(values, 7)),
      notes := Cell(values, 8),
      images := ImagesOf(Cell(values, 9)),
      createdAt := Cell(values, 10),
      featured := ToLower(Cell(values, 11)) == "true",
      audience := ToLower(Cell(values, 12)))
  }

  /** The index of the first row whose cell count differs from the header's,
      or |data| when there is none. */
  function FirstBadRow(data: seq<Row>): (k: nat)
    ensures k <= |data|
    ensures k < |data| ==> |data[k]| != Columns
    ensures forall j :: 0 <= j < k ==> |data[j]| == Columns
  {
    if data == [] then 0 else if |data[0]| != Columns then 0 else 1 + FirstBadRow(data[1..])
  }

  /** The data rows, the first numbered rowNumber: the first row with a wrong
      number of cells is the error (the map throws there); otherwise every row
      converted, in order. */
  function ConvertData(data: seq<Row>, rowNumber: nat): Result<seq<Item>> {
    var bad := FirstBadRow(data);
    if bad < |data| then Err(BadColumnCount(rowNumber + bad, |data[bad]|))
    else Ok(Map(data, ConvertRow))
  }

  /** csvRowsToItems: the header check, then the data rows, numbered from 2. */
  function CsvRowsToItems(rows: seq<Row>): Result<seq<Item>> {
    if rows == [] then Err(EmptyFile)
    else if Map(rows[0], Trim) != RequiredHeader then Err(BadHeader)
    else ConvertData(rows[1..], 2)
  }

  // ---------------------------------------------------------------------
  // Structural errors versus success.

  /** The header check passes: the trimmed header cells are the required names. */
  predicate HeaderOk(rows: seq<Row>) {
    rows != [] && Map(rows[0], Trim) == RequiredHeader
  }

  /** csvRowsToItems throws "file is empty" exactly on no rows, the header
      error exactly on a wrong trimmed header, and otherwise a column-count
      error exactly when some data row has other than 13 cells; that error
      names the first such row by its position in the file (index + 1, the
      header being row 1) together with its cell count. */
  lemma CsvRowsToItemsErrors(rows: seq<Row>)
    ensures CsvRowsToItems(rows) == Err(EmptyFile) <==> rows == []
    ensures CsvRowsToItems(rows) == Err(BadHeader) <==> rows != [] && !HeaderOk(rows)
    ensures CsvRowsToItems(rows).Ok? <==>
      HeaderOk(rows) && forall k :: 1 <= k < |rows| ==> |rows[k]| == Columns
    ensures CsvRowsToItems(rows).Err? && CsvRowsToItems(rows).error.BadColumnCount? ==>
      var n := CsvRowsToItems(rows).error.rowNumber;
      && HeaderOk(rows)
      && 2 <= n <= |rows|
      && |rows[n - 1]| != Columns
      && CsvRowsToItems(rows).error.columns == |rows[n - 1]|
      && forall j :: 1 <= j < n - 1 ==> |rows[j]| == Columns
  {
    if HeaderOk(rows) {
      var data := rows[1..];
      var bad := FirstBadRow(data);
      assert forall k :: 1 <= k < |rows| ==> rows[k] == data[k - 1];
      if bad == |data| {
        assert forall k :: 1 <= k < |rows| ==> |rows[k]| == Columns by {
          forall k | 1 <= k < |rows| ensures |rows[k]| == Columns {
            assert |data[k - 1]| == Columns;
          }
        }
      } else {
        assert |rows[bad + 1]| != Columns;
      }
    }
  }

  /** Without an error the result has one record per data row: the data rows
      converted, in order. */
  lemma CsvRowsToItemsRecords(rows: seq<Row>)
    requires CsvRowsToItems(rows).Ok?
    ensures |CsvRowsToItems(rows).value| == |rows| - 1
    ensures CsvRowsToItems(rows).value == Map(rows[1..], ConvertRow)
  {
    assert HeaderOk(rows);
    assert ConvertData(rows[1..], 2).Ok?;
  }

  // ---------------------------------------------------------------------
  // Field normalisation.

  /** A lower-cased cell is trimmed and free of upper-case letters. */
  lemma LoweredCell(values: Row, k: nat)
    ensures IsTrimmed(ToLower(Cell(values, k))) && HasNoUpper(ToLower(Cell(values, k)))
  {
    ToLowerTrimmed(Cell(values, k));
    ToLowerProperties(Cell(values, k));
  }

  lemma CategoryTrimmed(cell: string)
    requires IsTrimmed(cell)
    ensures IsTrimmed(NormalizeCategory(cell))
  {
  }

  /** The plain text fields of a record are its trimmed cells. */
  lemma ConvertRowText(values: Row)
    requires |values| == Columns
    ensures var item := ConvertRow(values);
      && item.id == Trim(values[0]) && item.title == Trim(values[1])
      && item.size == Trim(values[4]) && item.fitsLike == Trim(values[5])
      && item.condition == Trim(values[6]) && item.notes == Trim(values[8])
      && item.createdAt == Trim(values[10])
  {
  }

  /** status and audience are their trimmed cells lower-cased, so trimmed and
      free of upper-case letters; the category is the trimmed cell normalized,
      and is trimmed too. */
  lemma ConvertRowLowered(values: Row)
    requires |values| == Columns
    ensures ConvertRow(values).status == ToLower(Trim(values[7]))
    ensures ConvertRow(values).audience == ToLower(Trim(values[12]))
    ensures ConvertRow(values).category == NormalizeCategory(Trim(values[2]))
    ensures var item := ConvertRow(values);
      && IsTrimmed(item.status) && HasNoUpper(item.status)
      && IsTrimmed(item.audience) && HasNoUpper(item.audience)
      && IsTrimmed(item.category)
  {
    LoweredCell(values, 7);
    LoweredCell(values, 12);
    CategoryTrimmed(Cell(values, 2));
  }

  /** featured is set exactly by the word "true" in any case, and the price
      is Number of the cell. */
  lemma ConvertRowFlags(values: Row)
    requires |values| == Columns
    ensures ConvertRow(values).featured <==> ToLower(Trim(values[11])) == "true"
    ensures ConvertRow(values).price == NumberOf(values[3])
  {
    TrimIdempotent(values[3]);
  }

  /** The images are the trimmed, non-empty `|`-segments of the trimmed cell,
      in order, so every image path is a non-empty trimmed segment without `|`. */
  lemma ConvertRowImages(values: Row)
    requires |values| == Columns
    ensures ConvertRow(values).images == ImagesOf(Trim(values[9]))
    ensures forall i :: 0 <= i < |ConvertRow(values).images| ==> IsImagePath(ConvertRow(values).images[i])
  {
    ImagesOfSegments(Cell(values, 9));
  }

  lemma ImagesOfSegments(cell: string)
    ensures forall i :: 0 <= i < |ImagesOf(cell)| ==> IsImagePath(ImagesOf(cell)[i])
  {
    if cell != "" {
      var pieces := Split(cell, '|');
      var trimmed := Map(pieces, Trim);
      forall i | 0 <= i < |trimmed|
        ensures '|' !in trimmed[i]
      {
        var l := LeadingSpaces(pieces[i]);
        assert trimmed[i] == pieces[i][l..l + |trimmed[i]|];
      }
    }
  }

  predicate IsImagePath(x: string) {
    x != "" && IsTrimmed(x) && '|' !in x
  }

  lemma TrimAllTrimmed(xs: seq<string>)
    requires forall i :: 0 <= i < |xs| ==> IsTrimmed(xs[i])
    ensures Map(xs, Trim) == xs
  {
    forall i | 0 <= i < |xs| ensures Trim(xs[i]) == xs[i] {
      TrimOfTrimmed(xs[i]);
    }
  }

  lemma JoinTrimmed(images: seq<string>)
    requires images != [] && forall i :: 0 <= i < |images| ==> IsImagePath(images[i])
    ensures Trim(Join(images, '|')) == Join(images, '|') != ""
  {
    JoinEnds(images, '|');
    TrimOfTrimmed(Join(images, '|'));
  }

  /** Joining trimmed, non-empty image paths without `|` and reading the cell
      back gives the same paths; no paths give the empty cell and back. */
  lemma ImagesRoundTrip(images: seq<string>)
    requires forall i :: 0 <= i < |images| ==> IsImagePath(images[i])
    ensures ImagesOf(Trim(Join(images, '|'))) == images
  {
    if images != [] {
      var cell := Join(images, '|');
      JoinTrimmed(images);
      SplitJoin(images, '|');
      TrimAllTrimmed(images);
      FilterAllKept(images, (x: string) => x != "");
      assert ImagesOf(cell) == Filter(Map(images, Trim), (x: string) => x != "");
    }
  }

  // ---------------------------------------------------------------------
  // normalizeCategory.

  lemma TopsTrimmed() ensures Trim("Tops") == "Tops" { TrimOfTrimmed("Tops"); }
  lemma TopsLower() ensures ToLower("Tops") == "tops" { }
  lemma TopsPrefix() ensures StartsWith("tops", "top") { }

  lemma TopsFixed()
    ensures HasCategoryPrefix("Tops") && NormalizeCategory("Tops") == "Tops"
  {
    TopsTrimmed();
    TopsLower();
    TopsPrefix();
  }

  lemma BottomsTrimmed() ensures Trim("Bottoms") == "Bottoms" { TrimOfTrimmed("Bottoms"); }
  lemma BottomsLower() ensures ToLower("Bottoms") == "bottoms" { }
  lemma BottomsPrefix() ensures !StartsWith("bottoms", "top") && StartsWith("bottoms", "bottom") { }

  lemma BottomsFixed()
    ensures HasCategoryPrefix("Bottoms") && NormalizeCategory("Bottoms") == "Bottoms"
  {
    BottomsTrimmed();
    BottomsLower();
    BottomsPrefix();
  }

  lemma OuterwearTrimmed() ensures Trim("Outerwear") == "Outerwear" { TrimOfTrimmed("Outerwear"); }
  lemma OuterwearLower() ensures ToLower("Outerwear") == "outerwear" { }
  lemma OuterwearPrefix()
    ensures !StartsWith("outerwear", "top") && !StartsWith("outerwear", "bottom")
    ensures StartsWith("outerwear", "outer")
  {
  }

  lemma OuterwearFixed()
    ensures HasCategoryPrefix("Outerwear") && NormalizeCategory("Outerwear") == "Outerwear"
  {
    OuterwearTrimmed();
    OuterwearLower();
    OuterwearPrefix();
  }

  /** A canonical category name is left as it is. */
  lemma CanonicalCategory(c: string)
    requires IsCategory(c)
    ensures HasCategoryPrefix(c) && NormalizeCategory(c) == c
  {
    if c == "Tops" { TopsFixed(); }
    else if c == "Bottoms" { BottomsFixed(); }
    else { OuterwearFixed(); }
  }

  /** The result is a canonical category exactly when a prefix matches: top
      gives Tops, bottom Bottoms and outer Outerwear; when none matches the
      input comes back unchanged. */
  lemma NormalizeCategoryResult(input: string)
    ensures IsCategory(NormalizeCategory(input)) <==> HasCategoryPrefix(input)
    ensures StartsWith(ToLower(Trim(input)), "top") ==> NormalizeCategory(input) == "Tops"
    ensures StartsWith(ToLower(Trim(input)), "bottom") ==> NormalizeCategory(input) == "Bottoms"
    ensures StartsWith(ToLower(Trim(input)), "outer") ==> NormalizeCategory(input) == "Outerwear"
    ensures !HasCategoryPrefix(input) ==> NormalizeCategory(input) == input
  {
    if IsCategory(input) {
      CanonicalCategory(input);
    }
  }

  lemma NormalizeCategoryIdempotent(input: string)
    ensures NormalizeCategory(NormalizeCategory(input)) == NormalizeCategory(input)
  {
    if HasCategoryPrefix(input) {
      NormalizeCategoryResult(input);
      CanonicalCategory(NormalizeCategory(input));
    }
  }

  /** Case and surrounding white space do not matter once a prefix matches. */
  lemma NormalizeCategoryCaseInsensitive(a: string, b: string)
    requires ToLower(Trim(a)) == ToLower(Trim(b))
    requires HasCategoryPrefix(a)
    ensures NormalizeCategory(a) == NormalizeCategory(b)
  {
  }
}

