/**
 * The PriceMachine class: an append-only store of records, loaded from
 * price-list files, searched by name and exported as a report table.
 */
module PriceMachines {
  import opened Wrappers
  import opened Records
  import opened StableSort
  import opened HeaderResolver
  import opened CatalogueLoader
  import opened SearchEngine
  import opened ReportExporter
  import Text

  class PriceMachine {
    /** The record store, in load order. */
    var data: seq<Record>

    /** Every stored record has a defined unit price and was read from a
        file that passed the file-name filter. */
    ghost predicate Valid()
      reads this
    {
      forall r :: r in data ==> WellFormed(r) && IsPriceFile(r.file)
    }

    constructor ()
      ensures Valid() && data == []
    {
      data := [];
    }

    /** _search_product_price_weight: one left-to-right pass over the
        headers; each index is the last column of its category. */
    method SearchProductPriceWeight(headers: seq<string>)
      returns (product: Option<nat>, price: Option<nat>, weight: Option<nat>)
      ensures Indices(product, price, weight) == Resolve(headers)
      ensures IsLastMatch(headers, Product, product)
      ensures IsLastMatch(headers, Price, price)
      ensures IsLastMatch(headers, Weight, weight)
    {
      product, price, weight := None, None, None;
      var i := 0;
      while i < |headers|
        invariant 0 <= i <= |headers|
        invariant Indices(product, price, weight) == Scan(headers, i)
      {
        var header := headers[i];
        if Text.Lower(header) in ProductHeaders {
          product := Some(i);
        } else if Text.Lower(header) in PriceHeaders {
          price := Some(i);
        } else if Text.Lower(header) in WeightHeaders {
          weight := Some(i);
        }
        i := i + 1;
      }
      ResolveIsLastMatch(headers, Product);
      ResolveIsLastMatch(headers, Price);
      ResolveIsLastMatch(headers, Weight);
    }

    /** The work load_prices does for one file that passed the filter: skip
        the file when a column is missing, otherwise append one record per
        non-empty row until a row raises. */
    method LoadFile(file: CsvFile, parse: string -> Option<real>) returns (err: Option<LoadError>)
      requires Valid() && IsPriceFile(file.name)
      modifies this
      ensures Valid()
      ensures data == old(data) + FileRecords(file, parse).records
      ensures err == FileRecords(file, parse).error
      ensures file.rows != [] && !Resolve(file.rows[0]).Complete() ==> data == old(data) && err.None?
    {
      if file.rows == [] {
        return Some(NoHeaderRow);
      }
      var headers := file.rows[0];
      var pi, ri, wi := SearchProductPriceWeight(headers);
      if pi.None? || ri.None? || wi.None? {
        return None;
      }
      var p, q, w := pi.value, ri.value, wi.value;
      ghost var total := FileRecords(file, parse);
      assert total == RowsRecords(file.name, file.rows[1..], p, q, w, parse);
      var i := 1;
      ghost var pending := total;  // what the rows from i on still add
      while i < |file.rows|
        invariant 1 <= i <= |file.rows|
        invariant Valid()
        invariant pending == RowsRecords(file.name, file.rows[i..], p, q, w, parse)
        invariant old(data) + total.records == data + pending.records
        invariant total.error == pending.error
      {
        var row := file.rows[i];
        ghost var rest := RowsRecords(file.name, file.rows[i + 1..], p, q, w, parse);
        RowsRecordsFrom(file.name, file.rows, i, p, q, w, parse);
        if row != [] {
          match MakeRecord(file.name, row, p, q, w, parse)
          case Failure(e) =>
            assert pending == Loaded([], Some(e));
            return Some(e);
          case Success(r) =>
            assert pending == Loaded([r] + rest.records, rest.error);
            assert data + pending.records == (data + [r]) + rest.records;
            data := data + [r];
        }
        pending := rest;
        i := i + 1;
      }
      return None;
    }

    /** load_prices over a directory listing: every entry that passes the
        filter is loaded in listing order; the first error ends the load,
        and what was appended before it stays in the store. */
    method LoadPrices(files: seq<CsvFile>, parse: string -> Option<real>)
      returns (result: Result<seq<Record>, LoadError>)
      requires Valid()
      modifies this
      ensures Valid()
      ensures data == old(data) + LoadAll(files, parse).records
      ensures result == match LoadAll(files, parse).error
        case None => Success(data)
        case Some(e) => Failure(e)
    {
      var i := 0;
      while i < |files|
        invariant 0 <= i <= |files|
        invariant Valid()
        invariant data == old(data) + LoadAll(files[..i], parse).records
        invariant LoadAll(files[..i], parse).error.None?
      {
        var file := files[i];
        assert files[..i + 1] == files[..i] + [file];
        LoadAllSnoc(files[..i], file, parse);
        if IsPriceFile(file.name) {
          var err := LoadFile(file, parse);
          if err.Some? {
            LoadAllStopsEarly(files, i + 1, parse);
            return Failure(err.value);
          }
        }
        i := i + 1;
      }
      assert files[..i] == files;
      return Success(data);
    }

    /** find_text: the matching records, stably sorted by unit price. The
        store is not changed. */
    method FindText(text: string) returns (found: seq<Record>)
      ensures found == Search(data, text)
      ensures multiset(found) == multiset(Matching(data, text))
      ensures forall x :: x in found <==> x in data && NameMatches(x, text)
      ensures SortedBy(found, UnitPriceKey)
      ensures forall k :: KeyFilter(found, UnitPriceKey, k) == KeyFilter(Matching(data, text), UnitPriceKey, k)
    {
      var foundPosition: seq<Record> := [];
      var i := 0;
      while i < |data|
        invariant 0 <= i <= |data|
        invariant foundPosition == Matching(data[..i], text)
      {
        var item := data[i];
        assert data[..i + 1][..i] == data[..i];
        if Text.Contains(Text.Lower(item.name), Text.Lower(text)) {
          foundPosition := foundPosition + [item];
        }
        i := i + 1;
      }
      assert data[..i] == data;
      foundPosition := SortBy(foundPosition, UnitPriceKey);
      found := foundPosition;
      SearchIsStableSortOfMatches(data, text, found);
      MatchingMembers(data, text);
      forall x
        ensures x in found <==> x in Matching(data, text)
      {
        assert x in found <==> x in multiset(found);
        assert x in Matching(data, text) <==> x in multiset(Matching(data, text));
      }
    }

    /** export_to_html's table: |data| rows numbered 1, 2, ..., holding the
        store stably sorted by price. The store is not changed. */
    method ExportToHtml() returns (rows: seq<ReportRow>)
      ensures |rows| == |data|
      ensures forall j :: 0 <= j < |rows| ==> rows[j].number == j + 1
      ensures RowRecords(rows) == ReportOrder(data)
      ensures IsStableSortOf(RowRecords(rows), data, PriceKey)
    {
      var sortedPositions := ReportOrder(data);
      ReportOrderIsStableSort(data, sortedPositions);
      assert |sortedPositions| == |multiset(sortedPositions)| == |data|;
      rows := [];
      var indx := 1;
      while indx <= |sortedPositions|
        invariant 1 <= indx <= |sortedPositions| + 1
        invariant |rows| == indx - 1
        invariant forall j :: 0 <= j < |rows| ==> rows[j] == ReportRow(j + 1, sortedPositions[j])
      {
        rows := rows + [ReportRow(indx, sortedPositions[indx - 1])];
        indx := indx + 1;
      }
      assert RowRecords(rows) == sortedPositions;
    }
  }
}
