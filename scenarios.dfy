/**
 * Worked examples of the whole pipeline on small directory listings: a
 * valid file, a file without a price column, a zero weight, a search and
 * the report order, and the last-match rule of the header resolver.
 */
module Scenarios {
  import opened Wrappers
  import opened Records
  import opened HeaderResolver
  import opened CatalogueLoader
  import opened SearchEngine
  import opened ReportExporter
  import StableSort

  const AppleFile := CsvFile("price_list.csv", [["товар", "цена", "вес"], ["Яблоко", "100", "2"]])
  const Apple := Record("Яблоко", 100.0, 2.0, "price_list.csv", 50.0)

  /** A header row with two price synonyms resolves to the later one. */
  lemma LaterPriceHeaderWins()
    ensures Resolve(["Цена", "Название", "розница", "Вес"]) == Indices(Some(1), Some(2), Some(3))
  {
    var h := ["Цена", "Название", "розница", "Вес"];
    assert Text.Lower(h[0]) == "цена" && Text.Lower(h[1]) == "название";
    assert Text.Lower(h[2]) == "розница" && Text.Lower(h[3]) == "вес";
    assert Scan(h, 2) == Indices(Some(1), Some(0), None);
    assert Scan(h, 4) == Indices(Some(1), Some(2), Some(3));
  }

  /** The header row of the example files. */
  lemma ExampleHeaders()
    ensures Resolve(["товар", "цена", "вес"]) == Indices(Some(0), Some(1), Some(2))
  {
    var h := ["товар", "цена", "вес"];
    assert Text.Lower(h[0]) == "товар" && Text.Lower(h[1]) == "цена" && Text.Lower(h[2]) == "вес";
    assert Scan(h, 1) == Indices(Some(0), None, None);
    assert Scan(h, 3) == Indices(Some(0), Some(1), Some(2));
  }

  /** One file, one row: one record whose unit price is 100 / 2. */
  lemma AppleFileLoads(parse: string -> Option<real>)
    requires parse("100") == Some(100.0) && parse("2") == Some(2.0)
    ensures LoadAll([AppleFile], parse) == Loaded([Apple], None)
  {
    ExampleHeaders();
  }

  /** A file with no price column, and an entry that fails the file-name
      filter, contribute nothing and raise nothing. */
  lemma MissingColumnSkipsFile(parse: string -> Option<real>)
    ensures LoadAll([CsvFile("price_b.csv", [["название", "масса"], ["Груша", "3"]]),
                     CsvFile("notes.txt", [["товар", "цена", "вес"], ["Слива", "1", "1"]])], parse)
      == Loaded([], None)
  {
    var h := ["название", "масса"];
    assert Text.Lower(h[0]) == "название" && Text.Lower(h[1]) == "масса";
    assert Scan(h, 2) == Indices(Some(0), None, Some(1));
    assert !Text.EndsWith("notes.txt", ".csv");
  }

  const PearFile := CsvFile("price_bad.csv", [["товар", "цена", "вес"], ["Груша", "100", "0"]])

  /** A zero weight in the second file stops the load with the first file's
      record already in the store. */
  lemma ZeroWeightStopsLoad(parse: string -> Option<real>)
    requires parse("100") == Some(100.0) && parse("2") == Some(2.0) && parse("0") == Some(0.0)
    ensures LoadAll([AppleFile, PearFile], parse) == Loaded([Apple], Some(ZeroWeight))
  {
    AppleFileLoads(parse);
    ExampleHeaders();
    assert MakeRecord(PearFile.name, PearFile.rows[1], 0, 1, 2, parse) == Failure(ZeroWeight);
    assert PearFile.rows[1..] == [PearFile.rows[1]];
    assert FileRecords(PearFile, parse) == Loaded([], Some(ZeroWeight));
    assert Text.StartsWith(PearFile.name, "price");
    LoadAllSnoc([AppleFile], PearFile, parse);
    assert [AppleFile] + [PearFile] == [AppleFile, PearFile];
  }

  /** Searching "ябл" finds the apple, whatever the case of its name. */
  lemma AppleIsFound()
    ensures Search([Apple], "ябл") == [Apple]
    ensures ReportOrder([Apple]) == [Apple]
  {
    assert Text.Lower("ябл") == "ябл";
    assert Text.Lower(Apple.name) == "яблоко";
    assert Text.StartsWith("яблоко", "ябл");
    assert NameMatches(Apple, "ябл");
    assert Matching([Apple], "ябл") == [Apple];
    assert [Apple][1..] == [];
    assert StableSort.SortBy([Apple], UnitPriceKey) == [Apple];
    assert StableSort.SortBy([Apple], PriceKey) == [Apple];
  }
}
