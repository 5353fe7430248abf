/**
 * What load_prices does with each directory entry, once the directory
 * listing and the CSV tokeniser have turned the entries into file names and
 * rows of cells. Python's float() is the parameter `parse`; a Python
 * exception is a LoadError, and the records appended before it stay.
 */
module CatalogueLoader {
  import opened Wrappers
  import opened Records
  import opened HeaderResolver
  import Text

  type Row = seq<string>

  /** A directory entry: its name and the rows csv.reader yields for it. */
  datatype CsvFile = CsvFile(name: string, rows: seq<Row>)

  /** The exceptions that abort load_prices. */
  datatype LoadError =
    | NoHeaderRow   // next(reader) on an empty file: StopIteration
    | CellMissing   // row[index] beyond the row: IndexError
    | NotANumber    // float(cell) rejects the cell: ValueError
    | ZeroWeight    // price / 0.0: ZeroDivisionError

  /** The records a load appended, and the error that stopped it, if any. */
  datatype Loaded = Loaded(records: seq<Record>, error: Option<LoadError>)

  /** The file-name filter: the name contains "price" and ends with ".csv". */
  predicate IsPriceFile(name: string)
  {
    Text.Contains(name, "price") && Text.EndsWith(name, ".csv")
  }

  /** The filter in positional terms: "price" occurs somewhere in the name
      and ".csv" occupies its last four characters. */
  lemma IsPriceFileIffOccurs(name: string)
    ensures IsPriceFile(name) <==>
      (exists i :: Text.OccursAt(name, "price", i)) && 4 <= |name| && Text.OccursAt(name, ".csv", |name| - 4)
  {
    Text.ContainsIffOccurs(name, "price");
  }

  /** The dictionary literal for one non-empty row, its cells evaluated in
      the order Python evaluates them: name, price, weight, quotient. */
  function MakeRecord(file: string, row: Row, pi: nat, ri: nat, wi: nat,
                      parse: string -> Option<real>): (res: Result<Record, LoadError>)
    ensures res.Success? <==>
      pi < |row| && ri < |row| && wi < |row| && parse(row[ri]).Some? &&
      parse(row[wi]).Some? && parse(row[wi]).value != 0.0
    ensures res.Success? ==>
      res.value.name == row[pi] && parse(row[ri]) == Some(res.value.price) &&
      parse(row[wi]) == Some(res.value.weight) && res.value.file == file &&
      WellFormed(res.value)
    ensures res == Failure(CellMissing) ==> pi >= |row| || ri >= |row| || wi >= |row|
    ensures res == Failure(NotANumber) ==>
      (ri < |row| && parse(row[ri]).None?) || (wi < |row| && parse(row[wi]).None?)
    ensures res == Failure(ZeroWeight) ==> wi < |row| && parse(row[wi]) == Some(0.0)
    ensures res != Failure(NoHeaderRow)
  {
    if pi >= |row| || ri >= |row| then Failure(CellMissing)
    else match parse(row[ri])
      case None => Failure(NotANumber)
      case Some(price) =>
        if wi >= |row| then Failure(CellMissing)
        else match parse(row[wi])
          case None => Failure(NotANumber)
          case Some(weight) =>
            if weight == 0.0 then Failure(ZeroWeight)
            else Success(Record(row[pi], price, weight, file, price / weight))
  }

  /** The rows for which `if row:` holds, in order. */
  function NonEmptyRows(rows: seq<Row>): (r: seq<Row>)
    ensures forall x :: x in r <==> x in rows && x != []
  {
    if rows == [] then []
    else (if rows[0] != [] then [rows[0]] else []) + NonEmptyRows(rows[1..])
  }

  /** The inner `for row in reader` loop over the data rows of one file. */
  function RowsRecords(file: string, rows: seq<Row>, pi: nat, ri: nat, wi: nat,
                       parse: string -> Option<real>): (l: Loaded)
    ensures |l.records| <= |rows|
    ensures forall r :: r in l.records ==> r.file == file && WellFormed(r)
  {
    if rows == [] then Loaded([], None)
    else if rows[0] == [] then RowsRecords(file, rows[1..], pi, ri, wi, parse)
    else match MakeRecord(file, rows[0], pi, ri, wi, parse)
      case Failure(e) => Loaded([], Some(e))
      case Success(r) =>
        var rest := RowsRecords(file, rows[1..], pi, ri, wi, parse);
        Loaded([r] + rest.records, rest.error)
  }

  /** l is what loading the non-empty rows ne yields: the records of its
      first n rows, in order, and then either nothing more (n == |ne|, no
      error) or the error that row n raises. */
  ghost predicate IsRowPrefix(l: Loaded, ne: seq<Row>, file: string, pi: nat, ri: nat, wi: nat,
                              parse: string -> Option<real>)
  {
    |l.records| <= |ne| &&
    (forall j :: 0 <= j < |l.records| ==>
      MakeRecord(file, ne[j], pi, ri, wi, parse) == Success(l.records[j])) &&
    (l.error.None? <==> |l.records| == |ne|) &&
    (l.error.Some? ==> MakeRecord(file, ne[|l.records|], pi, ri, wi, parse) == Failure(l.error.value))
  }

  lemma RowPrefixFails(row: Row, ne: seq<Row>, e: LoadError, file: string, pi: nat, ri: nat, wi: nat,
                       parse: string -> Option<real>)
    requires MakeRecord(file, row, pi, ri, wi, parse) == Failure(e)
    ensures IsRowPrefix(Loaded([], Some(e)), [row] + ne, file, pi, ri, wi, parse)
  {
  }

  lemma RowPrefixExtends(row: Row, r: Record, l: Loaded, ne: seq<Row>, file: string, pi: nat, ri: nat, wi: nat,
                         parse: string -> Option<real>)
    requires MakeRecord(file, row, pi, ri, wi, parse) == Success(r)
    requires IsRowPrefix(l, ne, file, pi, ri, wi, parse)
    ensures IsRowPrefix(Loaded([r] + l.records, l.error), [row] + ne, file, pi, ri, wi, parse)
  {
    var recs := [r] + l.records;
    forall j | 0 <= j < |recs|
      ensures MakeRecord(file, ([row] + ne)[j], pi, ri, wi, parse) == Success(recs[j])
    {
      if j > 0 {
        assert ([row] + ne)[j] == ne[j - 1] && recs[j] == l.records[j - 1];
      }
    }
    if l.error.Some? {
      assert ([row] + ne)[|recs|] == ne[|l.records|];
    }
  }

  /** RowsRecords on the rows from position i on, unfolded once. */
  lemma RowsRecordsFrom(file: string, rows: seq<Row>, i: nat, pi: nat, ri: nat, wi: nat,
                        parse: string -> Option<real>)
    requires i < |rows|
    ensures RowsRecords(file, rows[i..], pi, ri, wi, parse) ==
      if rows[i] == [] then RowsRecords(file, rows[i + 1..], pi, ri, wi, parse)
      else match MakeRecord(file, rows[i], pi, ri, wi, parse)
        case Failure(e) => Loaded([], Some(e))
        case Success(r) =>
          var rest := RowsRecords(file, rows[i + 1..], pi, ri, wi, parse);
          Loaded([r] + rest.records, rest.error)
  {
    assert rows[i..][0] == rows[i] && rows[i..][1..] == rows[i + 1..];
  }

  /** One record per non-empty row, in row order, until the first row that
      raises: the records are the first n non-empty rows' records, and the
      error, if any, is exactly the next non-empty row's. */
  lemma {:induction false} RowsRecordsAreRowPrefix(file: string, rows: seq<Row>, pi: nat, ri: nat, wi: nat,
                                                    parse: string -> Option<real>)
    ensures IsRowPrefix(RowsRecords(file, rows, pi, ri, wi, parse), NonEmptyRows(rows), file, pi, ri, wi, parse)
  {
    if rows != [] {
      var rest := rows[1..];
      RowsRecordsAreRowPrefix(file, rest, pi, ri, wi, parse);
      if rows[0] == [] {
        assert NonEmptyRows(rows) == NonEmptyRows(rest);
      } else {
        assert NonEmptyRows(rows) == [rows[0]] + NonEmptyRows(rest);
        match MakeRecord(file, rows[0], pi, ri, wi, parse)
        case Failure(e) =>
          RowPrefixFails(rows[0], NonEmptyRows(rest), e, file, pi, ri, wi, parse);
        case Success(r) =>
          RowPrefixExtends(rows[0], r, RowsRecords(file, rest, pi, ri, wi, parse), NonEmptyRows(rest),
                           file, pi, ri, wi, parse);
      }
    }
  }

  /** The body of the `with open(...)` block for one selected file. */
  function FileRecords(file: CsvFile, parse: string -> Option<real>): (l: Loaded)
    ensures forall r :: r in l.records ==> r.file == file.name && WellFormed(r)
  {
    if file.rows == [] then Loaded([], Some(NoHeaderRow))
    else
      var ix := Resolve(file.rows[0]);
      if !ix.Complete() then Loaded([], None)
      else RowsRecords(file.name, file.rows[1..], ix.product.value, ix.price.value, ix.weight.value, parse)
  }

  /** The outer `for filename in os.listdir(...)` loop: files that fail the
      filter are passed over; the first error stops the whole load. */
  function LoadAll(files: seq<CsvFile>, parse: string -> Option<real>): (l: Loaded)
    ensures forall r :: r in l.records ==> IsPriceFile(r.file) && WellFormed(r)
  {
    if files == [] then Loaded([], None)
    else if !IsPriceFile(files[0].name) then LoadAll(files[1..], parse)
    else
      var here := FileRecords(files[0], parse);
      if here.error.Some? then here
      else
        var rest := LoadAll(files[1..], parse);
        Loaded(here.records + rest.records, rest.error)
  }

  /** The entries that pass the file-name filter, in listing order. */
  function PriceFiles(files: seq<CsvFile>): (r: seq<CsvFile>)
    ensures forall f :: f in r <==> f in files && IsPriceFile(f.name)
  {
    if files == [] then []
    else (if IsPriceFile(files[0].name) then [files[0]] else []) + PriceFiles(files[1..])
  }

  /** Entries whose names fail the filter contribute nothing: loading the
      whole listing is loading its price files alone. */
  lemma {:induction false} LoadAllReadsOnlyPriceFiles(files: seq<CsvFile>, parse: string -> Option<real>)
    ensures LoadAll(files, parse) == LoadAll(PriceFiles(files), parse)
  {
    if files != [] {
      LoadAllReadsOnlyPriceFiles(files[1..], parse);
      if IsPriceFile(files[0].name) {
        assert PriceFiles(files) == [files[0]] + PriceFiles(files[1..]);
        assert PriceFiles(files)[1..] == PriceFiles(files[1..]);
      } else {
        assert PriceFiles(files) == PriceFiles(files[1..]);
      }
    }
  }

  /** Catalogue order is listing order, then row order: loading two lists of
      entries in turn is loading their concatenation, the second list being
      reached only when the first raised nothing. */
  lemma {:induction false} LoadAllSplits(first: seq<CsvFile>, second: seq<CsvFile>, parse: string -> Option<real>)
    ensures LoadAll(first + second, parse) ==
      var a := LoadAll(first, parse);
      if a.error.Some? then a
      else var b := LoadAll(second, parse); Loaded(a.records + b.records, b.error)
  {
    if first == [] {
      assert first + second == second;
    } else {
      assert (first + second)[0] == first[0];
      assert (first + second)[1..] == first[1..] + second;
      LoadAllSplits(first[1..], second, parse);
    }
  }

  /** What one more entry adds to a load that has raised nothing so far:
      its records, when its name passes the filter, and its error. */
  lemma LoadAllSnoc(prefix: seq<CsvFile>, f: CsvFile, parse: string -> Option<real>)
    requires LoadAll(prefix, parse).error.None?
    ensures var here := if IsPriceFile(f.name) then FileRecords(f, parse) else Loaded([], None);
      LoadAll(prefix + [f], parse) == Loaded(LoadAll(prefix, parse).records + here.records, here.error)
  {
    LoadAllSplits(prefix, [f], parse);
    assert [f][1..] == [];
    var here := if IsPriceFile(f.name) then FileRecords(f, parse) else Loaded([], None);
    assert here.records + [] == here.records;
  }

  /** An error among the first n entries ends the load there: the entries
      after them are never read. */
  lemma LoadAllStopsEarly(files: seq<CsvFile>, n: nat, parse: string -> Option<real>)
    requires n <= |files| && LoadAll(files[..n], parse).error.Some?
    ensures LoadAll(files, parse) == LoadAll(files[..n], parse)
  {
    assert files == files[..n] + files[n..];
    LoadAllSplits(files[..n], files[n..], parse);
  }
}
