# PriceMachine: a verified model of a price-list catalogue

`project.py` defines one class, `PriceMachine`. It reads every file in a directory whose name
contains `price` and ends in `.csv`. In each file it finds the product-name, price and weight
columns by their header text. It then appends one record for each non-empty data row: name,
price, weight, source file and price per kilogram. Empty rows give no record. The first row that
raises (a missing cell, a number `float()` rejects, a zero weight) ends the whole load, and the
records appended before it stay in the store. The class offers two queries over these records. `find_text` is a
case-insensitive substring search by name, ordered by price per kilogram. `export_to_html`
builds an HTML table of all records, ordered by price.

The model follows the program's components:

- `HeaderResolver` (`header_resolver.dfy`) holds the three synonym lists and the if/elif
  classification of one header. It also holds the scan that lets the last matching column win.
- `CatalogueLoader` (`catalogue_loader.dfy`) holds the file-name filter and the record built from
  one row. It also decides what a file, and a whole directory listing, add to the store, and
  where an exception stops the load.
- `SearchEngine` (`search_engine.dfy`) holds the name filter of `find_text` and its ordering.
- `ReportExporter` (`report_exporter.dfy`) holds the order and numbering of the report's rows.
- `PriceMachines.PriceMachine` (`price_machine.dfy`) is the class. Its `data: seq<Record>`
  field is the store. The methods run the source's loops: the header loop, the row loop, the file
  loop and the search filter loop. They append to `data` exactly as `load_prices` does, and each
  method is proved against the functions above.
- `StableSort` (`stable_sort.dfy`) models Python's `list.sort` and `sorted` with a `key=`. It
  gives a stable sort, `SortBy`, and an order-free definition of "a stable sort of s",
  `IsStableSortOf`. The two are connected both ways: `SortBy` meets the definition, and any
  sequence meeting it equals `SortBy`. So the model's sort returns exactly what Python's
  Timsort returns.
- `Text` models `str.lower`, `in` on strings and `str.endswith`. `Records` defines the record.
  `Wrappers` defines `Option` and `Result`.
- `Scenarios` (`scenarios.dfy`) holds small worked examples of the whole pipeline.

What the model takes as given:

- The directory listing is a sequence of `CsvFile(name, rows)`, in `os.listdir` order, with each
  file already split into rows of cells.
- Python's `float()` is a parameter `parse: string -> Option<real>`. `None` stands for the
  `ValueError` it raises.
- A Python exception is a `LoadError`. Records appended before the exception stay in `data`,
  as they do in Python.
- `next(reader)` on an empty file raises `StopIteration`, which is `NoHeaderRow`.
- `load_prices`' return value is `Success(data)`, or `Failure(e)` when an exception escapes.

Behaviour of the code that a reader might not expect:

- A search with an empty query returns every record, because `"" in s` is true
  (`SearchEngine.EmptyQueryMatchesAll`).
- Only a zero weight is rejected. Negative weights and negative prices are kept.
- A `LoadError` carries only the kind of failure. The model drops the exception's message, which
  for the `ValueError` of `float()` quotes the rejected cell. Neither names the file or the row.
- A bad row aborts the whole load, not just its file. The records appended before the bad row
  are kept.

## Model

| member | source | states |
|---|---|---|
| `HeaderResolver.Classify` | project.py:56-61 | A header is classified under a category exactly when its lower-cased text is in that category's synonym list. The lists are disjoint, so the order of the elif chain never matters. |
| `HeaderResolver.Step` | project.py:55-61 | One pass of the header loop sets the index of the category the header matches to the header's position. It leaves the other two indices unchanged, and leaves all three unchanged when the header matches nothing. |
| `HeaderResolver.Scan` | project.py:52-61 | After the first n headers, every index found is below n, and the header at that index matches its category. No two categories get the same column. |
| `HeaderResolver.Resolve` | project.py:48-63 | Every returned index is a position of the header row whose header matches its category. No two categories share a column. |
| `HeaderResolver.ScanIsLastMatch` | project.py:52-61 | After the loop has seen the first n headers, each category's index is the last of those positions that matches it. It is None exactly when none of them matches. |
| `HeaderResolver.ResolveIsLastMatch` | project.py:52-63 | Each returned index is a valid header position whose lower-cased text is a synonym of its category. No later header matches that category, and the index is None exactly when no header matches it. |
| `PriceMachines.PriceMachine.SearchProductPriceWeight` | project.py:48-63 | The imperative resolver loop returns `Resolve(headers)`, so each of its three results is the last match of its category. |
| `CatalogueLoader.IsPriceFileIffOccurs` | project.py:30 | A file name passes the filter exactly when "price" occupies some slice of it and ".csv" occupies its last four characters. |
| `CatalogueLoader.MakeRecord` | project.py:39-45 | A row gives a record exactly when all three indices are inside the row, both numeric cells parse and the weight is not zero. The record's name is its name cell, its price and weight are the parsed cells, its file is the file name, and its price per kilogram is price / weight. Each error kind is tied to its cause: an index beyond the row, a cell float() rejects, or a weight of 0. |
| `CatalogueLoader.NonEmptyRows` | project.py:37-38 | The rows kept by `if row:` are exactly the non-empty rows. |
| `CatalogueLoader.RowsRecords` | project.py:37-45 | A file's row loop never adds more records than there are rows. Each record it adds names that file and has a defined unit price. |
| `CatalogueLoader.RowsRecordsAreRowPrefix` | project.py:36-45 | Records are appended one per non-empty row, in row order, until the first row that raises. If n records were appended, they are the records of the first n non-empty rows. There is no error exactly when every non-empty row gave a record. Otherwise the error is the one that non-empty row n+1 raises. |
| `CatalogueLoader.FileRecords` | project.py:31-45 | Every record a selected file contributes names that file and has a defined unit price. |
| `CatalogueLoader.LoadAll` | project.py:29-46 | Every record the load over a directory listing produces comes from a file whose name passes the filter, and has a defined unit price. |
| `CatalogueLoader.PriceFiles` | project.py:30 | An entry is kept exactly when its name contains "price" and ends with ".csv". |
| `CatalogueLoader.LoadAllReadsOnlyPriceFiles` | project.py:29-30 | Entries whose names fail the filter contribute nothing: loading the whole listing equals loading only its price files. |
| `CatalogueLoader.LoadAllSplits` | project.py:29-46 | Store order is listing order, then row order. Loading two listings in turn equals loading their concatenation. The second listing is reached only if the first raised nothing. |
| `CatalogueLoader.LoadAllSnoc` | project.py:29-46 | If the listing so far raised nothing, one more entry appends exactly its own records to the store: a price file's records, or nothing for an entry that fails the filter. That entry's error becomes the load's error. |
| `CatalogueLoader.LoadAllStopsEarly` | project.py:29-46 | Once a prefix of the listing has raised, the later entries change nothing: the whole load equals the load of that prefix. |
| `PriceMachines.PriceMachine.constructor` | project.py:7-8 | The store starts empty. |
| `PriceMachines.PriceMachine.LoadFile` | project.py:31-45 | The old store is a prefix of the new one, and what is appended is exactly the file's records. A file whose header row lacks a category leaves the store unchanged and raises nothing. An empty file raises `NoHeaderRow`. The store invariant is kept: every record has a defined unit price and comes from a price file. |
| `PriceMachines.PriceMachine.LoadPrices` | project.py:29-46 | The store is the old store followed by the listing's records. The result is the store, or the first error. The store invariant is kept. |
| `Text.Lower` | project.py:56 | `Lower` keeps the length, leaves no capital of the modelled ranges, and keeps every other character in place. |
| `Text.LowerIdempotent` | project.py:101 | Lowering an already lowered string changes nothing. |
| `Text.Contains` | project.py:101 | `needle in s`, tried at each start position of s. A string can contain only a needle no longer than itself; `Text.ContainsIffOccurs` proves that it holds exactly when the needle occupies some slice of s. |
| `Text.EndsWithIffConcat` | project.py:30 | `s.endswith(p)` holds exactly when s is some string followed by p. |
| `Text.ContainsIffOccurs` | project.py:101 | The substring test holds exactly when the needle occupies some slice of the string. |
| `Text.EmptyNeedle` | project.py:101 | The empty string occurs in every string. |
| `SearchEngine.NameMatches` | project.py:101 | The test `text.lower() in item['name'].lower()`. A record matches only a query no longer than its name; `SearchEngine.MatchingMembers` proves that the filter keeps exactly the store's records that pass it. |
| `SearchEngine.Matching` | project.py:100-102 | The filter keeps no more records than the store has, and every record it keeps matches the query. |
| `SearchEngine.Search` | project.py:97-105 | The search result is a stable sort of the matching records by price per kilogram. |
| `SearchEngine.MatchingCounts` | project.py:100-102 | The filter keeps each matching record as often as it occurs in the store, and no other record. |
| `SearchEngine.MatchingMembers` | project.py:100-102 | A record is among the matches exactly when it is in the store and its lower-cased name contains the lower-cased query. |
| `SearchEngine.EmptyQueryMatchesAll` | project.py:101 | The empty query matches the whole store, in store order. |
| `SearchEngine.SearchIsStableSortOfMatches` | project.py:97-105 | The search result is a stable sort of the matches by price per kilogram, and the only one. So two calls on the same store return identical sequences. |
| `PriceMachines.PriceMachine.FindText` | project.py:97-105 | The result is a permutation of exactly the matching records. It is non-decreasing in price per kilogram, and records with equal price per kilogram keep their store order. It is the single sequence with these properties. The store is not modified. |
| `StableSort.SortBy` | project.py:104 | The sort returns a permutation of its input: every element as often as it occurs there. |
| `StableSort.SortByIsStableSort` | project.py:104 | The sort gives a non-decreasing permutation of its input. For every key, the elements with that key keep their input order. |
| `StableSort.StableSortUnique` | project.py:66 | Two sequences that are both stable sorts of the same input by the same key are equal. |
| `ReportExporter.ReportOrder` | project.py:66 | The report order is a stable sort of the store by price. |
| `ReportExporter.ReportOrderIsStableSort` | project.py:66 | The report order is a stable sort of the store by price, and the only one. |
| `PriceMachines.PriceMachine.ExportToHtml` | project.py:85-87 | There are exactly as many rows as records, numbered 1, 2, ... in output order. Their records are a permutation of the store, non-decreasing in price, with equal prices kept in store order. The store is not modified. |
| `Scenarios.LaterPriceHeaderWins` | project.py:55-61 | For the header row Цена, Название, розница, Вес, the later price synonym wins. |
| `Scenarios.ExampleHeaders` | project.py:55-63 | For the header row товар, цена, вес, the indices are 0, 1 and 2. |
| `Scenarios.AppleFileLoads` | project.py:29-45 | `price_list.csv` with the row Яблоко,100,2 yields one record whose price per kilogram is 50. |
| `Scenarios.MissingColumnSkipsFile` | project.py:30-36 | A price file without a price column, and a `.txt` entry, contribute nothing and raise nothing. |
| `Scenarios.ZeroWeightStopsLoad` | project.py:29-45 | A zero weight in the second file stops the load with `ZeroWeight`; the first file's record is already in the store. |
| `Scenarios.AppleIsFound` | project.py:66-105 | Searching "ябл" finds Яблоко, and the one-record report holds it. |

## Left out

- File-system and CSV I/O are not modelled: `os.listdir`, `open`, the `csv.reader` tokeniser and
  the final `f.write`. The listing and the split rows are inputs, and the report is returned as
  its rows. Errors of these calls (a missing directory, an entry that is a directory, bad UTF-8)
  are not modelled.
- `float()` is an abstract parameter. Its text syntax and IEEE rounding are not modelled; price,
  weight and price per kilogram are exact `real`s. Values `float()` accepts but a real cannot
  hold (`inf`, `nan`) are outside the model. Python evaluates `float(row[price_index])` twice;
  both calls give the same value, so the model parses it once.
- `str.lower` is modelled only for A-Z and the Cyrillic capitals U+0400 to U+042F. Other
  characters stay unchanged, though Python lowers many more (Greek, accented Latin and others).
  Python's `lower()` can also lengthen a string (`'İ'.lower()` gives two code points), so the
  length facts of `Text.Lower` and `SearchEngine.NameMatches` hold in the model only.
- The fixed HTML header and footer, and the cell text of each `<tr>`, are not modelled. That
  includes the `:.2f` formatting of price per kilogram and how Python prints a float. A report
  row is its number and its record.
- The interactive loop in `__main__` (`input`, `print`, the `exit` sentinel) is console glue and
  is not modelled.
- `PriceMachines.PriceMachine.LoadFile` is the per-file body of `load_prices`. Its precondition
  that the name passes the filter is what `load_prices` guarantees before reaching that body.
