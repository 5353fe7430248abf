/**
 * export_to_html without the file write and the fixed HTML text: the table
 * rows, one per record, in stable price order, numbered from 1.
 */
module ReportExporter {
  import opened Records
  import opened StableSort

  /** One `<tr>`: its number and the record whose fields fill its cells. */
  datatype ReportRow = ReportRow(number: nat, record: Record)

  /** `sorted(self.data, key=lambda x: x['price'])` */
  function ReportOrder(data: seq<Record>): (r: seq<Record>)
    ensures IsStableSortOf(r, data, PriceKey)
  {
    SortByIsStableSort(data, PriceKey);
    SortBy(data, PriceKey)
  }

  /** The records of the table, top to bottom. */
  function RowRecords(rows: seq<ReportRow>): seq<Record>
  {
    seq(|rows|, i requires 0 <= i < |rows| => rows[i].record)
  }

  /** The report order is a stable sort of the store by price, and the only
      one. */
  lemma ReportOrderIsStableSort(data: seq<Record>, other: seq<Record>)
    ensures IsStableSortOf(ReportOrder(data), data, PriceKey)
    ensures IsStableSortOf(other, data, PriceKey) ==> other == ReportOrder(data)
  {
    SortByIsStableSort(data, PriceKey);
    if IsStableSortOf(other, data, PriceKey) {
      StableSortUnique(other, ReportOrder(data), data, PriceKey);
    }
  }
}
