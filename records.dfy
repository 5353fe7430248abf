/** The record store's element: one data row of one price-list file. */
module Records {

  /** The dictionary load_prices appends: name, price, weight, file and
      price_per_kg, with price and weight as read from their cells. */
  datatype Record = Record(name: string, price: real, weight: real, file: string, pricePerKg: real)

  /** The unit price is defined: the weight is not zero and price_per_kg is
      price divided by weight. */
  predicate WellFormed(r: Record)
  {
    r.weight != 0.0 && r.pricePerKg == r.price / r.weight
  }

  /** The sort key of find_text. */
  function UnitPriceKey(r: Record): real
  {
    r.pricePerKg
  }

  /** The sort key of export_to_html. */
  function PriceKey(r: Record): real
  {
    r.price
  }
}
