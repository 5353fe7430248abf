/**
 * The header resolver: a left-to-right scan of the header row that keeps,
 * per category, the last column whose lower-cased text is one of that
 * category's synonyms.
 */
module HeaderResolver {
  import opened Wrappers
  import Text

  datatype Category = Product | Price | Weight

  const ProductHeaders: seq<string> := ["название", "продукт", "товар", "наименование"]
  const PriceHeaders: seq<string> := ["цена", "розница"]
  const WeightHeaders: seq<string> := ["вес", "масса", "фасовка"]

  function Synonyms(c: Category): seq<string>
  {
    match c
    case Product => ProductHeaders
    case Price => PriceHeaders
    case Weight => WeightHeaders
  }

  /** The header names column category c. */
  predicate Matches(header: string, c: Category)
  {
    Text.Lower(header) in Synonyms(c)
  }

  /** The if/elif chain of one scan step. The synonym lists are disjoint, so
      the chain's order never matters: a header is classified as c exactly
      when it matches c. */
  function Classify(header: string): (r: Option<Category>)
    ensures forall c :: r == Some(c) <==> Matches(header, c)
  {
    var h := Text.Lower(header);
    if h in ProductHeaders then Some(Product)
    else if h in PriceHeaders then Some(Price)
    else if h in WeightHeaders then Some(Weight)
    else None
  }

  /** The three column indices; None for a category that has no column. */
  datatype Indices = Indices(product: Option<nat>, price: Option<nat>, weight: Option<nat>)
  {
    function Get(c: Category): Option<nat>
    {
      match c
      case Product => product
      case Price => price
      case Weight => weight
    }

    predicate Complete()
    {
      product.Some? && price.Some? && weight.Some?
    }
  }

  const NoIndices := Indices(None, None, None)

  /** Two categories never share a column: the synonym lists are disjoint. */
  ghost predicate DistinctColumns(ix: Indices)
  {
    forall c, d :: c != d && ix.Get(c).Some? && ix.Get(d).Some? ==> ix.Get(c) != ix.Get(d)
  }

  /** One loop iteration: header i becomes the index of the category it
      matches; the other categories keep their index. */
  function Step(acc: Indices, i: nat, header: string): (r: Indices)
    ensures forall c :: r.Get(c) == if Matches(header, c) then Some(i) else acc.Get(c)
  {
    match Classify(header)
    case None => acc
    case Some(Product) => acc.(product := Some(i))
    case Some(Price) => acc.(price := Some(i))
    case Some(Weight) => acc.(weight := Some(i))
  }

  /** The indices after the loop has seen headers[..n]: each is a position
      below n whose header matches its category, and no two coincide. */
  function Scan(headers: seq<string>, n: nat): (r: Indices)
    requires n <= |headers|
    ensures forall c :: r.Get(c).Some? ==> r.Get(c).value < n && Matches(headers[r.Get(c).value], c)
    ensures DistinctColumns(r)
  {
    if n == 0 then NoIndices else Step(Scan(headers, n - 1), n - 1, headers[n - 1])
  }

  /** What _search_product_price_weight returns: every index is a valid
      header position whose lower-cased header is a synonym of its category,
      and the three indices name different columns. */
  function Resolve(headers: seq<string>): (r: Indices)
    ensures forall c :: r.Get(c).Some? ==> r.Get(c).value < |headers| && Matches(headers[r.Get(c).value], c)
    ensures DistinctColumns(r)
  {
    Scan(headers, |headers|)
  }

  /** r is the last position below n whose header matches c, or None when
      there is none. */
  ghost predicate IsLastMatchBelow(headers: seq<string>, n: nat, c: Category, r: Option<nat>)
    requires n <= |headers|
  {
    match r
    case None => forall i :: 0 <= i < n ==> !Matches(headers[i], c)
    case Some(k) =>
      k < n && Matches(headers[k], c) && forall j :: k < j < n ==> !Matches(headers[j], c)
  }

  ghost predicate IsLastMatch(headers: seq<string>, c: Category, r: Option<nat>)
  {
    IsLastMatchBelow(headers, |headers|, c, r)
  }

  lemma {:induction false} ScanIsLastMatch(headers: seq<string>, n: nat, c: Category)
    requires n <= |headers|
    ensures IsLastMatchBelow(headers, n, c, Scan(headers, n).Get(c))
  {
    if n > 0 {
      ScanIsLastMatch(headers, n - 1, c);
    }
  }

  /** Last match wins: every index the resolver returns is a valid position
      whose lower-cased header is a synonym of its category, no later header
      matches that category, and the index is None exactly when no header
      matches. */
  lemma ResolveIsLastMatch(headers: seq<string>, c: Category)
    ensures IsLastMatch(headers, c, Resolve(headers).Get(c))
  {
    ScanIsLastMatch(headers, |headers|, c);
  }
}
