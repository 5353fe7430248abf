/**
 * find_text: the records whose lower-cased name contains the lower-cased
 * query, in store order, then stably sorted by unit price.
 */
module SearchEngine {
  import opened Records
  import opened StableSort
  import Text

  /** `text.lower() in item['name'].lower()` */
  predicate NameMatches(r: Record, text: string)
    ensures NameMatches(r, text) ==> |text| <= |r.name|
  {
    Text.Contains(Text.Lower(r.name), Text.Lower(text))
  }

  /** The filtering loop: the matching records in store order. */
  function Matching(data: seq<Record>, text: string): (m: seq<Record>)
    ensures |m| <= |data|
    ensures forall i :: 0 <= i < |m| ==> NameMatches(m[i], text)
  {
    if data == [] then []
    else
      var m := Matching(data[..|data| - 1], text);
      var last := data[|data| - 1];
      if NameMatches(last, text) then m + [last] else m
  }

  /** The filter keeps exactly the matching records, each as often as it
      occurs in the store, and drops every other record. */
  lemma {:induction false} MatchingCounts(data: seq<Record>, text: string)
    ensures forall x ::
      multiset(Matching(data, text))[x] == (if NameMatches(x, text) then multiset(data)[x] else 0)
  {
    if data != [] {
      var init := data[..|data| - 1];
      MatchingCounts(init, text);
      assert data == init + [data[|data| - 1]];
    }
  }

  lemma MatchingMembers(data: seq<Record>, text: string)
    ensures forall x :: x in Matching(data, text) <==> x in data && NameMatches(x, text)
  {
    MatchingCounts(data, text);
    forall x
      ensures x in Matching(data, text) <==> x in data && NameMatches(x, text)
    {
      assert x in Matching(data, text) <==> x in multiset(Matching(data, text));
      assert x in data <==> x in multiset(data);
    }
  }

  /** `"" in s` always holds, so the empty query matches the whole store in
      store order. */
  lemma {:induction false} EmptyQueryMatchesAll(data: seq<Record>)
    ensures Matching(data, "") == data
  {
    if data != [] {
      EmptyQueryMatchesAll(data[..|data| - 1]);
      Text.EmptyNeedle(Text.Lower(data[|data| - 1].name));
    }
  }

  /** find_text's result: the matches stably sorted by price_per_kg. */
  function Search(data: seq<Record>, text: string): (r: seq<Record>)
    ensures IsStableSortOf(r, Matching(data, text), UnitPriceKey)
  {
    SortByIsStableSort(Matching(data, text), UnitPriceKey);
    SortBy(Matching(data, text), UnitPriceKey)
  }

  /** The search result is a stable sort of the matches by unit price, and it
      is the only one, so calling find_text twice on the same store gives the
      same sequence. */
  lemma SearchIsStableSortOfMatches(data: seq<Record>, text: string, other: seq<Record>)
    ensures IsStableSortOf(Search(data, text), Matching(data, text), UnitPriceKey)
    ensures IsStableSortOf(other, Matching(data, text), UnitPriceKey) ==> other == Search(data, text)
  {
    SortByIsStableSort(Matching(data, text), UnitPriceKey);
    if IsStableSortOf(other, Matching(data, text), UnitPriceKey) {
      StableSortUnique(other, Search(data, text), Matching(data, text), UnitPriceKey);
    }
  }
}
