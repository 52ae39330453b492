/** Building the listing-page URL from the user's query. */
module SearchQuery {

  const SearchPrefix: string := "https://www.filmyfly.wales/site-1.html?to-search="

  function PlusFor(c: char): char
  {
    if c == ' ' then '+' else c
  }

  /** `query.replace(' ', '+')`: every space becomes a plus sign, every other
      character is kept. Nothing else is escaped. */
  function PlusForSpace(q: string): (r: string)
    ensures |r| == |q|
    ensures forall i :: 0 <= i < |q| ==> r[i] == PlusFor(q[i])
  {
    if q == [] then [] else [PlusFor(q[0])] + PlusForSpace(q[1..])
  }

  /** The search URL: the fixed prefix followed by the normalised query. */
  function SearchUrl(query: string): (url: string)
    ensures |url| == |SearchPrefix| + |query|
    ensures StartsWithPrefix(url)
    ensures forall i :: 0 <= i < |query| ==> url[|SearchPrefix| + i] == PlusFor(query[i])
  {
    SearchPrefix + PlusForSpace(query)
  }

  predicate StartsWithPrefix(url: string)
  {
    |SearchPrefix| <= |url| && url[..|SearchPrefix|] == SearchPrefix
  }

  /** The query part of a search URL. */
  function QueryPart(url: string): string
    requires StartsWithPrefix(url)
  {
    url[|SearchPrefix|..]
  }

  /** Turning plus signs back into spaces: the inverse of the normalisation on
      queries that hold no plus sign. */
  function SpaceForPlus(q: string): (r: string)
    ensures |r| == |q|
    ensures forall i :: 0 <= i < |q| ==> r[i] == (if q[i] == '+' then ' ' else q[i])
  {
    if q == [] then [] else [if q[0] == '+' then ' ' else q[0]] + SpaceForPlus(q[1..])
  }

  /** The normalisation works character by character, so it distributes over
      concatenation: normalising a multi-word query normalises each part. */
  lemma PlusForSpaceAppend(a: string, b: string)
    ensures PlusForSpace(a + b) == PlusForSpace(a) + PlusForSpace(b)
  {
  }

  /** The query part of the URL never holds a space, and a query with no space
      (a single word) passes through unchanged. */
  lemma NormalisedQuery(q: string)
    ensures ' ' !in QueryPart(SearchUrl(q))
    ensures QueryPart(SearchUrl(q)) == PlusForSpace(q)
    ensures ' ' !in q ==> QueryPart(SearchUrl(q)) == q
  {
  }

  /** For a query holding no plus sign the original query is recovered from
      the URL. */
  lemma QueryRoundTrip(q: string)
    requires '+' !in q
    ensures SpaceForPlus(QueryPart(SearchUrl(q))) == q
  {
  }

  /** Without escaping, a plus sign typed by the user cannot be told apart
      from a space: two different queries give the same URL. */
  lemma PlusIsAmbiguous()
    ensures "the matrix" != "the+matrix"
    ensures SearchUrl("the matrix") == SearchUrl("the+matrix")
  {
  }
}
