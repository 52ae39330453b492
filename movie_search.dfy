/** `search_movies`: fetch the listing page for a query, turn every result
    block into a record and fetch each record's download links. Any error
    raised while reading the blocks ends the whole search with no result. */
module MovieSearch {
  import opened HtmlDocument
  import opened SearchQuery
  import opened DownloadLinks

  /** The site's base URL, prefixed verbatim to every detail-page href. */
  const SiteBase: string := "https://www.filmyfly.wales"
  const NoTitle: string := "No Title"

  /** What the listing page says of one result. */
  datatype Candidate = Candidate(title: string, url: string, image: Option<string>)

  /** One record of the result list. */
  datatype Movie = Movie(title: string, url: string, image: Option<string>, downloadLinks: seq<Link>)

  /** The exceptions reading a result block can raise: the block has no
      anchor with an href (`None.find_next`), no `<b>` follows that anchor
      (`None.find`), or the block's first image has no `src` (`KeyError`). */
  datatype ParseError = NoAnchor | NoBold | NoImageSrc

  datatype Parsed<+T> = Parsed(value: T) | Raised(error: ParseError)

  /** `find_all('div', class_='A2')` selects these. */
  predicate IsListingBlock(e: Element)
  {
    e.tag == "div" && HasClass(e, "A2")
  }

  predicate IsBold(e: Element) { e.tag == "b" }

  predicate IsSpan(e: Element) { e.tag == "span" }

  predicate IsImage(e: Element) { e.tag == "img" }

  /** The first anchor with an href inside the block at index i. */
  ghost predicate TitleAnchor(doc: Document, i: nat, a: nat)
    requires i < |doc|
  {
    FirstIn(doc, i + 1, SubtreeEnd(doc, i), IsHrefAnchor, a)
  }

  /** The first `<span>` inside the `<b>` at index b. */
  ghost predicate TitleSpan(doc: Document, b: nat, s: nat)
    requires b < |doc|
  {
    FirstIn(doc, b + 1, SubtreeEnd(doc, b), IsSpan, s)
  }

  /** The first `<img>` inside the block at index i. */
  ghost predicate BlockImage(doc: Document, i: nat, m: nat)
    requires i < |doc|
  {
    FirstIn(doc, i + 1, SubtreeEnd(doc, i), IsImage, m)
  }

  /** The first `<b>` anywhere after the anchor at index a. */
  ghost predicate TitleBold(doc: Document, a: nat, b: nat)
  {
    FirstIn(doc, a + 1, |doc|, IsBold, b)
  }

  /** One iteration of the loop over the result blocks, up to the detail
      fetch: the title is the text of the first `<span>` inside the first
      `<b>` after the block's first href anchor ("No Title" when that `<b>`
      holds no span), the URL is the base followed by the anchor's href, the
      image is the `src` of the block's first `<img>`, if any. */
  function ParseBlock(doc: Document, i: nat): Parsed<Candidate>
    requires i < |doc|
  {
    var end := SubtreeEnd(doc, i);
    match FindFirst(doc, i + 1, end, IsHrefAnchor)
    case None => Raised(NoAnchor)
    case Some(a) =>
      match FindFirst(doc, a + 1, |doc|, IsBold)
      case None => Raised(NoBold)
      case Some(b) =>
        var span := FindFirst(doc, b + 1, SubtreeEnd(doc, b), IsSpan);
        var title := if span.Some? then doc[span.value].text else NoTitle;
        var url := SiteBase + doc[a].href.value;
        match FindFirst(doc, i + 1, end, IsImage)
        case None => Parsed(Candidate(title, url, None))
        case Some(m) =>
          if doc[m].src.None? then Raised(NoImageSrc)
          else Parsed(Candidate(title, url, doc[m].src))
  }

  /** When reading a block raises, and which exception: no href anchor in
      the block, or no `<b>` after that anchor. */
  lemma ParseBlockRaises(doc: Document, i: nat)
    requires i < |doc|
    ensures ParseBlock(doc, i) == Raised(NoAnchor) <==>
      NoneIn(doc, i + 1, SubtreeEnd(doc, i), IsHrefAnchor)
    ensures ParseBlock(doc, i) == Raised(NoBold) <==>
      exists a: nat :: TitleAnchor(doc, i, a) && NoneIn(doc, a + 1, |doc|, IsBold)
  {
    match FindFirst(doc, i + 1, SubtreeEnd(doc, i), IsHrefAnchor)
    case None =>
    case Some(a) =>
      assert TitleAnchor(doc, i, a);
      forall a': nat | TitleAnchor(doc, i, a') ensures a' == a {
        FirstInUnique(doc, i + 1, SubtreeEnd(doc, i), IsHrefAnchor, a, a');
      }
  }

  /** Reading a block raises `KeyError` exactly when it gets past the title
      and the block's first `<img>` has no `src`. */
  lemma ParseBlockRaisesOnImage(doc: Document, i: nat)
    requires i < |doc|
    ensures ParseBlock(doc, i) == Raised(NoImageSrc) <==>
      (exists a: nat, b: nat :: TitleAnchor(doc, i, a) && TitleBold(doc, a, b)) &&
      (exists m: nat :: BlockImage(doc, i, m) && doc[m].src.None?)
  {
    match FindFirst(doc, i + 1, SubtreeEnd(doc, i), IsHrefAnchor)
    case None =>
    case Some(a) =>
      assert TitleAnchor(doc, i, a);
      forall a': nat, b': nat | TitleAnchor(doc, i, a') && TitleBold(doc, a', b')
        ensures FindFirst(doc, a + 1, |doc|, IsBold).Some?
      {
        FirstInUnique(doc, i + 1, SubtreeEnd(doc, i), IsHrefAnchor, a, a');
      }
      match FindFirst(doc, a + 1, |doc|, IsBold)
      case None =>
      case Some(b) =>
        assert TitleBold(doc, a, b);
        match FindFirst(doc, i + 1, SubtreeEnd(doc, i), IsImage)
        case None =>
        case Some(m) =>
          assert BlockImage(doc, i, m);
          forall m': nat | BlockImage(doc, i, m') ensures m' == m {
            FirstInUnique(doc, i + 1, SubtreeEnd(doc, i), IsImage, m, m');
          }
  }

  /** The record of a block read without error: the URL is the base followed
      by the first anchor's href, the title the text of the first span in the
      following `<b>`, or "No Title" when that `<b>` has none. */
  lemma ParseBlockTitleAndUrl(doc: Document, i: nat, a: nat, b: nat)
    requires i < |doc| && ParseBlock(doc, i).Parsed?
    requires TitleAnchor(doc, i, a) && TitleBold(doc, a, b)
    ensures ParseBlock(doc, i).value.url == SiteBase + doc[a].href.value
    ensures NoneIn(doc, b + 1, SubtreeEnd(doc, b), IsSpan) ==> ParseBlock(doc, i).value.title == NoTitle
    ensures forall s: nat :: TitleSpan(doc, b, s) ==> ParseBlock(doc, i).value.title == doc[s].text
  {
  }

  /** The image of a block read without error: the `src` of its first
      `<img>`, absent when the block has no image. */
  lemma ParseBlockImage(doc: Document, i: nat)
    requires i < |doc| && ParseBlock(doc, i).Parsed?
    ensures ParseBlock(doc, i).value.image.None? <==> NoneIn(doc, i + 1, SubtreeEnd(doc, i), IsImage)
    ensures forall m: nat :: BlockImage(doc, i, m) ==> ParseBlock(doc, i).value.image == doc[m].src
  {
  }

  /** The indices of the result blocks among the first n elements, in page
      order. */
  function Blocks(doc: Document, n: nat): (r: seq<nat>)
    requires n <= |doc|
    ensures forall k :: 0 <= k < |r| ==> r[k] < n && IsListingBlock(doc[r[k]])
    ensures forall k, k' :: 0 <= k < k' < |r| ==> r[k] < r[k']
    ensures forall j :: 0 <= j < n && IsListingBlock(doc[j]) ==> j in r
  {
    if n == 0 then []
    else if IsListingBlock(doc[n - 1]) then Blocks(doc, n - 1) + [n - 1]
    else Blocks(doc, n - 1)
  }

  /** The loop over the result blocks among the first n elements, without
      the detail fetches: the first block that raises ends it. */
  function ParseListing(doc: Document, n: nat): Parsed<seq<Candidate>>
    requires n <= |doc|
  {
    if n == 0 then Parsed([])
    else
      match ParseListing(doc, n - 1)
      case Raised(e) => Raised(e)
      case Parsed(cs) =>
        if !IsListingBlock(doc[n - 1]) then Parsed(cs)
        else
          match ParseBlock(doc, n - 1)
          case Raised(e) => Raised(e)
          case Parsed(c) => Parsed(cs + [c])
  }

  /** The listing is read without error exactly when every block is. */
  lemma {:induction false} ListingParsedIff(doc: Document, n: nat)
    requires n <= |doc|
    ensures ParseListing(doc, n).Parsed? <==>
      forall j :: 0 <= j < n && IsListingBlock(doc[j]) ==> ParseBlock(doc, j).Parsed?
  {
    if n > 0 {
      ListingParsedIff(doc, n - 1);
    }
  }

  /** A listing read without error holds one candidate per block, in page
      order. */
  lemma {:induction false} ListingContents(doc: Document, n: nat)
    requires n <= |doc|
    requires ParseListing(doc, n).Parsed?
    ensures |ParseListing(doc, n).value| == |Blocks(doc, n)|
    ensures forall k :: 0 <= k < |Blocks(doc, n)| ==>
      ParseBlock(doc, Blocks(doc, n)[k]) == Parsed(ParseListing(doc, n).value[k])
  {
    if n > 0 {
      ListingContents(doc, n - 1);
      if IsListingBlock(doc[n - 1]) {
        var cs, c := ParseListing(doc, n - 1).value, ParseBlock(doc, n - 1).value;
        assert Blocks(doc, n) == Blocks(doc, n - 1) + [n - 1];
        assert ParseListing(doc, n).value == cs + [c];
      }
    }
  }

  /** The candidates a fetched listing page yields, or None when the search
      ends with no result: the fetch failed, the status is not 200, or a
      block raised. */
  function ListingOf(page: Fetched): Option<seq<Candidate>>
  {
    match page
    case Failed(_) => None
    case Response(status, doc) =>
      if status != 200 then None
      else
        match ParseListing(doc, |doc|)
        case Raised(_) => None
        case Parsed(cs) => Some(cs)
  }

  /** `movies` holds one record per candidate, in order, each with the
      candidate's fields and its detail page's links, once each. */
  ghost predicate Describes(fetch: Fetcher, movies: seq<Movie>, cs: seq<Candidate>)
  {
    |movies| == |cs| &&
    forall k :: 0 <= k < |cs| ==>
      movies[k].title == cs[k].title && movies[k].url == cs[k].url &&
      movies[k].image == cs[k].image && Distinct(movies[k].downloadLinks) &&
      forall l :: l in movies[k].downloadLinks <==> l in DetailLinks(fetch, cs[k].url)
  }

  /** One block that raises empties the whole search, whatever the other
      blocks hold. */
  lemma OneBadBlockEmptiesSearch(doc: Document, j: nat)
    requires j < |doc| && IsListingBlock(doc[j]) && ParseBlock(doc, j).Raised?
    ensures ListingOf(Response(200, doc)) == None
  {
    ListingParsedIff(doc, |doc|);
  }

  /** A block with an href anchor, a `<b>` somewhere after that anchor, and
      either no image or a first image with a `src`. */
  ghost predicate CompleteBlock(doc: Document, i: nat)
    requires i < |doc|
  {
    !NoneIn(doc, i + 1, SubtreeEnd(doc, i), IsHrefAnchor) &&
    (forall a: nat :: TitleAnchor(doc, i, a) ==> !NoneIn(doc, a + 1, |doc|, IsBold)) &&
    (forall m: nat :: BlockImage(doc, i, m) ==> doc[m].src.Some?)
  }

  /** A listing page whose blocks are all complete yields one candidate per
      block, in page order. */
  lemma OneCandidatePerBlock(doc: Document)
    requires forall j :: 0 <= j < |doc| && IsListingBlock(doc[j]) ==> CompleteBlock(doc, j)
    ensures ListingOf(Response(200, doc)).Some?
    ensures |ListingOf(Response(200, doc)).value| == |Blocks(doc, |doc|)|
    ensures forall k :: 0 <= k < |Blocks(doc, |doc|)| ==>
      ParseBlock(doc, Blocks(doc, |doc|)[k]) == Parsed(ListingOf(Response(200, doc)).value[k])
  {
    forall j | 0 <= j < |doc| && IsListingBlock(doc[j])
      ensures ParseBlock(doc, j).Parsed?
    {
      ParseBlockRaises(doc, j);
      ParseBlockRaisesOnImage(doc, j);
    }
    ListingParsedIff(doc, |doc|);
    ListingContents(doc, |doc|);
  }

  /** `search_movies`. */
  method SearchMovies(fetch: Fetcher, query: string) returns (movies: seq<Movie>)
    ensures ListingOf(fetch(SearchUrl(query))).None? ==> movies == []
    ensures ListingOf(fetch(SearchUrl(query))).Some? ==>
      Describes(fetch, movies, ListingOf(fetch(SearchUrl(query))).value)
  {
    var response := fetch(SearchUrl(query));
    if response.Failed? {
      return [];
    }
    if response.status != 200 {
      return [];
    }
    var doc := response.body;
    movies := [];
    for i := 0 to |doc|
      invariant ParseListing(doc, i).Parsed?
      invariant Describes(fetch, movies, ParseListing(doc, i).value)
    {
      if IsListingBlock(doc[i]) {
        var block := ParseBlock(doc, i);
        if block.Raised? {
          ListingParsedIff(doc, |doc|);
          return [];
        }
        var c := block.value;
        var links := GetDownloadLinks(fetch, c.url);
        movies := movies + [Movie(c.title, c.url, c.image, links)];
      }
    }
  }
}
