# Movie search scraper: search and link extraction

This project models the scraping core of a Telegram movie-search bot
(`movies_scraper.py`). The core does four things:

- It turns the user's query into a search URL. Every space becomes `+` and
  nothing else is escaped.
- It fetches the listing page and reads every result block (`div.A2`) into a
  record: a title, a detail-page URL, an image and a list of download links.
- It fetches each detail page. Three passes over the page add `(url, text)`
  pairs to one set. The pairs are then filtered: a URL must start with `http`
  and must not contain the ad redirector's host `cank.xyz`.
- It turns every failure into an empty list: a non-200 status, a timeout, a
  network error, or an exception raised while reading a block.

The HTML parser and the network are not modelled. A document
(`HtmlDocument.Document`) is the flat sequence of its elements in document
order. Each element carries:

- its tag and class list;
- its optional `href`, `src` and `align` attributes;
- its stripped text (`get_text(strip=True)`) and its raw text (`get_text()`);
- the number of elements nested inside it.

This makes BeautifulSoup's searches ranges of the sequence:

- `find` searches the element's descendants;
- `find_next` searches everything after the element;
- `find_previous` searches backwards from the element.

The network is a function from URL to outcome (`HtmlDocument.Fetcher`). An
outcome is either a status with a parsed body, or a failure (a timeout or
another error).

Modules:

- `HtmlDocument` (html_document.dfy): elements, documents, the first/last
  match searches, and Python's `startswith` and substring test.
- `SearchQuery` (search_query.dfy): query normalisation and the search URL.
- `DownloadLinks` (download_links.dfy): `get_download_links`. The three
  passes are specification functions, with a reference definition by
  membership. The source's nested loops are methods proved against those
  functions.
- `MovieSearch` (movie_search.dfy): one listing block, the listing as a
  whole, and `search_movies` with its loop over the blocks.

What the code does, where its own fallbacks suggest something else:

- The fallbacks written at movies_scraper.py:41 and :43 suggest that a block
  without an anchor was meant to give the title `"No Title"` and the URL
  `"#"`. But line 40 runs first: `item.find('a', href=True)` returns `None`,
  and `.find_next` on `None` raises. The same happens when no `<b>` follows
  the anchor. The handler at lines 62-64 catches the exception, so the whole
  search returns `[]`. The `"#"` fallback of line 43 can never be reached.
- The title falls back to `"No Title"` only when the `<b>` holds no `<span>`.
- A block whose first `<img>` has no `src` also raises (`KeyError`, line 45),
  and the whole search again returns `[]`.
- The code returns `[]` both when nothing matches and when the fetch fails,
  so a caller cannot tell the two apart. The model does the same.
- The query is not escaped beyond the space substitution. `PlusIsAmbiguous`
  shows the consequence: a query typed with `+` cannot be told apart from the
  same query typed with a space.
- The detail URL is the site base followed by the `href`, as written. An
  absolute `href` is still prefixed.

## Model

The specification functions `MovieSearch.ParseBlock`, `MovieSearch.ParseListing`,
`MovieSearch.ListingOf`, `DownloadLinks.Candidates`, `DownloadLinks.Kept`,
`DownloadLinks.Extracted` and `DownloadLinks.DetailLinks` have no rows of their
own: each is characterised by the lemmas and methods in the rows below.

| member | source | states |
|---|---|---|
| `HtmlDocument.FindFirst` | movies_scraper.py:40-44 | `find`/`find_next` gives the first element of a range that matches, or none when no element of the range matches |
| `HtmlDocument.FindLast` | movies_scraper.py:91 | `find_previous` gives the nearest earlier element that matches, or none when no earlier element matches |
| `SearchQuery.PlusForSpace` | movies_scraper.py:19 | `replace(' ', '+')` keeps the length, puts `+` at every position that held a space and keeps every other character |
| `SearchQuery.SearchUrl` | movies_scraper.py:19 | the search URL is the fixed prefix followed by the query, with every space replaced by `+` and all other characters unchanged |
| `SearchQuery.PlusForSpaceAppend` | movies_scraper.py:19 | the normalisation distributes over concatenation, so each word of a multi-word query is normalised independently |
| `SearchQuery.NormalisedQuery` | movies_scraper.py:19 | the query part of the URL holds no space, and a single-word query passes through unchanged |
| `SearchQuery.QueryRoundTrip` | movies_scraper.py:19 | for a query without `+`, turning `+` back into spaces recovers the query from the URL |
| `SearchQuery.PlusIsAmbiguous` | movies_scraper.py:19 | without escaping, `"the matrix"` and `"the+matrix"` give the same search URL |
| `DownloadLinks.SectionLink` | movies_scraper.py:91-95 | a section div's pair has the div's text and either the href of the nearest earlier anchor with an href or, when there is none, the sentinel `"#"` |
| `DownloadLinks.SectionPairsMembers` | movies_scraper.py:90-95 | the pass-1 pairs for one class are exactly the section pairs of the divs of that class |
| `DownloadLinks.SectionPassMembers` | movies_scraper.py:89-95 | the pass-1 pairs over the class list are exactly the section pairs of divs carrying any listed class |
| `DownloadLinks.ClassAnchorPairsMembers` | movies_scraper.py:98-99 | the pass-2 pairs are exactly `(href, text)` of the anchors with an href and class `dl` |
| `DownloadLinks.MarkerAnchorPairsMembers` | movies_scraper.py:101-103 | the pass-3 pairs are exactly `(href, text)` of the anchors with an href whose raw text contains the mis-encoded marker or whose `align` contains `center` |
| `DownloadLinks.CandidatesMembers` | movies_scraper.py:86-103 | the pre-filter set is exactly the union of the three passes, whatever order the passes run in |
| `DownloadLinks.ExtractedMembers` | movies_scraper.py:86-110 | a link is returned if and only if some pass finds it and its URL starts with `http` and does not contain `cank.xyz` |
| `DownloadLinks.SentinelFoundButDropped` | movies_scraper.py:91-109 | a section div with no earlier anchor yields a pair with the sentinel `"#"`, which is found but never returned |
| `DownloadLinks.SameUrlDifferentTexts` | movies_scraper.py:98-110 | deduplication is by exact pair: two `dl` anchors with the same kept URL and different texts both yield links |
| `DownloadLinks.FoundTwiceListedOnce` | movies_scraper.py:98-110 | an anchor selected by both pass 2 and pass 3 puts its pair in both pass sets, and a kept pair appears at exactly one index of the returned list |
| `DownloadLinks.NoPatternsNoLinks` | movies_scraper.py:84-112 | a page with none of the three patterns yields no link |
| `DownloadLinks.CollectLinks` | movies_scraper.py:86-103 | the three nested loops build exactly the union of the three passes |
| `DownloadLinks.FilterLinks` | movies_scraper.py:106-110 | the comprehension returns each pair of the set that passes the filter, each exactly once, and nothing else |
| `DownloadLinks.GetDownloadLinks` | movies_scraper.py:77-118 | the returned links are distinct and are exactly the filtered links of the page. Every returned URL starts with `http` and avoids `cank.xyz`. A non-200 status or a failed fetch gives none |
| `MovieSearch.ParseBlockRaises` | movies_scraper.py:40-41 | reading a block raises the missing-anchor error exactly when the block has no href anchor, and the missing-bold error exactly when no `<b>` follows its first href anchor |
| `MovieSearch.ParseBlockRaisesOnImage` | movies_scraper.py:40-45 | a block that gets past the title raises exactly when its first `<img>` has no `src` |
| `MovieSearch.ParseBlockTitleAndUrl` | movies_scraper.py:40-43 | a block read without error has as URL the base followed by its first anchor's href, unresolved. Its title is the text of the first span in the following `<b>`, or `"No Title"` when that `<b>` has no span |
| `MovieSearch.ParseBlockImage` | movies_scraper.py:44-45 | a block read without error has as image the `src` of its first `<img>`, and no image exactly when the block has no `<img>` |
| `MovieSearch.Blocks` | movies_scraper.py:38 | the listing blocks are listed in page order, and every `div.A2` appears in the list |
| `MovieSearch.ListingParsedIff` | movies_scraper.py:38-45 | the listing is read without error exactly when every block is |
| `MovieSearch.ListingContents` | movies_scraper.py:38-52 | a listing read without error holds one candidate per block, in page order, each the block's own parse |
| `MovieSearch.OneBadBlockEmptiesSearch` | movies_scraper.py:38-64 | one block that raises makes the whole listing yield no result |
| `MovieSearch.OneCandidatePerBlock` | movies_scraper.py:38-52 | a 200 listing whose blocks are all complete yields exactly one candidate per block, in page order |
| `MovieSearch.SearchMovies` | movies_scraper.py:19-64 | a failed fetch, a non-200 status or a raising block gives `[]`. Otherwise there is one record per block, in order, with the block's title, URL and image. Each record's links are exactly the filtered links of its detail page, each once |

## Left out

- The network is left out: the aiohttp session, the request headers, the
  10-second timeout on the listing fetch and the lack of one on detail
  fetches. A fetch is an oracle from URL to outcome. The oracle gives the same
  answer for the same URL within one search, which a real network need not do.
- HTML parsing by BeautifulSoup is left out. The model starts from the parsed
  element sequence. The whitespace rules of `get_text(strip=True)` are not
  modelled: both texts of an element are given.
- An exception while decoding a response body is not modelled separately. It
  counts as a failed fetch, which yields the same `[]`.
- FilterLinks, GetDownloadLinks: the order of the returned links is left
  unspecified. It is Python's set iteration order, which the source does not
  fix either.
- The logging calls and the `__main__` demo block are left out; they have no
  effect on the result.
- index.py is not part of this model. It is webhook and dispatcher plumbing,
  and the handlers it imports are not defined in `movies_scraper.py`.
- The async structure is left out. Detail fetches are awaited one at a time,
  so the model runs them sequentially.
