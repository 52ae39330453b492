/** A parsed HTML document as the scraper sees it after parsing, and the fetch
    outcome that delivers one.

    The parser itself is not modelled: a document is the flat sequence of its
    elements in document (pre-)order. Each element records how many of the
    elements that follow it lie inside it, so "search the descendants of an
    element" is "search a range of the sequence", "the next element after" is
    "a later index" and "the previous element before" is "an earlier index". */
module HtmlDocument {

  datatype Option<+T> = None | Some(value: T)

  function GetOr<T>(o: Option<T>, default: T): T
  {
    match o
    case Some(v) => v
    case None => default
  }

  /** One element. `text` is its text with surrounding whitespace stripped, as
      `get_text(strip=True)` gives it; `fullText` is its text unstripped, as
      `get_text()` gives it. `descendants` counts the elements nested in it,
      which follow it immediately in the document. */
  datatype Element = Element(
    tag: string,
    classes: seq<string>,
    href: Option<string>,
    src: Option<string>,
    align: Option<string>,
    text: string,
    fullText: string,
    descendants: nat)

  type Document = seq<Element>

  /** One past the last descendant of doc[i] (clamped to the document). */
  function SubtreeEnd(doc: Document, i: nat): (e: nat)
    requires i < |doc|
    ensures i < e <= |doc|
  {
    if i + 1 + doc[i].descendants <= |doc| then i + 1 + doc[i].descendants else |doc|
  }

  predicate HasClass(e: Element, name: string)
  {
    name in e.classes
  }

  /** An anchor with an href attribute, what `find('a', href=True)` and
      `find_all('a', href=True)` select. */
  predicate IsHrefAnchor(e: Element)
  {
    e.tag == "a" && e.href.Some?
  }

  /** `k` is the first index in [lo, hi) whose element satisfies `p`. */
  ghost predicate FirstIn(doc: Document, lo: nat, hi: nat, p: Element -> bool, k: nat)
  {
    lo <= k < hi <= |doc| && p(doc[k]) && forall j :: lo <= j < k ==> !p(doc[j])
  }

  /** No element in [lo, hi) satisfies `p`. */
  ghost predicate NoneIn(doc: Document, lo: nat, hi: nat, p: Element -> bool)
    requires hi <= |doc|
  {
    forall j :: lo <= j < hi ==> !p(doc[j])
  }

  lemma FirstInUnique(doc: Document, lo: nat, hi: nat, p: Element -> bool, k: nat, k': nat)
    requires FirstIn(doc, lo, hi, p, k) && FirstIn(doc, lo, hi, p, k')
    ensures k == k'
  {
  }

  /** The first element of doc[lo..hi] satisfying `p`, as BeautifulSoup's
      `find` (over the descendants of an element) and `find_next` (over
      everything after an element) return it. */
  function FindFirst(doc: Document, lo: nat, hi: nat, p: Element -> bool): (r: Option<nat>)
    requires lo <= hi <= |doc|
    ensures r.Some? ==> FirstIn(doc, lo, hi, p, r.value)
    ensures r.None? ==> NoneIn(doc, lo, hi, p)
    decreases hi - lo
  {
    if lo == hi then None
    else if p(doc[lo]) then Some(lo)
    else FindFirst(doc, lo + 1, hi, p)
  }

  /** The nearest element before index `hi` satisfying `p`, as BeautifulSoup's
      `find_previous` returns it. */
  function FindLast(doc: Document, hi: nat, p: Element -> bool): (r: Option<nat>)
    requires hi <= |doc|
    ensures r.Some? ==> r.value < hi && p(doc[r.value])
    ensures r.Some? ==> forall j :: r.value < j < hi ==> !p(doc[j])
    ensures r.None? ==> NoneIn(doc, 0, hi, p)
  {
    if hi == 0 then None
    else if p(doc[hi - 1]) then Some(hi - 1)
    else FindLast(doc, hi - 1, p)
  }

  /** Python's `s.startswith(prefix)`. */
  predicate StartsWith(s: string, prefix: string)
  {
    |prefix| <= |s| && s[..|prefix|] == prefix
  }

  predicate OccursAt(s: string, sub: string, i: nat)
  {
    i + |sub| <= |s| && s[i..i + |sub|] == sub
  }

  /** Python's `sub in s` on strings. */
  predicate Contains(s: string, sub: string)
  {
    exists i: nat :: i <= |s| && OccursAt(s, sub, i)
  }

  /** Why a fetch produced no response. */
  datatype FetchFailure = Timeout | Error

  /** What one HTTP GET yields: a status and the parsed body, or a failure. */
  datatype Fetched = Response(status: int, body: Document) | Failed(failure: FetchFailure)

  /** The network, as an oracle from URL to outcome. */
  type Fetcher = string -> Fetched
}
