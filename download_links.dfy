/** Extracting the download links of one movie's detail page
    (`get_download_links`): three passes add (url, text) pairs to one set,
    then only pairs whose URL starts with "http" and avoids the ad
    redirector's host are returned. */
module DownloadLinks {
  import opened HtmlDocument

  /** One download link: the pair the source stores in its set. */
  datatype Link = Link(url: string, text: string)

  /** The class names of the download-section divs, in the order visited. */
  const SectionClasses: seq<string> := ["dl", "dll", "dlll"]
  /** The URL given to a section div that has no anchor before it. */
  const Sentinel: string := "#"
  /** The blacklisted host fragment. */
  const Blacklisted: string := "cank.xyz"
  /** The down-pointing triangle U+25BC as it reads after its UTF-8 bytes
      were decoded as Windows-1252; the source tests for this mis-encoded
      form, not for the triangle itself. */
  const Marker: string := "\U{E2}\U{2013}\U{BC}"

  /** `find_all('div', class_=name)` selects these. */
  predicate IsSectionDiv(e: Element, name: string)
  {
    e.tag == "div" && HasClass(e, name)
  }

  /** A div of any of the three download-section classes. */
  predicate IsAnySectionDiv(e: Element)
  {
    exists c :: 0 <= c < |SectionClasses| && IsSectionDiv(e, SectionClasses[c])
  }

  /** Pass 2 selects anchors with an href and class "dl". */
  predicate IsClassAnchor(e: Element)
  {
    IsHrefAnchor(e) && HasClass(e, "dl")
  }

  /** Pass 3 selects anchors with an href whose unstripped text holds the
      marker or whose align attribute (empty when absent) holds "center". */
  predicate IsMarkerAnchor(e: Element)
  {
    IsHrefAnchor(e) && (Contains(e.fullText, Marker) || Contains(GetOr(e.align, ""), "center"))
  }

  function AnchorLink(e: Element): Link
    requires IsHrefAnchor(e)
  {
    Link(e.href.value, e.text)
  }

  /** The pair pass 1 adds for the div at index i: the href of the nearest
      anchor with an href before it (`find_previous`), or the sentinel when
      there is none, with the div's own text. */
  function SectionLink(doc: Document, i: nat): (l: Link)
    requires i < |doc|
    ensures l.text == doc[i].text
    ensures NoneIn(doc, 0, i, IsHrefAnchor) ==> l.url == Sentinel
    ensures !NoneIn(doc, 0, i, IsHrefAnchor) ==>
      exists k :: 0 <= k < i && IsHrefAnchor(doc[k]) && l.url == doc[k].href.value &&
        forall j :: k < j < i ==> !IsHrefAnchor(doc[j])
  {
    match FindLast(doc, i, IsHrefAnchor)
    case Some(k) => Link(doc[k].href.value, doc[i].text)
    case None => Link(Sentinel, doc[i].text)
  }

  // ---------------------------------------------------------------------
  // The three passes, over the first n elements of the document, in the
  // order the source's loops visit them.

  /** Pass 1 for one class name. */
  function SectionPairs(doc: Document, name: string, n: nat): set<Link>
    requires n <= |doc|
  {
    if n == 0 then {}
    else if IsSectionDiv(doc[n - 1], name) then SectionPairs(doc, name, n - 1) + {SectionLink(doc, n - 1)}
    else SectionPairs(doc, name, n - 1)
  }

  /** Pass 1 for a list of class names, visited in order. */
  function SectionPass(doc: Document, names: seq<string>): set<Link>
  {
    if names == [] then {}
    else SectionPass(doc, names[..|names| - 1]) + SectionPairs(doc, names[|names| - 1], |doc|)
  }

  /** Pass 2. */
  function ClassAnchorPairs(doc: Document, n: nat): set<Link>
    requires n <= |doc|
  {
    if n == 0 then {}
    else if IsClassAnchor(doc[n - 1]) then ClassAnchorPairs(doc, n - 1) + {AnchorLink(doc[n - 1])}
    else ClassAnchorPairs(doc, n - 1)
  }

  /** Pass 3. */
  function MarkerAnchorPairs(doc: Document, n: nat): set<Link>
    requires n <= |doc|
  {
    if n == 0 then {}
    else if IsMarkerAnchor(doc[n - 1]) then MarkerAnchorPairs(doc, n - 1) + {AnchorLink(doc[n - 1])}
    else MarkerAnchorPairs(doc, n - 1)
  }

  /** The set the three passes build, before filtering. */
  function Candidates(doc: Document): set<Link>
  {
    SectionPass(doc, SectionClasses) + ClassAnchorPairs(doc, |doc|) + MarkerAnchorPairs(doc, |doc|)
  }

  /** The filter: the URL starts with "http" and does not hold the
      blacklisted host. */
  predicate Kept(url: string)
  {
    StartsWith(url, "http") && !Contains(url, Blacklisted)
  }

  /** The links a detail page yields. */
  function Extracted(doc: Document): set<Link>
  {
    set l | l in Candidates(doc) && Kept(l.url)
  }

  /** The links a fetched detail page yields: none unless the fetch answered
      with status 200. */
  function DetailLinks(fetch: Fetcher, url: string): set<Link>
  {
    match fetch(url)
    case Response(status, doc) => if status == 200 then Extracted(doc) else {}
    case Failed(_) => {}
  }

  predicate Distinct<T(==)>(s: seq<T>)
  {
    forall i, j :: 0 <= i < j < |s| ==> s[i] != s[j]
  }

  // ---------------------------------------------------------------------
  // The reference definition: which pairs each pass finds, stated by the
  // element that gives rise to them rather than by the order of the loops.

  ghost predicate FromSection(doc: Document, l: Link)
  {
    exists i :: 0 <= i < |doc| && IsAnySectionDiv(doc[i]) && l == SectionLink(doc, i)
  }

  ghost predicate FromClassAnchor(doc: Document, l: Link)
  {
    exists i :: 0 <= i < |doc| && IsClassAnchor(doc[i]) && l == AnchorLink(doc[i])
  }

  ghost predicate FromMarkerAnchor(doc: Document, l: Link)
  {
    exists i :: 0 <= i < |doc| && IsMarkerAnchor(doc[i]) && l == AnchorLink(doc[i])
  }

  lemma {:induction false} SectionPairsMembers(doc: Document, name: string, n: nat, l: Link)
    requires n <= |doc|
    ensures l in SectionPairs(doc, name, n) <==>
      exists i :: 0 <= i < n && IsSectionDiv(doc[i], name) && l == SectionLink(doc, i)
  {
    if n > 0 {
      SectionPairsMembers(doc, name, n - 1, l);
    }
  }

  lemma {:induction false} SectionPassMembers(doc: Document, names: seq<string>, l: Link)
    ensures l in SectionPass(doc, names) <==>
      exists c, i :: 0 <= c < |names| && 0 <= i < |doc| && IsSectionDiv(doc[i], names[c]) &&
        l == SectionLink(doc, i)
  {
    if names != [] {
      var init := names[..|names| - 1];
      SectionPassMembers(doc, init, l);
      SectionPairsMembers(doc, names[|names| - 1], |doc|, l);
      if l in SectionPass(doc, names) {
        if l in SectionPass(doc, init) {
          var c, i :| 0 <= c < |init| && 0 <= i < |doc| && IsSectionDiv(doc[i], init[c]) &&
            l == SectionLink(doc, i);
          assert names[c] == init[c];
        } else {
          var i :| 0 <= i < |doc| && IsSectionDiv(doc[i], names[|names| - 1]) && l == SectionLink(doc, i);
          assert IsSectionDiv(doc[i], names[|names| - 1]);
        }
      }
      if exists c, i :: (0 <= c < |names| && 0 <= i < |doc| && IsSectionDiv(doc[i], names[c]) &&
        l == SectionLink(doc, i))
      {
        var c, i :| 0 <= c < |names| && 0 <= i < |doc| && IsSectionDiv(doc[i], names[c]) &&
          l == SectionLink(doc, i);
        if c < |init| {
          assert init[c] == names[c];
        }
      }
    }
  }

  lemma {:induction false} ClassAnchorPairsMembers(doc: Document, n: nat, l: Link)
    requires n <= |doc|
    ensures l in ClassAnchorPairs(doc, n) <==>
      exists i :: 0 <= i < n && IsClassAnchor(doc[i]) && l == AnchorLink(doc[i])
  {
    if n > 0 {
      ClassAnchorPairsMembers(doc, n - 1, l);
    }
  }

  lemma {:induction false} MarkerAnchorPairsMembers(doc: Document, n: nat, l: Link)
    requires n <= |doc|
    ensures l in MarkerAnchorPairs(doc, n) <==>
      exists i :: 0 <= i < n && IsMarkerAnchor(doc[i]) && l == AnchorLink(doc[i])
  {
    if n > 0 {
      MarkerAnchorPairsMembers(doc, n - 1, l);
    }
  }

  /** The pre-filter set is exactly the union of what the three passes find,
      so it does not depend on the order the passes run in. */
  lemma CandidatesMembers(doc: Document, l: Link)
    ensures l in Candidates(doc) <==>
      FromSection(doc, l) || FromClassAnchor(doc, l) || FromMarkerAnchor(doc, l)
  {
    SectionPassMembers(doc, SectionClasses, l);
    ClassAnchorPairsMembers(doc, |doc|, l);
    MarkerAnchorPairsMembers(doc, |doc|, l);
  }

  /** A detail page's links are exactly the pairs of the three passes that
      the filter keeps. */
  lemma ExtractedMembers(doc: Document, l: Link)
    ensures l in Extracted(doc) <==>
      Kept(l.url) && (FromSection(doc, l) || FromClassAnchor(doc, l) || FromMarkerAnchor(doc, l))
  {
    CandidatesMembers(doc, l);
  }

  /** A section div with no anchor before it gives a pair with the sentinel
      URL; that pair is found but never returned. */
  lemma SentinelFoundButDropped(doc: Document, i: nat)
    requires i < |doc| && IsAnySectionDiv(doc[i])
    requires NoneIn(doc, 0, i, IsHrefAnchor)
    ensures Link(Sentinel, doc[i].text) in Candidates(doc)
    ensures Link(Sentinel, doc[i].text) !in Extracted(doc)
  {
    CandidatesMembers(doc, Link(Sentinel, doc[i].text));
  }

  /** Pairs are kept by their exact (url, text) value: two anchors of class
      "dl" with the same kept URL and different texts give two links. */
  lemma SameUrlDifferentTexts(doc: Document, i: nat, j: nat)
    requires i < |doc| && j < |doc|
    requires IsClassAnchor(doc[i]) && IsClassAnchor(doc[j])
    requires doc[i].href == doc[j].href && Kept(doc[i].href.value)
    requires doc[i].text != doc[j].text
    ensures AnchorLink(doc[i]) in Extracted(doc) && AnchorLink(doc[j]) in Extracted(doc)
    ensures AnchorLink(doc[i]) != AnchorLink(doc[j])
  {
    ExtractedMembers(doc, AnchorLink(doc[i]));
    ExtractedMembers(doc, AnchorLink(doc[j]));
  }

  /** An anchor that both pass 2 and pass 3 select gives one pair, and a
      returned list that is distinct and holds exactly the page's links (as
      `GetDownloadLinks` promises) holds that pair at exactly one index when
      the filter keeps it. */
  lemma FoundTwiceListedOnce(doc: Document, i: nat, links: seq<Link>)
    requires i < |doc| && IsClassAnchor(doc[i]) && IsMarkerAnchor(doc[i])
    requires Kept(doc[i].href.value)
    requires Distinct(links) && forall l :: l in links <==> l in Extracted(doc)
    ensures AnchorLink(doc[i]) in ClassAnchorPairs(doc, |doc|) * MarkerAnchorPairs(doc, |doc|)
    ensures |set k | 0 <= k < |links| && links[k] == AnchorLink(doc[i])| == 1
  {
    var x := AnchorLink(doc[i]);
    ClassAnchorPairsMembers(doc, |doc|, x);
    MarkerAnchorPairsMembers(doc, |doc|, x);
    ExtractedMembers(doc, x);
    assert x in links;
    var k0 :| 0 <= k0 < |links| && links[k0] == x;
    assert (set k | 0 <= k < |links| && links[k] == x) == {k0};
  }

  /** A page with none of the three patterns yields no link, and no error. */
  lemma NoPatternsNoLinks(doc: Document)
    requires forall i :: 0 <= i < |doc| ==>
      !IsAnySectionDiv(doc[i]) && !IsClassAnchor(doc[i]) && !IsMarkerAnchor(doc[i])
    ensures Candidates(doc) == {}
    ensures Extracted(doc) == {}
  {
    forall l | l in Candidates(doc)
      ensures false
    {
      CandidatesMembers(doc, l);
    }
  }

  // ---------------------------------------------------------------------
  // The source's loops.

  /** The three passes of `get_download_links`, adding into one set. */
  method CollectLinks(doc: Document) returns (found: set<Link>)
    ensures found == Candidates(doc)
  {
    found := {};
    var names := SectionClasses;
    for c := 0 to |names|
      invariant found == SectionPass(doc, names[..c])
    {
      for i := 0 to |doc|
        invariant found == SectionPass(doc, names[..c]) + SectionPairs(doc, names[c], i)
      {
        if IsSectionDiv(doc[i], names[c]) {
          var link := FindLast(doc, i, IsHrefAnchor);
          if link.Some? {
            found := found + {Link(doc[link.value].href.value, doc[i].text)};
          } else {
            found := found + {Link(Sentinel, doc[i].text)};
          }
        }
      }
      assert names[..c + 1][..c] == names[..c];
    }
    assert names[..|names|] == names;
    ghost var afterSections := found;
    for i := 0 to |doc|
      invariant found == afterSections + ClassAnchorPairs(doc, i)
    {
      if IsHrefAnchor(doc[i]) && HasClass(doc[i], "dl") {
        found := found + {Link(doc[i].href.value, doc[i].text)};
      }
    }
    ghost var afterClassAnchors := found;
    for i := 0 to |doc|
      invariant found == afterClassAnchors + MarkerAnchorPairs(doc, i)
    {
      if IsHrefAnchor(doc[i]) {
        if Contains(doc[i].fullText, Marker) || Contains(GetOr(doc[i].align, ""), "center") {
          found := found + {Link(doc[i].href.value, doc[i].text)};
        }
      }
    }
  }

  /** The final comprehension: every pair of the set whose URL passes the
      filter, once each, in the set's (unspecified) iteration order. */
  method FilterLinks(found: set<Link>) returns (links: seq<Link>)
    ensures Distinct(links)
    ensures forall l :: l in links <==> l in found && Kept(l.url)
  {
    links := [];
    var rest := found;
    while rest != {}
      invariant rest <= found
      invariant Distinct(links)
      invariant forall l :: l in links <==> l in found - rest && Kept(l.url)
      decreases |rest|
    {
      var l :| l in rest;
      if Kept(l.url) {
        links := links + [l];
      }
      rest := rest - {l};
    }
  }

  /** `get_download_links`: fetch the detail page and extract its links; a
      status other than 200, a timeout or any error gives no link. */
  method GetDownloadLinks(fetch: Fetcher, url: string) returns (links: seq<Link>)
    ensures Distinct(links)
    ensures forall l :: l in links <==> l in DetailLinks(fetch, url)
    ensures forall l :: l in links ==> StartsWith(l.url, "http") && !Contains(l.url, Blacklisted)
  {
    var response := fetch(url);
    if response.Failed? {
      return [];
    }
    if response.status != 200 {
      return [];
    }
    var found := CollectLinks(response.body);
    links := FilterLinks(found);
  }
}
