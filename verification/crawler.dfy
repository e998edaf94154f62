/** The directory crawl over the incident archive: each listing page is a
    sequence of anchors; header anchors are discarded, the remaining links
    are matched against the keyword, and directory links are followed, with
    a year gate on deep directories.

    The archive is a parameter: `site` maps each URL that can be fetched to
    the anchors of its listing. A URL missing from `site` is a failed fetch,
    which the source treats as "no match, nothing to descend into".
 */
module Crawler {
  import opened Results
  import opened Strings
  import opened Keyword

  /** An `<a>` element: its rendered markup and its `href`, if any. */
  datatype Anchor = Anchor(markup: string, href: Option<string>)

  type Site = map<string, seq<Anchor>>

  /** `str(link.get('href'))`: a missing `href` renders as "None". */
  function HrefText(a: Anchor): string {
    match a.href
    case None => "None"
    case Some(h) => h
  }

  /** Column headers and the parent link of a directory listing. */
  predicate IsHeaderAnchor(a: Anchor) {
    || Contains(a.markup, "Parent Directory")
    || Contains(a.markup, "Name")
    || Contains(a.markup, "Size")
    || Contains(a.markup, "Last modified")
    || Contains(a.markup, "Description")
  }

  /** The listing without its header anchors, order kept. */
  function HeaderFree(anchors: seq<Anchor>): (r: seq<Anchor>)
    ensures |r| <= |anchors|
    ensures forall i :: 0 <= i < |r| ==> !IsHeaderAnchor(r[i])
    decreases |anchors|
  {
    if |anchors| == 0 then []
    else
      var last := anchors[|anchors| - 1];
      HeaderFree(anchors[..|anchors| - 1]) + (if IsHeaderAnchor(last) then [] else [last])
  }

  /** The filter keeps exactly the anchors that are not headers. */
  lemma {:induction false} HeaderFreeMembers(anchors: seq<Anchor>, a: Anchor)
    ensures a in HeaderFree(anchors) <==> a in anchors && !IsHeaderAnchor(a)
    decreases |anchors|
  {
    if |anchors| > 0 {
      var init := anchors[..|anchors| - 1];
      HeaderFreeMembers(init, a);
      assert anchors == init + [anchors[|anchors| - 1]];
    }
  }

  /** The filter keeps the remaining anchors in their listing order: it
      distributes over concatenation. */
  lemma {:induction false} HeaderFreeConcat(a: seq<Anchor>, b: seq<Anchor>)
    ensures HeaderFree(a + b) == HeaderFree(a) + HeaderFree(b)
    decreases |b|
  {
    if |b| == 0 {
      assert a + b == a;
    } else {
      var init := b[..|b| - 1];
      assert (a + b)[..|a + b| - 1] == a + init;
      assert (a + b)[|a + b| - 1] == b[|b| - 1];
      HeaderFreeConcat(a, init);
    }
  }

  /** `list.index(x)`: the position of the first element equal to `x`. */
  function FirstIndex(s: seq<Anchor>, x: Anchor): (i: nat)
    requires x in s
    ensures i < |s| && s[i] == x && x !in s[..i]
    decreases |s|
  {
    if s[0] == x then 0
    else
      var j := FirstIndex(s[1..], x);
      assert s[..j + 1] == [s[0]] + s[1..][..j];
      j + 1
  }

  /** `list.remove(x)`: drop the first element equal to `x`. */
  function RemoveFirst(s: seq<Anchor>, x: Anchor): (r: seq<Anchor>)
    requires x in s
    ensures |r| == |s| - 1
    ensures r == s[..FirstIndex(s, x)] + s[FirstIndex(s, x) + 1..]
    decreases |s|
  {
    if s[0] == x then s[1..]
    else
      var j := FirstIndex(s[1..], x);
      assert FirstIndex(s, x) == j + 1;
      var tail := RemoveFirst(s[1..], x);
      ConsSlices(s, j, tail);
      [s[0]] + tail
  }

  /** Putting the head back in front of a list cut around position `j` of
      the tail cuts the whole list around position `j + 1`. */
  lemma ConsSlices(s: seq<Anchor>, j: nat, tail: seq<Anchor>)
    requires j + 1 < |s|
    requires tail == s[1..][..j] + s[1..][j + 1..]
    ensures [s[0]] + tail == s[..j + 1] + s[j + 2..]
  {
    var r := [s[0]] + tail;
    forall k | 0 <= k < |r| ensures r[k] == (s[..j + 1] + s[j + 2..])[k] {
      if k > 0 {
        assert r[k] == tail[k - 1];
      }
    }
  }

  /** Removal takes exactly one copy of `x` out of the list. */
  lemma RemoveFirstCount(s: seq<Anchor>, x: Anchor)
    requires x in s
    ensures multiset(RemoveFirst(s, x)) == multiset(s) - multiset{x}
  {
    var i := FirstIndex(s, x);
    var before, after := s[..i], s[i + 1..];
    assert RemoveFirst(s, x) == before + after;
    SplitAround(s, i);
  }

  /** A list is the part before a position, that element, and the rest. */
  lemma SplitAround(s: seq<Anchor>, i: nat)
    requires i < |s|
    ensures multiset(s) == multiset(s[..i]) + multiset{s[i]} + multiset(s[i + 1..])
  {
    assert s == s[..i] + [s[i]] + s[i + 1..];
  }

  /** In `a + b`, the first `x` is the first `x` of `b` when `a` has none. */
  lemma FirstIndexAfter(a: seq<Anchor>, b: seq<Anchor>, x: Anchor)
    requires x !in a && x in b
    ensures FirstIndex(a + b, x) == |a| + FirstIndex(b, x)
  {
    var i := FirstIndex(a + b, x);
    var j := FirstIndex(b, x);
    assert (a + b)[|a| + j] == x;
  }

  /** Removal skips a prefix that does not hold the element. */
  lemma RemoveFirstAfter(a: seq<Anchor>, b: seq<Anchor>, x: Anchor)
    requires x !in a && x in b
    ensures RemoveFirst(a + b, x) == a + RemoveFirst(b, x)
  {
    FirstIndexAfter(a, b, x);
    PrependSlices(a, b, FirstIndex(b, x), RemoveFirst(a + b, x), RemoveFirst(b, x));
  }

  /** Cutting `a + b` around position `|a| + j` keeps `a` whole. */
  lemma PrependSlices(a: seq<Anchor>, b: seq<Anchor>, j: nat, whole: seq<Anchor>, part: seq<Anchor>)
    requires j < |b|
    requires whole == (a + b)[..|a| + j] + (a + b)[|a| + j + 1..]
    requires part == b[..j] + b[j + 1..]
    ensures whole == a + part
  {
    forall k | 0 <= k < |whole| ensures whole[k] == (a + part)[k] {
      if k >= |a| {
        assert (a + part)[k] == part[k - |a|];
      }
    }
  }

  /** One pass of the filtering loop keeps the loop's invariant: a header
      anchor is present in the copy, and removing its first occurrence
      removes the visited one. */
  lemma ExcludeStep(anchors: seq<Anchor>, i: nat, kept: seq<Anchor>)
    requires i < |anchors|
    requires kept == HeaderFree(anchors[..i]) + anchors[i..]
    ensures IsHeaderAnchor(anchors[i]) ==> anchors[i] in kept
    ensures IsHeaderAnchor(anchors[i]) ==>
              RemoveFirst(kept, anchors[i]) == HeaderFree(anchors[..i + 1]) + anchors[i + 1..]
    ensures !IsHeaderAnchor(anchors[i]) ==> kept == HeaderFree(anchors[..i + 1]) + anchors[i + 1..]
  {
    var link := anchors[i];
    var done := HeaderFree(anchors[..i]);
    var todo := anchors[i + 1..];
    assert anchors[..i + 1][..i] == anchors[..i];
    assert anchors[..i + 1][i] == link;
    assert anchors[i..] == [link] + todo;
    if IsHeaderAnchor(link) {
      assert HeaderFree(anchors[..i + 1]) == done;
      HeaderFreeMembers(anchors[..i], link);
      RemoveFirstAfter(done, [link] + todo, link);
      assert RemoveFirst([link] + todo, link) == todo;
    } else {
      assert HeaderFree(anchors[..i + 1]) == done + [link];
    }
  }

  /** The filtering loop: it walks the original listing and removes each
      header anchor from a copy. Equal anchors are equally headers, so the
      first equal element of the copy is always the one being visited, and
      the loop computes `HeaderFree`. */
  method ExcludeHeaderAnchors(anchors: seq<Anchor>) returns (kept: seq<Anchor>)
    ensures kept == HeaderFree(anchors)
  {
    kept := anchors;
    var i := 0;
    while i < |anchors|
      invariant 0 <= i <= |anchors|
      invariant kept == HeaderFree(anchors[..i]) + anchors[i..]
    {
      ExcludeStep(anchors, i, kept);
      if IsHeaderAnchor(anchors[i]) {
        kept := RemoveFirst(kept, anchors[i]);
      }
      i := i + 1;
    }
    assert anchors[..|anchors|] == anchors;
  }

  /** Every piece occurs in `text`. */
  predicate AllOccur(pieces: seq<string>, text: string) {
    forall p :: p in pieces ==> Contains(text, p)
  }

  /** The `counter_found` loop: how many pieces occur in `text`. */
  function CountFound(pieces: seq<string>, text: string): (n: nat)
    ensures n <= |pieces|
    ensures n == |pieces| <==> AllOccur(pieces, text)
    decreases |pieces|
  {
    if |pieces| == 0 then 0
    else
      var init := pieces[..|pieces| - 1];
      assert forall p :: p in pieces <==> p in init || p == pieces[|pieces| - 1];
      CountFound(init, text) + (if Contains(text, pieces[|pieces| - 1]) then 1 else 0)
  }

  /** One link against the keyword: the keyword occurs in the lower-cased
      `href`, or it holds "%20" and every piece between the "%20"s does. */
  function LinkMatches(keyword: string, a: Anchor): (b: bool)
    ensures b <==>
              || Contains(Lower(HrefText(a)), keyword)
              || (Contains(keyword, URL_SPACE) && AllOccur(Split(keyword, URL_SPACE), Lower(HrefText(a))))
  {
    var text := Lower(HrefText(a));
    if Contains(text, keyword) then true
    else if Contains(keyword, URL_SPACE) then
      var pieces := Split(keyword, URL_SPACE);
      CountFound(pieces, text) == |pieces|
    else false
  }

  /** The whole-keyword test is subsumed by the piece-wise one: a keyword
      holding "%20" matches exactly when each of its pieces occurs. */
  lemma PiecewiseMatch(keyword: string, a: Anchor)
    requires Contains(keyword, URL_SPACE)
    ensures LinkMatches(keyword, a) <==> AllOccur(Split(keyword, URL_SPACE), Lower(HrefText(a)))
  {
    var text := Lower(HrefText(a));
    if Contains(text, keyword) {
      SplitPiecesOccur(keyword, URL_SPACE);
      forall p | p in Split(keyword, URL_SPACE) ensures Contains(text, p) {
        ContainsTransitive(text, keyword, p);
      }
      assert LinkMatches(keyword, a);
    }
  }

  /** The scan of the filtered links, in order, stopping at the first match;
      a match counts only when no year was selected or the page URL holds
      the year. */
  function ScanLinks(links: seq<Anchor>, keyword: string, yearOk: bool): (found: bool)
    ensures found <==> yearOk && exists a :: a in links && LinkMatches(keyword, a)
    decreases |links|
  {
    if |links| == 0 then false
    else if LinkMatches(keyword, links[0]) && yearOk then true
    else
      assert forall a :: a in links ==> a == links[0] || a in links[1..];
      ScanLinks(links[1..], keyword, yearOk)
  }

  /** `searchForKeyword(pageURL, keyWord, selected_a_year, year_keyword)`
      on a fetched listing. An empty listing (before filtering) is no match;
      `SearchForKeywordMeaning` states the result exactly. */
  function SearchForKeyword(pageUrl: string, keyword: string, selectedYear: bool, year: string,
                            anchors: seq<Anchor>): (found: bool)
    ensures found ==> |anchors| > 0 && (!selectedYear || Contains(pageUrl, year))
  {
    if |anchors| == 0 then false
    else ScanLinks(HeaderFree(anchors), keyword, !selectedYear || Contains(pageUrl, year))
  }

  /** A page matches exactly when its listing is non-empty, the year gate
      passes, and some non-header link matches the keyword. */
  lemma SearchForKeywordMeaning(pageUrl: string, keyword: string, selectedYear: bool, year: string,
                                anchors: seq<Anchor>)
    ensures SearchForKeyword(pageUrl, keyword, selectedYear, year, anchors) <==>
              && |anchors| > 0
              && (!selectedYear || Contains(pageUrl, year))
              && exists a :: a in anchors && !IsHeaderAnchor(a) && LinkMatches(keyword, a)
  {
    HeaderFreeMatches(anchors, keyword);
  }

  lemma HeaderFreeMatches(anchors: seq<Anchor>, keyword: string)
    ensures (exists a :: a in HeaderFree(anchors) && LinkMatches(keyword, a)) <==>
            (exists a :: a in anchors && !IsHeaderAnchor(a) && LinkMatches(keyword, a))
  {
    forall a | a in anchors && !IsHeaderAnchor(a) ensures a in HeaderFree(anchors) {
      HeaderFreeMembers(anchors, a);
    }
    forall a | a in HeaderFree(anchors) ensures a in anchors && !IsHeaderAnchor(a) {
      HeaderFreeMembers(anchors, a);
    }
  }

  /** The descent rule for one filtered link: only directory links (ending
      in "/") are followed, and with a selected year a child URL with at
      least `depth` slashes is followed only if the link itself holds the
      year. */
  predicate Follows(pageUrl: string, a: Anchor, selectedYear: bool, year: string, depth: int) {
    var href := HrefText(a);
    && EndsWith(href, "/")
    && (!selectedYear || CountChar(pageUrl + href, '/') < depth || Contains(href, year))
  }

  /** The directories the crawl descends into from one page, in link order. */
  function ChildUrls(pageUrl: string, links: seq<Anchor>, selectedYear: bool, year: string, depth: int)
    : (urls: seq<string>)
    ensures |urls| <= |links|
    decreases |links|
  {
    if |links| == 0 then []
    else
      var rest := ChildUrls(pageUrl, links[1..], selectedYear, year, depth);
      (if Follows(pageUrl, links[0], selectedYear, year, depth) then [pageUrl + HrefText(links[0])] else []) + rest
  }

  /** Exactly the links the descent rule admits are followed. */
  lemma {:induction false} ChildUrlsExact(pageUrl: string, links: seq<Anchor>, selectedYear: bool,
                                          year: string, depth: int, u: string)
    ensures u in ChildUrls(pageUrl, links, selectedYear, year, depth) <==>
              exists a :: a in links && Follows(pageUrl, a, selectedYear, year, depth) && u == pageUrl + HrefText(a)
    decreases |links|
  {
    if |links| > 0 {
      ChildUrlsExact(pageUrl, links[1..], selectedYear, year, depth, u);
      assert forall a :: a in links <==> a == links[0] || a in links[1..];
    }
  }

  /** Every child URL extends its page's URL by a directory segment, and a
      child at `depth` slashes or more holds the year in that segment. */
  lemma ChildUrlsShape(pageUrl: string, links: seq<Anchor>, selectedYear: bool, year: string,
                       depth: int, u: string)
    requires u in ChildUrls(pageUrl, links, selectedYear, year, depth)
    ensures IsPrefix(pageUrl, u) && |u| > |pageUrl| && EndsWith(u, "/")
    ensures selectedYear && CountChar(u, '/') >= depth ==> Contains(u[|pageUrl|..], year)
  {
    ChildUrlsExact(pageUrl, links, selectedYear, year, depth, u);
    var a :| a in links && Follows(pageUrl, a, selectedYear, year, depth) && u == pageUrl + HrefText(a);
    var href := HrefText(a);
    assert u[..|pageUrl|] == pageUrl && u[|pageUrl|..] == href;
    assert u[|u| - 1] == href[|href| - 1];
  }

  /** What lies below a child directory lies below its page. */
  lemma PrefixThroughChild(pageUrl: string, links: seq<Anchor>, selectedYear: bool, year: string,
                           depth: int, child: string, u: string)
    requires child in ChildUrls(pageUrl, links, selectedYear, year, depth)
    requires IsPrefix(child, u)
    ensures IsPrefix(pageUrl, u)
  {
    ChildUrlsShape(pageUrl, links, selectedYear, year, depth, child);
    PrefixTransitive(pageUrl, child, u);
  }

  /** The page test the crawler applies to every URL it visits: the URL is
      fetchable and `searchForKeyword` holds for its listing. */
  function PageTest(site: Site, keyword: string, selectedYear: bool, year: string): string -> bool {
    u => u in site && SearchForKeyword(u, keyword, selectedYear, year, site[u])
  }

  /** The traversal of `crawler`, with the page test passed in: the URLs
      reported, in the order they are found (the page itself, then each
      followed directory depth-first). `fuel` bounds the recursion depth,
      which the source leaves to the finiteness of the archive. */
  function Crawl(site: Site, url: string, isMatch: string -> bool, selectedYear: bool, year: string,
                 depth: int, fuel: nat): (found: seq<string>)
    ensures forall u :: u in found ==> u in site
    decreases fuel, 0, 0
  {
    if url !in site then []
    else
      var here := if isMatch(url) then [url] else [];
      if fuel == 0 then here
      else
        var children := ChildUrls(url, HeaderFree(site[url]), selectedYear, year, depth);
        here + CrawlEach(site, children, isMatch, selectedYear, year, depth, fuel - 1)
  }

  /** The crawls of several sibling directories, one after the other. */
  function CrawlEach(site: Site, urls: seq<string>, isMatch: string -> bool, selectedYear: bool, year: string,
                     depth: int, fuel: nat): (found: seq<string>)
    ensures forall u :: u in found ==> u in site
    decreases fuel, 1, |urls|
  {
    if |urls| == 0 then []
    else
      Crawl(site, urls[0], isMatch, selectedYear, year, depth, fuel)
      + CrawlEach(site, urls[1..], isMatch, selectedYear, year, depth, fuel)
  }

  lemma CrawlEachUnfold(site: Site, urls: seq<string>, isMatch: string -> bool,
                        selectedYear: bool, year: string, depth: int, fuel: nat)
    requires |urls| > 0
    ensures CrawlEach(site, urls, isMatch, selectedYear, year, depth, fuel)
            == Crawl(site, urls[0], isMatch, selectedYear, year, depth, fuel)
               + CrawlEach(site, urls[1..], isMatch, selectedYear, year, depth, fuel)
  {
  }

  /** One step of the crawl: the page's own verdict, then its subtree. */
  lemma CrawlStep(site: Site, url: string, isMatch: string -> bool, selectedYear: bool,
                  year: string, depth: int, fuel: nat)
    requires url in site && fuel > 0
    ensures Crawl(site, url, isMatch, selectedYear, year, depth, fuel)
            == (if isMatch(url) then [url] else [])
               + CrawlEach(site, ChildUrls(url, HeaderFree(site[url]), selectedYear, year, depth),
                           isMatch, selectedYear, year, depth, fuel - 1)
  {
  }

  /** Whatever the crawls of sibling directories report comes from the
      crawl of one of them. */
  lemma {:induction false} CrawlEachMember(site: Site, urls: seq<string>, isMatch: string -> bool,
                                           selectedYear: bool, year: string, depth: int, fuel: nat, u: string)
      returns (i: int)
    requires u in CrawlEach(site, urls, isMatch, selectedYear, year, depth, fuel)
    ensures 0 <= i < |urls| && u in Crawl(site, urls[i], isMatch, selectedYear, year, depth, fuel)
    decreases |urls|
  {
    CrawlEachUnfold(site, urls, isMatch, selectedYear, year, depth, fuel);
    if u in Crawl(site, urls[0], isMatch, selectedYear, year, depth, fuel) {
      i := 0;
    } else {
      var j := CrawlEachMember(site, urls[1..], isMatch, selectedYear, year, depth, fuel, u);
      assert urls[1..][j] == urls[j + 1];
      i := j + 1;
    }
  }

  /** A reported URL is the page itself, when it passes the test, or is
      reported by the crawl of one of its child directories. */
  lemma CrawlMember(site: Site, url: string, isMatch: string -> bool, selectedYear: bool,
                    year: string, depth: int, fuel: nat, u: string) returns (child: string)
    requires u in Crawl(site, url, isMatch, selectedYear, year, depth, fuel)
    ensures url in site
    ensures (u == url && isMatch(url))
            || (fuel > 0
                && child in ChildUrls(url, HeaderFree(site[url]), selectedYear, year, depth)
                && u in Crawl(site, child, isMatch, selectedYear, year, depth, fuel - 1))
  {
    child := url;
    if fuel > 0 {
      CrawlStep(site, url, isMatch, selectedYear, year, depth, fuel);
      if !(u == url && isMatch(url)) {
        var children := ChildUrls(url, HeaderFree(site[url]), selectedYear, year, depth);
        var i := CrawlEachMember(site, children, isMatch, selectedYear, year, depth, fuel - 1, u);
        child := children[i];
      }
    }
  }

  /** Only pages passing the test are reported. */
  lemma {:induction false} CrawlSound(site: Site, url: string, isMatch: string -> bool, selectedYear: bool,
                                      year: string, depth: int, fuel: nat, u: string)
    requires u in Crawl(site, url, isMatch, selectedYear, year, depth, fuel)
    ensures isMatch(u)
    decreases fuel
  {
    var child := CrawlMember(site, url, isMatch, selectedYear, year, depth, fuel, u);
    if !(u == url && isMatch(url)) {
      CrawlSound(site, child, isMatch, selectedYear, year, depth, fuel - 1, u);
    }
  }

  /** Every reported URL lies below the URL the crawl started from. */
  lemma {:induction false} CrawlBelow(site: Site, url: string, isMatch: string -> bool, selectedYear: bool,
                                      year: string, depth: int, fuel: nat, u: string)
    requires u in Crawl(site, url, isMatch, selectedYear, year, depth, fuel)
    ensures IsPrefix(url, u)
    decreases fuel
  {
    var child := CrawlMember(site, url, isMatch, selectedYear, year, depth, fuel, u);
    if !(u == url && isMatch(url)) {
      CrawlBelow(site, child, isMatch, selectedYear, year, depth, fuel - 1, u);
      PrefixThroughChild(url, HeaderFree(site[url]), selectedYear, year, depth, child, u);
    } else {
      assert IsPrefix(u, u);
    }
  }

  /** Every report of a crawled sibling directory is kept. */
  lemma {:induction false} CrawlEachIncludes(site: Site, urls: seq<string>, i: int, u: string,
                                             isMatch: string -> bool, selectedYear: bool, year: string,
                                             depth: int, fuel: nat)
    requires 0 <= i < |urls|
    requires u in Crawl(site, urls[i], isMatch, selectedYear, year, depth, fuel)
    ensures u in CrawlEach(site, urls, isMatch, selectedYear, year, depth, fuel)
    decreases i
  {
    CrawlEachUnfold(site, urls, isMatch, selectedYear, year, depth, fuel);
    if i > 0 {
      assert urls[1..][i - 1] == urls[i];
      CrawlEachIncludes(site, urls[1..], i - 1, u, isMatch, selectedYear, year, depth, fuel);
    }
  }

  /** A page passing the test is reported first by its own crawl. */
  lemma CrawlReportsStart(site: Site, url: string, isMatch: string -> bool, selectedYear: bool,
                          year: string, depth: int, fuel: nat)
    requires url in site && isMatch(url)
    ensures var found := Crawl(site, url, isMatch, selectedYear, year, depth, fuel);
            |found| > 0 && found[0] == url
  {
    if fuel > 0 {
      CrawlStep(site, url, isMatch, selectedYear, year, depth, fuel);
    }
  }

  /** A non-header link the descent rule admits yields a child URL. */
  lemma FollowedLinkIsChild(url: string, anchors: seq<Anchor>, selectedYear: bool, year: string,
                            depth: int, a: Anchor)
    requires a in anchors && !IsHeaderAnchor(a)
    requires Follows(url, a, selectedYear, year, depth)
    ensures url + HrefText(a) in ChildUrls(url, HeaderFree(anchors), selectedYear, year, depth)
  {
    HeaderFreeMembers(anchors, a);
    ChildUrlsExact(url, HeaderFree(anchors), selectedYear, year, depth, url + HrefText(a));
  }

  /** From the fetchable page `from`, the crawl descends to `to`: some
      non-header link of its listing passes the descent rule, and `to` is the
      page URL extended by that link. */
  predicate Descends(site: Site, from: string, to: string, selectedYear: bool, year: string, depth: int) {
    && from in site
    && exists a :: a in site[from] && !IsHeaderAnchor(a) && Follows(from, a, selectedYear, year, depth)
                   && to == from + HrefText(a)
  }

  /** A chain of fetchable pages, each descended to from the one before. */
  predicate IsPath(site: Site, path: seq<string>, selectedYear: bool, year: string, depth: int) {
    && |path| > 0
    && (forall i :: 0 <= i < |path| ==> path[i] in site)
    && (forall i :: 0 <= i < |path| - 1 ==> Descends(site, path[i], path[i + 1], selectedYear, year, depth))
  }

  /** `u` is reached from `url` through at most `steps` descents. */
  ghost predicate Reaches(site: Site, url: string, u: string, selectedYear: bool, year: string, depth: int,
                    steps: nat) {
    exists path :: && IsPath(site, path, selectedYear, year, depth)
                   && path[0] == url && path[|path| - 1] == u && |path| <= steps + 1
  }

  /** Every page reached within the fuel that passes the test is reported:
      the crawl misses nothing the descent rule lets it reach. */
  lemma {:induction false} CrawlComplete(site: Site, path: seq<string>, isMatch: string -> bool,
                                         selectedYear: bool, year: string, depth: int, fuel: nat)
    requires IsPath(site, path, selectedYear, year, depth)
    requires |path| <= fuel + 1
    requires isMatch(path[|path| - 1])
    ensures path[|path| - 1] in Crawl(site, path[0], isMatch, selectedYear, year, depth, fuel)
    decreases |path|
  {
    var url, u := path[0], path[|path| - 1];
    if |path| == 1 {
      CrawlReportsStart(site, url, isMatch, selectedYear, year, depth, fuel);
    } else {
      var rest := PathTail(site, path, selectedYear, year, depth);
      CrawlComplete(site, rest, isMatch, selectedYear, year, depth, fuel - 1);
      DescendsIsChild(site, url, path[1], selectedYear, year, depth);
      CrawlThroughChild(site, url, path[1], isMatch, selectedYear, year, depth, fuel, u);
    }
  }

  /** A path without its first page is a path. */
  lemma PathTail(site: Site, path: seq<string>, selectedYear: bool, year: string, depth: int)
      returns (rest: seq<string>)
    requires IsPath(site, path, selectedYear, year, depth) && |path| > 1
    ensures rest == path[1..]
    ensures IsPath(site, rest, selectedYear, year, depth)
    ensures rest[0] == path[1] && rest[|rest| - 1] == path[|path| - 1]
  {
    rest := path[1..];
    forall i | 0 <= i < |rest| - 1
      ensures Descends(site, rest[i], rest[i + 1], selectedYear, year, depth)
    {
      assert rest[i] == path[i + 1] && rest[i + 1] == path[i + 2];
    }
  }

  /** Descending from a page is visiting one of its child URLs. */
  lemma DescendsIsChild(site: Site, url: string, v: string, selectedYear: bool, year: string, depth: int)
    requires Descends(site, url, v, selectedYear, year, depth)
    ensures v in ChildUrls(url, HeaderFree(site[url]), selectedYear, year, depth)
  {
    var a :| a in site[url] && !IsHeaderAnchor(a) && Follows(url, a, selectedYear, year, depth)
             && v == url + HrefText(a);
    FollowedLinkIsChild(url, site[url], selectedYear, year, depth, a);
  }

  /** What the crawl of a child directory reports, the crawl of its page
      reports too, given fuel to descend. */
  lemma CrawlThroughChild(site: Site, url: string, child: string, isMatch: string -> bool,
                          selectedYear: bool, year: string, depth: int, fuel: nat, u: string)
    requires url in site && fuel > 0
    requires child in ChildUrls(url, HeaderFree(site[url]), selectedYear, year, depth)
    requires u in Crawl(site, child, isMatch, selectedYear, year, depth, fuel - 1)
    ensures u in Crawl(site, url, isMatch, selectedYear, year, depth, fuel)
  {
    var children := ChildUrls(url, HeaderFree(site[url]), selectedYear, year, depth);
    var i :| 0 <= i < |children| && children[i] == child;
    CrawlEachIncludes(site, children, i, u, isMatch, selectedYear, year, depth, fuel - 1);
    CrawlStep(site, url, isMatch, selectedYear, year, depth, fuel);
  }

  /** Every reported URL is reached from the start within the fuel, along
      the path the crawl took to it. */
  lemma {:induction false} CrawlPath(site: Site, url: string, isMatch: string -> bool, selectedYear: bool,
                                     year: string, depth: int, fuel: nat, u: string) returns (path: seq<string>)
    requires u in Crawl(site, url, isMatch, selectedYear, year, depth, fuel)
    ensures IsPath(site, path, selectedYear, year, depth)
    ensures path[0] == url && path[|path| - 1] == u && |path| <= fuel + 1
    decreases fuel
  {
    var child := CrawlMember(site, url, isMatch, selectedYear, year, depth, fuel, u);
    if u == url && isMatch(url) {
      path := [url];
    } else {
      var tail := CrawlPath(site, child, isMatch, selectedYear, year, depth, fuel - 1, u);
      ChildDescends(site, url, child, selectedYear, year, depth);
      path := PathCons(site, url, tail, selectedYear, year, depth);
    }
  }

  /** Visiting a child URL of a fetchable page is descending from it. */
  lemma ChildDescends(site: Site, url: string, child: string, selectedYear: bool, year: string, depth: int)
    requires url in site
    requires child in ChildUrls(url, HeaderFree(site[url]), selectedYear, year, depth)
    ensures Descends(site, url, child, selectedYear, year, depth)
  {
    ChildUrlsExact(url, HeaderFree(site[url]), selectedYear, year, depth, child);
    var a :| a in HeaderFree(site[url]) && Follows(url, a, selectedYear, year, depth)
             && child == url + HrefText(a);
    HeaderFreeMembers(site[url], a);
  }

  /** A descent followed by a path is a path. */
  lemma PathCons(site: Site, url: string, tail: seq<string>, selectedYear: bool, year: string, depth: int)
      returns (path: seq<string>)
    requires IsPath(site, tail, selectedYear, year, depth)
    requires Descends(site, url, tail[0], selectedYear, year, depth)
    ensures path == [url] + tail
    ensures IsPath(site, path, selectedYear, year, depth)
  {
    path := [url] + tail;
    forall i | 0 <= i < |path| - 1
      ensures Descends(site, path[i], path[i + 1], selectedYear, year, depth)
    {
      if i > 0 {
        assert path[i] == tail[i - 1] && path[i + 1] == tail[i];
      }
    }
  }

  /** The crawl reports exactly the pages passing the test that are reached
      from the start within the fuel. */
  lemma CrawlExact(site: Site, url: string, isMatch: string -> bool, selectedYear: bool,
                   year: string, depth: int, fuel: nat, u: string)
    ensures u in Crawl(site, url, isMatch, selectedYear, year, depth, fuel) <==>
              isMatch(u) && Reaches(site, url, u, selectedYear, year, depth, fuel)
  {
    if u in Crawl(site, url, isMatch, selectedYear, year, depth, fuel) {
      CrawlSound(site, url, isMatch, selectedYear, year, depth, fuel, u);
      var path := CrawlPath(site, url, isMatch, selectedYear, year, depth, fuel, u);
    }
    if isMatch(u) && Reaches(site, url, u, selectedYear, year, depth, fuel) {
      var path :| && IsPath(site, path, selectedYear, year, depth)
                  && path[0] == url && path[|path| - 1] == u && |path| <= fuel + 1;
      CrawlComplete(site, path, isMatch, selectedYear, year, depth, fuel);
    }
  }

  /** `crawler(currPageURL, keyword, depth, selected_a_year, year_keyword)`:
      the crawl with `searchForKeyword` as the page test. It reports exactly
      the matching pages reached from the start URL, all of them below it. */
  function Crawler(site: Site, url: string, keyword: string, selectedYear: bool, year: string,
                   depth: int, fuel: nat): (found: seq<string>)
    ensures forall u :: u in found <==>
              && u in site
              && SearchForKeyword(u, keyword, selectedYear, year, site[u])
              && Reaches(site, url, u, selectedYear, year, depth, fuel)
    ensures forall u :: u in found ==> IsPrefix(url, u)
  {
    var isMatch := PageTest(site, keyword, selectedYear, year);
    var found := Crawl(site, url, isMatch, selectedYear, year, depth, fuel);
    forall u ensures u in found <==> isMatch(u) && Reaches(site, url, u, selectedYear, year, depth, fuel) {
      CrawlExact(site, url, isMatch, selectedYear, year, depth, fuel, u);
    }
    forall u | u in found ensures IsPrefix(url, u) {
      CrawlBelow(site, url, isMatch, selectedYear, year, depth, fuel, u);
    }
    found
  }

  /** `callerCrawler` end to end with a keyword: the argument checks, then
      the crawl from the start URL. The caller always sets the year flag, so
      every reported URL holds the year. */
  function CallerSearch(site: Site, keyword: string, gacc: string, year: string, depth: int, fuel: nat)
    : (r: Result<seq<string>, SetupError>)
    ensures r.Err? <==> CallerCrawler(Some(keyword), gacc, year, depth).Err?
    ensures r.Err? ==> r.error == CallerCrawler(Some(keyword), gacc, year, depth).error
    ensures r.Ok? ==> forall u :: u in r.value <==>
              && u in site
              && SearchForKeyword(u, NormalizeKeyword(keyword), true, year, site[u])
              && Reaches(site, StartUrl(gacc).value, u, true, year, depth, fuel)
    ensures r.Ok? ==> forall u :: u in r.value ==>
              && IsPrefix(ROOT_URL, u)
              && Contains(u, year)
              && exists a :: a in site[u] && !IsHeaderAnchor(a) && LinkMatches(NormalizeKeyword(keyword), a)
  {
    match CallerCrawler(Some(keyword), gacc, year, depth)
    case Err(e) => Err(e)
    case Ok(plan) =>
      var found := Crawler(site, plan.startUrl, plan.keyword.value, true, year, depth, fuel);
      forall u | u in found
        ensures IsPrefix(ROOT_URL, u) && Contains(u, year)
        ensures exists a :: a in site[u] && !IsHeaderAnchor(a) && LinkMatches(NormalizeKeyword(keyword), a)
      {
        PrefixTransitive(ROOT_URL, plan.startUrl, u);
        SearchForKeywordMeaning(u, plan.keyword.value, true, year, site[u]);
      }
      Ok(found)
  }
}
