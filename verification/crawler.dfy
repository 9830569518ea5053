/** The site crawler of x.js (`captureAccessibilityTrees` and its inner
    `visitPage`): a recursive pre-order depth-first traversal over link targets,
    deduplicated by a visited set that only grows and scoped by a substring test
    against the start URL. The browser is replaced by an abstract site map. */
module Crawler {
  import Strings

  type Url = string

  /** A page's accessibility snapshot; its contents are opaque to the crawler. */
  type Snapshot = string

  /** What the browser does when the crawler opens a URL. */
  datatype Page =
    /** `goto` and `snapshot` succeed; the rendered anchors have these `href`s, in DOM order. */
    | Links(tree: Snapshot, targets: seq<Url>)
    /** `goto` and `snapshot` succeed but extracting the anchors throws. */
    | SnapshotOnly(tree: Snapshot)
    /** `goto` or `snapshot` throws. */
    | Fails

  /** The web as the crawler sees it. */
  type Site = map<Url, Page>

  /** One entry of the crawl result: `{ url, accessibilityTree }`. */
  datatype Record = Record(url: Url, tree: Snapshot)

  /** The crawl's mutable state, threaded through the recursion. */
  datatype CrawlState = CrawlState(visited: set<Url>, records: seq<Record>)

  /** The page behind a URL; a URL the site does not know fails to load. */
  function PageAt(site: Site, url: Url): Page
  {
    if url in site then site[url] else Fails
  }

  /** The same-site filter: `url.includes(startUrl)`. */
  predicate InScope(root: Url, url: Url)
  {
    Strings.Includes(url, root)
  }

  /** The number of known pages not yet visited: the crawl's termination measure. */
  function Unvisited(site: Site, visited: set<Url>): nat
  {
    |site.Keys - visited|
  }

  /** Marking more URLs visited never increases the unvisited count. */
  lemma UnvisitedShrinks(site: Site, visited: set<Url>, visited': set<Url>)
    requires visited <= visited'
    ensures Unvisited(site, visited') <= Unvisited(site, visited)
  {
    SubsetSize(site.Keys - visited', site.Keys - visited);
  }

  /** A subset is no larger than its superset. */
  lemma {:induction false} SubsetSize<T>(a: set<T>, b: set<T>)
    requires a <= b
    ensures |a| <= |b|
    decreases |a|
  {
    if a != {} {
      var x :| x in a;
      SubsetSize(a - {x}, b - {x});
    }
  }

  /** Marking a known, unvisited page visited strictly decreases the unvisited count. */
  lemma UnvisitedDrops(site: Site, visited: set<Url>, url: Url)
    requires url in site && url !in visited
    ensures Unvisited(site, visited + {url}) < Unvisited(site, visited)
  {
    assert site.Keys - visited == (site.Keys - (visited + {url})) + {url};
  }

  /** `visitPage(url)`: skip a visited or off-site URL; otherwise mark it visited
      before navigating, record its snapshot, then visit its links in order.
      A failure anywhere in the page's own work is caught and ends only this call. */
  function Visit(site: Site, root: Url, url: Url, st: CrawlState): (r: CrawlState)
    ensures st.visited <= r.visited
    ensures |st.records| <= |r.records| && r.records[..|st.records|] == st.records
    decreases Unvisited(site, st.visited), 0
  {
    if url in st.visited || !InScope(root, url) then st
    else
      var marked := st.(visited := st.visited + {url});
      match PageAt(site, url)
      case Fails => marked
      case SnapshotOnly(tree) => marked.(records := st.records + [Record(url, tree)])
      case Links(tree, targets) =>
        UnvisitedDrops(site, st.visited, url);
        VisitLinks(site, root, targets, marked.(records := st.records + [Record(url, tree)]))
  }

  /** The `for (const link of links)` loop of `visitPage`: each link not yet
      visited at its turn is visited, in the order listed. */
  function VisitLinks(site: Site, root: Url, links: seq<Url>, st: CrawlState): (r: CrawlState)
    ensures st.visited <= r.visited
    ensures |st.records| <= |r.records| && r.records[..|st.records|] == st.records
    decreases Unvisited(site, st.visited), 1, |links|
  {
    if links == [] then st
    else
      var next := if links[0] in st.visited then st else Visit(site, root, links[0], st);
      UnvisitedShrinks(site, st.visited, next.visited);
      VisitLinks(site, root, links[1..], next)
  }

  /** `captureAccessibilityTrees(browser, startUrl)`: the records of a crawl from
      the start URL with nothing visited yet. The start URL always passes the
      same-site test, so the result is empty exactly when its page fails to
      load, and otherwise opens with its record. */
  function Crawl(site: Site, root: Url): (records: seq<Record>)
    ensures records == [] <==> PageAt(site, root).Fails?
    ensures records != [] ==> records[0] == Record(root, PageAt(site, root).tree)
  {
    Strings.IncludesSelf(root);
    var r := Visit(site, root, root, CrawlState({}, []));
    assert {} + {root} == {root};
    assert forall rec: Record :: [] + [rec] == [rec];
    assert PageAt(site, root).Links? ==>
      r == VisitLinks(site, root, PageAt(site, root).targets,
                      CrawlState({root}, [Record(root, PageAt(site, root).tree)]));
    r.records
  }
}
