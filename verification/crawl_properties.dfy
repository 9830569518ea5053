/** What the crawl of x.js guarantees: deduplication, same-site scoping,
    faithful snapshots, failure isolation, closure under links, discovery order and depth-first order. */
module CrawlProperties {
  import opened Crawler
  import Strings

  /** The URLs that have a record. */
  function Urls(records: seq<Record>): set<Url>
  {
    set i | 0 <= i < |records| :: records[i].url
  }

  lemma UrlsAppend(records: seq<Record>, rec: Record)
    ensures Urls(records + [rec]) == Urls(records) + {rec.url}
  {
    var rs := records + [rec];
    assert rs[|records|] == rec;
    forall u | u in Urls(records)
      ensures u in Urls(rs)
    {
      var i :| 0 <= i < |records| && records[i].url == u;
      assert rs[i] == records[i];
    }
  }

  // ---------------------------------------------------------------------------
  // Consistency: scoping, deduplication, faithful records, visited accounting

  /** Every visited URL passed the same-site test. */
  ghost predicate ScopedVisits(root: Url, st: CrawlState)
  {
    forall u :: u in st.visited ==> InScope(root, u)
  }

  /** No URL is recorded twice. */
  ghost predicate DistinctUrls(records: seq<Record>)
  {
    forall i, j :: 0 <= i < j < |records| ==> records[i].url != records[j].url
  }

  /** Each record holds the snapshot of a page that loaded. */
  ghost predicate FaithfulRecords(site: Site, records: seq<Record>)
  {
    forall i :: 0 <= i < |records| ==>
      !PageAt(site, records[i].url).Fails? && records[i].tree == PageAt(site, records[i].url).tree
  }

  /** The visited URLs are exactly the recorded ones plus those whose page failed to load. */
  ghost predicate Accounted(site: Site, st: CrawlState)
  {
    && Urls(st.records) <= st.visited
    && forall u :: u in st.visited ==> (u in Urls(st.records) <==> !PageAt(site, u).Fails?)
  }

  ghost predicate Consistent(site: Site, root: Url, st: CrawlState)
  {
    && ScopedVisits(root, st)
    && DistinctUrls(st.records)
    && FaithfulRecords(site, st.records)
    && Accounted(site, st)
  }

  /** Recording a freshly visited, loadable page keeps the state consistent. */
  lemma RecordFresh(site: Site, root: Url, url: Url, st: CrawlState)
    requires Consistent(site, root, st)
    requires url !in st.visited && InScope(root, url) && !PageAt(site, url).Fails?
    ensures Consistent(site, root,
              CrawlState(st.visited + {url}, st.records + [Record(url, PageAt(site, url).tree)]))
  {
    var rec := Record(url, PageAt(site, url).tree);
    var rs := st.records + [rec];
    UrlsAppend(st.records, rec);
    assert url !in Urls(st.records);
    forall i, j | 0 <= i < j < |rs|
      ensures rs[i].url != rs[j].url
    {
      if j == |st.records| {
        assert rs[i].url in Urls(st.records);
      }
    }
  }

  lemma {:induction false} VisitConsistent(site: Site, root: Url, url: Url, st: CrawlState)
    requires Consistent(site, root, st)
    ensures Consistent(site, root, Visit(site, root, url, st))
    decreases Unvisited(site, st.visited), 0
  {
    if url in st.visited || !InScope(root, url) {
    } else {
      match PageAt(site, url)
      case Fails =>
        assert url !in Urls(st.records);
      case SnapshotOnly(tree) =>
        RecordFresh(site, root, url, st);
      case Links(tree, targets) =>
        RecordFresh(site, root, url, st);
        UnvisitedDrops(site, st.visited, url);
        VisitLinksConsistent(site, root, targets,
          CrawlState(st.visited + {url}, st.records + [Record(url, tree)]));
    }
  }

  lemma {:induction false} VisitLinksConsistent(site: Site, root: Url, links: seq<Url>, st: CrawlState)
    requires Consistent(site, root, st)
    ensures Consistent(site, root, VisitLinks(site, root, links, st))
    decreases Unvisited(site, st.visited), 1, |links|
  {
    if links != [] {
      var next := if links[0] in st.visited then st else Visit(site, root, links[0], st);
      if links[0] !in st.visited {
        VisitConsistent(site, root, links[0], st);
      }
      UnvisitedShrinks(site, st.visited, next.visited);
      VisitLinksConsistent(site, root, links[1..], next);
    }
  }

  // ---------------------------------------------------------------------------
  // Closure under links: every same-site link of a recorded page gets visited

  /** If `u` rendered links, each of its same-site targets is visited. */
  ghost predicate Covered(site: Site, root: Url, u: Url, visited: set<Url>)
  {
    PageAt(site, u).Links? ==>
      forall l :: l in PageAt(site, u).targets && InScope(root, l) ==> l in visited
  }

  /** Every record from index `from` on is covered in `st`. */
  ghost predicate CoveredFrom(site: Site, root: Url, from: nat, st: CrawlState)
  {
    forall i :: from <= i < |st.records| ==> Covered(site, root, st.records[i].url, st.visited)
  }

  lemma {:induction false} VisitCovers(site: Site, root: Url, url: Url, st: CrawlState)
    ensures var r := Visit(site, root, url, st);
      && (InScope(root, url) ==> url in r.visited)
      && CoveredFrom(site, root, |st.records|, r)
    decreases Unvisited(site, st.visited), 0
  {
    if url in st.visited || !InScope(root, url) {
    } else {
      match PageAt(site, url)
      case Fails =>
      case SnapshotOnly(tree) =>
      case Links(tree, targets) =>
        var st' := CrawlState(st.visited + {url}, st.records + [Record(url, tree)]);
        UnvisitedDrops(site, st.visited, url);
        VisitLinksCovers(site, root, targets, st');
        var r := VisitLinks(site, root, targets, st');
        assert r.records[|st.records|] == st'.records[|st.records|];
    }
  }

  lemma {:induction false} VisitLinksCovers(site: Site, root: Url, links: seq<Url>, st: CrawlState)
    ensures var r := VisitLinks(site, root, links, st);
      && (forall l :: l in links && InScope(root, l) ==> l in r.visited)
      && CoveredFrom(site, root, |st.records|, r)
    decreases Unvisited(site, st.visited), 1, |links|
  {
    if links != [] {
      var next := if links[0] in st.visited then st else Visit(site, root, links[0], st);
      if links[0] !in st.visited {
        VisitCovers(site, root, links[0], st);
      }
      UnvisitedShrinks(site, st.visited, next.visited);
      VisitLinksCovers(site, root, links[1..], next);
      var r := VisitLinks(site, root, links[1..], next);
      forall i | |st.records| <= i < |r.records|
        ensures Covered(site, root, r.records[i].url, r.visited)
      {
        if i < |next.records| {
          assert r.records[i] == next.records[i];
          assert Covered(site, root, next.records[i].url, next.visited);
        }
      }
      forall l | l in links && InScope(root, l)
        ensures l in r.visited
      {
        if l != links[0] {
          assert l in links[1..];
        }
      }
    }
  }

  // ---------------------------------------------------------------------------
  // Discovery order: the root comes first and every later record was reached
  // from an earlier one

  /** `from` rendered a link to `to`. */
  ghost predicate LinksTo(site: Site, from: Url, to: Url)
  {
    PageAt(site, from).Links? && to in PageAt(site, from).targets
  }

  /** Some record in `records` is a page that links to `u`. */
  ghost predicate LinkedFrom(site: Site, records: seq<Record>, u: Url)
  {
    exists j :: 0 <= j < |records| && LinksTo(site, records[j].url, u)
  }

  /** Discovery order: the first record is the start URL's and each other
      record is reached through a link of a page recorded before it. A
      breadth-first order has this shape too; depth-first order is what
      `VisitSubtree` and `VisitLinksAppend` add. */
  ghost predicate DiscoveryOrder(site: Site, root: Url, records: seq<Record>)
  {
    && (|records| > 0 ==> records[0].url == root)
    && forall i :: 0 < i < |records| ==> LinkedFrom(site, records[..i], records[i].url)
  }

  lemma LinkedFromPrefix(site: Site, records: seq<Record>, records': seq<Record>, u: Url)
    requires |records| <= |records'| && records'[..|records|] == records
    requires LinkedFrom(site, records, u)
    ensures LinkedFrom(site, records', u)
  {
  }

  lemma {:induction false} VisitDiscoveryOrder(site: Site, root: Url, url: Url, st: CrawlState)
    requires DiscoveryOrder(site, root, st.records)
    requires if st.records == [] then url == root else LinkedFrom(site, st.records, url)
    ensures DiscoveryOrder(site, root, Visit(site, root, url, st).records)
    decreases Unvisited(site, st.visited), 0
  {
    if url in st.visited || !InScope(root, url) {
    } else if !PageAt(site, url).Fails? {
      var rec := Record(url, PageAt(site, url).tree);
      var rs := st.records + [rec];
      forall i | 0 < i < |rs|
        ensures LinkedFrom(site, rs[..i], rs[i].url)
      {
        if i < |st.records| {
          assert rs[..i] == st.records[..i];
        } else {
          assert rs[..i] == st.records;
        }
      }
      if PageAt(site, url).Links? {
        var targets := PageAt(site, url).targets;
        forall l | l in targets
          ensures LinkedFrom(site, rs, l)
        {
          assert LinksTo(site, rs[|st.records|].url, l);
        }
        UnvisitedDrops(site, st.visited, url);
        VisitLinksDiscoveryOrder(site, root, targets, CrawlState(st.visited + {url}, rs));
      }
    }
  }

  lemma {:induction false} VisitLinksDiscoveryOrder(site: Site, root: Url, links: seq<Url>, st: CrawlState)
    requires DiscoveryOrder(site, root, st.records) && st.records != []
    requires forall l :: l in links ==> LinkedFrom(site, st.records, l)
    ensures DiscoveryOrder(site, root, VisitLinks(site, root, links, st).records)
    decreases Unvisited(site, st.visited), 1, |links|
  {
    if links != [] {
      var next := if links[0] in st.visited then st else Visit(site, root, links[0], st);
      if links[0] !in st.visited {
        VisitDiscoveryOrder(site, root, links[0], st);
      }
      forall l | l in links[1..]
        ensures LinkedFrom(site, next.records, l)
      {
        LinkedFromPrefix(site, st.records, next.records, l);
      }
      UnvisitedShrinks(site, st.visited, next.visited);
      VisitLinksDiscoveryOrder(site, root, links[1..], next);
    }
  }

  // ---------------------------------------------------------------------------
  // Depth-first: links in the order listed, each link's whole visit before the next

  /** Some record in `a` or in `b` linking to `u` is a record in `a + b` linking to it. */
  lemma LinkedFromConcat(site: Site, a: seq<Record>, b: seq<Record>, u: Url)
    requires LinkedFrom(site, a, u) || LinkedFrom(site, b, u)
    ensures LinkedFrom(site, a + b, u)
  {
    if LinkedFrom(site, a, u) {
      var j :| 0 <= j < |a| && LinksTo(site, a[j].url, u);
      assert (a + b)[j] == a[j];
    } else {
      var j :| 0 <= j < |b| && LinksTo(site, b[j].url, u);
      assert (a + b)[|a| + j] == b[j];
    }
  }

  /** The link loop over `a + b` is the loop over `a` followed by the loop over
      `b` from where it left off: links are taken in the order listed, and every
      visit started from a link ends before the next link is looked at. */
  lemma {:induction false} VisitLinksAppend(site: Site, root: Url, a: seq<Url>, b: seq<Url>, st: CrawlState)
    ensures VisitLinks(site, root, a + b, st) == VisitLinks(site, root, b, VisitLinks(site, root, a, st))
    decreases |a|
  {
    if a == [] {
      assert a + b == b;
    } else {
      assert (a + b)[0] == a[0];
      assert (a + b)[1..] == a[1..] + b;
      var next := if a[0] in st.visited then st else Visit(site, root, a[0], st);
      VisitLinksAppend(site, root, a[1..], b, next);
    }
  }

  /** Every record of `seg` is either one of `links` or reached through a link
      of a record before it in `seg`. */
  ghost predicate Forest(site: Site, links: seq<Url>, seg: seq<Record>)
  {
    forall i :: 0 <= i < |seg| ==> seg[i].url in links || LinkedFrom(site, seg[..i], seg[i].url)
  }

  /** The records one visit appends form that URL's subtree: they start with
      the URL's own record, and each later one is reached through a link of a
      page recorded earlier in the same visit. */
  lemma {:induction false} VisitSubtree(site: Site, root: Url, url: Url, st: CrawlState)
    ensures var r := Visit(site, root, url, st);
      DiscoveryOrder(site, url, r.records[|st.records|..])
    decreases Unvisited(site, st.visited), 0
  {
    var r := Visit(site, root, url, st);
    if url !in st.visited && InScope(root, url) && PageAt(site, url).Links? {
      var rec := Record(url, PageAt(site, url).tree);
      var targets := PageAt(site, url).targets;
      var st' := CrawlState(st.visited + {url}, st.records + [rec]);
      UnvisitedDrops(site, st.visited, url);
      VisitLinksForest(site, root, targets, st');
      var seg := r.records[|st.records|..];
      var seg' := r.records[|st'.records|..];
      assert seg == [rec] + seg';
      forall i | 0 < i < |seg|
        ensures LinkedFrom(site, seg[..i], seg[i].url)
      {
        assert seg[..i] == [rec] + seg'[..i - 1];
        assert seg[i] == seg'[i - 1];
        if seg'[i - 1].url in targets {
          assert LinksTo(site, seg[..i][0].url, seg[i].url);
        } else {
          LinkedFromConcat(site, [rec], seg'[..i - 1], seg[i].url);
        }
      }
    }
  }

  lemma {:induction false} VisitLinksForest(site: Site, root: Url, links: seq<Url>, st: CrawlState)
    ensures var r := VisitLinks(site, root, links, st);
      Forest(site, links, r.records[|st.records|..])
    decreases Unvisited(site, st.visited), 1, |links|
  {
    if links != [] {
      var next := if links[0] in st.visited then st else Visit(site, root, links[0], st);
      if links[0] !in st.visited {
        VisitSubtree(site, root, links[0], st);
      }
      UnvisitedShrinks(site, st.visited, next.visited);
      VisitLinksForest(site, root, links[1..], next);
      var r := VisitLinks(site, root, links[1..], next);
      var seg1 := next.records[|st.records|..];
      var seg2 := r.records[|next.records|..];
      var seg := r.records[|st.records|..];
      assert seg == seg1 + seg2 by {
        assert r.records[..|next.records|] == next.records;
      }
      ForestJoin(site, links, seg1, seg2);
    }
  }

  /** A subtree of the first link followed by a forest of the remaining links
      is a forest of all the links. */
  lemma ForestJoin(site: Site, links: seq<Url>, seg1: seq<Record>, seg2: seq<Record>)
    requires links != []
    requires DiscoveryOrder(site, links[0], seg1)
    requires Forest(site, links[1..], seg2)
    ensures Forest(site, links, seg1 + seg2)
  {
    var seg := seg1 + seg2;
    forall i | 0 <= i < |seg|
      ensures seg[i].url in links || LinkedFrom(site, seg[..i], seg[i].url)
    {
      if i < |seg1| {
        assert seg[i] == seg1[i] && seg[..i] == seg1[..i];
      } else {
        var k := i - |seg1|;
        assert seg[i] == seg2[k] && seg[..i] == seg1 + seg2[..k];
        if seg2[k].url in links[1..] {
          assert seg2[k].url in links;
        } else {
          LinkedFromConcat(site, seg1, seg2[..k], seg[i].url);
        }
      }
    }
  }

  // ---------------------------------------------------------------------------
  // One visit

  /** A visited or off-site URL is skipped: nothing changes. */
  lemma VisitSkips(site: Site, root: Url, url: Url, st: CrawlState)
    requires url in st.visited || !InScope(root, url)
    ensures Visit(site, root, url, st) == st
  {
  }

  /** A fresh same-site URL is marked visited before the browser is asked for
      it: a page that fails to load leaves only that mark; a page whose links
      cannot be read leaves its record and nothing else; a page with links has
      its record placed before every record reached through them. */
  lemma VisitFresh(site: Site, root: Url, url: Url, st: CrawlState)
    requires url !in st.visited && InScope(root, url)
    ensures var r := Visit(site, root, url, st);
      && url in r.visited
      && (PageAt(site, url).Fails? ==> r == CrawlState(st.visited + {url}, st.records))
      && (PageAt(site, url).SnapshotOnly? ==>
            r == CrawlState(st.visited + {url}, st.records + [Record(url, PageAt(site, url).tree)]))
      && (PageAt(site, url).Links? ==>
            |r.records| > |st.records| && r.records[|st.records|] == Record(url, PageAt(site, url).tree))
  {
  }

  /** A URL is never retried: visiting it again changes nothing, whether or not
      it loaded the first time. */
  lemma VisitTwice(site: Site, root: Url, url: Url, st: CrawlState)
    ensures var r := Visit(site, root, url, st);
      Visit(site, root, url, r) == r
  {
  }

  /** Failure isolation: a link whose page fails to load is marked visited and
      the loop goes on with the remaining links from the same records. */
  lemma FailedLinkSkipped(site: Site, root: Url, links: seq<Url>, st: CrawlState)
    requires links != [] && links[0] !in st.visited && InScope(root, links[0])
    requires PageAt(site, links[0]).Fails?
    ensures VisitLinks(site, root, links, st)
         == VisitLinks(site, root, links[1..], CrawlState(st.visited + {links[0]}, st.records))
  {
  }

  /** Re-crawling links that are all visited or off-site yields no new records
      and no new visits. */
  lemma {:induction false} RevisitAddsNothing(site: Site, root: Url, links: seq<Url>, st: CrawlState)
    requires forall l :: l in links ==> l in st.visited || !InScope(root, l)
    ensures VisitLinks(site, root, links, st) == st
    decreases |links|
  {
    if links != [] {
      assert links[0] in links;
      if links[0] !in st.visited {
        VisitSkips(site, root, links[0], st);
      }
      forall l | l in links[1..]
        ensures l in st.visited || !InScope(root, l)
      {
        assert l in links;
      }
      RevisitAddsNothing(site, root, links[1..], st);
    }
  }

  // ---------------------------------------------------------------------------
  // The whole crawl

  /** `captureAccessibilityTrees` returns one faithful record per distinct
      same-site URL, in discovery order, starting with the start
      URL; it is empty exactly when the start URL fails to load; and it is
      closed under links: every same-site link target of a recorded page that
      loads is itself recorded. */
  lemma CrawlCorrect(site: Site, root: Url)
    ensures var rs := Crawl(site, root);
      && DistinctUrls(rs)
      && FaithfulRecords(site, rs)
      && (forall i :: 0 <= i < |rs| ==> InScope(root, rs[i].url))
      && DiscoveryOrder(site, root, rs)
      && (rs == [] <==> PageAt(site, root).Fails?)
      && (forall i, l ::
            0 <= i < |rs| && LinksTo(site, rs[i].url, l) && InScope(root, l) && !PageAt(site, l).Fails?
            ==> l in Urls(rs))
  {
    var st := CrawlState({}, []);
    var r := Visit(site, root, root, st);
    var rs := r.records;
    Strings.IncludesSelf(root);
    VisitConsistent(site, root, root, st);
    VisitCovers(site, root, root, st);
    VisitDiscoveryOrder(site, root, root, st);
    VisitFresh(site, root, root, st);
    forall i | 0 <= i < |rs|
      ensures InScope(root, rs[i].url)
    {
      assert rs[i].url in Urls(rs);
    }
    forall i, l | 0 <= i < |rs| && LinksTo(site, rs[i].url, l) && InScope(root, l)
        && !PageAt(site, l).Fails?
      ensures l in Urls(rs)
    {
      assert Covered(site, root, rs[i].url, r.visited);
    }
  }
}
