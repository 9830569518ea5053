/** The crawl with the recursion replaced by an explicit stack of pending link
    lists, proved to produce exactly the records of the recursive `visitPage`.
    Each stack frame is the unexplored rest of one page's link list; the top of
    the stack is the last element. */
module CrawlWorklist {
  import opened Crawler

  /** What the recursive crawl still does once the pending link lists are
      finished, innermost frame first. */
  function Resume(site: Site, root: Url, frames: seq<seq<Url>>, st: CrawlState): CrawlState
    decreases |frames|
  {
    if frames == [] then st
    else Resume(site, root, frames[..|frames| - 1], VisitLinks(site, root, frames[|frames| - 1], st))
  }

  lemma ResumePush(site: Site, root: Url, frames: seq<seq<Url>>, f: seq<Url>, st: CrawlState)
    ensures Resume(site, root, frames + [f], st) == Resume(site, root, frames, VisitLinks(site, root, f, st))
  {
  }

  /** The number of links still waiting in the frames. */
  function Pending(frames: seq<seq<Url>>): nat
  {
    if frames == [] then 0 else Pending(frames[..|frames| - 1]) + |frames[|frames| - 1]|
  }

  lemma PendingPush(frames: seq<seq<Url>>, f: seq<Url>)
    ensures Pending(frames + [f]) == Pending(frames) + |f|
  {
  }

  /** The crawl as a loop over an explicit stack; returns the same records, in
      the same order, as `Crawl`. */
  method CrawlIteratively(site: Site, root: Url) returns (records: seq<Record>)
    ensures records == Crawl(site, root)
  {
    var st := CrawlState({}, []);
    var frames: seq<seq<Url>> := [[root]];
    assert Resume(site, root, frames, st) == Visit(site, root, root, st) by {
      ResumePush(site, root, [], [root], st);
      assert [root][1..] == [];
    }
    while frames != []
      invariant Resume(site, root, frames, st) == Visit(site, root, root, CrawlState({}, []))
      decreases Unvisited(site, st.visited), Pending(frames), |frames|
    {
      var below := frames[..|frames| - 1];
      var top := frames[|frames| - 1];
      assert frames == below + [top];
      ResumePush(site, root, below, top, st);
      PendingPush(below, top);
      if top == [] {
        frames := below;
      } else {
        var url := top[0];
        frames := below + [top[1..]];
        ResumePush(site, root, below, top[1..], st);
        PendingPush(below, top[1..]);
        if url !in st.visited && InScope(root, url) {
          var st0 := st;
          UnvisitedShrinks(site, st.visited, st.visited + {url});
          st := st.(visited := st.visited + {url});
          match PageAt(site, url)
          case Fails =>
            ResumePush(site, root, below, top[1..], st);
          case SnapshotOnly(tree) =>
            st := st.(records := st.records + [Record(url, tree)]);
            ResumePush(site, root, below, top[1..], st);
          case Links(tree, targets) =>
            UnvisitedDrops(site, st0.visited, url);
            st := st.(records := st.records + [Record(url, tree)]);
            ResumePush(site, root, below + [top[1..]], targets, st);
            ResumePush(site, root, below, top[1..], VisitLinks(site, root, targets, st));
            frames := frames + [targets];
        }
      }
    }
    records := st.records;
  }
}
