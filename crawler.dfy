/**
 * The crawl frontier of MultiThreadedCrawler, run sequentially: each page's
 * completion callback runs to the end before the next URL is taken from the
 * queue. The HTTP fetch and the HTML parse together become `pages`, which
 * gives the hrefs of the page at a URL in document order; urlparse becomes
 * `parse` (a URL to its scheme and network location, host and port) and
 * urljoin becomes `join`.
 */
module WebCrawler {
  import opened Links
  import opened Dedup

  /** What one pass of the dispatch loop did. */
  datatype Dispatch =
    | Stopped                                  // the queue was empty: the crawl ends
    | Dropped(url: string)                     // taken from the queue, already visited
    | Visited(url: string, shown: seq<string>) // taken, marked visited, fetched; `shown` is what print_links shows

  /**
   * A finite link graph with no exit: every crawlable href on a page of
   * `closed` resolves to a URL of `closed`.
   */
  ghost predicate ClosedUnder(closed: set<string>, pages: string -> seq<string>,
                              root: string, join: (string, string) -> string)
  {
    forall u, h :: u in closed && h in pages(u) && Crawlable(h, root) ==> join(root, h) in closed
  }

  /** Whatever a page of a closed graph appends to the queue stays inside the graph. */
  lemma EnqueuedStaysClosed(closed: set<string>, pages: string -> seq<string>, root: string,
                            join: (string, string) -> string, visited: set<string>, u: string)
    requires ClosedUnder(closed, pages, root, join) && u in closed
    ensures forall v :: v in Enqueued(pages(u), root, join, visited) ==> v in closed
  {
    forall v | v in Enqueued(pages(u), root, join, visited)
      ensures v in closed
    {
      EnqueuedMembers(pages(u), root, join, visited, v);
      var i :| 0 <= i < |pages(u)| && Crawlable(pages(u)[i], root) && join(root, pages(u)[i]) == v;
      assert pages(u)[i] in pages(u);
    }
  }

  /**
   * Every crawlable link of every page visited since `since` leads to a URL
   * that is visited or still waiting on the queue.
   */
  ghost predicate LinksFollowed(pages: string -> seq<string>, root: string, join: (string, string) -> string,
                                since: set<string>, visited: set<string>, queue: seq<string>)
  {
    forall u, h :: u in visited && u !in since && h in pages(u) && Crawlable(h, root) ==>
      join(root, h) in visited || join(root, h) in queue
  }

  /**
   * One pass of the dispatch loop keeps every followed link visited or
   * queued: the head it takes becomes visited, and a newly visited page's
   * crawlable links are either visited already or appended.
   */
  lemma LinksFollowedStep(pages: string -> seq<string>, root: string, join: (string, string) -> string,
                          since: set<string>, seen: set<string>, waiting: seq<string>,
                          visited: set<string>, queue: seq<string>)
    requires LinksFollowed(pages, root, join, since, seen, waiting)
    requires waiting != [] && waiting[1..] <= queue
    requires waiting[0] in seen ==> visited == seen
    requires waiting[0] !in seen ==>
               visited == seen + {waiting[0]}
               && queue == waiting[1..] + Enqueued(pages(waiting[0]), root, join, seen + {waiting[0]})
    ensures LinksFollowed(pages, root, join, since, visited, queue)
  {
    var url := waiting[0];
    assert seen <= visited && url in visited;
    forall x | x in waiting
      ensures x in visited || x in queue
    {
      if x != url {
        var k :| 0 <= k < |waiting| && waiting[k] == x;
        assert waiting[1..][k - 1] == x;
        assert queue[k - 1] == x;
      }
    }
    if url !in seen {
      forall h | h in pages(url) && Crawlable(h, root)
        ensures join(root, h) in visited || join(root, h) in queue
      {
        EnqueuedMembers(pages(url), root, join, seen + {url}, join(root, h));
        if join(root, h) !in visited {
          var v := join(root, h);
          var k :| 0 <= k < |Enqueued(pages(url), root, join, seen + {url})|
                   && Enqueued(pages(url), root, join, seen + {url})[k] == v;
          assert queue[|waiting| - 1 + k] == v;
        }
      }
    }
  }

  /**
   * At every point of any crawl, finite or not, each URL is dispatched at
   * most once and the dispatched URLs are exactly the visited ones.
   */
  lemma DispatchedOnce(c: Crawler)
    requires c.Valid()
    ensures NoDuplicates(c.visitLog)
    ensures forall u :: u in c.visitLog <==> u in c.visited
  {
    FirstOccurrencesSound(c.dequeued);
  }

  class Crawler {
    const baseUrl: string
    const rootUrl: string
    const join: (string, string) -> string

    /** The FIFO of URLs waiting to be dispatched; it may hold repeats. */
    var queue: seq<string>
    /** The URLs already dispatched. */
    var visited: set<string>
    /** The URLs dispatched so far, in dispatch order (each is printed and submitted for fetching). */
    var visitLog: seq<string>

    /** Every URL ever put on the queue, in order. */
    ghost var enqueued: seq<string>
    /** Every URL ever taken from the queue, in order. */
    ghost var dequeued: seq<string>

    /**
     * The frontier invariant: the queue is what was put and not yet taken;
     * the dispatch log is the taken URLs in FIFO order with repeats skipped;
     * the visited set is the set of taken URLs.
     */
    ghost predicate Valid()
      reads this
    {
      && enqueued == dequeued + queue
      && visitLog == FirstOccurrences(dequeued)
      && visited == (set u | u in dequeued)
    }

    /** A new crawl: the queue holds the seed alone and nothing is visited. */
    constructor (url: string, parse: string -> (string, string), join: (string, string) -> string)
      ensures Valid()
      ensures baseUrl == url && rootUrl == parse(url).0 + "://" + parse(url).1 && this.join == join
      ensures queue == [url] && visited == {} && visitLog == []
      ensures enqueued == [url] && dequeued == []
    {
      baseUrl := url;
      rootUrl := parse(url).0 + "://" + parse(url).1;
      this.join := join;
      queue := [url];
      visited := {};
      visitLog := [];
      enqueued := [url];
      dequeued := [];
    }

    /**
     * add_links_to_queue: appends, in document order, every crawlable href
     * resolved against the root whose URL is not visited. The queue's own
     * contents are not checked, and the visited set is not changed.
     */
    method AddLinksToQueue(hrefs: seq<string>)
      requires Valid()
      modifies this
      ensures Valid()
      ensures queue == old(queue) + Enqueued(hrefs, rootUrl, join, visited)
      ensures enqueued == old(enqueued) + Enqueued(hrefs, rootUrl, join, visited)
      ensures visited == old(visited) && visitLog == old(visitLog) && dequeued == old(dequeued)
    {
      for i := 0 to |hrefs|
        invariant visited == old(visited) && visitLog == old(visitLog)
        invariant dequeued == old(dequeued) && enqueued == old(enqueued)
        invariant queue == old(queue) + Enqueued(hrefs[..i], rootUrl, join, visited)
      {
        var url := hrefs[i];
        assert hrefs[..i + 1] == hrefs[..i] + [url];
        EnqueuedAppend(hrefs[..i], [url], rootUrl, join, visited);
        if Crawlable(url, rootUrl) {
          url := join(rootUrl, url);
          if url !in visited {
            queue := queue + [url];
          }
        }
      }
      assert hrefs[..|hrefs|] == hrefs;
      enqueued := dequeued + queue;
    }

    /** print_links: the absolute hrefs from index 1 on, resolved, in document order. */
    method PrintLinks(hrefs: seq<string>) returns (shown: seq<string>)
      ensures shown == Displayed(hrefs, rootUrl, join)
    {
      shown := [];
      var i := 1;
      while i < |hrefs|
        invariant |hrefs| == 0 ==> shown == []
        invariant |hrefs| > 0 ==> i <= |hrefs| && shown == Absolutes(hrefs[1..i], rootUrl, join)
      {
        var url := hrefs[i];
        assert hrefs[1..i + 1] == hrefs[1..i] + [url];
        AbsolutesAppend(hrefs[1..i], [url], rootUrl, join);
        if StartsWith(url, "http") || StartsWith(url, "https") {
          url := join(rootUrl, url);
          shown := shown + [url];
        }
        i := i + 1;
      }
      assert |hrefs| > 0 ==> hrefs[1..i] == hrefs[1..];
    }

    /** response_callback: first the page's links go to the queue, then they are shown. */
    method ResponseCallback(hrefs: seq<string>) returns (shown: seq<string>)
      requires Valid()
      modifies this
      ensures Valid()
      ensures queue == old(queue) + Enqueued(hrefs, rootUrl, join, visited)
      ensures enqueued == old(enqueued) + Enqueued(hrefs, rootUrl, join, visited)
      ensures visited == old(visited) && visitLog == old(visitLog) && dequeued == old(dequeued)
      ensures shown == Displayed(hrefs, rootUrl, join)
    {
      AddLinksToQueue(hrefs);
      shown := PrintLinks(hrefs);
    }

    /**
     * One pass of run_crawler's loop: take the head of the queue; an unseen
     * URL is marked visited, logged and dispatched (its page's callback runs
     * at once); a seen one is dropped. An empty queue stops the crawl.
     */
    method Step(pages: string -> seq<string>) returns (d: Dispatch)
      requires Valid()
      modifies this
      ensures Valid()
      ensures old(queue) == [] ==>
                (&& d == Stopped && queue == [] && visited == old(visited)
                 && visitLog == old(visitLog) && enqueued == old(enqueued) && dequeued == old(dequeued))
      ensures old(queue) != [] && old(queue)[0] in old(visited) ==>
                (&& d == Dropped(old(queue)[0]) && queue == old(queue)[1..]
                 && visited == old(visited) && visitLog == old(visitLog)
                 && enqueued == old(enqueued) && dequeued == old(dequeued) + [old(queue)[0]])
      ensures old(queue) != [] && old(queue)[0] !in old(visited) ==>
                var url := old(queue)[0];
                var added := Enqueued(pages(url), rootUrl, join, old(visited) + {url});
                && d == Visited(url, Displayed(pages(url), rootUrl, join))
                && visited == old(visited) + {url} && visitLog == old(visitLog) + [url]
                && queue == old(queue)[1..] + added
                && enqueued == old(enqueued) + added && dequeued == old(dequeued) + [url]
    {
      if queue == [] {
        return Stopped;
      }
      var url, unseen := Take();
      if unseen {
        ghost var rest := queue;
        var shown := ResponseCallback(pages(url));
        assert queue == rest + Enqueued(pages(url), rootUrl, join, old(visited) + {url});
        d := Visited(url, shown);
      } else {
        d := Dropped(url);
      }
    }

    /**
     * Lines 132-135 of run_crawler: the head of the queue is removed; when it
     * is not yet visited it is marked visited and logged.
     */
    method Take() returns (url: string, unseen: bool)
      requires Valid() && queue != []
      modifies this
      ensures Valid()
      ensures url == old(queue)[0] && unseen == (url !in old(visited))
      ensures queue == old(queue)[1..] && enqueued == old(enqueued) && dequeued == old(dequeued) + [url]
      ensures visited == old(visited) + {url}
      ensures visitLog == if unseen then old(visitLog) + [url] else old(visitLog)
    {
      url := queue[0];
      unseen := url !in visited;
      ghost var taken := dequeued + [url];
      assert unseen <==> url !in dequeued;
      FirstOccurrencesSnoc(dequeued, url);
      assert FirstOccurrences(taken) == if unseen then visitLog + [url] else visitLog;
      ElementsSnoc(dequeued, url);
      assert (set u | u in taken) == visited + {url};
      assert queue == [url] + queue[1..];
      assert dequeued + ([url] + queue[1..]) == taken + queue[1..];
      queue := queue[1..];
      dequeued := taken;
      if unseen {
        visitLog := visitLog + [url];
      }
      visited := visited + {url};
    }

    /**
     * run_crawler on a finite link graph with no exit: dispatch until the
     * queue is empty. Every URL ever enqueued has then been dispatched or
     * dropped as a repeat, every crawlable link of every page visited during
     * the run has been visited, and the dispatch log is the enqueue order with
     * repeats skipped.
     */
    method Run(pages: string -> seq<string>, ghost closed: set<string>)
      requires Valid()
      requires forall u :: u in queue ==> u in closed
      requires visited <= closed
      requires ClosedUnder(closed, pages, rootUrl, join)
      modifies this
      ensures Valid() && queue == []
      ensures forall u :: u in enqueued ==> u in visited
      ensures forall u, h :: u in visited && u !in old(visited) && h in pages(u) && Crawlable(h, rootUrl) ==>
                join(rootUrl, h) in visited
      ensures visitLog == FirstOccurrences(enqueued)
      ensures NoDuplicates(visitLog) && forall u :: u in visitLog <==> u in visited
      ensures old(visited) <= visited <= closed
      ensures old(enqueued) <= enqueued && old(visitLog) <= visitLog
    {
      while true
        invariant Valid()
        invariant forall u :: u in queue ==> u in closed
        invariant old(visited) <= visited <= closed
        invariant old(enqueued) <= enqueued && old(dequeued) <= dequeued
        invariant LinksFollowed(pages, rootUrl, join, old(visited), visited, queue)
        decreases closed - visited, |queue|
      {
        ghost var seen, waiting, deq := visited, queue, dequeued;
        var d := Step(pages);
        if d.Stopped? {
          break;
        }
        assert waiting != [] && d.url == waiting[0] && queue[..|waiting| - 1] == waiting[1..];
        assert forall u :: u in waiting[1..] ==> u in closed;
        assert deq <= dequeued;
        LinksFollowedStep(pages, rootUrl, join, old(visited), seen, waiting, visited, queue);
        if d.Visited? {
          EnqueuedStaysClosed(closed, pages, rootUrl, join, seen + {d.url}, d.url);
          assert closed - visited < closed - seen;
        }
      }
      FirstOccurrencesSound(dequeued);
      FirstOccurrencesPrefix(old(dequeued), dequeued[|old(dequeued)|..]);
      assert old(dequeued) + dequeued[|old(dequeued)|..] == dequeued;
      assert enqueued == dequeued + [] == dequeued;
    }
  }

  /** The URL joining of the example below: a root-relative href is appended to the root. */
  function ExampleJoin(root: string, href: string): string
  {
    if StartsWith(href, "/") then root + href else href
  }

  /** The example site: the seed page links to /a (twice), to /b and off-site; the other pages have no links. */
  function ExamplePages(url: string): seq<string>
  {
    if url == "http://example.com/"
    then ["/a", "http://example.com/b", "http://other.com/c", "http://example.com/a"]
    else []
  }

  /** The root-relative and on-site hrefs of the example seed page are crawlable, the off-site one is not. */
  lemma ExampleSeedHrefs()
    ensures var page, root := ExamplePages("http://example.com/"), "http://example.com";
      && Crawlable(page[0], root) && ExampleJoin(root, page[0]) == "http://example.com/a"
      && Crawlable(page[1], root) && ExampleJoin(root, page[1]) == "http://example.com/b"
      && !Crawlable(page[2], root) && ExampleJoin(root, page[2]) == "http://other.com/c"
      && Crawlable(page[3], root) && ExampleJoin(root, page[3]) == "http://example.com/a"
  {
    var root := "http://example.com";
    var page := ExamplePages("http://example.com/");
    assert page[0][..1] == "/";
    assert page[1][..1][0] == 'h' && page[1][..|root|] == root;
    assert page[2][..1][0] == 'h' && page[2][..|root|][7] == 'o' != root[7];
    assert page[3][..1][0] == 'h' && page[3][..|root|] == root;
  }

  /**
   * The seed page of the example queues /a, /b and /a again (the queue is
   * not consulted) and never the off-site link.
   */
  lemma ExampleSeedPageEnqueues()
    ensures Enqueued(ExamplePages("http://example.com/"), "http://example.com", ExampleJoin, {"http://example.com/"})
         == ["http://example.com/a", "http://example.com/b", "http://example.com/a"]
  {
    ExampleSeedHrefs();
    var page := ExamplePages("http://example.com/");
    assert page[1..][1..][1..][1..] == [];
  }

  /** The seed page of the example shows its three absolute links; the first anchor is skipped. */
  lemma ExampleSeedPageShows()
    ensures Displayed(ExamplePages("http://example.com/"), "http://example.com", ExampleJoin)
         == ["http://example.com/b", "http://other.com/c", "http://example.com/a"]
  {
    ExampleSeedHrefs();
    var page := ExamplePages("http://example.com/");
    assert page[1][..4] == "http" && page[2][..4] == "http" && page[3][..4] == "http";
    assert page[1..][1..][1..][1..] == [];
  }
}
