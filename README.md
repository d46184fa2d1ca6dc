# Crawl frontier of MultiThreadedCrawler

A Dafny model of the crawl frontier of `MultiThreadedCrawler`, a breadth-first
web crawler. The crawler starts from a seed URL. It keeps a FIFO `queue` of
URLs still to visit and a `visited_pages` set. Its loop takes the head of the
queue. A URL not yet visited is marked visited, printed and submitted to a
thread pool for fetching. A URL already visited is dropped. When a fetch
completes, its callback runs two steps. First it appends the page's eligible
links to the queue (`add_links_to_queue`). Then it prints the page's absolute
links (`print_links`).

The model runs the crawler sequentially: each callback runs to completion
before the next URL is taken.

- `links.dfy`, module `Links`: the two href filters as functions over the
  page's hrefs in document order. `Crawlable` is the frontier's prefix test
  (web_crawler.py:59): the href starts with `/` or with the root URL.
  `Absolute` is the display's prefix test (web_crawler.py:118): the href
  starts with `http` or `https`. `Enqueued` gives what `add_links_to_queue`
  appends. `Displayed` gives what `print_links` shows: the absolute hrefs
  from index 1 on (web_crawler.py:116-120). Lemmas state what each filter
  keeps, in what order, and what it ignores.
- `dedup.dfy`, module `Dedup`: `FirstOccurrences` keeps the first occurrence
  of each element, in order. It is the reference for dispatch order: the
  URLs taken from the queue, with repeats skipped.
- `crawler.dfy`, module `WebCrawler`: class `Crawler` holds the frontier.
  `queue` is a `seq`, `visited` is a `set`, and `visitLog` holds the URLs
  dispatched so far. Two ghost fields record every URL ever enqueued and
  every URL ever dequeued. `Valid()` is the frontier invariant:
  - the queue is what was enqueued and not yet dequeued;
  - the dispatch log is the dequeued URLs with repeats skipped;
  - the visited set is the set of dequeued URLs.

  The methods follow the source's methods and keep this invariant.
  `Run` takes a finite link graph with no exits. It proves that the crawl
  stops, that every enqueued URL was dispatched or dropped as a repeat, and
  that every crawlable link of every page visited was followed.

Foreign code becomes parameters:
- `urlparse` becomes `parse`, which maps a URL to its scheme and network
  location (host and port).
- `urljoin` becomes `join`, stored in the crawler.
- The HTTP fetch and the HTML parse together become `pages`, which maps a
  URL to its page's hrefs.

The source dedups when a URL is taken from the queue, not when it is put on
the queue. The model follows the code. `add_links_to_queue` checks the
visited set but not the queue. So the queue can hold the same URL twice, from
one page or from several. Each URL is still dispatched at most once. A
"push" that rejects duplicates atomically, as in a design where the frontier
dedups on insertion, is not what the code does.

## Model

| member | source | states |
|---|---|---|
| `WebCrawler.Crawler.constructor` | web_crawler.py:32-38 | The queue holds exactly the seed, and the visited set and the dispatch log are empty. The root URL is the seed's scheme, then `://`, then the seed's network location (host and port). |
| `WebCrawler.Crawler.AddLinksToQueue` | web_crawler.py:43-62 | Appends exactly `Enqueued(hrefs, …)` to the back of the queue. Leaves the visited set and the dispatch log unchanged. Keeps the frontier invariant. |
| `WebCrawler.Crawler.PrintLinks` | web_crawler.py:105-120 | Its loop from index 1 returns exactly `Displayed(hrefs, …)`: the resolved absolute hrefs from index 1 on, in document order. |
| `WebCrawler.Crawler.ResponseCallback` | web_crawler.py:86-102 | First enqueues the page's links as `AddLinksToQueue` does, then returns what `PrintLinks` shows. Nothing else changes. |
| `WebCrawler.Crawler.Step` | web_crawler.py:130-140 | Empty queue: stops, and nothing changes. Unseen head: it is removed, added to the visited set and appended once to the dispatch log. Its page's links are then enqueued against the updated visited set. Seen head: it is only removed, with no dispatch and no change to the visited set. |
| `WebCrawler.Crawler.Take` | web_crawler.py:132-135 | Removes the head of the queue. Reports it as unseen exactly when it was not visited. Adds it to the visited set, and appends it to the dispatch log only when unseen. Keeps the frontier invariant. |
| `WebCrawler.Crawler.Run` | web_crawler.py:130-140 | On a finite link graph with no exits, the loop ends with an empty queue. Every URL ever enqueued is then in the visited set, and so is the target of every crawlable link on every page visited during the run. The dispatch log is the enqueue order with repeats skipped. It has no duplicates, and its elements are exactly the visited set. Earlier dispatches are a prefix of it. |
| `WebCrawler.LinksFollowedStep` | web_crawler.py:130-137 | One pass of the dispatch loop keeps every crawlable link of every page visited so far pointing at a URL that is visited or still queued. The head it takes is now visited, and a newly visited page's links are visited already or appended. |
| `WebCrawler.DispatchedOnce` | web_crawler.py:132-137 | In every state of any crawl, finite or not, the dispatch log has no duplicates and holds exactly the visited URLs. |
| `WebCrawler.EnqueuedStaysClosed` | web_crawler.py:57-62 | On a link graph with no exits, every URL that a page appends stays inside the graph. |
| `Links.Enqueued` | web_crawler.py:57-62 | The appended URLs are never in the visited set, and there are at most as many as the page has hrefs. |
| `Links.EnqueuedMembers` | web_crawler.py:57-62 | A URL is appended if and only if it is unvisited and some href starting with `/` or with the root URL resolves to it. Every other href is ignored. |
| `Links.EnqueuedAppend` | web_crawler.py:57-62 | Enqueueing follows document order: the URLs for `a + b` are the URLs for `a` followed by those for `b`. |
| `Links.RepeatedHrefIsAppendedTwice` | web_crawler.py:61-62 | The queue is not consulted: an eligible, unvisited href that occurs twice is appended twice. |
| `Links.ProtocolRelativeIsCrawlable` | web_crawler.py:59 | The `/` prefix test admits a protocol-relative href to another host, so enqueued URLs need not share the seed's origin. |
| `Links.LongerHostIsCrawlable` | web_crawler.py:59 | The root-URL prefix test admits any href that merely begins with the root's spelling, such as a longer host name. |
| `Links.AbsoluteIsHttpPrefix` | web_crawler.py:118 | The display test `startswith('http') or startswith('https')` is equivalent to `startswith('http')` alone. |
| `Links.Absolutes` | web_crawler.py:116-120 | There are at most as many resolved absolute hrefs as hrefs, and exactly as many when every href is absolute. |
| `Links.AbsolutesAppend` | web_crawler.py:116-120 | Displaying follows document order: the output for `a + b` is the output for `a` followed by that for `b`. |
| `Links.AbsolutesMembers` | web_crawler.py:118-119 | A URL is among the resolved absolute hrefs if and only if some absolute href resolves to it. |
| `Links.Displayed` | web_crawler.py:116-120 | A non-empty page shows strictly fewer links than it has anchors, because index 0 is never shown. |
| `Links.DisplayedMembers` | web_crawler.py:116-120 | A URL is shown if and only if some href at index 1 or later starts with `http` and resolves to it. The href at index 0 is never shown. |
| `Links.DisplayedIgnoresFirst` | web_crawler.py:116 | The first anchor has no influence on what is shown. |
| `Dedup.FirstOccurrences` | web_crawler.py:132-137 | No more URLs are dispatched than are dequeued. |
| `Dedup.FirstOccurrencesSound` | web_crawler.py:132-137 | The dispatch order has no duplicates and holds exactly the elements of the dequeued sequence. |
| `Dedup.FirstOccurrencesSnoc` | web_crawler.py:133-135 | Dequeuing one more URL extends the dispatch order by that URL exactly when it was not dequeued before; otherwise the order is unchanged. |
| `Dedup.FirstOccurrencesOfDistinct` | web_crawler.py:132-137 | When the dequeued URLs have no repeats, every one of them is dispatched, in queue order. |
| `Dedup.FirstOccurrencesPrefix` | web_crawler.py:130-137 | Dispatching only appends: the dispatch order of a prefix of the dequeued sequence is a prefix of the whole dispatch order. |
| `WebCrawler.ExampleSeedHrefs` | web_crawler.py:59-60 | On a page of http://example.com, `/a`, `http://example.com/b` and `http://example.com/a` pass the frontier filter, and `http://other.com/c` does not. |
| `WebCrawler.ExampleSeedPageEnqueues` | web_crawler.py:57-62 | The seed page's anchors are `/a`, `http://example.com/b`, `http://other.com/c` and `http://example.com/a`. The page appends `/a`, `/b` and `/a` again, and never the off-site link. |
| `WebCrawler.ExampleSeedPageShows` | web_crawler.py:116-120 | The same page shows `http://example.com/b`, `http://other.com/c` and `http://example.com/a`; the first anchor is skipped. |

## Left out

- HTTP fetching (`get_response`, web_crawler.py:68-82): the request, its header and its timeouts are not modelled. The hrefs of the fetched page are an input, `pages`.
- A fetch error: on a `RequestException`, `get_response` returns `None`. The callback then fails on `result.status_code` before it enqueues or prints anything. In the model that page simply has no hrefs. The URL stays visited either way, because it is marked before the fetch.
- The non-200 branch (web_crawler.py:97-98) only prints the status. It is not modelled; the page's links are used either way, as in the source.
- `join` and `parse` are total here. Python's `urljoin` and `urlparse` can raise `ValueError` on a malformed href such as `//[x/`. In the source that aborts `add_links_to_queue` partway through its loop (web_crawler.py:57-62): the earlier hrefs stay enqueued, the later ones are not, and `print_links` never runs. That partial-enqueue path is not modelled.
- HTML parsing with BeautifulSoup: a page is given as its sequence of href values in document order.
- `urlparse` and `urljoin`: foreign URL parsing. They are the uninterpreted parameters `parse` and `join`. Only the example fixes a concrete `join`.
- The thread pool and the race between the visited check at web_crawler.py:61 and the one at web_crawler.py:133: concurrency is not modelled. Each callback runs at once, inside `Step`.
- The 5-second `queue.get` timeout and `sys.exit` (web_crawler.py:132, 138-140): the model stops when the queue is empty. The source can also exit while fetches are still in flight; that depends on timing and is not modelled.
- Run: termination is proved only for a finite link graph with no exits (`ClosedUnder`). On an open graph the source's loop may run forever, which a terminating method cannot express.
- All printed output appears as returned values: the dispatch log for line 135 and the `shown` sequence for line 120. Console formatting, the broad `except Exception` at web_crawler.py:141-142, the user-agent header and the `__main__` entry point are plumbing and are not modelled.
