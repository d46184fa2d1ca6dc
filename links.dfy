/**
 * The two href filters of the crawler: which hrefs of a fetched page are put
 * on the frontier (add_links_to_queue) and which are shown as the page's links
 * (print_links). The HTML parse is abstracted to the sequence of href values
 * of the page's anchors in document order, and urljoin to a function `join`
 * that the crawler is given.
 */
module Links {

  /** Python's `str.startswith`. */
  predicate StartsWith(s: string, prefix: string)
  {
    |prefix| <= |s| && s[..|prefix|] == prefix
  }

  /** An href eligible for the frontier: root-relative or prefixed by the crawl's root URL. */
  predicate Crawlable(href: string, root: string)
  {
    StartsWith(href, "/") || StartsWith(href, root)
  }

  /** An href eligible for display: it starts with "http" or with "https". */
  predicate Absolute(href: string)
  {
    StartsWith(href, "http") || StartsWith(href, "https")
  }

  /** The "https" test of the display filter adds nothing to the "http" test. */
  lemma AbsoluteIsHttpPrefix(href: string)
    ensures Absolute(href) <==> StartsWith(href, "http")
  {
  }

  /** The prefix test does not restrict the host: a protocol-relative href to another host is crawlable. */
  lemma ProtocolRelativeIsCrawlable(root: string)
    ensures Crawlable("//other.host/page", root)
  {
  }

  /** The prefix test does not end at the host: a longer host name sharing the root's spelling is crawlable. */
  lemma LongerHostIsCrawlable(root: string, rest: string)
    ensures Crawlable(root + rest, root)
  {
  }

  /**
   * The URLs add_links_to_queue appends, in order: each crawlable href is
   * resolved against the root and kept when it is not yet visited. The queue's
   * current contents are not consulted.
   */
  function Enqueued(hrefs: seq<string>, root: string, join: (string, string) -> string,
                    visited: set<string>): (r: seq<string>)
    ensures |r| <= |hrefs|
    ensures forall u :: u in r ==> u !in visited
  {
    if hrefs == [] then []
    else
      var u := join(root, hrefs[0]);
      var rest := Enqueued(hrefs[1..], root, join, visited);
      if Crawlable(hrefs[0], root) && u !in visited then [u] + rest else rest
  }

  /** Enqueueing a page's hrefs in two parts appends the same URLs in the same order. */
  lemma {:induction false} EnqueuedAppend(a: seq<string>, b: seq<string>, root: string,
                                          join: (string, string) -> string, visited: set<string>)
    ensures Enqueued(a + b, root, join, visited)
         == Enqueued(a, root, join, visited) + Enqueued(b, root, join, visited)
  {
    if a == [] {
      assert a + b == b;
    } else {
      assert (a + b)[0] == a[0];
      assert (a + b)[1..] == a[1..] + b;
      EnqueuedAppend(a[1..], b, root, join, visited);
    }
  }

  /**
   * A URL is appended exactly when it is not visited and some crawlable href
   * of the page resolves to it.
   */
  lemma {:induction false} EnqueuedMembers(hrefs: seq<string>, root: string,
                                           join: (string, string) -> string,
                                           visited: set<string>, u: string)
    ensures u in Enqueued(hrefs, root, join, visited)
        <==> u !in visited
             && exists i :: 0 <= i < |hrefs| && Crawlable(hrefs[i], root) && join(root, hrefs[i]) == u
  {
    if hrefs != [] {
      EnqueuedMembers(hrefs[1..], root, join, visited, u);
      if u in Enqueued(hrefs[1..], root, join, visited) {
        var i :| 0 <= i < |hrefs[1..]| && Crawlable(hrefs[1..][i], root) && join(root, hrefs[1..][i]) == u;
        assert hrefs[i + 1] == hrefs[1..][i];
      }
      if u !in visited && exists i :: 0 <= i < |hrefs| && Crawlable(hrefs[i], root) && join(root, hrefs[i]) == u {
        var i :| 0 <= i < |hrefs| && Crawlable(hrefs[i], root) && join(root, hrefs[i]) == u;
        if i > 0 {
          assert hrefs[1..][i - 1] == hrefs[i];
        }
      }
    }
  }

  /** The same crawlable, unvisited href twice on a page is appended twice. */
  lemma RepeatedHrefIsAppendedTwice(href: string, root: string, join: (string, string) -> string,
                                    visited: set<string>)
    requires Crawlable(href, root) && join(root, href) !in visited
    ensures Enqueued([href, href], root, join, visited) == [join(root, href), join(root, href)]
  {
  }

  /** The resolved form of every absolute href, in document order. */
  function Absolutes(hrefs: seq<string>, root: string, join: (string, string) -> string): (r: seq<string>)
    ensures |r| <= |hrefs|
    ensures (forall i :: 0 <= i < |hrefs| ==> Absolute(hrefs[i])) ==> |r| == |hrefs|
  {
    if hrefs == [] then []
    else
      var rest := Absolutes(hrefs[1..], root, join);
      if Absolute(hrefs[0]) then [join(root, hrefs[0])] + rest else rest
  }

  /** Filtering the absolute hrefs in two parts yields the same URLs in the same order. */
  lemma {:induction false} AbsolutesAppend(a: seq<string>, b: seq<string>, root: string,
                                           join: (string, string) -> string)
    ensures Absolutes(a + b, root, join) == Absolutes(a, root, join) + Absolutes(b, root, join)
  {
    if a == [] {
      assert a + b == b;
    } else {
      assert (a + b)[0] == a[0];
      assert (a + b)[1..] == a[1..] + b;
      AbsolutesAppend(a[1..], b, root, join);
    }
  }

  /** What print_links shows for a page: the absolute hrefs from index 1 on, resolved. */
  function Displayed(hrefs: seq<string>, root: string, join: (string, string) -> string): (r: seq<string>)
    ensures hrefs != [] ==> |r| < |hrefs|
  {
    if |hrefs| <= 1 then [] else Absolutes(hrefs[1..], root, join)
  }

  /** The first anchor of a page never influences what is shown. */
  lemma DisplayedIgnoresFirst(a: string, b: string, rest: seq<string>, root: string,
                              join: (string, string) -> string)
    ensures Displayed([a] + rest, root, join) == Displayed([b] + rest, root, join)
  {
  }

  /**
   * A URL is shown exactly when some absolute href at index 1 or later
   * resolves to it; the href at index 0 is never looked at.
   */
  lemma {:induction false} DisplayedMembers(hrefs: seq<string>, root: string,
                                            join: (string, string) -> string, u: string)
    ensures u in Displayed(hrefs, root, join)
        <==> exists i :: 1 <= i < |hrefs| && Absolute(hrefs[i]) && join(root, hrefs[i]) == u
  {
    if |hrefs| > 1 {
      AbsolutesMembers(hrefs[1..], root, join, u);
      if u in Displayed(hrefs, root, join) {
        var i :| 0 <= i < |hrefs[1..]| && Absolute(hrefs[1..][i]) && join(root, hrefs[1..][i]) == u;
        assert hrefs[i + 1] == hrefs[1..][i];
      }
      if exists i :: 1 <= i < |hrefs| && Absolute(hrefs[i]) && join(root, hrefs[i]) == u {
        var i :| 1 <= i < |hrefs| && Absolute(hrefs[i]) && join(root, hrefs[i]) == u;
        assert hrefs[1..][i - 1] == hrefs[i];
      }
    }
  }

  /** A URL is among the resolved absolute hrefs exactly when some absolute href resolves to it. */
  lemma {:induction false} AbsolutesMembers(hrefs: seq<string>, root: string,
                                            join: (string, string) -> string, u: string)
    ensures u in Absolutes(hrefs, root, join)
        <==> exists i :: 0 <= i < |hrefs| && Absolute(hrefs[i]) && join(root, hrefs[i]) == u
  {
    if hrefs != [] {
      AbsolutesMembers(hrefs[1..], root, join, u);
      if u in Absolutes(hrefs[1..], root, join) {
        var i :| 0 <= i < |hrefs[1..]| && Absolute(hrefs[1..][i]) && join(root, hrefs[1..][i]) == u;
        assert hrefs[i + 1] == hrefs[1..][i];
      }
      if exists i :: 0 <= i < |hrefs| && Absolute(hrefs[i]) && join(root, hrefs[i]) == u {
        var i :| 0 <= i < |hrefs| && Absolute(hrefs[i]) && join(root, hrefs[i]) == u;
        if i > 0 {
          assert hrefs[1..][i - 1] == hrefs[i];
        }
      }
    }
  }
}
