/**
 * PageCrawlerTask, run sequentially: a task visits one node of the crawl
 * tree.  It records the node's URL in the set of links seen by the whole
 * crawl, stops if the stop flag is set, fetches the page, buffers it (unless
 * it is the site's own URL or an error page) with one lemma and one index
 * entry per distinct lemma of its text, and then runs a child task for every
 * link of the page that passes the skip test.  A fetch failure marks the
 * site FAILED.
 *
 * The static state of the Java class (ALL_LINKS, PAGE_COUNTER) and what a
 * task shares with its children (the coordinator, the stop flag) live in one
 * `PageCrawler` object; a task is a call of `Compute` on a node.  The web is
 * a finite map from URL to what the fetch gives; the stop flag, set by
 * another thread, is an oracle read in turn.  The ghost `visited` logs the
 * URL of every task in the order the tasks start.
 */
module Crawler {
  import opened Wrappers
  import opened Model
  import opened Seqs
  import opened UrlUtils
  import opened Lemmatizer
  import opened Nodes
  import Coordinator
  import SiteServices

  /** Status codes from this one on are error pages, which are not stored. */
  const HttpErrorCode: int := 400
  /** The frequency every buffered lemma starts with. */
  const Frequency: int := 1
  /** The file extensions of FORBIDDEN_PATTERN, in lower case. */
  const ForbiddenExtensions: seq<string> := ["jpg", "jpeg", "png", "gif", "bmp", "pdf"]

  /**
   * What Jsoup's `get()` gives for a URL (with `ignoreHttpErrors`, so any
   * status is a document): an IOException with its text, or the status, the
   * html, the text of the document and the absolute URLs of its `a[href^=/]`
   * links in document order.
   */
  datatype Download =
    | Failed(exception: string)
    | Document(statusCode: int, html: string, text: string, links: seq<string>)

  predicate StartsWith(s: string, prefix: string) {
    |prefix| <= |s| && s[..|prefix|] == prefix
  }

  /** The characters a regex `.` does not match. */
  predicate LineTerminator(c: char) {
    c == '\n' || c == '\r' || c == '\U{0085}' || c == '\U{2028}' || c == '\U{2029}'
  }

  predicate NoLineTerminator(s: string) {
    forall i :: 0 <= i < |s| ==> !LineTerminator(s[i])
  }

  /** `(?i)` without UNICODE_CASE folds ASCII letters only. */
  function LowerAscii(c: char): char {
    if 'A' <= c <= 'Z' then (c as int + 32) as char else c
  }

  /** `t` begins with the lower-case `ext`, ignoring ASCII case. */
  predicate ExtensionAt(t: string, ext: string) {
    |ext| <= |t| && forall i :: 0 <= i < |ext| ==> LowerAscii(t[i]) == ext[i]
  }

  /** `(\?.*)?$`: nothing more, or a query of characters `.` matches. */
  predicate QueryOrEnd(q: string) {
    q == [] || (q[0] == '?' && NoLineTerminator(q[1..]))
  }

  /** What follows the dot: one of the extensions, then the optional query. */
  predicate ForbiddenTail(t: string) {
    exists k :: 0 <= k < |ForbiddenExtensions| && ExtensionAt(t, ForbiddenExtensions[k]) &&
                QueryOrEnd(t[|ForbiddenExtensions[k]|..])
  }

  /**
   * FORBIDDEN_PATTERN.matcher(link).matches(): the whole link is at least
   * one character, a dot, an image or pdf extension in any case, and an
   * optional query.
   */
  predicate Forbidden(link: string) {
    exists d :: 1 <= d < |link| && link[d] == '.' && NoLineTerminator(link[..d]) && ForbiddenTail(link[d + 1..])
  }

  /** The first three tests of shouldSkipUrl, which run before the link is recorded as seen. */
  predicate Admissible(siteUrl: string, link: string) {
    StartsWith(link, siteUrl) && '#' !in link && !Forbidden(link)
  }

  /** Every URL a crawl over `web` can reach: the pages of the map and the links they hold. */
  ghost function Universe(web: map<string, Download>): set<string> {
    web.Keys + set u, i | u in web && web[u].Document? && 0 <= i < |web[u].links| :: web[u].links[i]
  }

  /** A set that grows by an element of the universe leaves fewer unseen elements. */
  lemma UnseenShrinks(u: set<string>, before: set<string>, after: set<string>, x: string)
    requires before <= after && x in u && x !in before && x in after
    ensures |u - after| < |u - before|
  {
    var a, b := u - before, u - after;
    assert a == b + (a - b) && b * (a - b) == {};
    assert x in a - b;
  }

  lemma ForbiddenImage()
    ensures Forbidden("/a.JPG?w=1")
  {
    var link := "/a.JPG?w=1";
    assert link[2] == '.';
    assert link[..2] == "/a";
    assert link[3..] == "JPG?w=1";
    assert ExtensionAt(link[3..], ForbiddenExtensions[0]);
    assert QueryOrEnd(link[3..][3..]) by {
      assert link[3..][3..] == "?w=1";
    }
  }

  /** The dot needs at least one character before it. */
  lemma ExtensionAloneAllowed()
    ensures !Forbidden(".pdf")
  {
    var link := ".pdf";
    forall d | 1 <= d < |link| ensures link[d] != '.' {
    }
  }

  /** A dot followed by a longer word is no extension. */
  lemma LongerExtensionAllowed()
    ensures !Forbidden("x.pdfa")
  {
    var link := "x.pdfa";
    forall d | 1 <= d < |link| && link[d] == '.' ensures !ForbiddenTail(link[d + 1..]) {
      assert d == 1;
      var t := link[2..];
      assert t == "pdfa";
      forall k | 0 <= k < |ForbiddenExtensions|
        ensures !(ExtensionAt(t, ForbiddenExtensions[k]) && QueryOrEnd(t[|ForbiddenExtensions[k]|..]))
      {
        var e := ForbiddenExtensions[k];
        if k == 5 {
          assert t[3..] == "a";
        } else if k == 2 {
          assert LowerAscii(t[1]) != e[1];
        } else {
          assert LowerAscii(t[0]) != e[0];
        }
      }
    }
  }

  /** PAGE_COUNTER: an AtomicInteger shared by every task, only ever logged. */
  class Counter {
    var value: nat

    constructor ()
      ensures value == 0
    {
      value := 0;
    }

    method IncrementAndGet() returns (n: nat)
      modifies this
      ensures value == old(value) + 1 && n == value
    {
      value := value + 1;
      n := value;
    }
  }

  class PageCrawler {
    const coordinator: Coordinator.IndexingCoordinator
    const web: map<string, Download>
    /** The exception text for a URL the map does not hold: no host answers. */
    const noAnswer: string
    const morph: Morph
    /** The stop flag as the k-th read sees it. */
    const stopped: nat -> bool
    /** ALL_LINKS */
    var allLinks: set<string>
    const pageCounter: Counter
    /** The number of reads of the stop flag so far. */
    var stopReads: nat
    /** The URL of every task, in the order the tasks start. */
    ghost var visited: seq<string>

    /** The coordinator is well formed, and every task's URL was recorded as seen, no URL twice. */
    ghost predicate Valid()
      reads this, coordinator, coordinator.db, coordinator.lemmaService, coordinator.indexService, coordinator.pageBatchInserter
    {
      && coordinator.Valid()
      && Distinct(visited)
      && forall i :: 0 <= i < |visited| ==> visited[i] in allLinks
    }

    constructor (coordinator: Coordinator.IndexingCoordinator, web: map<string, Download>, noAnswer: string,
                 morph: Morph, stopped: nat -> bool)
      requires coordinator.Valid()
      ensures Valid()
      ensures this.coordinator == coordinator && this.web == web && this.noAnswer == noAnswer
      ensures this.morph == morph && this.stopped == stopped
      ensures fresh(pageCounter) && pageCounter.value == 0
      ensures allLinks == {} && stopReads == 0 && visited == []
    {
      this.coordinator := coordinator;
      this.web := web;
      this.noAnswer := noAnswer;
      this.morph := morph;
      this.stopped := stopped;
      allLinks := {};
      pageCounter := new Counter();
      stopReads := 0;
      visited := [];
    }

    /** getConnect: what the web gives for the URL. */
    function Fetch(url: string): (d: Download)
      ensures d.Document? ==> url in web && forall i :: 0 <= i < |d.links| ==> d.links[i] in Universe(web)
    {
      if url in web then web[url] else Failed(noAnswer)
    }

    /** stopRequested.get() */
    method ReadStop() returns (stop: bool)
      modifies this
      ensures stop == stopped(old(stopReads)) && stopReads == old(stopReads) + 1
      ensures allLinks == old(allLinks) && visited == old(visited)
    {
      stop := stopped(stopReads);
      stopReads := stopReads + 1;
    }

    /** The start of compute: the URL is recorded as seen and as this task's, and the stop flag is read. */
    method StartTask(url: string) returns (stop: bool)
      requires Valid() && url !in visited
      modifies this
      ensures Valid()
      ensures allLinks == old(allLinks) + {url} && visited == old(visited) + [url]
      ensures stop == stopped(old(stopReads)) && stopReads == old(stopReads) + 1
    {
      allLinks := allLinks + {url};
      visited := visited + [url];
      stop := ReadStop();
    }

    /** clearAllLinks: the counter and the seen set start over, and so does the log of tasks. */
    method ClearAllLinks()
      requires coordinator.Valid()
      modifies this, pageCounter
      ensures Valid()
      ensures pageCounter.value == 0 && allLinks == {} && visited == [] && stopReads == old(stopReads)
    {
      pageCounter.value := 0;
      allLinks := {};
      visited := [];
    }

    /**
     * shouldSkipUrl: a link off the site, with a '#' or to an image or pdf
     * is skipped without being recorded; otherwise it is recorded as seen,
     * and it is skipped if it was seen before or, reading the stop flag,
     * stop is requested.
     */
    method ShouldSkipUrl(site: Site, childLink: string) returns (skip: bool)
      modifies this
      ensures !Admissible(site.url, childLink) ==>
                skip && allLinks == old(allLinks) && stopReads == old(stopReads)
      ensures Admissible(site.url, childLink) ==>
                && allLinks == old(allLinks) + {childLink}
                && (childLink in old(allLinks) ==> skip && stopReads == old(stopReads))
                && (childLink !in old(allLinks) ==> skip == stopped(old(stopReads)) && stopReads == old(stopReads) + 1)
      ensures visited == old(visited)
    {
      if !StartsWith(childLink, site.url) || '#' in childLink || Forbidden(childLink) {
        return true;
      }
      var added := childLink !in allLinks;
      allLinks := allLinks + {childLink};
      if !added {
        return true;
      }
      skip := ReadStop();
    }

    /**
     * createTask: for a link that is not skipped, a child node of the same
     * config and site joins the parent's children and becomes a task.
     */
    method CreateTask(parent: Node, childUrl: string) returns (child: Option<Node>)
      modifies this, parent
      ensures child.Some? <==>
                Admissible(parent.site.url, childUrl) && childUrl !in old(allLinks) && !stopped(old(stopReads))
      ensures Admissible(parent.site.url, childUrl) ==> allLinks == old(allLinks) + {childUrl}
      ensures !Admissible(parent.site.url, childUrl) ==> allLinks == old(allLinks)
      ensures child.Some? ==>
                && fresh(child.value) && child.value.children == []
                && child.value.config == parent.config && child.value.site == parent.site
                && child.value.parentUrl == childUrl
                && parent.children == old(parent.children) + [child.value]
      ensures child.None? ==> parent.children == old(parent.children)
      ensures visited == old(visited)
    {
      var skip := ShouldSkipUrl(parent.site, childUrl);
      if skip {
        return None;
      }
      var node := new Node(parent.config, parent.site, childUrl);
      parent.AddChildren(node);
      child := Some(node);
    }

    /**
     * The tasks of a page: createTask over its links in order, keeping the
     * ones that were created.  Each task's URL is one of the links, was not
     * seen before and is seen now, so no two tasks share a URL.
     */
    method CreateTasks(parent: Node, links: seq<string>) returns (tasks: seq<Node>)
      modifies this, parent
      ensures parent.children == old(parent.children) + tasks
      ensures old(allLinks) <= allLinks <= old(allLinks) + set i | 0 <= i < |links| :: links[i]
      ensures forall i :: 0 <= i < |links| && Admissible(parent.site.url, links[i]) ==> links[i] in allLinks
      ensures forall i :: 0 <= i < |tasks| ==>
                && fresh(tasks[i]) && tasks[i].children == []
                && tasks[i].config == parent.config && tasks[i].site == parent.site
                && tasks[i].parentUrl in links && Admissible(parent.site.url, tasks[i].parentUrl)
                && tasks[i].parentUrl !in old(allLinks) && tasks[i].parentUrl in allLinks
      ensures forall i, j :: 0 <= i < j < |tasks| ==> tasks[i].parentUrl != tasks[j].parentUrl
      ensures visited == old(visited)
    {
      tasks := [];
      var k := 0;
      while k < |links|
        invariant 0 <= k <= |links|
        invariant parent.children == old(parent.children) + tasks
        invariant old(allLinks) <= allLinks <= old(allLinks) + set i | 0 <= i < k :: links[i]
        invariant forall i :: 0 <= i < k && Admissible(parent.site.url, links[i]) ==> links[i] in allLinks
        invariant forall i :: 0 <= i < |tasks| ==>
                    && fresh(tasks[i]) && tasks[i].children == []
                    && tasks[i].config == parent.config && tasks[i].site == parent.site
                    && tasks[i].parentUrl in links[..k] && Admissible(parent.site.url, tasks[i].parentUrl)
                    && tasks[i].parentUrl !in old(allLinks) && tasks[i].parentUrl in allLinks
        invariant forall i, j :: 0 <= i < j < |tasks| ==> tasks[i].parentUrl != tasks[j].parentUrl
        invariant visited == old(visited)
      {
        ghost var seen := allLinks;
        var child := CreateTask(parent, links[k]);
        if child.Some? {
          tasks := tasks + [child.value];
        }
        assert links[..k + 1] == links[..k] + [links[k]];
        k := k + 1;
      }
    }

    /**
     * compute: the node's URL is recorded as seen and logged as a task; with
     * stop requested nothing else happens.  Otherwise a fetch failure marks
     * the site FAILED with the exception text, and a document is saved (see
     * `SavePageInDb`) and its tasks run one after the other.  Every task the
     * run starts after this one has a URL that was not seen when it began,
     * so no URL is crawled twice.
     */
    method Compute(parent: Node)
      requires Valid() && parent.parentUrl !in visited
      modifies this, parent, pageCounter, coordinator.db, coordinator.lemmaService, coordinator.indexService,
               coordinator.pageBatchInserter, coordinator.pageBatchInserter.Cells()
      ensures Valid()
      ensures old(allLinks) + {parent.parentUrl} <= allLinks
      ensures |old(visited)| < |visited| && visited[..|old(visited)| + 1] == old(visited) + [parent.parentUrl]
      ensures forall i :: |old(visited)| < i < |visited| ==> visited[i] !in old(allLinks)
      ensures forall c :: c in coordinator.pageBatchInserter.Cells() ==>
                c in old(coordinator.pageBatchInserter.Cells()) || fresh(c)
      ensures stopped(old(stopReads)) ==>
                && allLinks == old(allLinks) + {parent.parentUrl} && visited == old(visited) + [parent.parentUrl]
                && unchanged(parent, pageCounter, coordinator.db, coordinator.pageBatchInserter,
                             coordinator.lemmaService, coordinator.indexService)
      ensures !stopped(old(stopReads)) && Fetch(parent.parentUrl).Failed? ==>
                && visited == old(visited) + [parent.parentUrl] && parent.children == old(parent.children)
                && SiteServices.StatusSet(old(coordinator.db.t.sites), coordinator.db.t.sites, parent.site.id,
                                          FAILED, Fetch(parent.parentUrl).exception)
                && coordinator.db.t == old(coordinator.db.t).(sites := coordinator.db.t.sites)
                && coordinator.pageBatchInserter.buffer == old(coordinator.pageBatchInserter.buffer)
                && coordinator.lemmaService.buffer == old(coordinator.lemmaService.buffer)
                && coordinator.indexService.buffer == old(coordinator.indexService.buffer)
      decreases |Universe(web) - allLinks|, 3, 0
    {
      var stop := StartTask(parent.parentUrl);
      if stop {
        return;
      }
      var document := Fetch(parent.parentUrl);
      if document.Failed? {
        coordinator.SaveFinalSiteData(parent.site.id, FAILED, document.exception);
        return;
      }
      CrawlDocument(parent, document, old(allLinks), |Universe(web) - old(allLinks)|);
    }

    /**
     * The rest of compute once a document came back: the page is saved (see
     * `SavePageInDb`), and a task for each new admissible link is created
     * and run.  `seen0` is the seen set before this task recorded its URL.
     */
    method CrawlDocument(parent: Node, document: Download, ghost seen0: set<string>, ghost bound: nat)
      requires Valid() && document.Document? && Fetch(parent.parentUrl) == document
      requires seen0 <= allLinks && bound == |Universe(web) - seen0|
      requires parent.parentUrl in visited
      modifies this, parent, pageCounter, coordinator.db, coordinator.lemmaService, coordinator.indexService,
               coordinator.pageBatchInserter, coordinator.pageBatchInserter.Cells()
      ensures Valid()
      ensures old(allLinks) <= allLinks
      ensures |old(visited)| <= |visited| && visited[..|old(visited)|] == old(visited)
      ensures forall i :: |old(visited)| <= i < |visited| ==> visited[i] !in seen0
      ensures forall c :: c in coordinator.pageBatchInserter.Cells() ==>
                c in old(coordinator.pageBatchInserter.Cells()) || fresh(c)
      decreases bound, 2, 0
    {
      ghost var page, order, counts := SavePageInDb(parent, document.statusCode, document.html, document.text);
      SpawnTasks(parent, document.links, seen0, bound);
    }

    /** A task for each new admissible link of the document, and their run. */
    method SpawnTasks(parent: Node, links: seq<string>, ghost seen0: set<string>, ghost bound: nat)
      requires Valid() && forall i :: 0 <= i < |links| ==> links[i] in Universe(web)
      requires seen0 <= allLinks && bound == |Universe(web) - seen0|
      modifies this, parent, pageCounter, coordinator.db, coordinator.lemmaService, coordinator.indexService,
               coordinator.pageBatchInserter, coordinator.pageBatchInserter.Cells()
      ensures Valid()
      ensures old(allLinks) <= allLinks
      ensures |old(visited)| <= |visited| && visited[..|old(visited)|] == old(visited)
      ensures forall i :: |old(visited)| <= i < |visited| ==> visited[i] !in seen0
      ensures forall c :: c in coordinator.pageBatchInserter.Cells() ==>
                c in old(coordinator.pageBatchInserter.Cells()) || fresh(c)
      decreases bound, 1, 0
    {
      var tasks := CreateTasks(parent, links);
      RunTasks(tasks, seen0, bound);
    }

    /**
     * invokeAll, one task after the other.  `seen0` is the seen set when the
     * parent task began and `bound` the parent's count of unseen URLs; every
     * task's URL is new since then, so each task has fewer unseen URLs left.
     * Every task the run starts has a URL not in `seen0`.
     */
    method RunTasks(tasks: seq<Node>, ghost seen0: set<string>, ghost bound: nat)
      requires Valid()
      requires seen0 <= allLinks && bound == |Universe(web) - seen0|
      requires forall i :: 0 <= i < |tasks| ==>
                 && tasks[i].parentUrl in Universe(web) && tasks[i].parentUrl !in seen0
                 && tasks[i].parentUrl in allLinks && tasks[i].parentUrl !in visited
      requires forall i, j :: 0 <= i < j < |tasks| ==> tasks[i].parentUrl != tasks[j].parentUrl
      modifies this, pageCounter, set i | 0 <= i < |tasks| :: tasks[i]
      modifies coordinator.db, coordinator.lemmaService, coordinator.indexService,
               coordinator.pageBatchInserter, coordinator.pageBatchInserter.Cells()
      ensures Valid()
      ensures old(allLinks) <= allLinks
      ensures |old(visited)| <= |visited| && visited[..|old(visited)|] == old(visited)
      ensures forall i :: |old(visited)| <= i < |visited| ==> visited[i] !in seen0
      ensures forall c :: c in coordinator.pageBatchInserter.Cells() ==>
                c in old(coordinator.pageBatchInserter.Cells()) || fresh(c)
      decreases bound, 0, |tasks|
    {
      if tasks == [] {
        return;
      }
      RunTask(tasks[0], seen0, bound);
      forall j | 1 <= j < |tasks| ensures tasks[j].parentUrl !in visited {
        assert tasks[j].parentUrl != tasks[0].parentUrl;
      }
      ghost var log := visited;
      RunTasks(tasks[1..], seen0, bound);
      assert visited[..|old(visited)|] == log[..|old(visited)|];
    }

    /**
     * One task of the run: its URL is new since `seen0`, so fewer unseen
     * URLs are left when it is computed.  A URL that was seen but not logged
     * when it began, other than its own, is still not logged after it.
     */
    method RunTask(task: Node, ghost seen0: set<string>, ghost bound: nat)
      requires Valid()
      requires seen0 <= allLinks && bound == |Universe(web) - seen0|
      requires task.parentUrl in Universe(web) && task.parentUrl !in seen0
      requires task.parentUrl in allLinks && task.parentUrl !in visited
      modifies this, task, pageCounter, coordinator.db, coordinator.lemmaService, coordinator.indexService,
               coordinator.pageBatchInserter, coordinator.pageBatchInserter.Cells()
      ensures Valid()
      ensures old(allLinks) <= allLinks
      ensures |old(visited)| <= |visited| && visited[..|old(visited)|] == old(visited)
      ensures forall i :: |old(visited)| <= i < |visited| ==> visited[i] !in seen0
      ensures forall u :: u in old(allLinks) && u != task.parentUrl && u !in old(visited) ==> u !in visited
      ensures forall c :: c in coordinator.pageBatchInserter.Cells() ==>
                c in old(coordinator.pageBatchInserter.Cells()) || fresh(c)
      decreases bound, 0, 0
    {
      UnseenShrinks(Universe(web), seen0, allLinks, task.parentUrl);
      ghost var log := visited;
      Compute(task);
      forall i | |log| <= i < |visited| ensures visited[i] !in seen0 {
        if i == |log| {
          assert visited[i] == task.parentUrl;
        }
      }
    }

    /**
     * savePageInDb: the site's own URL and error pages are not stored.  Any
     * other page is counted, joins the page buffer (which may then be sent
     * as a batch, see createPageBatchInsert) and has one lemma and one index
     * entry per distinct lemma of its text buffered.  `counts` is the
     * lemma map of the text and `order` the walk of its keys.
     */
    method SavePageInDb(parent: Node, statusCode: int, html: string, text: string)
      returns (ghost page: Option<Page>, ghost order: seq<string>, ghost counts: map<string, nat>)
      requires Valid()
      modifies pageCounter, coordinator.db, coordinator.lemmaService, coordinator.indexService,
               coordinator.pageBatchInserter, coordinator.pageBatchInserter.Cells()
      ensures Valid()
      ensures page.Some? ==> fresh(page.value.id)
      ensures coordinator.pageBatchInserter.Cells() <=
                old(coordinator.pageBatchInserter.Cells()) + (if page.Some? then {page.value.id} else {})
      ensures forall c :: c in coordinator.pageBatchInserter.Cells() ==>
                c in old(coordinator.pageBatchInserter.Cells()) || fresh(c)
      ensures page.None? <==> parent.parentUrl == parent.site.url || statusCode >= HttpErrorCode
      ensures page.None? ==>
                && pageCounter.value == old(pageCounter.value) && coordinator.db.t == old(coordinator.db.t)
                && coordinator.pageBatchInserter.buffer == old(coordinator.pageBatchInserter.buffer)
                && coordinator.lemmaService.buffer == old(coordinator.lemmaService.buffer)
                && coordinator.indexService.buffer == old(coordinator.indexService.buffer)
      ensures page.Some? ==>
                && pageCounter.value == old(pageCounter.value) + 1
                && fresh(page.value) && page.value.site == parent.site
                && page.value.path == ExtractPath(parent.parentUrl, parent.site.url)
                && page.value.code == statusCode && page.value.content == html
                && (|| coordinator.pageBatchInserter.buffer == old(coordinator.pageBatchInserter.buffer) + [page.value]
                    || coordinator.pageBatchInserter.buffer == [])
                && Emitted(order, counts,
                           old(coordinator.lemmaService.buffer), coordinator.lemmaService.buffer,
                           old(coordinator.indexService.buffer), coordinator.indexService.buffer,
                           page.value, parent.site)
      ensures page.Some? ==> order == LemmaOrder(morph, text) && counts == CreateLemmaMap(morph, text)
    {
      if parent.parentUrl == parent.site.url || statusCode >= HttpErrorCode {
        return None, [], map[];
      }
      var logged := pageCounter.IncrementAndGet();
      var saved;
      saved, order, counts := StorePage(parent.site, parent.parentUrl, statusCode, html, text);
      page := Some(saved);
    }

    /** The stored part of savePageInDb: the page joins the page buffer, its lemmas the lemma and index buffers. */
    method StorePage(site: Site, pageUrl: string, statusCode: int, html: string, text: string)
      returns (page: Page, order: seq<string>, counts: map<string, nat>)
      requires Valid()
      modifies coordinator.db, coordinator.lemmaService, coordinator.indexService,
               coordinator.pageBatchInserter, coordinator.pageBatchInserter.Cells()
      ensures Valid()
      ensures coordinator.pageBatchInserter.Cells() <= old(coordinator.pageBatchInserter.Cells()) + {page.id}
      ensures fresh(page) && fresh(page.id) && page.site == site && page.path == ExtractPath(pageUrl, site.url)
      ensures page.code == statusCode && page.content == html
      ensures || coordinator.pageBatchInserter.buffer == old(coordinator.pageBatchInserter.buffer) + [page]
              || coordinator.pageBatchInserter.buffer == []
      ensures Emitted(order, counts,
                      old(coordinator.lemmaService.buffer), coordinator.lemmaService.buffer,
                      old(coordinator.indexService.buffer), coordinator.indexService.buffer, page, site)
      ensures order == LemmaOrder(morph, text) && counts == CreateLemmaMap(morph, text)
    {
      order, counts := LemmaOrder(morph, text), CreateLemmaMap(morph, text);
      page := BufferPage(site, pageUrl, statusCode, html);
      CreateLemmaAndIndex(site, page, order, counts);
    }

    /** createPageBatchInsert, as the crawl sees it: the page joins the buffer, which a full batch empties. */
    method BufferPage(site: Site, pageUrl: string, statusCode: int, html: string) returns (page: Page)
      requires Valid()
      modifies coordinator.db, coordinator.pageBatchInserter, coordinator.pageBatchInserter.Cells()
      ensures Valid()
      ensures coordinator.pageBatchInserter.Cells() <= old(coordinator.pageBatchInserter.Cells()) + {page.id}
      ensures fresh(page) && fresh(page.id) && page.site == site && page.path == ExtractPath(pageUrl, site.url)
      ensures page.code == statusCode && page.content == html
      ensures || coordinator.pageBatchInserter.buffer == old(coordinator.pageBatchInserter.buffer) + [page]
              || coordinator.pageBatchInserter.buffer == []
    {
      page := coordinator.CreatePageBatchInsert(site, pageUrl, statusCode, html);
      forall c | c in coordinator.pageBatchInserter.Cells()
        ensures c in old(coordinator.pageBatchInserter.Cells()) || c == page.id
      {
        var ps := coordinator.pageBatchInserter.buffer;
        var i :| 0 <= i < |ps| && ps[i].id == c;
        if i < |ps| - 1 {
          assert ps[i] == old(coordinator.pageBatchInserter.buffer)[i];
        }
      }
    }

    /**
     * createLemmaAndIndex: for each lemma of the map, in the walk `order` of
     * its keys, a lemma of frequency 1 joins the lemma buffer and an index
     * entry of the page, that lemma and the lemma's count as rank joins the
     * index buffer.
     */
    method CreateLemmaAndIndex(site: Site, page: Page, order: seq<string>, lemmaList: map<string, nat>)
      requires Valid()
      requires forall j :: 0 <= j < |order| ==> order[j] in lemmaList
      modifies coordinator.lemmaService, coordinator.indexService
      ensures Valid()
      ensures Emitted(order, lemmaList, old(coordinator.lemmaService.buffer), coordinator.lemmaService.buffer,
                      old(coordinator.indexService.buffer), coordinator.indexService.buffer, page, site)
    {
      ghost var l0 := coordinator.lemmaService.buffer;
      ghost var e0 := coordinator.indexService.buffer;
      var i := 0;
      while i < |order|
        invariant 0 <= i <= |order|
        invariant Valid()
        invariant var ls := coordinator.lemmaService.buffer;
                  var es := coordinator.indexService.buffer;
                  && |ls| == |l0| + i && ls[..|l0|] == l0 && |es| == |e0| + i && es[..|e0|] == e0
                  && forall j :: 0 <= j < i ==> Posting(ls[|l0| + j], es[|e0| + j], page, site, order[j], lemmaList[order[j]])
      {
        var lemmaText := order[i];
        var lem := coordinator.GetLemma(site, lemmaText, Frequency);
        var entry := coordinator.CreateIndex(page, lem, lemmaList[lemmaText]);
        i := i + 1;
      }
    }
  }

  /** A buffered lemma of the site with that text and frequency 1, and an index entry of the page pointing to it with that rank. */
  ghost predicate Posting(l: Lemma, e: IndexEntry, page: Page, site: Site, text: string, rank: int)
    reads l, e
  {
    && l.site == site && l.text == text && l.frequency == Frequency
    && e.page == page && e.lem == l && e.rank == rank
  }

  /**
   * The buffers after a page's lemmas and index entries were emitted: for
   * each lemma text of `order`, one lemma and one index entry as `Posting`
   * says, with the text's count as rank; what was buffered before stays.
   */
  ghost predicate Emitted(order: seq<string>, counts: map<string, nat>, l0: seq<Lemma>, l1: seq<Lemma>,
                          e0: seq<IndexEntry>, e1: seq<IndexEntry>, page: Page, site: Site)
    reads set i | 0 <= i < |l1| :: l1[i]
    reads set i | 0 <= i < |e1| :: e1[i]
  {
    && |l1| == |l0| + |order| && l1[..|l0|] == l0
    && |e1| == |e0| + |order| && e1[..|e0|] == e0
    && forall j :: 0 <= j < |order| ==>
         order[j] in counts && Posting(l1[|l0| + j], e1[|e0| + j], page, site, order[j], counts[order[j]])
  }
}
