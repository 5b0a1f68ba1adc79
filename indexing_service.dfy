/**
 * IndexingServiceImpl as a state machine.  Its state is the number of
 * outstanding tasks (one per configured site plus one final task), the stop
 * flag, the set of ids of the sites registered in this run, and the flag
 * that a shutdown of the site executor is still pending.  The thread pools
 * are events: a site is registered when its task starts, the task reports
 * its completion when its crawl is over, and the asynchronous shutdown
 * reports that it finished.
 */
module IndexingServices {
  import opened Wrappers
  import opened Model
  import opened Seqs
  import opened SitesConfig
  import opened Lemmatizer
  import opened UrlUtils
  import Store
  import SiteServices
  import Coordinator
  import PageBatch
  import LemmaServices
  import IndexServices
  import BatchInserter
  import Crawler
  import SinglePage
  import PageData

  /** FINAL_TASKS: the task that stands for the final batch inserts. */
  const FinalTasks: int := 1

  const StoppedByUser: string := "Indexing stopped by the user."

  /** The message of the exception a missing site row raises when its status is read. */
  const NullSiteError: string := "java.lang.NullPointerException"

  /**
   * The three final batch inserts of a crawl, from `before` to `after`: the
   * buffered pages (none when the page buffer is empty), then the rows of
   * the reconciled lemma buffer, then the index rows, each batch reading the
   * driver of its turn and the last two the one stop flag, the index batch
   * from the read after the lemma batch's last (which comes early when an
   * execution inside the lemma loop threw).
   */
  ghost predicate Batched(drivers: nat -> BatchInserter.Driver, before: Store.Tables, pages: seq<Page>, lemmas: seq<Lemma>,
                          stopReads: nat -> bool, afterPages: Store.Tables, afterLemmas: Store.Tables,
                          lemmaRows: seq<Store.LemmaRow>, indexRows: seq<Store.IndexRow>, after: Store.Tables)
  {
    && (pages == [] ==> afterPages == before)
    && (pages != [] ==> afterPages == Store.AfterPageBatch(before, PageBatch.PageRows(pages), PageBatch.PageBatchSize,
                                                           PageBatch.NeverStopped, drivers(before.batches)))
    && Coordinator.ReconciledRows(lemmas, lemmaRows)
    && afterLemmas == Store.AfterLemmaBatch(afterPages, lemmaRows, LemmaServices.LemmaBatchSize, stopReads,
                                            drivers(afterPages.batches))
    && after == Store.AfterIndexBatch(afterLemmas, indexRows, IndexServices.IndexBatchSize,
                                      BatchInserter.Later(stopReads,
                                        Store.LemmaBatchReads(afterPages, lemmaRows, LemmaServices.LemmaBatchSize,
                                                              stopReads, drivers(afterPages.batches))),
                                      drivers(afterLemmas.batches))
  }

  // ------------------------------------------------------------ the counter

  /** A completion while not stopped reaches the final task exactly when the counter was one above it. */
  predicate Finalises(remaining: int) {
    remaining - 1 == FinalTasks
  }

  /** remainingTasks after a completion while not stopped: one less, and 0 once the finalisation ran. */
  function AfterCompletion(remaining: int): int {
    if Finalises(remaining) then 0 else remaining - 1
  }

  /** The counter after `k` completions, none of them stopped. */
  function CounterAfter(remaining: int, k: nat): int {
    if k == 0 then remaining else AfterCompletion(CounterAfter(remaining, k - 1))
  }

  /** How many of those `k` completions ran the finalisation. */
  function FinalisationsIn(remaining: int, k: nat): nat {
    if k == 0 then 0 else FinalisationsIn(remaining, k - 1) + (if Finalises(CounterAfter(remaining, k - 1)) then 1 else 0)
  }

  /**
   * A run of n sites starts the counter at n + 1.  With no stop, the first
   * n - 1 completions only count down; the n-th runs the finalisation and
   * leaves 0; no later completion finalises again.
   */
  lemma {:induction false} FinalisesOnceAfterLastSite(n: nat, k: nat)
    requires n >= 1
    ensures CounterAfter(n + FinalTasks, k) == if k < n then n + 1 - k else n - k
    ensures FinalisationsIn(n + FinalTasks, k) == if k >= n then 1 else 0
  {
    if k > 0 {
      FinalisesOnceAfterLastSite(n, k - 1);
    }
  }

  // ------------------------------------------------------------ the sites table

  /**
   * The sites after every row whose id is in `ids` took `status` and
   * `error`; with `spareFailed`, a row already FAILED keeps its state.
   */
  function MarkedSites(sites: seq<Site>, ids: seq<int>, status: Status, error: string, spareFailed: bool): seq<Site> {
    seq(|sites|, i requires 0 <= i < |sites| =>
      if sites[i].id in ids && !(spareFailed && sites[i].status == FAILED)
      then SiteServices.WithStatus(sites[i], status, error) else sites[i])
  }

  /** completeSiteIndexing's table: registered sites not FAILED become INDEXED with an empty error. */
  function FinalisedSites(sites: seq<Site>, ids: seq<int>): seq<Site> {
    MarkedSites(sites, ids, INDEXED, "", true)
  }

  /** stopIndexing's table: every registered site becomes FAILED with the stop message. */
  function StoppedSites(sites: seq<Site>, ids: seq<int>): seq<Site> {
    MarkedSites(sites, ids, FAILED, StoppedByUser, false)
  }

  /**
   * After the finalisation no registered site is still INDEXING: each is
   * INDEXED with an empty error or was FAILED and kept its error; no site
   * changes its id, url or name, and a site not registered is untouched.
   */
  lemma FinalisationSettlesRegisteredSites(sites: seq<Site>, ids: seq<int>)
    ensures var r := FinalisedSites(sites, ids);
            && |r| == |sites|
            && (forall i :: 0 <= i < |r| && sites[i].id in ids ==>
                  || (r[i].status == INDEXED && r[i].lastError == Some(""))
                  || (r[i] == sites[i] && sites[i].status == FAILED))
            && (forall i :: 0 <= i < |r| && sites[i].id in ids ==> r[i].status != INDEXING)
            && (forall i :: 0 <= i < |r| && sites[i].status == FAILED ==> r[i] == sites[i])
            && (forall i :: 0 <= i < |r| && sites[i].id !in ids ==> r[i] == sites[i])
            && (forall i :: 0 <= i < |r| ==> r[i].id == sites[i].id && r[i].url == sites[i].url && r[i].name == sites[i].name)
  {
  }

  /** After a stop every registered site is FAILED with the stop message; the others are untouched. */
  lemma StopFailsRegisteredSites(sites: seq<Site>, ids: seq<int>)
    ensures var r := StoppedSites(sites, ids);
            && |r| == |sites|
            && (forall i :: 0 <= i < |r| && sites[i].id in ids ==>
                  r[i].status == FAILED && r[i].lastError == Some(StoppedByUser))
            && (forall i :: 0 <= i < |r| && sites[i].id !in ids ==> r[i] == sites[i])
  {
  }

  /** Marking one more id, given ids are unique, is one status update of that id. */
  lemma MarkOneMore(before: seq<Site>, cur: seq<Site>, after: seq<Site>, done: seq<int>, id: int,
                    status: Status, error: string, spareFailed: bool)
    requires forall a, b :: 0 <= a < b < |before| ==> before[a].id < before[b].id
    requires cur == MarkedSites(before, done, status, error, spareFailed) && id !in done
    requires forall i :: 0 <= i < |cur| && cur[i].id == id ==> !(spareFailed && cur[i].status == FAILED)
    requires SiteServices.StatusSet(cur, after, id, status, error)
    ensures after == MarkedSites(before, done + [id], status, error, spareFailed)
  {
    var want := MarkedSites(before, done + [id], status, error, spareFailed);
    forall i | 0 <= i < |after| ensures after[i] == want[i] {
      if before[i].id == id {
        assert cur[i] == before[i];
      }
    }
  }

  /** Marking keeps every row's id, so the row of an id in the marked table is the only one. */
  lemma UniqueRowOfId(before: seq<Site>, cur: seq<Site>, done: seq<int>, id: int, s: Site,
                      status: Status, error: string, spareFailed: bool)
    requires forall a, b :: 0 <= a < b < |before| ==> before[a].id < before[b].id
    requires cur == MarkedSites(before, done, status, error, spareFailed)
    requires s in cur && s.id == id
    ensures forall i :: 0 <= i < |cur| && cur[i].id == id ==> cur[i] == s
  {
    var k :| 0 <= k < |cur| && cur[k] == s;
    forall i | 0 <= i < |cur| && cur[i].id == id ensures cur[i] == s {
      assert cur[i].id == before[i].id && cur[k].id == before[k].id;
    }
  }

  /** A FAILED row spared by the marking: marking its id changes nothing. */
  lemma SparedWhenFailed(before: seq<Site>, cur: seq<Site>, done: seq<int>, id: int, s: Site,
                         status: Status, error: string)
    requires forall a, b :: 0 <= a < b < |before| ==> before[a].id < before[b].id
    requires cur == MarkedSites(before, done, status, error, true) && id !in done
    requires s in cur && s.id == id && s.status == FAILED
    ensures cur == MarkedSites(before, done + [id], status, error, true)
  {
    UniqueRowOfId(before, cur, done, id, s, status, error, true);
    var want := MarkedSites(before, done + [id], status, error, true);
    forall i | 0 <= i < |cur| ensures cur[i] == want[i] {
      if before[i].id == id {
        assert cur[i] == before[i];
      }
    }
  }

  /** An id with no row in the marked table has none in the table before the marking. */
  lemma MissingStaysMissing(before: seq<Site>, cur: seq<Site>, done: seq<int>, id: int,
                            status: Status, error: string, spareFailed: bool)
    requires cur == MarkedSites(before, done, status, error, spareFailed)
    requires forall i :: 0 <= i < |cur| ==> cur[i].id != id
    ensures Store.SiteById(before, id).None?
  {
    forall i | 0 <= i < |before| ensures before[i].id != id {
      assert cur[i].id == before[i].id;
    }
  }

  class IndexingService {
    const coordinator: Coordinator.IndexingCoordinator
    /** The owner of ALL_LINKS, cleared at each start. */
    const crawler: Crawler.PageCrawler
    /** The site list as configured; it is validated at each read. */
    const config: seq<SiteFromList>
    var remainingTasks: int
    var stopRequested: bool
    /** The registered site ids, without repetitions, in registration order. */
    var siteIdsForEnding: seq<int>
    var waitExecutorShutdown: bool

    ghost predicate Valid()
      reads this, coordinator, coordinator.db, coordinator.lemmaService, coordinator.indexService,
            coordinator.pageBatchInserter, crawler
    {
      coordinator.Valid() && crawler.coordinator == coordinator && Distinct(siteIdsForEnding)
    }

    constructor (coordinator: Coordinator.IndexingCoordinator, crawler: Crawler.PageCrawler, config: seq<SiteFromList>)
      requires coordinator.Valid() && crawler.coordinator == coordinator
      ensures Valid() && this.coordinator == coordinator && this.crawler == crawler && this.config == config
      ensures remainingTasks == 0 && !stopRequested && siteIdsForEnding == [] && !waitExecutorShutdown
    {
      this.coordinator := coordinator;
      this.crawler := crawler;
      this.config := config;
      remainingTasks := 0;
      stopRequested := false;
      siteIdsForEnding := [];
      waitExecutorShutdown := false;
    }

    /**
     * startIndexing: refused (false) while tasks are outstanding or a
     * shutdown is pending.  Otherwise the configuration is read, which
     * throws on an invalid list before anything changes; then
     * initializeIndexing: the counter goes up by the number of sites plus
     * the final task, the stop flag is cleared, the seen URLs and all
     * buffers are dropped and every table is emptied.  The sites' tasks are
     * then submitted: see `RegisterSite`.
     */
    method StartIndexing() returns (r: Result<bool>)
      requires Valid()
      modifies this, crawler, crawler.pageCounter, coordinator.db, coordinator.indexService, coordinator.lemmaService,
               coordinator.pageBatchInserter
      ensures Valid()
      ensures r == Success(false) <==> old(remainingTasks) != 0 || old(waitExecutorShutdown)
      ensures r.Failure? <==> old(remainingTasks) == 0 && !old(waitExecutorShutdown) && GetSites(config).Failure?
      ensures r.Failure? ==> r.error == GetSites(config).error
      ensures r != Success(true) ==>
                && remainingTasks == old(remainingTasks) && stopRequested == old(stopRequested)
                && coordinator.db.t == old(coordinator.db.t) && crawler.allLinks == old(crawler.allLinks)
      ensures r == Success(true) ==>
                && remainingTasks == |config| + FinalTasks && !stopRequested
                && crawler.allLinks == {} && crawler.pageCounter.value == 0
                && coordinator.indexService.buffer == [] && coordinator.lemmaService.buffer == []
                && coordinator.pageBatchInserter.buffer == []
                && coordinator.db.t == old(coordinator.db.t).(sites := [], pages := [], lemmas := [], indices := [])
      ensures siteIdsForEnding == old(siteIdsForEnding) && waitExecutorShutdown == old(waitExecutorShutdown)
    {
      if remainingTasks != 0 || waitExecutorShutdown {
        return Success(false);
      }
      var sites := GetSites(config);
      if sites.Failure? {
        return Failure(sites.error);
      }
      remainingTasks := remainingTasks + |sites.value| + FinalTasks;
      stopRequested := false;
      crawler.ClearAllLinks();
      coordinator.ClearAllBuffers();
      coordinator.DeleteDataAboutSites();
      r := Success(true);
    }

    /**
     * The start of a site's task (startingAThreadPool up to the crawl): the
     * configured site is saved as a new INDEXING row and its id registered.
     * The crawl of the site that follows is `Crawler.PageCrawler.Compute` on
     * a root node for the site url; its end is `CountingCompletedThreadPools`.
     */
    method RegisterSite(s: SiteFromList) returns (site: Site)
      requires Valid()
      modifies this, coordinator.db
      ensures Valid()
      ensures site.url == NormalizeSiteUrl(s.url) && site.name == s.name && site.status == INDEXING
      ensures coordinator.db.t.sites == old(coordinator.db.t.sites) + [site]
      ensures siteIdsForEnding == old(siteIdsForEnding) + if site.id in old(siteIdsForEnding) then [] else [site.id]
      ensures remainingTasks == old(remainingTasks) && stopRequested == old(stopRequested)
      ensures waitExecutorShutdown == old(waitExecutorShutdown)
    {
      site := coordinator.GetSiteFromListAndSave(s);
      if site.id !in siteIdsForEnding {
        siteIdsForEnding := siteIdsForEnding + [site.id];
      }
    }

    /**
     * countingCompletedThreadPools: nothing happens once stop was
     * requested.  Otherwise the counter goes down, and when it reaches the
     * final task the buffered data goes to the database (pages, reconciled
     * lemmas, index entries; `stopReads` is the stop flag as those batch
     * inserts read it) and the registered sites are finalised.
     */
    method CountingCompletedThreadPools(stopReads: nat -> bool)
      returns (r: Result<()>, ghost afterPages: Store.Tables, ghost afterLemmas: Store.Tables,
               ghost lemmaRows: seq<Store.LemmaRow>, ghost indexRows: seq<Store.IndexRow>)
      requires Valid()
      modifies this, coordinator.db, coordinator.pageBatchInserter, coordinator.pageBatchInserter.Cells(),
               coordinator.lemmaService, coordinator.lemmaService.Cells(),
               coordinator.indexService.Entries(), coordinator.indexService.Cells()
      ensures Valid()
      ensures stopRequested == old(stopRequested) && waitExecutorShutdown == old(waitExecutorShutdown)
      ensures old(stopRequested) ==>
                r.Success? && remainingTasks == old(remainingTasks) && siteIdsForEnding == old(siteIdsForEnding)
                && coordinator.db.t == old(coordinator.db.t)
      ensures !old(stopRequested) && !Finalises(old(remainingTasks)) ==>
                r.Success? && remainingTasks == old(remainingTasks) - 1 && siteIdsForEnding == old(siteIdsForEnding)
                && coordinator.db.t == old(coordinator.db.t)
      ensures !old(stopRequested) && Finalises(old(remainingTasks)) && r.Success? ==>
                && remainingTasks == AfterCompletion(old(remainingTasks)) && siteIdsForEnding == []
                && coordinator.db.t.sites == FinalisedSites(old(coordinator.db.t.sites), old(siteIdsForEnding))
      ensures !old(stopRequested) && Finalises(old(remainingTasks)) && r.Failure? ==>
                r.error == NullSiteError && remainingTasks == FinalTasks && siteIdsForEnding == old(siteIdsForEnding)
      // the final task's batches: every table but the sites is as the three batches leave it
      ensures !old(stopRequested) && Finalises(old(remainingTasks)) ==>
                && Batched(coordinator.db.drivers, old(coordinator.db.t), old(coordinator.pageBatchInserter.buffer),
                           old(coordinator.lemmaService.buffer), stopReads, afterPages, afterLemmas, lemmaRows, indexRows,
                           coordinator.db.t.(sites := old(coordinator.db.t.sites)))
                && |indexRows| == |coordinator.indexService.buffer|
    {
      afterPages, afterLemmas, lemmaRows, indexRows := coordinator.db.t, coordinator.db.t, [], [];
      if stopRequested {
        r := Success(());
        return;
      }
      remainingTasks := remainingTasks - 1;
      if remainingTasks == FinalTasks {
        ghost var m;
        m, afterPages, afterLemmas, lemmaRows, indexRows := AddLemmaAndIndexToTheDatabase(stopReads);
        ghost var batched := coordinator.db.t;
        r := CompleteSiteIndexing();
        assert coordinator.db.t.(sites := old(coordinator.db.t.sites)) == batched;
      } else {
        r := Success(());
      }
    }

    /**
     * coordinator.addLemmaAndIndexToTheDatabase, as this service sees it: the
     * site rows stay, and so does everything the service keeps itself; the
     * tables go through the page, lemma and index batches of
     * `Coordinator.IndexingCoordinator.AddLemmaAndIndexToTheDatabase`, whose
     * intermediate tables and bound rows are returned with the same names.
     */
    method AddLemmaAndIndexToTheDatabase(stopReads: nat -> bool)
      returns (ghost m: map<LemmaKey, Lemma>, ghost afterPages: Store.Tables, ghost afterLemmas: Store.Tables,
               ghost lemmaRows: seq<Store.LemmaRow>, ghost indexRows: seq<Store.IndexRow>)
      requires Valid()
      modifies coordinator.db, coordinator.pageBatchInserter, coordinator.pageBatchInserter.Cells(),
               coordinator.lemmaService, coordinator.lemmaService.Cells(),
               coordinator.indexService.Entries(), coordinator.indexService.Cells()
      ensures Valid() && coordinator.db.t.sites == old(coordinator.db.t.sites)
      ensures Batched(coordinator.db.drivers, old(coordinator.db.t), old(coordinator.pageBatchInserter.buffer), old(coordinator.lemmaService.buffer),
                      stopReads, afterPages, afterLemmas, lemmaRows, indexRows, coordinator.db.t)
      ensures coordinator.indexService.buffer == old(coordinator.indexService.buffer)
      ensures forall i :: 0 <= i < |coordinator.indexService.buffer| ==>
                coordinator.indexService.buffer[i].lem == IndexServices.Repointed(old(coordinator.indexService.buffer[i].lem), m)
      ensures |indexRows| == |coordinator.indexService.buffer|
      ensures forall i :: 0 <= i < |indexRows| ==> indexRows[i].rank == coordinator.indexService.buffer[i].rank
    {
      m, afterPages, afterLemmas, lemmaRows, indexRows := coordinator.AddLemmaAndIndexToTheDatabase(stopReads);
    }

    /**
     * completeSiteIndexing: each registered site whose row is not FAILED is
     * saved INDEXED with an empty error, then the registered set is cleared
     * and the counter set to 0.  A registered id without a row makes the
     * status read throw, and the method ends there.
     */
    method CompleteSiteIndexing() returns (r: Result<()>)
      requires Valid()
      modifies this, coordinator.db
      ensures Valid()
      ensures stopRequested == old(stopRequested) && waitExecutorShutdown == old(waitExecutorShutdown)
      ensures coordinator.db.t == old(coordinator.db.t).(sites := coordinator.db.t.sites)
      ensures r.Success? ==>
                && coordinator.db.t.sites == FinalisedSites(old(coordinator.db.t.sites), old(siteIdsForEnding))
                && siteIdsForEnding == [] && remainingTasks == 0
      ensures r.Failure? ==>
                && r.error == NullSiteError
                && siteIdsForEnding == old(siteIdsForEnding) && remainingTasks == old(remainingTasks)
                && exists id :: id in old(siteIdsForEnding) && Store.SiteById(old(coordinator.db.t.sites), id).None?
    {
      ghost var sites := coordinator.db.t.sites;
      assert forall a, b :: 0 <= a < b < |sites| ==> sites[a].id < sites[b].id by {
        assert Store.IdsOk(sites, Store.SiteRowId, coordinator.db.t.nextSiteId);
      }
      var ids := siteIdsForEnding;
      var i := 0;
      while i < |ids|
        invariant 0 <= i <= |ids|
        invariant Valid() && siteIdsForEnding == ids && remainingTasks == old(remainingTasks)
        invariant stopRequested == old(stopRequested) && waitExecutorShutdown == old(waitExecutorShutdown)
        invariant coordinator.db.t == old(coordinator.db.t).(sites := coordinator.db.t.sites)
        invariant coordinator.db.t.sites == FinalisedSites(sites, ids[..i])
      {
        var id := ids[i];
        assert id !in ids[..i];
        assert ids[..i + 1] == ids[..i] + [id];
        var done := FinaliseSite(id, sites, ids[..i]);
        if done.Failure? {
          return done;
        }
        i := i + 1;
      }
      assert ids[..i] == ids;
      siteIdsForEnding := [];
      remainingTasks := 0;
      r := Success(());
    }

    /**
     * One turn of completeSiteIndexing's forEach: the site's row is read; a
     * missing row throws; a row not FAILED is saved INDEXED with an empty
     * error.  `sites` and `done` name the table before the forEach and the
     * ids visited so far.
     */
    method FinaliseSite(id: int, ghost sites: seq<Site>, ghost done: seq<int>) returns (r: Result<()>)
      requires Valid()
      requires forall a, b :: 0 <= a < b < |sites| ==> sites[a].id < sites[b].id
      requires coordinator.db.t.sites == FinalisedSites(sites, done) && id !in done
      modifies coordinator.db
      ensures Valid()
      ensures coordinator.db.t == old(coordinator.db.t).(sites := coordinator.db.t.sites)
      ensures r.Success? ==> coordinator.db.t.sites == FinalisedSites(sites, done + [id])
      ensures r.Failure? ==> r.error == NullSiteError && Store.SiteById(sites, id).None?
    {
      ghost var cur := coordinator.db.t.sites;
      var site := coordinator.GetSiteById(id);
      if site.None? {
        MissingStaysMissing(sites, cur, done, id, INDEXED, "", true);
        return Failure(NullSiteError);
      }
      if site.value.status != FAILED {
        UniqueRowOfId(sites, cur, done, id, site.value, INDEXED, "", true);
        coordinator.SaveFinalSiteData(id, INDEXED, "");
        MarkOneMore(sites, cur, coordinator.db.t.sites, done, id, INDEXED, "", true);
      } else {
        SparedWhenFailed(sites, cur, done, id, site.value, INDEXED, "");
      }
      r := Success(());
    }

    /**
     * stopIndexing: false when no site is registered.  Otherwise the stop
     * flag is set, every registered site is saved FAILED with the stop
     * message, the shutdown of the site executor is started, the registered
     * set is cleared and the counter set to 0.
     */
    method StopIndexing() returns (ok: bool)
      requires Valid()
      modifies this, coordinator.db
      ensures Valid()
      ensures ok <==> old(siteIdsForEnding) != []
      ensures !ok ==>
                && stopRequested == old(stopRequested) && remainingTasks == old(remainingTasks)
                && siteIdsForEnding == old(siteIdsForEnding) && waitExecutorShutdown == old(waitExecutorShutdown)
                && coordinator.db.t == old(coordinator.db.t)
      ensures ok ==>
                && stopRequested && waitExecutorShutdown && siteIdsForEnding == [] && remainingTasks == 0
                && coordinator.db.t == old(coordinator.db.t).(sites := coordinator.db.t.sites)
                && coordinator.db.t.sites == StoppedSites(old(coordinator.db.t.sites), old(siteIdsForEnding))
    {
      if siteIdsForEnding == [] {
        return false;
      }
      stopRequested := true;
      ghost var sites := coordinator.db.t.sites;
      assert forall a, b :: 0 <= a < b < |sites| ==> sites[a].id < sites[b].id by {
        assert Store.IdsOk(sites, Store.SiteRowId, coordinator.db.t.nextSiteId);
      }
      var ids := siteIdsForEnding;
      var i := 0;
      while i < |ids|
        invariant 0 <= i <= |ids|
        invariant Valid() && siteIdsForEnding == ids && stopRequested && remainingTasks == old(remainingTasks)
        invariant waitExecutorShutdown == old(waitExecutorShutdown)
        invariant coordinator.db.t == old(coordinator.db.t).(sites := coordinator.db.t.sites)
        invariant coordinator.db.t.sites == StoppedSites(sites, ids[..i])
      {
        var id := ids[i];
        ghost var done := ids[..i];
        assert id !in done;
        assert ids[..i + 1] == done + [id];
        ghost var cur := coordinator.db.t.sites;
        coordinator.SaveFinalSiteData(id, FAILED, StoppedByUser);
        MarkOneMore(sites, cur, coordinator.db.t.sites, done, id, FAILED, StoppedByUser, false);
        i := i + 1;
      }
      assert ids[..i] == ids;
      ShutdownSiteExecutorAsync();
      siteIdsForEnding := [];
      remainingTasks := 0;
      ok := true;
    }

    /** shutdownSiteExecutorAsync: the first call marks a shutdown pending; a second one while it is pending does nothing. */
    method ShutdownSiteExecutorAsync()
      modifies this
      ensures waitExecutorShutdown
      ensures stopRequested == old(stopRequested) && remainingTasks == old(remainingTasks)
      ensures siteIdsForEnding == old(siteIdsForEnding)
    {
      if waitExecutorShutdown {
        return;
      }
      waitExecutorShutdown := true;
    }

    /** The end of the asynchronous shutdown: a start is possible again. */
    method ShutdownFinished()
      modifies this
      ensures !waitExecutorShutdown
      ensures stopRequested == old(stopRequested) && remainingTasks == old(remainingTasks)
      ensures siteIdsForEnding == old(siteIdsForEnding)
    {
      waitExecutorShutdown := false;
    }

    /**
     * indexPage: false while a crawl has registered sites, for a missing or
     * blank path and when no site resolves for the path; otherwise the page
     * is re-indexed (see `SinglePage.SinglePageIndexing.GetIndexPageResult`),
     * and the answer is true only for a page that could be loaded.
     */
    method IndexPage(path: Option<string>, fetch: SinglePage.Fetch, m: Morph) returns (r: Result<bool>, ghost page: Store.PageRow)
      requires Valid()
      modifies coordinator.db
      ensures Valid()
      ensures old(siteIdsForEnding) != [] || path.None? || IsBlank(path.value) ==>
                r == Success(false) && coordinator.db.t == old(coordinator.db.t)
      ensures r == Success(true) ==> SinglePage.Loaded(fetch)
      // an admitted path: the outcome follows the site getSiteForOnePage gives
      ensures old(siteIdsForEnding) == [] && path.Some? && !IsBlank(path.value) ==>
                match SiteServices.SiteForPage(old(coordinator.db.t), config, path.value)
                case Failure(e) => r == Failure(e) && coordinator.db.t == old(coordinator.db.t)
                case Success(None) => r == Success(false) && coordinator.db.t == old(coordinator.db.t)
                case Success(Some((site, resolved))) =>
                  && (!SinglePage.Loaded(fetch) ==>
                        && r == Success(false)
                        && SiteServices.StatusSet(resolved.sites, coordinator.db.t.sites, site.id, FAILED,
                                                  SinglePage.ConnectionErrorPrefix + path.value)
                        && coordinator.db.t.pages == resolved.pages && coordinator.db.t.lemmas == resolved.lemmas
                        && coordinator.db.t.indices == resolved.indices)
                  && (SinglePage.Loaded(fetch) && PageData.Consistent(resolved) ==>
                        r == Success(true) && SinglePage.Reindexed(site, resolved, coordinator.db.t, path.value, fetch.response, m, page))
    {
      page := Store.PageRow(0, 0, [], 0, []);
      if siteIdsForEnding != [] {
        return Success(false), page;
      }
      if path.None? || IsBlank(path.value) {
        return Success(false), page;
      }
      var site := coordinator.GetSite(path.value, config);
      if site.Failure? {
        return Failure(site.error), page;
      }
      if site.value.None? {
        return Success(false), page;
      }
      var single := new SinglePage.SinglePageIndexing(coordinator, site.value.value);
      r, page := single.GetIndexPageResult(path.value, fetch, m);
    }
  }
}
