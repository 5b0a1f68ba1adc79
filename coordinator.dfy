/**
 * IndexingCoordinator: the one object the crawl and the single-page
 * re-indexing talk to.  It owns the site, lemma and index services and the
 * page batch inserter, all over one database, and forwards each request to
 * the right one; the only logic of its own is the removal of a page's data
 * before the page is indexed again, and the order of the final batch inserts
 * of a crawl (pages, then reconciled lemmas, then index entries).
 */
module Coordinator {
  import opened Wrappers
  import opened Model
  import opened Seqs
  import opened UrlUtils
  import opened SitesConfig
  import Store
  import PageData
  import PageBatch
  import LemmaServices
  import IndexServices
  import SiteServices
  import PageServices
  import BatchInserter

  /**
   * The rows of the reconciled lemma buffer: one per key of `ls`, in order of
   * first occurrence, with the site of the key's last lemma and the number of
   * lemmas of that key, cast to int, as frequency.
   */
  ghost predicate ReconciledRows(ls: seq<Lemma>, rows: seq<Store.LemmaRow>)
  {
    var ks := Dedup(LemmaServices.LemmaKeys(ls));
    && |rows| == |ks|
    && forall i :: 0 <= i < |ks| ==>
         && LemmaServices.LastSite(ls, ks[i]).Some?
         && rows[i] == Store.LemmaRow(0, LemmaServices.LastSite(ls, ks[i]).value.id, ks[i].text,
                                      Int32(Count(LemmaServices.LemmaKeys(ls), ks[i])))
  }

  /**
   * The final flush over one stop flag that only `stopIndexing` sets: when
   * the lemma batch's loop ended on the stop (it saw the flag set before the
   * end of its rows, and no execution inside it threw), the index batch
   * binds no row, so the index table stays as the lemma batch left it.
   */
  lemma StopSeenByLemmasStopsIndices(t0: Store.Tables, t: Store.Tables, lemmaRows: seq<Store.LemmaRow>,
                                     indexRows: seq<Store.IndexRow>, stopped: nat -> bool,
                                     d0: BatchInserter.Driver, d: BatchInserter.Driver)
    requires BatchInserter.StaysSet(stopped) && BatchInserter.Bound(|lemmaRows|, stopped) < |lemmaRows|
    requires var b := LemmaServices.LemmaBatchSize;
             var full := BatchInserter.FullChunks(BatchInserter.Bound(|lemmaRows|, stopped) / b, b);
             BatchInserter.ChunksFit(full, |lemmaRows|) &&
             BatchInserter.Succeeded(full, d0, lemmaRows, t0.nextLemmaId, Store.LemmaWithId, Store.LemmasAccept(t0.lemmas)) == |full|
    ensures var flagReads := Store.LemmaBatchReads(t0, lemmaRows, LemmaServices.LemmaBatchSize, stopped, d0);
            Store.AfterIndexBatch(t, indexRows, IndexServices.IndexBatchSize, BatchInserter.Later(stopped, flagReads), d).indices
              == t.indices
  {
    var flagReads := Store.LemmaBatchReads(t0, lemmaRows, LemmaServices.LemmaBatchSize, stopped, d0);
    assert flagReads == BatchInserter.Reads(|lemmaRows|, stopped);
    var later := BatchInserter.Later(stopped, flagReads);
    BatchInserter.StopCarriesOver(flagReads, |indexRows|, stopped);
    assert indexRows[..BatchInserter.Bound(|indexRows|, later)] == [];
  }

  /**
   * The lemma ids bound into index rows: a row whose entry has the j-th key
   * of `ks` carries the j-th id handed out from `base`.
   */
  ghost predicate BindsLemmaIds(bound: seq<Store.IndexRow>, keys: seq<LemmaKey>, ks: seq<LemmaKey>, base: int)
  {
    forall i, j :: 0 <= i < |bound| && i < |keys| && 0 <= j < |ks| && keys[i] == ks[j] ==>
      bound[i].lemmaId == Int32(base + j)
  }

  /** BindsLemmaIds, read through each entry's current key. */
  lemma BindsByEntryKey(es: seq<IndexEntry>, rows: seq<Store.IndexRow>, ks: seq<LemmaKey>, base: int)
    requires BindsLemmaIds(rows, IndexServices.EntryKeys(es), ks, base)
    ensures forall i, j :: 0 <= i < |rows| && i < |es| && 0 <= j < |ks| && KeyOf(es[i].lem) == ks[j] ==>
              rows[i].lemmaId == Int32(base + j)
  {
    var keys := IndexServices.EntryKeys(es);
    forall i, j | 0 <= i < |rows| && i < |es| && 0 <= j < |ks| && KeyOf(es[i].lem) == ks[j]
      ensures rows[i].lemmaId == Int32(base + j)
    {
      assert keys[i] == ks[j];
    }
  }

  /** Each entry lemma whose key is the j-th of `ks` is the j-th lemma of `ls`. */
  ghost predicate PointsAtKeys(lems: seq<Lemma>, keys: seq<LemmaKey>, ks: seq<LemmaKey>, ls: seq<Lemma>)
  {
    forall i, j :: 0 <= i < |lems| && i < |keys| && 0 <= j < |ks| && keys[i] == ks[j] ==> j < |ls| && lems[i] == ls[j]
  }

  /**
   * From the lemma batch to the index rows: when each entry's lemma is the
   * lemma buffered at its key's position and the batch gave the k-th lemma
   * the k-th id from `base`, the rows bound from the entries carry those ids.
   */
  lemma BoundAfterLemmaBatch(es: seq<IndexEntry>, lems: seq<Lemma>, ls: seq<Lemma>, keys: seq<LemmaKey>, ks: seq<LemmaKey>, base: int)
    requires lems == IndexServices.EntryLemmas(es) && |keys| == |es|
    requires PointsAtKeys(lems, keys, ks, ls) && LemmaServices.KeyedFrom(ls, base)
    ensures BindsLemmaIds(IndexServices.IndexRows(es), keys, ks, base)
  {
  }

  class IndexingCoordinator {
    const db: Store.Database
    const siteService: SiteServices.SiteService
    const lemmaService: LemmaServices.LemmaService
    const indexService: IndexServices.IndexService
    const pageBatchInserter: PageBatch.PageBatchInserter

    /** All services write the coordinator's database; each buffer is well formed; the tables keep their keys. */
    ghost predicate Valid()
      reads this, db, lemmaService, indexService, pageBatchInserter
    {
      && siteService.db == db && lemmaService.db == db && indexService.db == db && pageBatchInserter.db == db
      && lemmaService.Valid() && indexService.Valid() && pageBatchInserter.Valid()
      && Store.Valid(db.t)
    }

    constructor (db: Store.Database)
      requires Store.Valid(db.t)
      ensures Valid() && this.db == db && db.t == old(db.t)
      ensures fresh(siteService) && fresh(lemmaService) && fresh(indexService) && fresh(pageBatchInserter)
      ensures lemmaService.buffer == [] && indexService.buffer == [] && pageBatchInserter.buffer == []
    {
      this.db := db;
      siteService := new SiteServices.SiteService(db);
      lemmaService := new LemmaServices.LemmaService(db);
      indexService := new IndexServices.IndexService(db);
      pageBatchInserter := new PageBatch.PageBatchInserter(db);
    }

    /** clearAllBuffers: index entries, lemmas and pages waiting for a batch are dropped; the tables stay. */
    method ClearAllBuffers()
      requires Valid()
      modifies indexService, lemmaService, pageBatchInserter
      ensures Valid() && db.t == old(db.t)
      ensures indexService.buffer == [] && lemmaService.buffer == [] && pageBatchInserter.buffer == []
    {
      indexService.ClearBuffer();
      lemmaService.ClearBuffer();
      pageBatchInserter.ClearBuffer();
    }

    /**
     * deleteDataAboutSites: index, lemma, page and site tables are emptied, in
     * that order; the auto-increment counters keep counting from where they
     * were, and the empty tables are trivially consistent.
     */
    method DeleteDataAboutSites()
      requires Valid()
      modifies db
      ensures Valid()
      ensures db.t == old(db.t).(sites := [], pages := [], lemmas := [], indices := [])
      ensures PageData.Consistent(db.t)
    {
      indexService.DeleteAll();
      lemmaService.DeleteAll();
      db.t := Store.ClearPages(db.t);
      siteService.DeleteAll();
    }

    /** getSiteFromListAndSave: a configured site becomes a new site row in status INDEXING. */
    method GetSiteFromListAndSave(s: SiteFromList) returns (site: Site)
      requires Valid()
      modifies db
      ensures Valid()
      ensures site.id == old(db.t.nextSiteId) && site.url == NormalizeSiteUrl(s.url) && site.name == s.name
      ensures site.status == INDEXING && site.lastError.None?
      ensures db.t.sites == old(db.t.sites) + [site]
      ensures db.t.pages == old(db.t.pages) && db.t.lemmas == old(db.t.lemmas) && db.t.indices == old(db.t.indices)
    {
      site := siteService.Save(s);
    }

    /** saveFinalSiteData: the site with that id, if any, takes the status and error; no other row changes. */
    method SaveFinalSiteData(id: int, status: Status, error: string)
      requires Valid()
      modifies db
      ensures Valid()
      ensures SiteServices.StatusSet(old(db.t.sites), db.t.sites, id, status, error)
      ensures db.t == old(db.t).(sites := db.t.sites)
    {
      siteService.UpdateStatus(id, status, error);
      SiteServices.UpdateStatusSetsStatus(old(db.t), db.t, id, status, error);
    }

    /**
     * savePage (pageService.save): the page is built with its path relative
     * to the site url and inserted; a page of that site with that path
     * already stored makes the insert fail and leaves the tables as they were.
     */
    method SavePage(site: Site, pageUrl: string, statusCode: int, html: string) returns (r: Result<Store.PageRow>)
      requires Valid()
      modifies db
      ensures Valid()
      ensures var path := ExtractPath(pageUrl, site.url);
              && (r.Failure? <==> exists i :: 0 <= i < |old(db.t.pages)| && Store.PageKey(old(db.t.pages[i])) == (path, site.id))
              && (r.Failure? ==> db.t == old(db.t) && r.error == Store.DuplicateKeyError)
              && (r.Success? ==>
                    && r.value == Store.PageRow(old(db.t.nextPageId), site.id, path, statusCode, html)
                    && db.t == old(db.t).(pages := old(db.t.pages) + [r.value], nextPageId := old(db.t.nextPageId) + 1))
    {
      var page := PageServices.BuildPage(site, pageUrl, statusCode, html);
      var ins := Store.InsertPage(db.t, page.site.id, page.path, page.code, page.content);
      if ins.Failure? {
        return Failure(ins.error);
      }
      r := Success(Store.NewPage(db.t, page.site.id, page.path, page.code, page.content));
      db.t := ins.value;
    }

    /** saveLemma (saveOrUpdate): the (text, site) lemma is inserted with frequency 1 or gains one, and its row is returned. */
    method SaveLemma(site: Site, text: string) returns (r: Option<Store.LemmaRow>)
      requires Valid()
      modifies db
      ensures Valid()
      ensures db.t == Store.UpsertLemma(old(db.t), text, site.id)
      ensures r == Some(Store.UpsertedRow(old(db.t), text, site.id))
    {
      r := lemmaService.SaveOrUpdate(site, text);
    }

    /** saveIndex: one index row for (page, lemma) with the count as rank, or a failure if the pair is stored. */
    method SaveIndex(pageId: int, lemmaId: int, count: int) returns (r: Result<Store.IndexRow>)
      requires Valid()
      modifies db
      ensures Valid()
      ensures r.Failure? <==> exists i :: 0 <= i < |old(db.t.indices)| && Store.IndexKey(old(db.t.indices[i])) == (pageId, lemmaId)
      ensures r.Failure? ==> db.t == old(db.t)
      ensures r.Success? ==>
                && r.value == Store.IndexRow(old(db.t.nextIndexId), pageId, lemmaId, count)
                && db.t == old(db.t).(indices := old(db.t.indices) + [r.value], nextIndexId := old(db.t.nextIndexId) + 1)
    {
      r := indexService.Save(pageId, lemmaId, count);
    }

    /** getSite: the site a page to index on its own belongs to, saved from the configuration if need be. */
    method GetSite(path: string, config: seq<SiteFromList>) returns (r: Result<Option<Site>>)
      requires Valid()
      modifies db
      ensures Valid()
      ensures r.Success? && r.value.Some? ==> r.value.value.url <= path
      ensures r.Success? && r.value.Some? ==> r.value.value in db.t.sites
      ensures r == Success(None) ==> db.t == old(db.t) && forall i :: 0 <= i < |db.t.sites| ==> !(db.t.sites[i].url <= path)
      ensures r.Failure? ==> db.t == old(db.t)
      // the three cases of getSiteForOnePage: a stored site, a configuration
      // that does not validate, and the first configured site for the path
      ensures SiteServices.SiteOnPagePath(old(db.t.sites), path).Some? ==>
                r == Success(SiteServices.SiteOnPagePath(old(db.t.sites), path)) && db.t == old(db.t)
      ensures SiteServices.SiteOnPagePath(old(db.t.sites), path).None? && GetSites(config).Failure? ==>
                r == Failure(GetSites(config).error) && db.t == old(db.t)
      ensures SiteServices.SiteOnPagePath(old(db.t.sites), path).None? && GetSites(config).Success? ==>
                match SiteServices.ConfiguredSiteFor(config, path)
                case None => r == Success(None) && db.t == old(db.t)
                case Some(c) =>
                  && r == Success(Some(Store.NewSite(old(db.t), NormalizeSiteUrl(c.url), c.name, INDEXING, None)))
                  && db.t == Store.InsertSite(old(db.t), NormalizeSiteUrl(c.url), c.name, INDEXING, None)
    {
      r := siteService.GetSiteForOnePage(path, config);
    }

    /** getSiteById: the site with that id, or null when there is none. */
    method GetSiteById(id: int) returns (r: Option<Site>)
      requires Valid()
      ensures r.Some? ==> r.value in db.t.sites && r.value.id == id
      ensures r.None? <==> forall i :: 0 <= i < |db.t.sites| ==> db.t.sites[i].id != id
    {
      r := Store.SiteById(db.t.sites, id);
    }

    /** getLemma (addLemma): a new lemma waits in the lemma buffer. */
    method GetLemma(site: Site, text: string, frequency: int) returns (l: Lemma)
      requires Valid()
      modifies lemmaService
      ensures Valid() && db.t == old(db.t)
      ensures fresh(l) && fresh(l.id) && l.id.value == 0
      ensures l.site == site && l.text == text && l.frequency == frequency
      ensures lemmaService.buffer == old(lemmaService.buffer) + [l]
    {
      l := lemmaService.AddLemma(site, text, frequency);
    }

    /**
     * createPageBatchInsert: the page is built and joins the page buffer;
     * when the buffer reaches a batch, every buffered page is sent at once.
     */
    method CreatePageBatchInsert(site: Site, pageUrl: string, statusCode: int, html: string) returns (page: Page)
      requires Valid()
      modifies pageBatchInserter, db, pageBatchInserter.Cells()
      ensures Valid()
      ensures fresh(page) && fresh(page.id) && page.site == site && page.path == ExtractPath(pageUrl, site.url)
      ensures page.code == statusCode && page.content == html
      ensures var all := old(pageBatchInserter.buffer) + [page];
              if |all| >= PageBatch.PageBatchSize then
                && pageBatchInserter.buffer == []
                && db.t == Store.AfterPageBatch(old(db.t), PageBatch.PageRows(all), PageBatch.PageBatchSize,
                                                PageBatch.NeverStopped, db.drivers(old(db.t.batches)))
              else pageBatchInserter.buffer == all && db.t == old(db.t) && page.id.value == 0
    {
      page := PageServices.BuildPage(site, pageUrl, statusCode, html);
      pageBatchInserter.AddPage(page);
      if |pageBatchInserter.buffer| > 0 {
        assert pageBatchInserter.buffer[|pageBatchInserter.buffer| - 1].id in pageBatchInserter.Cells();
      }
    }

    /** createIndex (addIndex): a new index entry waits in the index buffer. */
    method CreateIndex(page: Page, lem: Lemma, rank: int) returns (e: IndexEntry)
      requires Valid()
      modifies indexService
      ensures Valid() && db.t == old(db.t)
      ensures fresh(e) && e.page == page && e.lem == lem && e.rank == rank
      ensures indexService.buffer == old(indexService.buffer) + [e]
    {
      e := indexService.AddIndex(page, lem, rank);
    }

    /**
     * deletePageData as written: the page is looked up by path alone; when
     * there is one, the lemma and index rows of the new content's lemma texts
     * are cleaned up on every site, and the page row is deleted.
     */
    method DeletePageDataAsWritten(pageUrl: string, site: Site, texts: set<string>) returns (r: Result<()>)
      requires Valid()
      modifies db
      ensures Valid()
      ensures var w := PageData.AsWrittenDeletePageData(old(db.t), pageUrl, site, texts);
              && (r.Failure? <==> w.Failure?)
              && (w.Success? ==> db.t == w.value)
              && (w.Failure? ==> db.t == old(db.t))
    {
      var editedPath := ExtractPath(pageUrl, site.url);
      match Store.PageByPath(db.t.pages, editedPath)
      case Failure(e) =>
        r := Failure(e);
      case Success(None) =>
        r := Success(());
      case Success(Some(page)) =>
        DeleteLemmaAndIndexForOnePage(texts);
        db.t := Store.DeletePage(db.t, page.id);
        r := Success(());
    }

    /**
     * deleteLemmaAndIndexForOnePage: for every loaded lemma row with one of
     * the texts, all of its index rows are deleted and it is kept for an
     * update (frequency above 1, one less) or for deletion.
     */
    method DeleteLemmaAndIndexForOnePage(texts: set<string>)
      requires indexService.db == db && lemmaService.db == db
      modifies db
      ensures db.t == PageData.AsWrittenCleanup(old(db.t), texts)
    {
      if texts == {} {
        return;
      }
      var lemmas := Store.LemmasWithTextIn(db.t.lemmas, texts);
      ghost var t0 := db.t;
      var lemmasToUpdate: seq<Store.LemmaRow> := [];
      var lemmasToDelete: seq<Store.LemmaRow> := [];
      PageData.CleanupStart(t0.indices, lemmas);
      var i := 0;
      while i < |lemmas|
        invariant 0 <= i <= |lemmas|
        invariant db.t == t0.(indices := Filter(t0.indices, PageData.OffLemmas(PageData.IdsOf(lemmas[..i]))))
        invariant lemmasToUpdate == PageData.ToUpdate(lemmas[..i]) && lemmasToDelete == PageData.ToDelete(lemmas[..i])
      {
        var lem := lemmas[i];
        indexService.DeleteIndex(lem.id);
        PageData.CleanupStep(t0.indices, lemmas, i);
        if lem.frequency > 1 {
          lemmasToUpdate := lemmasToUpdate + [lem.(frequency := lem.frequency - 1)];
        } else {
          lemmasToDelete := lemmasToDelete + [lem];
        }
        i := i + 1;
      }
      assert lemmas[..i] == lemmas;
      PageData.ToUpdateKeepsKeys(t0.lemmas, lemmas);
      if lemmasToUpdate != [] {
        lemmaService.SaveAll(lemmasToUpdate);
      }
      if lemmasToDelete != [] {
        lemmaService.DeleteAllFromList(PageData.IdsOf(lemmasToDelete));
      }
      assert db.t == PageData.AsWrittenCleanup(t0, texts);
    }

    /**
     * deletePageData, corrected: the page of this site at this path, if
     * stored, goes with its own index rows, and each lemma it used loses one
     * from its frequency (and goes once unused).  It keeps the tables
     * consistent, where the version as written does not.
     */
    method DeletePageData(pageUrl: string, site: Site)
      requires Valid()
      modifies db
      ensures Valid()
      ensures db.t == PageData.DeletePageData(old(db.t), pageUrl, site)
      ensures PageData.Consistent(old(db.t)) ==> PageData.Consistent(db.t)
    {
      match PageData.PageOnSite(db.t.pages, site.id, ExtractPath(pageUrl, site.url))
      case None =>
      case Some(page) =>
        db.t := PageData.RemovePage(db.t, page.id);
    }

    /**
     * addLemmaAndIndexToTheDatabase, at the end of a site's crawl: the last
     * pages are flushed; the buffered lemmas are reconciled to one per key,
     * in order of first occurrence, each with the site of the key's last
     * buffered lemma and the key's count as frequency; every index entry is
     * repointed to the reconciled lemma of its key; then the lemmas and the
     * entries go to the database, each as one batch insert that reads the
     * one stop flag: the index batch's reads follow the lemma batch's.
     * `afterPages` and `afterLemmas` name the tables between the
     * steps, `lemmaRows` and `indexRows` the rows the two batches bind.
     */
    method AddLemmaAndIndexToTheDatabase(stopped: nat -> bool)
      returns (ghost m: map<LemmaKey, Lemma>, ghost afterPages: Store.Tables, ghost afterLemmas: Store.Tables,
               ghost lemmaRows: seq<Store.LemmaRow>, ghost indexRows: seq<Store.IndexRow>)
      requires Valid()
      modifies pageBatchInserter, db, pageBatchInserter.Cells(), lemmaService, indexService.Entries(), indexService.Cells()
      ensures Valid()
      // pages
      ensures pageBatchInserter.buffer == []
      ensures old(pageBatchInserter.buffer) == [] ==> afterPages == old(db.t)
      ensures old(pageBatchInserter.buffer) != [] ==>
                afterPages == Store.AfterPageBatch(old(db.t), PageBatch.PageRows(old(pageBatchInserter.buffer)),
                                                   PageBatch.PageBatchSize, PageBatch.NeverStopped, db.drivers(old(db.t.batches)))
      // lemmas
      ensures ReconciledRows(old(lemmaService.buffer), lemmaRows)
      ensures afterLemmas == Store.AfterLemmaBatch(afterPages, lemmaRows, LemmaServices.LemmaBatchSize, stopped,
                                                   db.drivers(afterPages.batches))
      // index entries
      ensures indexService.buffer == old(indexService.buffer)
      ensures forall i :: 0 <= i < |indexService.buffer| ==>
                indexService.buffer[i].lem == IndexServices.Repointed(old(indexService.buffer[i].lem), m)
      ensures var flagReads := Store.LemmaBatchReads(afterPages, lemmaRows, LemmaServices.LemmaBatchSize, stopped,
                                                 db.drivers(afterPages.batches));
              db.t == Store.AfterIndexBatch(afterLemmas, indexRows, IndexServices.IndexBatchSize,
                                            BatchInserter.Later(stopped, flagReads), db.drivers(afterLemmas.batches))
      ensures |indexRows| == |indexService.buffer|
      ensures forall i :: 0 <= i < |indexRows| ==> indexRows[i].rank == indexService.buffer[i].rank
      // the page ids the index rows bind: a page stored before keeps its id, a
      // flushed page has the key of its row when the whole page batch commits
      ensures forall i :: 0 <= i < |indexRows| && indexService.buffer[i].page.id !in old(pageBatchInserter.Cells()) ==>
                indexRows[i].pageId == old(indexService.buffer[i].page.id.value)
      ensures BatchInserter.ReturnsAll(db.drivers(old(db.t.batches)), PageBatch.PageBatchSize) &&
              |afterPages.pages| == |old(db.t.pages)| + |old(pageBatchInserter.buffer)| ==>
                forall i, p :: 0 <= i < |indexRows| && 0 <= p < |old(pageBatchInserter.buffer)| &&
                               indexService.buffer[i].page == old(pageBatchInserter.buffer)[p] ==>
                  indexRows[i].pageId == Int32(old(db.t.nextPageId) + p)
      // the lemma ids: no entry's lemma changes key, and when the whole lemma
      // batch commits, an entry whose key is the j-th key of the lemma buffer
      // binds the key of the j-th lemma row (BindsByEntryKey spells this out)
      ensures IndexServices.EntryKeys(indexService.buffer) == old(IndexServices.EntryKeys(indexService.buffer))
      ensures BatchInserter.ReturnsAll(db.drivers(afterPages.batches), LemmaServices.LemmaBatchSize) &&
              |afterLemmas.lemmas| == |afterPages.lemmas| + |lemmaRows| ==>
                BindsLemmaIds(indexRows, IndexServices.EntryKeys(indexService.buffer),
                              Dedup(LemmaServices.LemmaKeys(old(lemmaService.buffer))), afterPages.nextLemmaId)
    {
      FlushPages();
      afterPages := db.t;
      m, lemmaRows := ReconcileLemmas();
      ghost var ks := Dedup(LemmaServices.LemmaKeys(old(lemmaService.buffer)));
      ghost var sent;
      sent, afterLemmas, indexRows := SendBatches(stopped, ks);
      assert sent == lemmaRows;
    }

    /**
     * The last two lines of addLemmaAndIndexToTheDatabase: the lemma batch,
     * then the index batch, both reading the one stop flag, the index batch
     * reading on from the lemma batch's last read.
     */
    method SendBatches(stopped: nat -> bool, ghost ks: seq<LemmaKey>)
      returns (ghost lemmaRows: seq<Store.LemmaRow>, ghost afterLemmas: Store.Tables, ghost indexRows: seq<Store.IndexRow>)
      requires Valid()
      requires forall i :: 0 <= i < |indexService.buffer| ==> indexService.buffer[i].page.id !in lemmaService.Cells()
      requires forall i, j :: 0 <= i < |indexService.buffer| && 0 <= j < |ks| && KeyOf(indexService.buffer[i].lem) == ks[j] ==>
                 j < |lemmaService.buffer| && indexService.buffer[i].lem == lemmaService.buffer[j]
      modifies db, lemmaService.Cells(), indexService.Cells()
      ensures Valid()
      ensures lemmaRows == old(LemmaServices.LemmaRows(lemmaService.buffer))
      ensures afterLemmas == Store.AfterLemmaBatch(old(db.t), lemmaRows, LemmaServices.LemmaBatchSize, stopped,
                                                   db.drivers(old(db.t.batches)))
      ensures var flagReads := Store.LemmaBatchReads(old(db.t), lemmaRows, LemmaServices.LemmaBatchSize, stopped,
                                                     db.drivers(old(db.t.batches)));
              db.t == Store.AfterIndexBatch(afterLemmas, indexRows, IndexServices.IndexBatchSize,
                                            BatchInserter.Later(stopped, flagReads), db.drivers(afterLemmas.batches))
      ensures indexService.buffer == old(indexService.buffer) && pageBatchInserter.buffer == old(pageBatchInserter.buffer)
      ensures forall i :: 0 <= i < |indexService.buffer| ==> indexService.buffer[i].lem == old(indexService.buffer[i].lem)
      ensures |indexRows| == |indexService.buffer|
      ensures forall i :: 0 <= i < |indexRows| ==>
                indexRows[i].rank == indexService.buffer[i].rank && indexRows[i].pageId == old(indexService.buffer[i].page.id.value)
      ensures IndexServices.EntryKeys(indexService.buffer) == old(IndexServices.EntryKeys(indexService.buffer))
      ensures BatchInserter.ReturnsAll(db.drivers(old(db.t.batches)), LemmaServices.LemmaBatchSize) &&
              |afterLemmas.lemmas| == |old(db.t.lemmas)| + |lemmaRows| ==>
                BindsLemmaIds(indexRows, IndexServices.EntryKeys(indexService.buffer), ks, old(db.t.nextLemmaId))
    {
      var flagReads;
      ghost var bound, keys;
      flagReads, lemmaRows, bound, keys := SendLemmaBatch(stopped, ks);
      afterLemmas := db.t;
      indexRows := SendIndexBatch(BatchInserter.Later(stopped, flagReads));
      assert indexRows == bound;
      assert IndexServices.EntryKeys(indexService.buffer) == keys;
    }

    /** flushRemainingPages, as the coordinator sees it: the table after the last page batch; no entry changes. */
    method FlushPages()
      requires Valid()
      modifies pageBatchInserter, db, pageBatchInserter.Cells()
      ensures Valid() && pageBatchInserter.buffer == []
      ensures old(pageBatchInserter.buffer) == [] ==> db.t == old(db.t)
      ensures old(pageBatchInserter.buffer) != [] ==>
                db.t == Store.AfterPageBatch(old(db.t), PageBatch.PageRows(old(pageBatchInserter.buffer)),
                                             PageBatch.PageBatchSize, PageBatch.NeverStopped, db.drivers(old(db.t.batches)))
      ensures lemmaService.buffer == old(lemmaService.buffer) && indexService.buffer == old(indexService.buffer)
      ensures forall i :: 0 <= i < |indexService.buffer| ==> indexService.buffer[i].lem == old(indexService.buffer[i].lem)
      ensures IndexServices.EntryKeys(indexService.buffer) == old(IndexServices.EntryKeys(indexService.buffer))
      ensures BatchInserter.ReturnsAll(db.drivers(old(db.t.batches)), PageBatch.PageBatchSize) &&
              |db.t.pages| == |old(db.t.pages)| + |old(pageBatchInserter.buffer)| ==>
                forall p :: 0 <= p < |old(pageBatchInserter.buffer)| ==>
                  old(pageBatchInserter.buffer)[p].id.value == Int32(old(db.t.nextPageId) + p)
      // the page ids the index entries bind
      ensures forall i :: 0 <= i < |indexService.buffer| && indexService.buffer[i].page.id !in old(pageBatchInserter.Cells()) ==>
                indexService.buffer[i].page.id.value == old(indexService.buffer[i].page.id.value)
      ensures BatchInserter.ReturnsAll(db.drivers(old(db.t.batches)), PageBatch.PageBatchSize) &&
              |db.t.pages| == |old(db.t.pages)| + |old(pageBatchInserter.buffer)| ==>
                forall i, p :: 0 <= i < |indexService.buffer| && 0 <= p < |old(pageBatchInserter.buffer)| &&
                               indexService.buffer[i].page == old(pageBatchInserter.buffer)[p] ==>
                  indexService.buffer[i].page.id.value == Int32(old(db.t.nextPageId) + p)
    {
      ghost var ps := pageBatchInserter.buffer;
      ghost var t0 := db.t;
      pageBatchInserter.FlushRemainingPages();
      if ps != [] && BatchInserter.ReturnsAll(db.drivers(t0.batches), PageBatch.PageBatchSize) &&
         |db.t.pages| == |t0.pages| + |ps| {
        BatchInserter.CommittedAssignsEach(PageBatch.PageRows(ps), PageBatch.PageBatchSize, PageBatch.NeverStopped,
                                           db.drivers(t0.batches), t0.nextPageId, Store.PageWithId, Store.PagesAccept(t0.pages));
      }
    }

    /**
     * updatingTheDuplicateKey then updateLemmaIdInIndex: the lemma buffer
     * becomes one new lemma per key, and every index entry points to the new
     * lemma of its key.  The tables do not change.
     */
    method ReconcileLemmas() returns (ghost m: map<LemmaKey, Lemma>, ghost rows: seq<Store.LemmaRow>)
      requires Valid()
      modifies lemmaService, indexService.Entries()
      ensures Valid() && db.t == old(db.t)
      ensures forall k :: k in m <==> k in LemmaServices.LemmaKeys(old(lemmaService.buffer))
      ensures forall k :: k in m ==> fresh(m[k]) && fresh(m[k].id) && KeyOf(m[k]) == k
      ensures forall i :: 0 <= i < |lemmaService.buffer| ==> fresh(lemmaService.buffer[i].id)
      ensures rows == LemmaServices.LemmaRows(lemmaService.buffer)
      ensures var ks := Dedup(LemmaServices.LemmaKeys(old(lemmaService.buffer)));
              |lemmaService.buffer| == |ks| && forall j :: 0 <= j < |ks| ==> ks[j] in m && lemmaService.buffer[j] == m[ks[j]]
      ensures ReconciledRows(old(lemmaService.buffer), rows)
      ensures indexService.buffer == old(indexService.buffer) && pageBatchInserter.buffer == old(pageBatchInserter.buffer)
      ensures forall i :: 0 <= i < |indexService.buffer| ==>
                indexService.buffer[i].lem == IndexServices.Repointed(old(indexService.buffer[i].lem), m)
      ensures forall i :: 0 <= i < |indexService.buffer| ==>
                KeyOf(indexService.buffer[i].lem) == KeyOf(old(indexService.buffer[i].lem))
      ensures forall i :: 0 <= i < |indexService.buffer| ==>
                indexService.buffer[i].page.id !in lemmaService.Cells() &&
                indexService.buffer[i].page.id.value == old(indexService.buffer[i].page.id.value)
      ensures IndexServices.EntryKeys(indexService.buffer) == old(IndexServices.EntryKeys(indexService.buffer))
      ensures var ks := Dedup(LemmaServices.LemmaKeys(old(lemmaService.buffer)));
              forall i, j :: 0 <= i < |indexService.buffer| && 0 <= j < |ks| && KeyOf(indexService.buffer[i].lem) == ks[j] ==>
                j < |lemmaService.buffer| && indexService.buffer[i].lem == lemmaService.buffer[j]
    {
      var oldToNewLemmaMap := lemmaService.UpdatingTheDuplicateKey();
      m := oldToNewLemmaMap;
      indexService.UpdateLemmaIdInIndex(oldToNewLemmaMap);
      rows := LemmaServices.LemmaRows(lemmaService.buffer);
      ghost var ks := Dedup(LemmaServices.LemmaKeys(old(lemmaService.buffer)));
      forall i | 0 <= i < |ks|
        ensures LemmaServices.LastSite(old(lemmaService.buffer), ks[i]).Some?
      {
        assert ks[i] in m;
      }
    }

    /** createBatchInsertForLemma, as the coordinator sees it: the table after the batch; no buffer changes. */
    method SendLemmaBatch(stopped: nat -> bool, ghost ks: seq<LemmaKey>)
      returns (flagReads: nat, ghost rows: seq<Store.LemmaRow>, ghost bound: seq<Store.IndexRow>, ghost keys: seq<LemmaKey>)
      requires Valid()
      requires forall i :: 0 <= i < |indexService.buffer| ==> indexService.buffer[i].page.id !in lemmaService.Cells()
      requires forall i, j :: 0 <= i < |indexService.buffer| && 0 <= j < |ks| && KeyOf(indexService.buffer[i].lem) == ks[j] ==>
                 j < |lemmaService.buffer| && indexService.buffer[i].lem == lemmaService.buffer[j]
      modifies db, lemmaService.Cells()
      ensures Valid()
      ensures rows == old(LemmaServices.LemmaRows(lemmaService.buffer))
      ensures db.t == Store.AfterLemmaBatch(old(db.t), rows, LemmaServices.LemmaBatchSize, stopped, db.drivers(old(db.t.batches)))
      ensures flagReads == Store.LemmaBatchReads(old(db.t), rows, LemmaServices.LemmaBatchSize, stopped, db.drivers(old(db.t.batches)))
      ensures indexService.buffer == old(indexService.buffer) && pageBatchInserter.buffer == old(pageBatchInserter.buffer)
      ensures forall i :: 0 <= i < |indexService.buffer| ==> indexService.buffer[i].lem == old(indexService.buffer[i].lem)
      ensures forall i :: 0 <= i < |indexService.buffer| ==>
                indexService.buffer[i].page.id.value == old(indexService.buffer[i].page.id.value)
      ensures bound == IndexServices.IndexRows(indexService.buffer) && keys == IndexServices.EntryKeys(indexService.buffer)
      ensures keys == old(IndexServices.EntryKeys(indexService.buffer))
      ensures BatchInserter.ReturnsAll(db.drivers(old(db.t.batches)), LemmaServices.LemmaBatchSize) &&
              |db.t.lemmas| == |old(db.t.lemmas)| + |rows| ==>
                BindsLemmaIds(bound, keys, ks, old(db.t.nextLemmaId))
    {
      ghost var t0 := db.t;
      ghost var es := indexService.buffer;
      ghost var lb := lemmaService.buffer;
      ghost var lems := IndexServices.EntryLemmas(es);
      keys := IndexServices.EntryKeys(indexService.buffer);
      assert PointsAtKeys(lems, keys, ks, lb);
      rows := LemmaServices.LemmaRows(lemmaService.buffer);
      flagReads := lemmaService.CreateBatchInsertForLemma(stopped);
      bound := IndexServices.IndexRows(indexService.buffer);
      assert keys == IndexServices.EntryKeys(indexService.buffer);
      if BatchInserter.ReturnsAll(db.drivers(t0.batches), LemmaServices.LemmaBatchSize) && |db.t.lemmas| == |t0.lemmas| + |rows| {
        assert |rows| == |lb| && lb == lemmaService.buffer && lemmaService.db == db;
        assert lems == IndexServices.EntryLemmas(es);
        BoundAfterLemmaBatch(es, lems, lb, keys, ks, t0.nextLemmaId);
      }
    }

    /**
     * createBatchInsertForIndex, as the coordinator sees it: the table after
     * the batch of the rows bound from the entries; no buffer changes, and
     * an id cell outside the entries keeps its value.
     */
    method SendIndexBatch(stopped: nat -> bool) returns (ghost rows: seq<Store.IndexRow>)
      requires Valid()
      modifies db, indexService.Cells()
      ensures Valid()
      ensures db.t == Store.AfterIndexBatch(old(db.t), rows, IndexServices.IndexBatchSize, stopped, db.drivers(old(db.t.batches)))
      ensures |rows| == |indexService.buffer|
      ensures forall i :: 0 <= i < |rows| ==> rows[i].rank == indexService.buffer[i].rank
      ensures indexService.buffer == old(indexService.buffer) && pageBatchInserter.buffer == old(pageBatchInserter.buffer)
      ensures rows == old(IndexServices.IndexRows(indexService.buffer))
      ensures forall i :: 0 <= i < |rows| ==>
                rows[i].pageId == old(indexService.buffer[i].page.id.value) && rows[i].lemmaId == old(indexService.buffer[i].lem.id.value)
      ensures forall i :: 0 <= i < |indexService.buffer| ==> indexService.buffer[i].lem == old(indexService.buffer[i].lem)
      ensures IndexServices.EntryKeys(indexService.buffer) == old(IndexServices.EntryKeys(indexService.buffer))
    {
      rows := IndexServices.IndexRows(indexService.buffer);
      indexService.CreateBatchInsertForIndex(stopped);
    }
  }
}
