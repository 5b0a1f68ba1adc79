/**
 * SinglePageIndexing: one page of a known site is fetched again and
 * re-indexed.  Whatever the tables held for that page goes first; then the
 * page is stored anew, each lemma of its body text is saved (inserted with
 * frequency 1 or incremented) with one index row whose rank is the lemma's
 * count, and the site is marked INDEXED.  A page that cannot be fetched
 * marks the site FAILED.
 *
 * The network is a parameter: `Fetch` is what Jsoup's `get()` gave, and the
 * morphology dictionary is the lemmatizer's `Morph`.
 */
module SinglePage {
  import opened Wrappers
  import opened Model
  import opened Seqs
  import opened UrlUtils
  import opened Lemmatizer
  import Store
  import PageData
  import SiteServices
  import Coordinator

  /** A response as Jsoup sees it: the status line, the html and the text of the body. */
  datatype Response = Response(statusCode: int, html: string, bodyText: string)

  /** The outcome of the connection: no response at all (an IOException), or a response. */
  datatype Fetch = Unreachable | Fetched(response: Response)

  /** Jsoup's `get()` without `ignoreHttpErrors` throws HttpStatusException, an IOException, outside 200..399. */
  predicate StatusAccepted(code: int) {
    200 <= code < 400
  }

  /** The fetch yields a document exactly when there was a response with an accepted status. */
  predicate Loaded(f: Fetch) {
    f.Fetched? && StatusAccepted(f.response.statusCode)
  }

  const ConnectionErrorPrefix: string := "Error connecting to the page: "

  /** The path's lemma texts, as a set: the keys of the lemma map. */
  ghost function TextsOf(order: seq<string>, i: nat): set<string>
    requires i <= |order|
  {
    set j | 0 <= j < i :: order[j]
  }

  /** Walking the keys in the model's order visits every key of the lemma map. */
  lemma OrderCoversMap(order: seq<string>, lemmaList: map<string, nat>)
    requires forall l :: l in order <==> l in lemmaList
    ensures TextsOf(order, |order|) == lemmaList.Keys
  {
    forall l | l in lemmaList ensures l in TextsOf(order, |order|) {
      var j :| 0 <= j < |order| && order[j] == l;
    }
  }

  /**
   * What re-indexing a page of `site` leaves behind, from consistent tables:
   * the tables are still consistent, the site is INDEXED with an empty
   * error, the page of this site at this path is stored with the response's
   * status and html, and its index rows point to lemmas of this site whose
   * texts are the lemmas of the body text.  Each of those lemmas is one more frequent
   * than after the removal of the page's old data (a new one has 1), the
   * page's row for it has the lemma's count as rank, and every other
   * lemma keeps the frequency the removal left.  The page rows are those
   * the removal left plus the new one, and every other page keeps the index
   * rows, with their ranks, that the removal left it.
   */
  ghost predicate Reindexed(site: Site, before: Store.Tables, after: Store.Tables, path: string, resp: Response, m: Morph,
                            page: Store.PageRow)
  {
    && PageData.Consistent(after)
    && SiteServices.StatusSet(before.sites, after.sites, site.id, INDEXED, "")
    && after.pages == PageData.DeletePageData(before, path, site).pages + [page]
    && Store.PageKey(page) == (ExtractPath(path, site.url), site.id)
    && page.code == resp.statusCode && page.content == resp.html
    && PageData.PostingsFrom(after, page.id, site.id, CreateLemmaMap(m, resp.bodyText).Keys)
    && PageData.Posted(PageData.DeletePageData(before, path, site).lemmas, PageData.DeletePageData(before, path, site).indices,
                       after, page.id, site.id, CreateLemmaMap(m, resp.bodyText).Keys, CreateLemmaMap(m, resp.bodyText))
  }

  class SinglePageIndexing {
    const coordinator: Coordinator.IndexingCoordinator
    const site: Site

    constructor (coordinator: Coordinator.IndexingCoordinator, site: Site)
      ensures this.coordinator == coordinator && this.site == site
    {
      this.coordinator := coordinator;
      this.site := site;
    }

    /**
     * getIndexPageResult: false, with the site FAILED and the connection
     * error, when the page gives no document; otherwise the page is
     * re-indexed and the answer is true.  An exception other than an
     * IOException (a failed insert) is the Failure result.
     */
    method GetIndexPageResult(path: string, fetch: Fetch, m: Morph) returns (r: Result<bool>, ghost page: Store.PageRow)
      requires coordinator.Valid()
      modifies coordinator.db
      ensures coordinator.Valid()
      ensures !Loaded(fetch) ==>
                && r == Success(false)
                && SiteServices.StatusSet(old(coordinator.db.t.sites), coordinator.db.t.sites, site.id, FAILED, ConnectionErrorPrefix + path)
                && coordinator.db.t.pages == old(coordinator.db.t.pages)
                && coordinator.db.t.lemmas == old(coordinator.db.t.lemmas)
                && coordinator.db.t.indices == old(coordinator.db.t.indices)
      ensures Loaded(fetch) && PageData.Consistent(old(coordinator.db.t)) ==>
                && r == Success(true)
                && Reindexed(site, old(coordinator.db.t), coordinator.db.t, path, fetch.response, m, page)
    {
      if !Loaded(fetch) {
        coordinator.SaveFinalSiteData(site.id, FAILED, ConnectionErrorPrefix + path);
        return Success(false), Store.PageRow(0, 0, [], 0, []);
      }
      var done;
      done, page := UpdateDataInDb(path, fetch.response, m);
      if done.Failure? {
        return Failure(done.error), page;
      }
      r := Success(true);
    }


    /**
     * updateDataInDb: the page's old data goes (corrected removal), the page
     * is saved, then for each lemma of the body text the lemma is saved and
     * the page's index row for it is inserted, and the site is marked INDEXED.
     */
    method UpdateDataInDb(path: string, resp: Response, m: Morph) returns (r: Result<()>, ghost page: Store.PageRow)
      requires coordinator.Valid()
      modifies coordinator.db
      ensures coordinator.Valid()
      ensures PageData.Consistent(old(coordinator.db.t)) ==>
                r.Success? && Reindexed(site, old(coordinator.db.t), coordinator.db.t, path, resp, m, page)
    {
      var db := coordinator.db;
      var lemmaList := CreateLemmaMap(m, resp.bodyText);
      var order := LemmaOrder(m, resp.bodyText);
      var savedPage := ReplacePage(path, resp);
      page := savedPage;
      ghost var replaced := db.t;
      var posted := SaveLemmasAndIndices(savedPage.id, order, lemmaList);
      if posted.Failure? {
        return Failure(posted.error), page;
      }
      OrderCoversMap(order, lemmaList);
      ghost var indexed := db.t;
      coordinator.SaveFinalSiteData(site.id, INDEXED, "");
      r := Success(());
      assert db.t.pages == indexed.pages && db.t.lemmas == indexed.lemmas && db.t.indices == indexed.indices;
      if PageData.Consistent(old(db.t)) {
        ghost var cleared := PageData.DeletePageData(old(db.t), path, site);
        assert PageData.Posted(cleared.lemmas, cleared.indices, indexed, page.id, site.id, lemmaList.Keys, lemmaList);
        PageData.PostedSameRows(cleared.lemmas, cleared.indices, indexed, db.t, page.id, site.id, lemmaList.Keys, lemmaList);
        assert PageData.PostingsFrom(db.t, page.id, site.id, lemmaList.Keys);
        assert PageData.Consistent(indexed);
        assert PageData.Consistent(db.t);
        assert SiteServices.StatusSet(old(db.t).sites, db.t.sites, site.id, INDEXED, "");
        assert db.t.pages == cleared.pages + [page];
        assert Reindexed(site, old(db.t), db.t, path, resp, m, page);
      }
    }

    /**
     * The first two steps of updateDataInDb: deletePageData (corrected),
     * then savePage, which appends the page row to the tables the removal
     * left.  The removal leaves no page of this site at this path,
     * so the insert cannot meet a duplicate key; from consistent tables the
     * new page has no index row yet.
     */
    method ReplacePage(path: string, resp: Response) returns (page: Store.PageRow)
      requires coordinator.Valid()
      modifies coordinator.db
      ensures coordinator.Valid()
      ensures coordinator.db.t.sites == old(coordinator.db.t.sites)
      ensures page in coordinator.db.t.pages
      ensures Store.PageKey(page) == (ExtractPath(path, site.url), site.id)
      ensures page.code == resp.statusCode && page.content == resp.html
      ensures var cleared := PageData.DeletePageData(old(coordinator.db.t), path, site);
              && coordinator.db.t.pages == cleared.pages + [page]
              && coordinator.db.t.lemmas == cleared.lemmas && coordinator.db.t.indices == cleared.indices
      ensures PageData.Consistent(old(coordinator.db.t)) ==>
                && PageData.Consistent(coordinator.db.t)
                && PageData.HasPageId(coordinator.db.t.pages, page.id)
                && PageData.PostingsFrom(coordinator.db.t, page.id, site.id, {})
    {
      coordinator.DeletePageData(path, site);
      ghost var cleared := coordinator.db.t;
      var saved := coordinator.SavePage(site, path, resp.statusCode, resp.html);
      page := saved.value;
      assert page == coordinator.db.t.pages[|cleared.pages|];
      if PageData.Consistent(cleared) {
        PageData.NewPageHasNoPostings(cleared, site.id, ExtractPath(path, site.url), resp.statusCode, resp.html);
      }
    }

    /**
     * The loop over the lemma map of updateDataInDb: for each lemma text in
     * turn, saveLemma then saveIndex with the lemma's count as rank.  From
     * consistent tables in which the page has no index row, every insert
     * succeeds, the tables stay consistent, the page's rows point to
     * lemmas of this site with the texts of the map, and each text's lemma
     * is one more frequent with its count as the page's rank.
     */
    method SaveLemmasAndIndices(pageId: int, order: seq<string>, lemmaList: map<string, nat>) returns (r: Result<()>)
      requires coordinator.Valid()
      requires Distinct(order) && forall i :: 0 <= i < |order| ==> order[i] in lemmaList
      modifies coordinator.db
      ensures coordinator.Valid()
      ensures coordinator.db.t.pages == old(coordinator.db.t.pages) && coordinator.db.t.sites == old(coordinator.db.t.sites)
      ensures var t := old(coordinator.db.t);
              PageData.Consistent(t) && PageData.HasPageId(t.pages, pageId) && PageData.PostingsFrom(t, pageId, site.id, {}) ==>
                && r.Success?
                && PageData.Consistent(coordinator.db.t)
                && PageData.PostingsFrom(coordinator.db.t, pageId, site.id, TextsOf(order, |order|))
                && PageData.Posted(t.lemmas, t.indices, coordinator.db.t, pageId, site.id, TextsOf(order, |order|), lemmaList)
    {
      var db := coordinator.db;
      ghost var t0 := db.t;
      ghost var consistent := PageData.Consistent(t0) && PageData.HasPageId(t0.pages, pageId) &&
                              PageData.PostingsFrom(t0, pageId, site.id, {});
      assert TextsOf(order, 0) == {};
      var i := 0;
      while i < |order|
        invariant 0 <= i <= |order|
        invariant coordinator.Valid()
        invariant db.t.pages == t0.pages && db.t.sites == t0.sites
        invariant consistent ==>
                    && PageData.Consistent(db.t) && PageData.HasPageId(db.t.pages, pageId)
                    && PageData.PostingsFrom(db.t, pageId, site.id, TextsOf(order, i))
                    && PageData.Posted(t0.lemmas, t0.indices, db.t, pageId, site.id, TextsOf(order, i), lemmaList)
      {
        var text := order[i];
        assert text !in TextsOf(order, i);
        ghost var prev := db.t;
        var saved := SaveLemmaAndIndex(pageId, text, lemmaList[text], TextsOf(order, i));
        if saved.Failure? {
          return Failure(saved.error);
        }
        if consistent {
          PageData.PostedExtends(t0.lemmas, t0.indices, prev, db.t, pageId, site.id, text, TextsOf(order, i), lemmaList);
        }
        assert TextsOf(order, i + 1) == TextsOf(order, i) + {text};
        i := i + 1;
      }
      r := Success(());
    }

    /**
     * The body of that loop for one lemma text: saveLemma, then saveIndex
     * of the page, the saved lemma's id and the count.  When the page's rows
     * so far point to lemmas of this site with the texts `done`, and this
     * text is a new one, the insert succeeds, the text joins `done`, its
     * lemma is one more frequent and the page's row for it has the count as
     * rank, and nothing else changes.
     */
    method SaveLemmaAndIndex(pageId: int, text: string, count: nat, ghost done: set<string>) returns (r: Result<()>)
      requires coordinator.Valid()
      modifies coordinator.db
      ensures coordinator.Valid()
      ensures coordinator.db.t.pages == old(coordinator.db.t.pages) && coordinator.db.t.sites == old(coordinator.db.t.sites)
      ensures var t := old(coordinator.db.t);
              PageData.Consistent(t) && PageData.HasPageId(t.pages, pageId) &&
              PageData.PostingsFrom(t, pageId, site.id, done) && text !in done ==>
                && r.Success?
                && PageData.Consistent(coordinator.db.t)
                && PageData.PostingsFrom(coordinator.db.t, pageId, site.id, done + {text})
                && PageData.PostedOne(t, coordinator.db.t, pageId, site.id, text, count)
    {
      ghost var before := coordinator.db.t;
      var lem := coordinator.SaveLemma(site, text);
      ghost var upserted := coordinator.db.t;
      if PageData.Consistent(before) && PageData.HasPageId(before.pages, pageId) &&
         PageData.PostingsFrom(before, pageId, site.id, done) && text !in done {
        PageData.AddPostingPosts(before, upserted, site.id, text, pageId, count, done);
      }
      var indexed := coordinator.SaveIndex(pageId, lem.value.id, count);
      if indexed.Failure? {
        return Failure(indexed.error);
      }
      r := Success(());
    }
  }
}
