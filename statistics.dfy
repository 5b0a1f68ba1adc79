/**
 * StatisticsServiceImpl.getStatistics: one pass over the stored sites,
 * counting each site's pages and lemmas, adding the counts up, noting
 * whether any site is still INDEXING, and listing one detailed item per
 * site.  The status time is left out of the items (it is a clock reading).
 */
module Statistics {
  import opened Wrappers
  import opened Model
  import opened Seqs
  import Store

  datatype DetailedStatisticsItem = DetailedStatisticsItem(
    name: string, url: string, status: Status, error: string, pages: int, lemmas: int)

  datatype TotalStatistics = TotalStatistics(sites: int, pages: int, lemmas: int, isIndexing: bool)

  datatype StatisticsResponse = StatisticsResponse(result: bool, total: TotalStatistics, detailed: seq<DetailedStatisticsItem>)

  /** SELECT COUNT(*) ... WHERE site_id = id over a table whose rows carry a site id. */
  function CountOfSite<T>(rows: seq<T>, siteIdOf: T -> int, id: int): (n: nat)
    ensures n <= |rows|
    decreases |rows|
  {
    if rows == [] then 0 else (if siteIdOf(rows[0]) == id then 1 else 0) + CountOfSite(rows[1..], siteIdOf, id)
  }

  function PageSiteId(p: Store.PageRow): int { p.siteId }
  function LemmaSiteId(l: Store.LemmaRow): int { l.siteId }

  /** pageRepository.countBySite. */
  function PageCount(t: Store.Tables, id: int): nat {
    CountOfSite(t.pages, PageSiteId, id)
  }

  /** lemmaRepository.countBy. */
  function LemmaCount(t: Store.Tables, id: int): nat {
    CountOfSite(t.lemmas, LemmaSiteId, id)
  }

  /** The per-site counts added up over a list of sites. */
  function TotalOfSites<T>(sites: seq<Site>, rows: seq<T>, siteIdOf: T -> int): nat
    decreases |sites|
  {
    if sites == [] then 0
    else TotalOfSites(sites[..|sites| - 1], rows, siteIdOf) + CountOfSite(rows, siteIdOf, sites[|sites| - 1].id)
  }

  /** One more site adds its count to the total. */
  lemma TotalOfSitesSnoc<T>(sites: seq<Site>, i: nat, rows: seq<T>, siteIdOf: T -> int)
    requires i < |sites|
    ensures TotalOfSites(sites[..i + 1], rows, siteIdOf) == TotalOfSites(sites[..i], rows, siteIdOf) + CountOfSite(rows, siteIdOf, sites[i].id)
  {
    assert sites[..i + 1][..i] == sites[..i];
  }

  /** Optional.ofNullable(lastError).orElse(""). */
  function ErrorText(lastError: Option<string>): (e: string)
    ensures lastError.None? ==> e == ""
    ensures lastError.Some? ==> e == lastError.value
  {
    if lastError.Some? then lastError.value else ""
  }

  /** The detailed item of one site: its row's fields and its page and lemma counts. */
  function Item(t: Store.Tables, s: Site): DetailedStatisticsItem {
    DetailedStatisticsItem(s.name, s.url, s.status, ErrorText(s.lastError), PageCount(t, s.id), LemmaCount(t, s.id))
  }

  /** getStatistics. */
  method GetStatistics(t: Store.Tables) returns (r: StatisticsResponse)
    ensures r.result
    ensures r.total.sites == |t.sites|
    ensures r.total.pages == TotalOfSites(t.sites, t.pages, PageSiteId)
    ensures r.total.lemmas == TotalOfSites(t.sites, t.lemmas, LemmaSiteId)
    ensures r.total.isIndexing <==> exists i :: 0 <= i < |t.sites| && t.sites[i].status == INDEXING
    ensures |r.detailed| == |t.sites|
    ensures forall i :: 0 <= i < |t.sites| ==> r.detailed[i] == Item(t, t.sites[i])
  {
    var allSites := t.sites;
    var totalPages := 0;
    var totalLemmas := 0;
    var isIndexing := false;
    var detailedStats: seq<DetailedStatisticsItem> := [];
    for i := 0 to |allSites|
      invariant totalPages == TotalOfSites(allSites[..i], t.pages, PageSiteId)
      invariant totalLemmas == TotalOfSites(allSites[..i], t.lemmas, LemmaSiteId)
      invariant isIndexing <==> exists k :: 0 <= k < i && allSites[k].status == INDEXING
      invariant |detailedStats| == i
      invariant forall k :: 0 <= k < i ==> detailedStats[k] == Item(t, allSites[k])
    {
      var site := allSites[i];
      var pageCount := PageCount(t, site.id);
      var lemmaCount := LemmaCount(t, site.id);
      TotalOfSitesSnoc(allSites, i, t.pages, PageSiteId);
      TotalOfSitesSnoc(allSites, i, t.lemmas, LemmaSiteId);
      totalPages := totalPages + pageCount;
      totalLemmas := totalLemmas + lemmaCount;
      if site.status == INDEXING {
        isIndexing := true;
      }
      var item := DetailedStatisticsItem(site.name, site.url, site.status, ErrorText(site.lastError), pageCount, lemmaCount);
      detailedStats := detailedStats + [item];
    }
    assert allSites[..|allSites|] == allSites;
    var total := TotalStatistics(|allSites|, totalPages, totalLemmas, isIndexing);
    r := StatisticsResponse(true, total, detailedStats);
  }

  // ---------------------------------------------------------------- the totals are the table sizes

  /** The number of sites with id x. */
  function SitesWithId(sites: seq<Site>, x: int): nat
    decreases |sites|
  {
    if sites == [] then 0
    else SitesWithId(sites[..|sites| - 1], x) + (if sites[|sites| - 1].id == x then 1 else 0)
  }

  /** Ids are unique, so an id that occurs belongs to exactly one site. */
  lemma {:induction false} OneSiteWithId(sites: seq<Site>, x: int)
    requires DistinctBy(sites, Store.SiteRowId)
    requires exists i :: 0 <= i < |sites| && sites[i].id == x
    ensures SitesWithId(sites, x) == 1
    decreases |sites|
  {
    var init := sites[..|sites| - 1];
    var last := sites[|sites| - 1];
    assert DistinctBy(init, Store.SiteRowId) by {
      forall i, j | 0 <= i < j < |init| ensures init[i].id != init[j].id {
        assert init[i] == sites[i] && init[j] == sites[j];
      }
    }
    if last.id == x {
      NoSiteWithId(init, x, sites);
    } else {
      var i :| 0 <= i < |sites| && sites[i].id == x;
      assert i < |sites| - 1 && init[i] == sites[i];
      OneSiteWithId(init, x);
    }
  }

  lemma {:induction false} NoSiteWithId(init: seq<Site>, x: int, sites: seq<Site>)
    requires |sites| == |init| + 1 && init == sites[..|init|] && sites[|init|].id == x
    requires DistinctBy(sites, Store.SiteRowId)
    ensures SitesWithId(init, x) == 0
    decreases |init|
  {
    if init != [] {
      var shorter := init[..|init| - 1];
      var s2 := shorter + [sites[|init|]];
      assert DistinctBy(s2, Store.SiteRowId) by {
        forall i, j | 0 <= i < j < |s2| ensures s2[i].id != s2[j].id {
          if j < |shorter| {
            assert s2[i] == sites[i] && s2[j] == sites[j];
          } else {
            assert s2[i] == sites[i] && s2[j] == sites[|init|];
          }
        }
      }
      assert init[|init| - 1] == sites[|init| - 1];
      NoSiteWithId(shorter, x, s2);
    }
  }

  /** Moving the first row out of every site's count takes one off the site it belongs to. */
  lemma {:induction false} TotalOfSitesFirstRow<T>(sites: seq<Site>, rows: seq<T>, siteIdOf: T -> int)
    requires rows != []
    ensures TotalOfSites(sites, rows, siteIdOf) == SitesWithId(sites, siteIdOf(rows[0])) + TotalOfSites(sites, rows[1..], siteIdOf)
    decreases |sites|
  {
    if sites != [] {
      TotalOfSitesFirstRow(sites[..|sites| - 1], rows, siteIdOf);
    }
  }

  /** Every row belongs to one of the sites. */
  predicate RowsOnSites<T>(sites: seq<Site>, rows: seq<T>, siteIdOf: T -> int) {
    forall j :: 0 <= j < |rows| ==> exists i :: 0 <= i < |sites| && sites[i].id == siteIdOf(rows[j])
  }

  /**
   * When the site ids are unique and every row belongs to a stored site, the
   * per-site counts add up to the size of the table: total.pages is the
   * number of pages and total.lemmas the number of lemmas.
   */
  lemma {:induction false} TotalsCountEveryRow<T>(sites: seq<Site>, rows: seq<T>, siteIdOf: T -> int)
    requires DistinctBy(sites, Store.SiteRowId)
    requires RowsOnSites(sites, rows, siteIdOf)
    ensures TotalOfSites(sites, rows, siteIdOf) == |rows|
    decreases |rows|
  {
    if rows == [] {
      ZeroRowsZeroTotal(sites, rows, siteIdOf);
    } else {
      TotalOfSitesFirstRow(sites, rows, siteIdOf);
      OneSiteWithId(sites, siteIdOf(rows[0]));
      assert forall j :: 1 <= j < |rows| ==> rows[1..][j - 1] == rows[j];
      TotalsCountEveryRow(sites, rows[1..], siteIdOf);
    }
  }

  lemma {:induction false} ZeroRowsZeroTotal<T>(sites: seq<Site>, rows: seq<T>, siteIdOf: T -> int)
    requires rows == []
    ensures TotalOfSites(sites, rows, siteIdOf) == 0
    decreases |sites|
  {
    if sites != [] {
      ZeroRowsZeroTotal(sites[..|sites| - 1], rows, siteIdOf);
    }
  }

  /**
   * In a store whose pages and lemmas all belong to stored sites,
   * total.pages is the number of pages and total.lemmas the number of lemmas.
   */
  lemma StatisticsTotalsAreTableSizes(t: Store.Tables)
    requires Store.Valid(t)
    requires RowsOnSites(t.sites, t.pages, PageSiteId)
    requires RowsOnSites(t.sites, t.lemmas, LemmaSiteId)
    ensures TotalOfSites(t.sites, t.pages, PageSiteId) == |t.pages|
    ensures TotalOfSites(t.sites, t.lemmas, LemmaSiteId) == |t.lemmas|
  {
    assert DistinctBy(t.sites, Store.SiteRowId) by {
      forall i, j | 0 <= i < j < |t.sites| ensures t.sites[i].id != t.sites[j].id {
        assert Store.SiteRowId(t.sites[i]) < Store.SiteRowId(t.sites[j]);
      }
    }
    TotalsCountEveryRow(t.sites, t.pages, PageSiteId);
    TotalsCountEveryRow(t.sites, t.lemmas, LemmaSiteId);
  }
}
