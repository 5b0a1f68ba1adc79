/**
 * SearchServiceImpl.search: the request guards, the rare-enough query
 * lemmas, the pages that hold all of them, each page's relevance as the sum
 * of its ranks relative to the best page, one result per page with its
 * snippet, sorted by relevance and cut to the requested page.
 *
 * The database is a `Store.Tables` value (search only reads it), the
 * morphology a `Morph`, Jsoup's title and cleaned-text extraction the two
 * functions of an `Html` value, and the regular expression's word-character
 * class a predicate.  Ranks and relevances are exact reals rather than Java
 * floats and doubles.
 */
module Search {
  import opened Wrappers
  import opened Seqs
  import opened Model
  import opened Lemmatizer
  import UrlUtils
  import SitesConfig
  import Store
  import Snippets
  import Sorting

  const Threshold: real := 0.8
  const DefaultOffset: int := 0
  const DefaultLimit: int := 20

  const EmptyQueryError: string := "An empty search query is set."
  const SiteNotIndexedError: string := "The specified site is not indexed."
  const NoValidWordsError: string := "The search query does not contain valid words"
  /** An unboxed null or a dereferenced null: the request ends with this exception. */
  const NullPointerError: string := "java.lang.NullPointerException"
  /** List.subList with fromIndex > toIndex. */
  const IllegalArgumentError: string := "java.lang.IllegalArgumentException"

  datatype LemmaFrequency = LemmaFrequency(text: string, frequency: int)

  datatype SearchResult = SearchResult(site: string, siteName: string, uri: string, title: string, snippet: string, relevance: real)

  /** SearchResponse(true, count, data) or SearchResponse(false, error). */
  datatype SearchResponse = Found(count: int, data: seq<SearchResult>) | Refused(error: string)

  /** Jsoup.parse on a page's HTML: its title, and its text once the non-content elements are removed. */
  datatype Html = Html(title: string -> string, text: string -> string)

  lemma SomeMember(s: set<int>)
    requires s != {}
    ensures exists x :: x in s
  {
    if forall x :: x !in s {
      assert false;
    }
  }

  // ---------------------------------------------------------------- request guards

  /** query.trim().isEmpty(): trim drops every character up to U+0020 at both ends. */
  predicate TrimmedEmpty(q: string) {
    forall i :: 0 <= i < |q| ==> q[i] <= ' '
  }

  /** The query is present and not blank. */
  predicate Asked(query: Option<string>) {
    query.Some? && !TrimmedEmpty(query.value)
  }

  /** A missing or negative offset becomes 0. */
  function OffsetOrDefault(offset: Option<int>): (o: int)
    ensures o >= 0
    ensures offset.Some? && offset.value >= 0 ==> o == offset.value
    ensures offset.None? || offset.value < 0 ==> o == DefaultOffset
  {
    if offset.None? || offset.value < 0 then DefaultOffset else offset.value
  }

  /** A missing limit, or one below 1, becomes 20. */
  function LimitOrDefault(limit: Option<int>): (l: int)
    ensures l >= 1
    ensures limit.Some? && limit.value >= 1 ==> l == limit.value
    ensures limit.None? || limit.value < 1 ==> l == DefaultLimit
  {
    if limit.None? || limit.value < 1 then DefaultLimit else limit.value
  }

  /**
   * getSite: no site for a missing or blank url; otherwise the one site
   * stored under the normalised url, kept only when it is INDEXED.
   */
  function GetSite(sites: seq<Site>, siteUrl: Option<string>): (r: Result<Option<Site>>)
    ensures siteUrl.None? || SitesConfig.IsBlank(siteUrl.value) ==> r == Success(None)
    ensures r.Failure? ==> r.error == Store.NonUniqueResultError
    ensures r.Success? && r.value.Some? ==>
              siteUrl.Some? && r.value.value in sites && r.value.value.url == UrlUtils.NormalizeSiteUrl(siteUrl.value) &&
              r.value.value.status == INDEXED
  {
    if siteUrl.None? || SitesConfig.IsBlank(siteUrl.value) then Success(None)
    else
      match Store.SiteByUrl(sites, UrlUtils.NormalizeSiteUrl(siteUrl.value))
      case Failure(e) => Failure(e)
      case Success(found) =>
        if found.Some? && found.value.status == INDEXED then Success(found) else Success(None)
  }

  /** The one site stored under url is indexed. */
  predicate OnlySiteIndexed(sites: seq<Site>, url: string) {
    exists i :: 0 <= i < |sites| && sites[i].url == url && sites[i].status == INDEXED &&
      forall j :: 0 <= j < |sites| && j != i ==> sites[j].url != url
  }

  /**
   * For a non-blank url, getSite throws exactly when two sites are stored
   * under the normalised url, and finds a site exactly when the one site
   * stored there is indexed.
   */
  lemma GetSiteCases(sites: seq<Site>, siteUrl: string)
    requires !SitesConfig.IsBlank(siteUrl)
    ensures var url := UrlUtils.NormalizeSiteUrl(siteUrl);
            var r := GetSite(sites, Some(siteUrl));
            && (r.Failure? <==> exists i, j :: 0 <= i < j < |sites| && sites[i].url == url && sites[j].url == url)
            && (r.Success? && r.value.Some? <==> OnlySiteIndexed(sites, url))
  {
    var url := UrlUtils.NormalizeSiteUrl(siteUrl);
    var found := Store.SiteByUrl(sites, url);
    if found.Success? && found.value.Some? {
      var i :| 0 <= i < |sites| && sites[i] == found.value.value && sites[i].url == url &&
               forall j :: 0 <= j < |sites| && j != i ==> sites[j].url != url;
      if OnlySiteIndexed(sites, url) {
        var i' :| 0 <= i' < |sites| && sites[i'].url == url && sites[i'].status == INDEXED &&
                  forall j :: 0 <= j < |sites| && j != i' ==> sites[j].url != url;
        assert i' == i;
      }
    }
  }

  /** The site guard passes: the site lookup did not throw, and a given url names an indexed site. */
  predicate SiteAccepted(sites: seq<Site>, siteUrl: Option<string>) {
    GetSite(sites, siteUrl).Success? && (siteUrl.Some? ==> GetSite(sites, siteUrl).value.Some?)
  }

  /** getTotalPage: the number of pages of the site, or of all pages. */
  function TotalPages(t: Store.Tables, site: Option<Site>): (r: int)
    ensures 0 <= r <= |t.pages|
    ensures site.None? ==> r == |t.pages|
    ensures site.Some? && (forall i :: 0 <= i < |t.pages| ==> t.pages[i].siteId != site.value.id) ==> r == 0
    ensures site.Some? && (exists i :: 0 <= i < |t.pages| && t.pages[i].siteId == site.value.id) ==> r > 0
  {
    if site.Some? then
      var ps := Store.PagesOfSite(t.pages, site.value.id);
      assert |ps| > 0 ==> ps[0] in t.pages && ps[0].siteId == site.value.id;
      |ps|
    else |t.pages|
  }

  // ---------------------------------------------------------------- lemma frequencies

  /** getFrequencyOnSite / getFrequency: the frequency on the site, or summed over all sites; null without a row. */
  function FrequencyOf(t: Store.Tables, text: string, site: Option<Site>): Option<int> {
    if site.Some? then Store.FrequencyOnSite(t.lemmas, text, site.value.id) else Store.FrequencySum(t.lemmas, text)
  }

  /** (double) frequency / totalPages > 0.8; a positive frequency over zero pages is +Infinity. */
  predicate AboveThreshold(frequency: int, total: int) {
    if total == 0 then frequency > 0 else (frequency as real) / (total as real) > Threshold
  }

  /** The lemma occurs and is not on more than 80% of the pages. */
  predicate Retained(frequency: int, total: int) {
    frequency != 0 && !AboveThreshold(frequency, total)
  }

  /** lf is the frequency of its lemma, and the lemma is retained. */
  predicate Keeps(t: Store.Tables, lf: LemmaFrequency, site: Option<Site>, total: int) {
    FrequencyOf(t, lf.text, site) == Some(lf.frequency) && Retained(lf.frequency, total)
  }

  /**
   * The query lemmas kept for the search, in query order, each with its
   * frequency.  A lemma without a row counts as frequency 0 and is skipped.
   */
  function KeptLemmas(t: Store.Tables, lemmas: seq<string>, site: Option<Site>, total: int): seq<LemmaFrequency>
    decreases |lemmas|
  {
    if lemmas == [] then []
    else
      var rest := KeptLemmas(t, lemmas[..|lemmas| - 1], site, total);
      var l := lemmas[|lemmas| - 1];
      match FrequencyOf(t, l, site)
      case None => rest
      case Some(f) => if Retained(f, total) then rest + [LemmaFrequency(l, f)] else rest
  }

  /** A lemma frequency is kept exactly when its lemma is in the query and is retained with that frequency. */
  lemma {:induction false} KeptLemmasMeaning(t: Store.Tables, lemmas: seq<string>, site: Option<Site>, total: int)
    ensures |KeptLemmas(t, lemmas, site, total)| <= |lemmas|
    ensures forall lf :: lf in KeptLemmas(t, lemmas, site, total) <==> lf.text in lemmas && Keeps(t, lf, site, total)
    decreases |lemmas|
  {
    if lemmas != [] {
      var init := lemmas[..|lemmas| - 1];
      assert lemmas == init + [lemmas[|lemmas| - 1]];
      KeptLemmasMeaning(t, init, site, total);
    }
  }

  /**
   * getLemmaFrequencyList as written: the int unboxing of a null frequency
   * throws, so a query lemma without a row (on the requested site, or on
   * any site) fails the whole request.
   */
  method GetLemmaFrequencyListAsWritten(t: Store.Tables, lemmas: seq<string>, site: Option<Site>, total: int)
    returns (r: Result<seq<LemmaFrequency>>)
    ensures r.Failure? <==> exists i :: 0 <= i < |lemmas| && FrequencyOf(t, lemmas[i], site).None?
    ensures r.Failure? ==> r.error == NullPointerError
    ensures r.Success? ==> r.value == KeptLemmas(t, lemmas, site, total)
  {
    var list: seq<LemmaFrequency> := [];
    for i := 0 to |lemmas|
      invariant list == KeptLemmas(t, lemmas[..i], site, total)
      invariant forall k :: 0 <= k < i ==> FrequencyOf(t, lemmas[k], site).Some?
    {
      var frequency := FrequencyOf(t, lemmas[i], site);
      if frequency.None? {
        r := Failure(NullPointerError);
        return;
      }
      assert lemmas[..i + 1][..i] == lemmas[..i];
      if frequency.value != 0 && !AboveThreshold(frequency.value, total) {
        list := list + [LemmaFrequency(lemmas[i], frequency.value)];
      }
    }
    assert lemmas[..|lemmas|] == lemmas;
    r := Success(list);
  }

  /** getLemmaFrequencyList, a missing frequency read as 0: the kept lemmas. */
  method GetLemmaFrequencyList(t: Store.Tables, lemmas: seq<string>, site: Option<Site>, total: int)
    returns (list: seq<LemmaFrequency>)
    ensures list == KeptLemmas(t, lemmas, site, total)
  {
    list := [];
    for i := 0 to |lemmas|
      invariant list == KeptLemmas(t, lemmas[..i], site, total)
    {
      var frequency := FrequencyOf(t, lemmas[i], site);
      var f := if frequency.Some? then frequency.value else 0;
      assert lemmas[..i + 1][..i] == lemmas[..i];
      if f != 0 && !AboveThreshold(f, total) {
        list := list + [LemmaFrequency(lemmas[i], f)];
      }
    }
    assert lemmas[..|lemmas|] == lemmas;
  }

  /** Comparator.comparingInt(LemmaFrequency::getFrequency). */
  function FrequencyKey(lf: LemmaFrequency): real {
    lf.frequency as real
  }

  // ---------------------------------------------------------------- candidate pages

  /**
   * The pages holding a lemma: through its id on the requested site
   * (findIdByLemmaAndSiteId, null when the site lacks it), or through its
   * ids on every site.
   */
  function Postings(t: Store.Tables, text: string, site: Option<Site>): Option<set<int>> {
    if site.Some? then
      match Store.LemmaIdOnSite(t.lemmas, text, site.value.id)
      case None => None
      case Some(id) => Some(Store.PageIdsOfLemma(t.indices, id))
    else Some(Store.PageIdsOfLemmas(t.indices, Store.LemmaIdsOf(t.lemmas, text)))
  }

  function PagesOf(t: Store.Tables, text: string, site: Option<Site>): set<int> {
    match Postings(t, text, site)
    case None => {}
    case Some(s) => s
  }

  /** The pages of the first kept lemma intersected with those of each next one. */
  function Candidates(t: Store.Tables, list: seq<LemmaFrequency>, site: Option<Site>): set<int>
    requires list != []
    decreases |list|
  {
    var own := PagesOf(t, list[|list| - 1].text, site);
    if |list| == 1 then own else Candidates(t, list[..|list| - 1], site) * own
  }

  /** A page is a candidate exactly when every kept lemma occurs on it. */
  lemma {:induction false} CandidatesMeaning(t: Store.Tables, list: seq<LemmaFrequency>, site: Option<Site>)
    requires list != []
    ensures forall p :: p in Candidates(t, list, site) <==> forall i :: 0 <= i < |list| ==> p in PagesOf(t, list[i].text, site)
    decreases |list|
  {
    if |list| > 1 {
      var init := list[..|list| - 1];
      CandidatesMeaning(t, init, site);
      assert forall i :: 0 <= i < |init| ==> init[i] == list[i];
    }
  }

  /** The kept lemmas of a prefix admit every page the whole list admits. */
  lemma CandidatesOfPrefix(t: Store.Tables, list: seq<LemmaFrequency>, site: Option<Site>, n: int)
    requires 1 <= n <= |list|
    ensures Candidates(t, list, site) <= Candidates(t, list[..n], site)
  {
    var prefix := list[..n];
    CandidatesMeaning(t, list, site);
    CandidatesMeaning(t, prefix, site);
    forall p | p in Candidates(t, list, site) ensures p in Candidates(t, prefix, site) {
      forall i | 0 <= i < |prefix| ensures p in PagesOf(t, prefix[i].text, site) {
        assert prefix[i] == list[i];
      }
    }
  }

  /** One more lemma of the list narrows the candidates to its pages. */
  lemma CandidatesStep(t: Store.Tables, list: seq<LemmaFrequency>, site: Option<Site>, i: int)
    requires 0 <= i < |list|
    ensures i == 0 ==> Candidates(t, list[..i + 1], site) == PagesOf(t, list[i].text, site)
    ensures i > 0 ==> Candidates(t, list[..i + 1], site) == Candidates(t, list[..i], site) * PagesOf(t, list[i].text, site)
  {
    var step := list[..i + 1];
    assert step[i] == list[i];
    assert step[..i] == list[..i];
  }

  /**
   * getPageIds: the pages of the first lemma intersected with those of each
   * next one, stopping with no pages as soon as the intersection is empty.
   */
  method GetPageIds(t: Store.Tables, list: seq<LemmaFrequency>, site: Option<Site>) returns (r: Result<set<int>>)
    requires list != []
    ensures r.Success? ==> r.value == Candidates(t, list, site)
    ensures r.Failure? ==> r.error == NullPointerError && exists i :: 0 <= i < |list| && Postings(t, list[i].text, site).None?
    ensures (forall i :: 0 <= i < |list| ==> Postings(t, list[i].text, site).Some?) ==> r.Success?
  {
    var pageIds: Option<set<int>> := None;
    for i := 0 to |list|
      invariant i == 0 <==> pageIds.None?
      invariant pageIds.Some? ==> pageIds.value == Candidates(t, list[..i], site)
    {
      var currentPageIds := Postings(t, list[i].text, site);
      if currentPageIds.None? {
        r := Failure(NullPointerError);
        return;
      }
      CandidatesStep(t, list, site, i);
      if currentPageIds.value == {} {
        CandidatesOfPrefix(t, list, site, i + 1);
        r := Success({});
        return;
      }
      if pageIds.None? {
        pageIds := Some(currentPageIds.value);
      } else {
        pageIds := Some(pageIds.value * currentPageIds.value);
        if pageIds.value == {} {
          CandidatesOfPrefix(t, list, site, i + 1);
          r := Success({});
          return;
        }
      }
    }
    assert list[..|list|] == list;
    r := Success(pageIds.value);
  }

  /** A kept lemma has a row, so its postings lookup never meets a null id. */
  lemma KeptLemmasHavePostings(t: Store.Tables, kept: seq<LemmaFrequency>, lemmas: seq<string>, site: Option<Site>, total: int)
    requires kept == KeptLemmas(t, lemmas, site, total)
    ensures forall i :: 0 <= i < |Sorting.SortBy(kept, FrequencyKey)| ==>
              Postings(t, Sorting.SortBy(kept, FrequencyKey)[i].text, site).Some?
  {
    var sorted := Sorting.SortBy(kept, FrequencyKey);
    KeptLemmasMeaning(t, lemmas, site, total);
    forall i | 0 <= i < |sorted| ensures Postings(t, sorted[i].text, site).Some? {
      assert sorted[i] in multiset(kept);
      assert Keeps(t, sorted[i], site, total);
    }
  }

  // ---------------------------------------------------------------- relevance

  /**
   * The rank of one query lemma on a page: its index row for the lemma's id
   * on the requested site, or the sum over its ids on every site; none when
   * there is no row.  A lemma missing from the requested site has no rank.
   */
  function RankFor(t: Store.Tables, pageId: int, text: string, site: Option<Site>): (r: Option<int>)
    ensures site.Some? && r.Some? ==>
              exists i, j :: 0 <= i < |t.indices| && 0 <= j < |t.lemmas| &&
                Store.LemmaMatches(t.lemmas[j], site.value.id, text) &&
                t.indices[i].pageId == pageId && t.indices[i].lemmaId == t.lemmas[j].id && t.indices[i].rank == r.value
    ensures site.Some? && (forall j :: 0 <= j < |t.lemmas| ==> !Store.LemmaMatches(t.lemmas[j], site.value.id, text)) ==> r.None?
    ensures site.None? ==>
              (r.None? <==>
                 forall i, j :: 0 <= i < |t.indices| && 0 <= j < |t.lemmas| && t.indices[i].pageId == pageId && t.lemmas[j].text == text
                   ==> t.indices[i].lemmaId != t.lemmas[j].id)
    ensures site.None? && r.Some? ==> r.value == Store.RankTotal(t.indices, pageId, Store.LemmaIdsOf(t.lemmas, text))
    ensures (forall j :: 0 <= j < |t.lemmas| ==> t.lemmas[j].text != text) ==> r.None?
  {
    if site.Some? then
      match Store.LemmaIdOnSite(t.lemmas, text, site.value.id)
      case None => None
      case Some(id) => Store.RankOf(t.indices, pageId, id)
    else Store.TotalRank(t.indices, pageId, Store.LemmaIdsOf(t.lemmas, text))
  }

  /** The ranks the query lemmas have on the page, in query order. */
  function RanksOf(t: Store.Tables, pageId: int, lemmas: seq<string>, site: Option<Site>): (r: seq<int>)
    ensures |r| <= |lemmas|
    decreases |lemmas|
  {
    if lemmas == [] then []
    else
      var rest := RanksOf(t, pageId, lemmas[..|lemmas| - 1], site);
      match RankFor(t, pageId, lemmas[|lemmas| - 1], site)
      case None => rest
      case Some(x) => rest + [x]
  }

  function Sum(xs: seq<int>): int
    decreases |xs|
  {
    if xs == [] then 0 else Sum(xs[..|xs| - 1]) + xs[|xs| - 1]
  }

  /** A page's absolute relevance: every query lemma adds its rank there, or nothing. */
  function Score(t: Store.Tables, pageId: int, lemmas: seq<string>, site: Option<Site>): int
    decreases |lemmas|
  {
    if lemmas == [] then 0
    else
      Score(t, pageId, lemmas[..|lemmas| - 1], site) +
      (match RankFor(t, pageId, lemmas[|lemmas| - 1], site) case None => 0 case Some(x) => x)
  }

  /** The ranks collected for a page add up to its score. */
  lemma {:induction false} RanksSumToScore(t: Store.Tables, pageId: int, lemmas: seq<string>, site: Option<Site>)
    ensures Sum(RanksOf(t, pageId, lemmas, site)) == Score(t, pageId, lemmas, site)
    decreases |lemmas|
  {
    if lemmas != [] {
      RanksSumToScore(t, pageId, lemmas[..|lemmas| - 1], site);
      var rest := RanksOf(t, pageId, lemmas[..|lemmas| - 1], site);
      match RankFor(t, pageId, lemmas[|lemmas| - 1], site)
      case None =>
      case Some(x) =>
        assert (rest + [x])[..|rest + [x]| - 1] == rest;
    }
  }

  /** getRanksList. */
  method GetRanksList(t: Store.Tables, pageId: int, lemmas: seq<string>, site: Option<Site>) returns (ranks: seq<int>)
    ensures ranks == RanksOf(t, pageId, lemmas, site)
  {
    ranks := [];
    for i := 0 to |lemmas|
      invariant ranks == RanksOf(t, pageId, lemmas[..i], site)
    {
      var rank := RankFor(t, pageId, lemmas[i], site);
      assert lemmas[..i + 1][..i] == lemmas[..i];
      if rank.Some? {
        ranks := ranks + [rank.value];
      }
    }
    assert lemmas[..|lemmas|] == lemmas;
  }

  /** getPageAbsRelevanceMap: every candidate page with its score. */
  method GetPageAbsRelevanceMap(t: Store.Tables, pageIds: set<int>, lemmas: seq<string>, site: Option<Site>)
    returns (rel: map<int, real>)
    ensures rel.Keys == pageIds
    ensures forall p :: p in rel ==> rel[p] == Score(t, p, lemmas, site) as real
  {
    rel := map[];
    var rest := pageIds;
    while rest != {}
      invariant rest <= pageIds
      invariant rel.Keys == pageIds - rest
      invariant forall p :: p in rel ==> rel[p] == Score(t, p, lemmas, site) as real
      decreases |rest|
    {
      SomeMember(rest);
      var pageId :| pageId in rest;
      var ranksList := GetRanksList(t, pageId, lemmas, site);
      var absRelevance: real := 0.0;
      for k := 0 to |ranksList|
        invariant absRelevance == Sum(ranksList[..k]) as real
      {
        assert ranksList[..k + 1][..k] == ranksList[..k];
        absRelevance := absRelevance + ranksList[k] as real;
      }
      assert ranksList[..|ranksList|] == ranksList;
      RanksSumToScore(t, pageId, lemmas, site);
      rel := rel[pageId := absRelevance];
      rest := rest - {pageId};
    }
  }

  /** Collections.max over the relevances. */
  method MaxRelevance(rel: map<int, real>) returns (best: real)
    requires rel.Keys != {}
    ensures exists p :: p in rel && rel[p] == best
    ensures forall p :: p in rel ==> rel[p] <= best
  {
    SomeMember(rel.Keys);
    var first :| first in rel.Keys;
    best := rel[first];
    var rest := rel.Keys - {first};
    while rest != {}
      invariant rest <= rel.Keys
      invariant exists p :: p in rel && rel[p] == best
      invariant forall p :: p in rel && p !in rest ==> rel[p] <= best
      decreases |rest|
    {
      SomeMember(rest);
      var p :| p in rest;
      if rel[p] > best {
        best := rel[p];
      }
      rest := rest - {p};
    }
  }

  /** best is the highest score among the candidates. */
  ghost predicate IsBest(t: Store.Tables, cands: set<int>, lemmas: seq<string>, site: Option<Site>, best: real) {
    && (exists p :: p in cands && Score(t, p, lemmas, site) as real == best)
    && (forall p :: p in cands ==> Score(t, p, lemmas, site) as real <= best)
  }

  /** absRelevance / maxAbsRelevance. */
  function Relative(abs: real, best: real): real {
    if best == 0.0 then 0.0 else abs / best
  }

  // ---------------------------------------------------------------- results

  /**
   * buildSearchResult: the page and its site (a missing one is dereferenced
   * as null), the page's title, and the snippet of its cleaned text.
   */
  function ResultFor(t: Store.Tables, morph: Morph, html: Html, wordChar: char -> bool,
                     pageId: int, relevance: real, lemmas: seq<string>): Result<SearchResult>
  {
    match Store.PageById(t.pages, pageId)
    case None => Failure(NullPointerError)
    case Some(page) =>
      match Store.SiteById(t.sites, page.siteId)
      case None => Failure(NullPointerError)
      case Some(s) =>
        Success(SearchResult(s.url, s.name, page.path, html.title(page.content),
                             Snippets.Snippet(morph, html.text(page.content), lemmas, wordChar), relevance))
  }

  /**
   * A result exists exactly when the page and its site do; it names the
   * page's path and site, keeps the relevance it was given, and carries a
   * snippet of at most 203 characters.
   */
  lemma ResultForFields(t: Store.Tables, morph: Morph, html: Html, wordChar: char -> bool,
                        pageId: int, relevance: real, lemmas: seq<string>)
    ensures var r := ResultFor(t, morph, html, wordChar, pageId, relevance, lemmas);
            && (r.Failure? <==> Store.PageById(t.pages, pageId).None? ||
                                Store.SiteById(t.sites, Store.PageById(t.pages, pageId).value.siteId).None?)
            && (r.Failure? ==> r.error == NullPointerError)
            && (r.Success? ==>
                  var page := Store.PageById(t.pages, pageId).value;
                  && page in t.pages && page.id == pageId
                  && r.value.uri == page.path && r.value.relevance == relevance
                  && (exists s :: s in t.sites && s.id == page.siteId && s.url == r.value.site && s.name == r.value.siteName)
                  && |r.value.snippet| <= Snippets.SnippetLength + |Snippets.Ellipsis|)
  {
  }

  /** buildSearchResult. */
  method BuildSearchResult(t: Store.Tables, morph: Morph, html: Html, wordChar: char -> bool,
                           pageId: int, relRelevance: real, lemmas: seq<string>) returns (r: Result<SearchResult>)
    ensures r == ResultFor(t, morph, html, wordChar, pageId, relRelevance, lemmas)
  {
    var page := Store.PageById(t.pages, pageId);
    if page.None? {
      return Failure(NullPointerError);
    }
    var siteFromDb := Store.SiteById(t.sites, page.value.siteId);
    if siteFromDb.None? {
      return Failure(NullPointerError);
    }
    var title := html.title(page.value.content);
    var snippet := Snippets.GenerateSnippet(morph, html.text(page.value.content), lemmas, wordChar);
    r := Success(SearchResult(siteFromDb.value.url, siteFromDb.value.name, page.value.path, title, snippet, relRelevance));
  }

  /** results[k] is the result built for page order[k] of the map, with its relevance relative to best. */
  ghost predicate BuiltFor(t: Store.Tables, morph: Morph, html: Html, wordChar: char -> bool,
                           rel: map<int, real>, best: real, lemmas: seq<string>, order: seq<int>, results: seq<SearchResult>) {
    && |results| == |order|
    && forall k :: 0 <= k < |order| ==>
         order[k] in rel && ResultFor(t, morph, html, wordChar, order[k], Relative(rel[order[k]], best), lemmas) == Success(results[k])
  }

  lemma BuiltForSnoc(t: Store.Tables, morph: Morph, html: Html, wordChar: char -> bool,
                     rel: map<int, real>, best: real, lemmas: seq<string>, order: seq<int>, results: seq<SearchResult>,
                     p: int, v: SearchResult)
    requires BuiltFor(t, morph, html, wordChar, rel, best, lemmas, order, results)
    requires p in rel && ResultFor(t, morph, html, wordChar, p, Relative(rel[p], best), lemmas) == Success(v)
    ensures BuiltFor(t, morph, html, wordChar, rel, best, lemmas, order + [p], results + [v])
  {
    var o, rs := order + [p], results + [v];
    forall k | 0 <= k < |o|
      ensures o[k] in rel && ResultFor(t, morph, html, wordChar, o[k], Relative(rel[o[k]], best), lemmas) == Success(rs[k])
    {
      if k < |order| {
        assert o[k] == order[k] && rs[k] == results[k];
      }
    }
  }

  /** Once every page of the map has a result, no page of the map fails. */
  lemma BuiltForAll(t: Store.Tables, morph: Morph, html: Html, wordChar: char -> bool,
                    rel: map<int, real>, best: real, lemmas: seq<string>, order: seq<int>, results: seq<SearchResult>)
    requires BuiltFor(t, morph, html, wordChar, rel, best, lemmas, order, results)
    requires forall p :: p in rel ==> p in order
    ensures forall p :: p in rel ==> ResultFor(t, morph, html, wordChar, p, Relative(rel[p], best), lemmas).Success?
  {
    forall p | p in rel ensures ResultFor(t, morph, html, wordChar, p, Relative(rel[p], best), lemmas).Success? {
      var k :| 0 <= k < |order| && order[k] == p;
    }
  }

  /**
   * getSearchResultsList: one result per page of the map, in the order the
   * map is walked (returned as `order`).
   */
  method GetSearchResultsList(t: Store.Tables, morph: Morph, html: Html, wordChar: char -> bool,
                              rel: map<int, real>, best: real, lemmas: seq<string>)
    returns (r: Result<seq<SearchResult>>, ghost order: seq<int>)
    ensures r.Failure? <==> exists p :: p in rel && ResultFor(t, morph, html, wordChar, p, Relative(rel[p], best), lemmas).Failure?
    ensures r.Failure? ==> r.error == NullPointerError
    ensures r.Success? ==> Distinct(order) && (forall p :: p in order <==> p in rel) && |r.value| == |order|
    ensures r.Success? ==> forall k :: 0 <= k < |order| ==>
              order[k] in rel && ResultFor(t, morph, html, wordChar, order[k], Relative(rel[order[k]], best), lemmas) == Success(r.value[k])
  {
    var results: seq<SearchResult> := [];
    order := [];
    var rest := rel.Keys;
    while rest != {}
      invariant rest <= rel.Keys
      invariant forall p :: p in order <==> p in rel && p !in rest
      invariant Distinct(order)
      invariant BuiltFor(t, morph, html, wordChar, rel, best, lemmas, order, results)
      decreases |rest|
    {
      SomeMember(rest);
      var pageId :| pageId in rest;
      var relRelevance := Relative(rel[pageId], best);
      var searchResult := BuildSearchResult(t, morph, html, wordChar, pageId, relRelevance, lemmas);
      if searchResult.Failure? {
        r := Failure(searchResult.error);
        return;
      }
      BuiltForSnoc(t, morph, html, wordChar, rel, best, lemmas, order, results, pageId, searchResult.value);
      results := results + [searchResult.value];
      order := order + [pageId];
      rest := rest - {pageId};
    }
    BuiltForAll(t, morph, html, wordChar, rel, best, lemmas, order, results);
    r := Success(results);
  }

  /** results[k] is the result of page order[k] with its relevance relative to best. */
  ghost predicate ResultsAt(t: Store.Tables, morph: Morph, html: Html, wordChar: char -> bool, lemmas: seq<string>,
                            site: Option<Site>, order: seq<int>, best: real, results: seq<SearchResult>) {
    && |results| == |order|
    && forall k :: 0 <= k < |order| ==>
         ResultFor(t, morph, html, wordChar, order[k], Relative(Score(t, order[k], lemmas, site) as real, best), lemmas) == Success(results[k])
  }

  /** Double.compare(b.getRelevance(), a.getRelevance()): descending relevance. */
  function RelevanceKey(r: SearchResult): real {
    -r.relevance
  }

  // ---------------------------------------------------------------- paging

  /** The page [offset, offset + limit) of `total` results, clipped to the results. */
  function PageBounds(offset: int, limit: int, total: int): (b: (int, int))
    requires offset >= 0 && limit >= 1 && total >= 0
    ensures 0 <= b.0 <= b.1 <= total && b.1 - b.0 <= limit
    ensures offset < total ==> b.0 == offset && (b.1 == total || b.1 - b.0 == limit)
    ensures offset >= total ==> b.0 == b.1
  {
    (Snippets.Min(offset, total), Snippets.Min(offset + limit, total))
  }

  predicate IsInt32(x: int) {
    -TwoTo31 <= x < TwoTo31
  }

  /**
   * The bounds as written: offset + limit is int arithmetic, so a sum past
   * 2^31 - 1 wraps to a negative toIndex and subList throws.
   */
  function PageBoundsAsWritten(offset: int, limit: int, total: int): (r: Result<(int, int)>)
    requires IsInt32(offset) && IsInt32(limit) && IsInt32(total)
    requires offset >= 0 && limit >= 1 && total >= 0
    ensures r.Failure? <==> offset + limit >= TwoTo31
    ensures r.Failure? ==> r.error == IllegalArgumentError
    ensures r.Success? ==> r.value == PageBounds(offset, limit, total)
  {
    var fromIndex := Snippets.Min(offset, total);
    var toIndex := Snippets.Min(Int32(offset + limit), total);
    assert offset + limit >= TwoTo31 ==> Int32(offset + limit) == offset + limit - TwoTo32;
    if fromIndex > toIndex then Failure(IllegalArgumentError) else Success((fromIndex, toIndex))
  }

  /** offset=1&limit=2147483647 over one result: the request throws, the intended page is empty. */
  lemma PageBoundsOverflowExample()
    ensures PageBoundsAsWritten(1, TwoTo31 - 1, 1) == Failure(IllegalArgumentError)
    ensures PageBounds(1, TwoTo31 - 1, 1) == (1, 1)
  {
  }

  // ---------------------------------------------------------------- the search

  /**
   * What a successful search past the guards answers: nothing when no lemma
   * is kept or no page holds them all; otherwise one result per candidate
   * (in map order `order`, relative to the best score `best`), sorted by
   * descending relevance and cut to the page.
   */
  ghost predicate Ranked(t: Store.Tables, morph: Morph, html: Html, wordChar: char -> bool, lemmas: seq<string>,
                         site: Option<Site>, offset: int, limit: int, resp: SearchResponse,
                         order: seq<int>, best: real, results: seq<SearchResult>)
    requires offset >= 0 && limit >= 1
  {
    var kept := KeptLemmas(t, lemmas, site, TotalPages(t, site));
    if kept == [] then resp == Found(0, [])
    else
      var sorted := Sorting.SortBy(kept, FrequencyKey);
      var cands := Candidates(t, sorted, site);
      if cands == {} then resp == Found(0, [])
      else
        && Distinct(order) && (forall p :: p in order <==> p in cands)
        && IsBest(t, cands, lemmas, site, best)
        && ResultsAt(t, morph, html, wordChar, lemmas, site, order, best, results)
        && PageOfRanking(results, offset, limit, resp)
  }

  /** resp counts the results and holds those at [offset, offset + limit) by descending relevance. */
  ghost predicate PageOfRanking(results: seq<SearchResult>, offset: int, limit: int, resp: SearchResponse)
    requires offset >= 0 && limit >= 1
  {
    var bounds := PageBounds(offset, limit, |results|);
    resp == Found(|results|, Sorting.SortBy(results, RelevanceKey)[bounds.0..bounds.1])
  }

  /** A page of the ranking holds at most `limit` results, by non-increasing relevance. */
  lemma PageOfRankingIsSorted(results: seq<SearchResult>, offset: int, limit: int, resp: SearchResponse)
    requires offset >= 0 && limit >= 1
    requires PageOfRanking(results, offset, limit, resp)
    ensures resp.Found? && |resp.data| <= limit && |resp.data| <= resp.count
    ensures forall i, j :: 0 <= i < j < |resp.data| ==> resp.data[i].relevance >= resp.data[j].relevance
  {
    var all := Sorting.SortBy(results, RelevanceKey);
    Sorting.SortBySorted(results, RelevanceKey);
    var bounds := PageBounds(offset, limit, |results|);
    var data := all[bounds.0..bounds.1];
    assert resp.data == data;
    forall i, j | 0 <= i < j < |data| ensures data[i].relevance >= data[j].relevance {
      assert data[i] == all[bounds.0 + i] && data[j] == all[bounds.0 + j];
      assert RelevanceKey(all[bounds.0 + i]) <= RelevanceKey(all[bounds.0 + j]);
    }
  }

  /** search from the total page count on: the ranking of the candidate pages. */
  method RankPages(t: Store.Tables, morph: Morph, html: Html, wordChar: char -> bool,
                   lemmas: seq<string>, site: Option<Site>, offset: int, limit: int)
    returns (r: Result<SearchResponse>, ghost order: seq<int>, ghost best: real, ghost results: seq<SearchResult>)
    requires offset >= 0 && limit >= 1
    ensures r.Success? ==> r.value.Found? && Ranked(t, morph, html, wordChar, lemmas, site, offset, limit, r.value, order, best, results)
    ensures r.Failure? ==> r.error == NullPointerError
  {
    order, best, results := [], 0.0, [];
    var totalPages := TotalPages(t, site);
    var lemmaFrequencyList := GetLemmaFrequencyList(t, lemmas, site, totalPages);
    if lemmaFrequencyList == [] {
      return Success(Found(0, [])), order, best, results;
    }
    var sortedFrequencies := Sorting.SortBy(lemmaFrequencyList, FrequencyKey);
    KeptLemmasHavePostings(t, lemmaFrequencyList, lemmas, site, totalPages);
    var pageIdsResult := GetPageIds(t, sortedFrequencies, site);
    var pageIds := pageIdsResult.value;
    if pageIds == {} {
      return Success(Found(0, [])), order, best, results;
    }
    var pageAbsRelevanceMap := GetPageAbsRelevanceMap(t, pageIds, lemmas, site);
    var maxAbsRelevance := MaxRelevance(pageAbsRelevanceMap);
    var listResult, ord := GetSearchResultsList(t, morph, html, wordChar, pageAbsRelevanceMap, maxAbsRelevance, lemmas);
    if listResult.Failure? {
      return Failure(listResult.error), order, best, results;
    }
    order, best, results := ord, maxAbsRelevance, listResult.value;
    var sortedResults := Sorting.SortBy(listResult.value, RelevanceKey);
    var totalCount := |sortedResults|;
    var bounds := PageBounds(offset, limit, totalCount);
    r := Success(Found(totalCount, sortedResults[bounds.0..bounds.1]));
  }

  /** search. */
  method Search(t: Store.Tables, morph: Morph, html: Html, wordChar: char -> bool,
                query: Option<string>, siteUrl: Option<string>, offset: Option<int>, limit: Option<int>)
    returns (r: Result<SearchResponse>, ghost order: seq<int>, ghost best: real, ghost results: seq<SearchResult>)
    ensures !Asked(query) ==> r == Success(Refused(EmptyQueryError))
    ensures Asked(query) && GetSite(t.sites, siteUrl).Failure? ==> r == Failure(Store.NonUniqueResultError)
    ensures Asked(query) && siteUrl.Some? && GetSite(t.sites, siteUrl) == Success(None) ==> r == Success(Refused(SiteNotIndexedError))
    ensures Asked(query) && SiteAccepted(t.sites, siteUrl) && LemmaOrder(morph, query.value) == [] ==>
              r == Success(Refused(NoValidWordsError))
    ensures Asked(query) && SiteAccepted(t.sites, siteUrl) && LemmaOrder(morph, query.value) != [] ==>
              && (r.Success? ==>
                    && r.value.Found?
                    && Ranked(t, morph, html, wordChar, LemmaOrder(morph, query.value), GetSite(t.sites, siteUrl).value,
                              OffsetOrDefault(offset), LimitOrDefault(limit), r.value, order, best, results))
              && (r.Failure? ==> r.error == NullPointerError)
  {
    order, best, results := [], 0.0, [];
    if query.None? || TrimmedEmpty(query.value) {
      return Success(Refused(EmptyQueryError)), order, best, results;
    }
    var o := OffsetOrDefault(offset);
    var l := LimitOrDefault(limit);
    var siteFromRequest := GetSite(t.sites, siteUrl);
    if siteFromRequest.Failure? {
      return Failure(siteFromRequest.error), order, best, results;
    }
    if siteUrl.Some? && siteFromRequest.value.None? {
      return Success(Refused(SiteNotIndexedError)), order, best, results;
    }
    var queryLemmasList := LemmaOrder(morph, query.value);
    if queryLemmasList == [] {
      return Success(Refused(NoValidWordsError)), order, best, results;
    }
    r, order, best, results := RankPages(t, morph, html, wordChar, queryLemmasList, siteFromRequest.value, o, l);
  }

  // ---------------------------------------------------------------- properties of a found response

  /** A distinct sequence over a set has the set's size. */
  lemma {:induction false} DistinctCovers(order: seq<int>, s: set<int>)
    requires Distinct(order) && forall p :: p in order <==> p in s
    ensures |order| == |s|
    decreases |order|
  {
    if order != [] {
      var init := order[..|order| - 1];
      var last := order[|order| - 1];
      assert forall p :: p in init <==> p in s - {last} by {
        forall p ensures p in init <==> p in s - {last} {
          if p in init {
            var k :| 0 <= k < |init| && init[k] == p;
            assert order[k] == p && order[|order| - 1] == last;
          }
          if p in s - {last} {
            assert p in order;
            var k :| 0 <= k < |order| && order[k] == p;
            assert k < |order| - 1 && init[k] == p;
          }
        }
      }
      DistinctCovers(init, s - {last});
    } else {
      assert forall p :: p !in s;
      assert s == {};
    }
  }

  /**
   * A found response counts every candidate page once, lists at most
   * `limit` results, and lists them by non-increasing relevance.
   */
  lemma RankedResponseIsSortedPage(t: Store.Tables, morph: Morph, html: Html, wordChar: char -> bool, lemmas: seq<string>,
                                   site: Option<Site>, offset: int, limit: int, resp: SearchResponse,
                                   order: seq<int>, best: real, results: seq<SearchResult>)
    requires offset >= 0 && limit >= 1
    requires Ranked(t, morph, html, wordChar, lemmas, site, offset, limit, resp, order, best, results)
    ensures resp.Found?
    ensures |resp.data| <= limit && |resp.data| <= resp.count
    ensures forall i, j :: 0 <= i < j < |resp.data| ==> resp.data[i].relevance >= resp.data[j].relevance
  {
    var kept := KeptLemmas(t, lemmas, site, TotalPages(t, site));
    if kept != [] {
      var sorted := Sorting.SortBy(kept, FrequencyKey);
      var cands := Candidates(t, sorted, site);
      if cands != {} {
        PageOfRankingIsSorted(results, offset, limit, resp);
      }
    }
  }

  /** The count of a found response is the number of candidate pages. */
  lemma RankedCountsCandidates(t: Store.Tables, morph: Morph, html: Html, wordChar: char -> bool, lemmas: seq<string>,
                               site: Option<Site>, offset: int, limit: int, resp: SearchResponse,
                               order: seq<int>, best: real, results: seq<SearchResult>)
    requires offset >= 0 && limit >= 1
    requires Ranked(t, morph, html, wordChar, lemmas, site, offset, limit, resp, order, best, results)
    requires KeptLemmas(t, lemmas, site, TotalPages(t, site)) != []
    ensures resp.Found?
    ensures var kept := KeptLemmas(t, lemmas, site, TotalPages(t, site));
            var sorted := Sorting.SortBy(kept, FrequencyKey);
            |sorted| == |kept| && resp.count == |Candidates(t, sorted, site)|
  {
    var kept := KeptLemmas(t, lemmas, site, TotalPages(t, site));
    var sorted := Sorting.SortBy(kept, FrequencyKey);
    var cands := Candidates(t, sorted, site);
    if cands != {} {
      DistinctCovers(order, cands);
    }
  }

  /** The relevance of the k-th result is its page's score relative to the best. */
  lemma RelevanceOfResult(t: Store.Tables, morph: Morph, html: Html, wordChar: char -> bool, lemmas: seq<string>,
                          site: Option<Site>, order: seq<int>, best: real, results: seq<SearchResult>, k: int)
    requires ResultsAt(t, morph, html, wordChar, lemmas, site, order, best, results)
    requires 0 <= k < |order|
    ensures k < |results| && results[k].relevance == Relative(Score(t, order[k], lemmas, site) as real, best)
  {
    var r := ResultFor(t, morph, html, wordChar, order[k], Relative(Score(t, order[k], lemmas, site) as real, best), lemmas);
    assert r == Success(results[k]);
    ResultForFields(t, morph, html, wordChar, order[k], Relative(Score(t, order[k], lemmas, site) as real, best), lemmas);
  }

  lemma RelativeAtMostOne(a: real, b: real)
    requires a <= b && b > 0.0
    ensures Relative(a, b) <= 1.0 && Relative(b, b) == 1.0
  {
  }

  /** The head of the ranking is a result, and none is more relevant. */
  lemma HeadOfRanking(results: seq<SearchResult>)
    requires results != []
    ensures Sorting.SortBy(results, RelevanceKey)[0] in results
    ensures forall k :: 0 <= k < |results| ==> Sorting.SortBy(results, RelevanceKey)[0].relevance >= results[k].relevance
  {
    var all := Sorting.SortBy(results, RelevanceKey);
    Sorting.SortBySorted(results, RelevanceKey);
    assert all[0] in multiset(results);
    forall k | 0 <= k < |results| ensures all[0].relevance >= results[k].relevance {
      assert results[k] in multiset(all);
      Sorting.SortedHeadIsLeast(all, RelevanceKey, results[k]);
    }
  }

  /** Each result's relevance is its page's score relative to the best. */
  ghost predicate RelevancesAt(t: Store.Tables, lemmas: seq<string>, site: Option<Site>,
                               order: seq<int>, best: real, results: seq<SearchResult>) {
    && |results| == |order|
    && forall k :: 0 <= k < |order| ==> results[k].relevance == Relative(Score(t, order[k], lemmas, site) as real, best)
  }

  /** The first result of a ranking's first page comes from a best page when the best score is positive. */
  lemma TopOfRanking(t: Store.Tables, lemmas: seq<string>, site: Option<Site>, cands: set<int>, limit: int,
                     resp: SearchResponse, order: seq<int>, best: real, results: seq<SearchResult>)
    requires limit >= 1
    requires forall p :: p in order <==> p in cands
    requires IsBest(t, cands, lemmas, site, best) && best > 0.0
    requires RelevancesAt(t, lemmas, site, order, best, results)
    requires PageOfRanking(results, 0, limit, resp)
    requires resp.Found? && resp.data != []
    ensures resp.data[0].relevance == 1.0
  {
    var all := Sorting.SortBy(results, RelevanceKey);
    assert resp.data[0] == all[0];
    HeadOfRanking(results);
    var top :| top in cands && Score(t, top, lemmas, site) as real == best;
    assert top in order;
    var k :| 0 <= k < |order| && order[k] == top;
    RelativeAtMostOne(best, best);
    var j :| 0 <= j < |results| && results[j] == all[0];
    assert order[j] in cands;
    RelativeAtMostOne(Score(t, order[j], lemmas, site) as real, best);
  }

  /**
   * On the first page, when the best score is positive, the first result
   * is a best page: relevance 1.
   */
  lemma TopResultHasFullRelevance(t: Store.Tables, morph: Morph, html: Html, wordChar: char -> bool, lemmas: seq<string>,
                                  site: Option<Site>, limit: int, resp: SearchResponse,
                                  order: seq<int>, best: real, results: seq<SearchResult>)
    requires limit >= 1
    requires Ranked(t, morph, html, wordChar, lemmas, site, 0, limit, resp, order, best, results)
    requires resp.Found? && resp.data != []
    requires best > 0.0
    ensures resp.data[0].relevance == 1.0
  {
    var kept := KeptLemmas(t, lemmas, site, TotalPages(t, site));
    var sorted := Sorting.SortBy(kept, FrequencyKey);
    var cands := Candidates(t, sorted, site);
    forall k | 0 <= k < |order| ensures results[k].relevance == Relative(Score(t, order[k], lemmas, site) as real, best) {
      RelevanceOfResult(t, morph, html, wordChar, lemmas, site, order, best, results, k);
    }
    TopOfRanking(t, lemmas, site, cands, limit, resp, order, best, results);
  }
}
