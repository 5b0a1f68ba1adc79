/**
 * The MySQL database behind the repositories: the site, page, lemma and index
 * tables as sequences of rows in insertion order, with the unique keys the
 * entity mappings declare and auto-increment ids.
 *
 * Each repository query is a function over the rows with the semantics of its
 * SQL; each write is a method of `Database` that replaces a table with a
 * function of the old one.  `Database.Valid` is what MySQL enforces: no two
 * pages share (path, site_id), no two lemmas share (lemma, site_id), no two
 * index rows share (page_id, lemma_id), and ids increase and stay below the
 * next auto-increment value.  A write that would break a unique key fails and
 * changes nothing.
 */
module Store {
  import opened Wrappers
  import opened Model
  import opened Seqs
  import opened BatchInserter

  datatype PageRow = PageRow(id: int, siteId: int, path: string, code: int, content: string)
  datatype LemmaRow = LemmaRow(id: int, siteId: int, text: string, frequency: int)
  datatype IndexRow = IndexRow(id: int, pageId: int, lemmaId: int, rank: int)

  const DuplicateKeyError: string := "Duplicate entry for a unique key"
  const NonUniqueResultError: string := "Query did not return a unique result"

  // ---------------------------------------------------------------- keys

  function SiteRowId(s: Site): int { s.id }
  function PageRowId(r: PageRow): int { r.id }
  function LemmaRowId(r: LemmaRow): int { r.id }
  function IndexRowId(r: IndexRow): int { r.id }

  /** The unique key of page: (path, site_id). */
  function PageKey(r: PageRow): (string, int) { (r.path, r.siteId) }

  /** The unique key of lemma: (lemma, site_id). */
  function LemmaRowKey(r: LemmaRow): (string, int) { (r.text, r.siteId) }

  /** The unique key of index: (page_id, lemma_id). */
  function IndexKey(r: IndexRow): (int, int) { (r.pageId, r.lemmaId) }

  /** Auto-increment ids: increasing in insertion order and below the next id. */
  predicate IdsOk<T>(rows: seq<T>, id: T -> int, next: int) {
    IncreasingBy(rows, id) && forall i :: 0 <= i < |rows| ==> id(rows[i]) < next
  }

  /** The check a batch of page rows passes when added to the table: the unique key still holds. */
  function PagesAccept(table: seq<PageRow>): seq<PageRow> -> bool {
    rs => DistinctBy(table + rs, PageKey)
  }

  function LemmasAccept(table: seq<LemmaRow>): seq<LemmaRow> -> bool {
    rs => DistinctBy(table + rs, LemmaRowKey)
  }

  function IndicesAccept(table: seq<IndexRow>): seq<IndexRow> -> bool {
    rs => DistinctBy(table + rs, IndexKey)
  }

  function PageWithId(r: PageRow, id: int): PageRow { r.(id := id) }
  function LemmaWithId(r: LemmaRow, id: int): LemmaRow { r.(id := id) }
  function IndexWithId(r: IndexRow, id: int): IndexRow { r.(id := id) }

  // ---------------------------------------------------------------- sites

  /** findById: the site with that id, if any. */
  function SiteById(sites: seq<Site>, id: int): (r: Option<Site>)
    ensures r.None? <==> forall i :: 0 <= i < |sites| ==> sites[i].id != id
    ensures r.Some? ==> r.value in sites && r.value.id == id
  {
    match FirstWhere(sites, (s: Site) => s.id == id, 0)
    case None => None
    case Some(i) => Some(sites[i])
  }

  /** findSiteByUrl: the one site with that url; two of them make the finder throw. */
  function SiteByUrl(sites: seq<Site>, url: string): (r: Result<Option<Site>>)
    ensures r == Success(None) <==> forall i :: 0 <= i < |sites| ==> sites[i].url != url
    ensures r.Success? && r.value.Some? ==> r.value.value in sites && r.value.value.url == url
  {
    UniqueWhere(sites, (s: Site) => s.url == url, NonUniqueResultError)
  }

  /** save on a loaded site: the row with its id takes the new values. */
  function ReplaceSite(sites: seq<Site>, s: Site): (r: seq<Site>)
    ensures |r| == |sites|
    ensures forall i :: 0 <= i < |sites| ==> r[i] == if sites[i].id == s.id then s else sites[i]
  {
    seq(|sites|, i requires 0 <= i < |sites| => if sites[i].id == s.id then s else sites[i])
  }

  // ---------------------------------------------------------------- pages

  /** findByPath: the page with that path on any site; the finder throws when two sites have it. */
  function PageByPath(pages: seq<PageRow>, path: string): (r: Result<Option<PageRow>>)
    ensures r == Success(None) <==> forall i :: 0 <= i < |pages| ==> pages[i].path != path
    ensures r.Failure? <==> exists i, j :: 0 <= i < j < |pages| && pages[i].path == path && pages[j].path == path
    ensures r.Success? && r.value.Some? ==> r.value.value in pages && r.value.value.path == path
  {
    UniqueWhere(pages, (p: PageRow) => p.path == path, NonUniqueResultError)
  }

  /** getPagesById. */
  function PageById(pages: seq<PageRow>, id: int): (r: Option<PageRow>)
    ensures r.None? <==> forall i :: 0 <= i < |pages| ==> pages[i].id != id
    ensures r.Some? ==> r.value in pages && r.value.id == id
  {
    match FirstWhere(pages, (p: PageRow) => p.id == id, 0)
    case None => None
    case Some(i) => Some(pages[i])
  }

  function PagesOfSite(pages: seq<PageRow>, siteId: int): (r: seq<PageRow>)
    ensures forall i :: 0 <= i < |r| ==> r[i] in pages && r[i].siteId == siteId
    ensures forall i :: 0 <= i < |pages| && pages[i].siteId == siteId ==> pages[i] in r
  {
    Filter(pages, (p: PageRow) => p.siteId == siteId)
  }

  /** deleteById: every other page stays. */
  function WithoutPage(pages: seq<PageRow>, id: int): (r: seq<PageRow>)
    ensures forall i :: 0 <= i < |r| ==> r[i] in pages && r[i].id != id
    ensures forall i :: 0 <= i < |pages| && pages[i].id != id ==> pages[i] in r
  {
    Filter(pages, (p: PageRow) => p.id != id)
  }

  // ---------------------------------------------------------------- lemmas

  predicate LemmaMatches(r: LemmaRow, siteId: int, text: string) {
    r.siteId == siteId && r.text == text
  }

  /** findBySiteIdAndLemma (and the id and frequency of that row): the lemma of one site. */
  function LemmaOnSite(lemmas: seq<LemmaRow>, siteId: int, text: string): (r: Option<LemmaRow>)
    ensures r.None? <==> forall i :: 0 <= i < |lemmas| ==> !LemmaMatches(lemmas[i], siteId, text)
    ensures r.Some? ==> r.value in lemmas && LemmaMatches(r.value, siteId, text)
  {
    match FirstWhere(lemmas, (l: LemmaRow) => LemmaMatches(l, siteId, text), 0)
    case None => None
    case Some(i) => Some(lemmas[i])
  }

  /**
   * insertOrUpdateLemma: INSERT ... VALUES (lemma, site, 1) ON DUPLICATE KEY
   * UPDATE frequency = frequency + 1.
   */
  function InsertOrIncrement(lemmas: seq<LemmaRow>, text: string, siteId: int, next: int): seq<LemmaRow> {
    if LemmaOnSite(lemmas, siteId, text).Some? then
      seq(|lemmas|, i requires 0 <= i < |lemmas| =>
        if LemmaMatches(lemmas[i], siteId, text) then lemmas[i].(frequency := lemmas[i].frequency + 1) else lemmas[i])
    else lemmas + [LemmaRow(next, siteId, text, 1)]
  }

  /** findByLemmaIn: the lemma rows of every site whose text is one of `texts`. */
  function LemmasWithTextIn(lemmas: seq<LemmaRow>, texts: set<string>): (r: seq<LemmaRow>)
    ensures forall i :: 0 <= i < |r| ==> r[i] in lemmas && r[i].text in texts
    ensures forall i :: 0 <= i < |lemmas| && lemmas[i].text in texts ==> lemmas[i] in r
  {
    Filter(lemmas, (l: LemmaRow) => l.text in texts)
  }

  /** saveAll on loaded lemmas: each row takes the values of the first update with its id. */
  function MergeLemmas(lemmas: seq<LemmaRow>, updates: seq<LemmaRow>): (r: seq<LemmaRow>)
    ensures |r| == |lemmas|
  {
    seq(|lemmas|, i requires 0 <= i < |lemmas| =>
      match FirstWhere(updates, (u: LemmaRow) => u.id == lemmas[i].id, 0)
      case None => lemmas[i]
      case Some(k) => updates[k])
  }

  /** deleteAll(list): the rows with those ids go. */
  function WithoutLemmas(lemmas: seq<LemmaRow>, ids: set<int>): (r: seq<LemmaRow>)
    ensures forall i :: 0 <= i < |r| ==> r[i] in lemmas && r[i].id !in ids
    ensures forall i :: 0 <= i < |lemmas| && lemmas[i].id !in ids ==> lemmas[i] in r
  {
    Filter(lemmas, (l: LemmaRow) => l.id !in ids)
  }

  function LemmasOfSite(lemmas: seq<LemmaRow>, siteId: int): (r: seq<LemmaRow>)
    ensures forall i :: 0 <= i < |r| ==> r[i] in lemmas && r[i].siteId == siteId
    ensures forall i :: 0 <= i < |lemmas| && lemmas[i].siteId == siteId ==> lemmas[i] in r
  {
    Filter(lemmas, (l: LemmaRow) => l.siteId == siteId)
  }

  /** SELECT frequency FROM lemma WHERE lemma = ? AND site_id = ?: null when the site has no such lemma. */
  function FrequencyOnSite(lemmas: seq<LemmaRow>, text: string, siteId: int): (r: Option<int>)
    ensures r.None? <==> LemmaOnSite(lemmas, siteId, text).None?
    ensures r.Some? ==> r.value == LemmaOnSite(lemmas, siteId, text).value.frequency
  {
    match LemmaOnSite(lemmas, siteId, text)
    case None => None
    case Some(l) => Some(l.frequency)
  }

  function FrequencyTotal(lemmas: seq<LemmaRow>, text: string): int
    decreases |lemmas|
  {
    if lemmas == [] then 0
    else (if lemmas[0].text == text then lemmas[0].frequency else 0) + FrequencyTotal(lemmas[1..], text)
  }

  /** SELECT SUM(frequency) FROM lemma WHERE lemma = ?: null over zero rows. */
  function FrequencySum(lemmas: seq<LemmaRow>, text: string): (r: Option<int>)
    ensures r.None? <==> forall i :: 0 <= i < |lemmas| ==> lemmas[i].text != text
    ensures r.Some? ==> r.value == FrequencyTotal(lemmas, text)
  {
    if exists i :: 0 <= i < |lemmas| && lemmas[i].text == text then Some(FrequencyTotal(lemmas, text)) else None
  }

  /** SELECT id FROM lemma WHERE lemma = ?: the ids of the lemma on every site. */
  function LemmaIdsOf(lemmas: seq<LemmaRow>, text: string): (r: set<int>)
    ensures forall id :: id in r <==> exists i :: 0 <= i < |lemmas| && lemmas[i].text == text && lemmas[i].id == id
  {
    set i | 0 <= i < |lemmas| && lemmas[i].text == text :: lemmas[i].id
  }

  /** SELECT id FROM lemma WHERE lemma = ? AND site_id = ?: null when missing. */
  function LemmaIdOnSite(lemmas: seq<LemmaRow>, text: string, siteId: int): (r: Option<int>)
    ensures r.None? <==> LemmaOnSite(lemmas, siteId, text).None?
    ensures r.Some? ==> r.value == LemmaOnSite(lemmas, siteId, text).value.id
  {
    match LemmaOnSite(lemmas, siteId, text)
    case None => None
    case Some(l) => Some(l.id)
  }

  // ---------------------------------------------------------------- index

  /** deleteByLemmaId: every index row of that lemma goes, on every page. */
  function WithoutLemmaIndices(indices: seq<IndexRow>, lemmaId: int): (r: seq<IndexRow>)
    ensures forall i :: 0 <= i < |r| ==> r[i] in indices && r[i].lemmaId != lemmaId
    ensures forall i :: 0 <= i < |indices| && indices[i].lemmaId != lemmaId ==> indices[i] in r
  {
    Filter(indices, (x: IndexRow) => x.lemmaId != lemmaId)
  }

  /** SELECT page_id FROM index WHERE lemma_id = ?. */
  function PageIdsOfLemma(indices: seq<IndexRow>, lemmaId: int): (r: set<int>)
    ensures forall p :: p in r <==> exists i :: 0 <= i < |indices| && indices[i].lemmaId == lemmaId && indices[i].pageId == p
  {
    set i | 0 <= i < |indices| && indices[i].lemmaId == lemmaId :: indices[i].pageId
  }

  /** SELECT page_id FROM index WHERE lemma_id IN (...). */
  function PageIdsOfLemmas(indices: seq<IndexRow>, lemmaIds: set<int>): (r: set<int>)
    ensures forall p :: p in r <==> exists i :: 0 <= i < |indices| && indices[i].lemmaId in lemmaIds && indices[i].pageId == p
  {
    set i | 0 <= i < |indices| && indices[i].lemmaId in lemmaIds :: indices[i].pageId
  }

  /** SELECT rank FROM index WHERE page_id = ? AND lemma_id = ?: null when the page lacks the lemma. */
  function RankOf(indices: seq<IndexRow>, pageId: int, lemmaId: int): (r: Option<int>)
    ensures r.None? <==> forall i :: 0 <= i < |indices| ==> IndexKey(indices[i]) != (pageId, lemmaId)
    ensures r.Some? ==> exists i :: 0 <= i < |indices| && IndexKey(indices[i]) == (pageId, lemmaId) && indices[i].rank == r.value
  {
    match FirstWhere(indices, (x: IndexRow) => IndexKey(x) == (pageId, lemmaId), 0)
    case None => None
    case Some(i) => Some(indices[i].rank)
  }

  function RankTotal(indices: seq<IndexRow>, pageId: int, lemmaIds: set<int>): int
    decreases |indices|
  {
    if indices == [] then 0
    else (if indices[0].pageId == pageId && indices[0].lemmaId in lemmaIds then indices[0].rank else 0)
         + RankTotal(indices[1..], pageId, lemmaIds)
  }

  /** SELECT SUM(rank) FROM index WHERE page_id = ? AND lemma_id IN (...): null over zero rows. */
  function TotalRank(indices: seq<IndexRow>, pageId: int, lemmaIds: set<int>): (r: Option<int>)
    ensures r.None? <==> forall i :: 0 <= i < |indices| ==> !(indices[i].pageId == pageId && indices[i].lemmaId in lemmaIds)
    ensures r.Some? ==> r.value == RankTotal(indices, pageId, lemmaIds)
  {
    if exists i :: 0 <= i < |indices| && indices[i].pageId == pageId && indices[i].lemmaId in lemmaIds
    then Some(RankTotal(indices, pageId, lemmaIds))
    else None
  }

  // ---------------------------------------------------------------- properties

  /**
   * insertOrUpdateLemma keeps the unique key and the ids: the (site, text)
   * row ends with frequency one more than before, or is a new row with
   * frequency 1 and the next id, and every other row is unchanged.
   */
  lemma InsertOrIncrementSpec(lemmas: seq<LemmaRow>, text: string, siteId: int, next: int)
    requires DistinctBy(lemmas, LemmaRowKey) && IdsOk(lemmas, LemmaRowId, next)
    ensures var r := InsertOrIncrement(lemmas, text, siteId, next);
            var isNew := LemmaOnSite(lemmas, siteId, text).None?;
            && DistinctBy(r, LemmaRowKey)
            && IdsOk(r, LemmaRowId, if isNew then next + 1 else next)
            && LemmaOnSite(r, siteId, text) ==
                 Some(if isNew then LemmaRow(next, siteId, text, 1)
                      else LemmaOnSite(lemmas, siteId, text).value.(frequency := LemmaOnSite(lemmas, siteId, text).value.frequency + 1))
            && |r| == |lemmas| + (if isNew then 1 else 0)
            && forall i :: 0 <= i < |lemmas| && !LemmaMatches(lemmas[i], siteId, text) ==> r[i] == lemmas[i]
  {
    if LemmaOnSite(lemmas, siteId, text).None? {
      InsertsNewLemma(lemmas, text, siteId, next);
    } else {
      IncrementsExistingLemma(lemmas, text, siteId, next);
    }
  }

  /** The insert case of InsertOrIncrementSpec: the new row goes at the end. */
  lemma InsertsNewLemma(lemmas: seq<LemmaRow>, text: string, siteId: int, next: int)
    requires DistinctBy(lemmas, LemmaRowKey) && IdsOk(lemmas, LemmaRowId, next)
    requires LemmaOnSite(lemmas, siteId, text).None?
    ensures var r := InsertOrIncrement(lemmas, text, siteId, next);
            && DistinctBy(r, LemmaRowKey)
            && IdsOk(r, LemmaRowId, next + 1)
            && LemmaOnSite(r, siteId, text) == Some(LemmaRow(next, siteId, text, 1))
            && |r| == |lemmas| + 1
            && forall i :: 0 <= i < |lemmas| ==> r[i] == lemmas[i]
  {
    var r := InsertOrIncrement(lemmas, text, siteId, next);
    assert r == lemmas + [LemmaRow(next, siteId, text, 1)];
    assert forall i :: 0 <= i < |lemmas| ==> r[i] == lemmas[i];
    assert forall i :: 0 <= i < |lemmas| ==> !LemmaMatches(r[i], siteId, text);
    assert LemmaMatches(r[|lemmas|], siteId, text);
    assert FirstWhere(r, (l: LemmaRow) => LemmaMatches(l, siteId, text), 0) == Some(|lemmas|);
    assert DistinctBy(r, LemmaRowKey) by {
      forall i, j | 0 <= i < j < |r| ensures LemmaRowKey(r[i]) != LemmaRowKey(r[j]) {
        if j == |lemmas| {
          assert !LemmaMatches(lemmas[i], siteId, text);
        }
      }
    }
  }

  /** The increment case of InsertOrIncrementSpec: only the matching row changes. */
  lemma IncrementsExistingLemma(lemmas: seq<LemmaRow>, text: string, siteId: int, next: int)
    requires DistinctBy(lemmas, LemmaRowKey) && IdsOk(lemmas, LemmaRowId, next)
    requires LemmaOnSite(lemmas, siteId, text).Some?
    ensures var r := InsertOrIncrement(lemmas, text, siteId, next);
            var old_ := LemmaOnSite(lemmas, siteId, text).value;
            && DistinctBy(r, LemmaRowKey)
            && IdsOk(r, LemmaRowId, next)
            && LemmaOnSite(r, siteId, text) == Some(old_.(frequency := old_.frequency + 1))
            && |r| == |lemmas|
            && forall i :: 0 <= i < |lemmas| && !LemmaMatches(lemmas[i], siteId, text) ==> r[i] == lemmas[i]
  {
    var r := InsertOrIncrement(lemmas, text, siteId, next);
    var old_ := LemmaOnSite(lemmas, siteId, text).value;
    var k :| 0 <= k < |lemmas| && lemmas[k] == old_;
    forall i | 0 <= i < |lemmas| && i != k ensures !LemmaMatches(lemmas[i], siteId, text) {
      if i < k { assert LemmaRowKey(lemmas[i]) != LemmaRowKey(lemmas[k]); }
      else { assert LemmaRowKey(lemmas[k]) != LemmaRowKey(lemmas[i]); }
    }
    assert forall i :: 0 <= i < |r| ==> LemmaRowKey(r[i]) == LemmaRowKey(lemmas[i]) && r[i].id == lemmas[i].id;
    var f := FirstWhere(r, (l: LemmaRow) => LemmaMatches(l, siteId, text), 0);
    assert LemmaMatches(r[k], siteId, text);
    assert f == Some(k);
  }

  /** A table without some rows keeps its keys unique and its ids in order. */
  lemma FilterKeepsPages(pages: seq<PageRow>, p: PageRow -> bool, next: int)
    requires DistinctBy(pages, PageKey) && IdsOk(pages, PageRowId, next)
    ensures DistinctBy(Filter(pages, p), PageKey) && IdsOk(Filter(pages, p), PageRowId, next)
  {
    FilterDistinctBy(pages, p, PageKey);
    FilterIncreasingBy(pages, p, PageRowId);
  }

  lemma FilterKeepsLemmas(lemmas: seq<LemmaRow>, p: LemmaRow -> bool, next: int)
    requires DistinctBy(lemmas, LemmaRowKey) && IdsOk(lemmas, LemmaRowId, next)
    ensures DistinctBy(Filter(lemmas, p), LemmaRowKey) && IdsOk(Filter(lemmas, p), LemmaRowId, next)
  {
    FilterDistinctBy(lemmas, p, LemmaRowKey);
    FilterIncreasingBy(lemmas, p, LemmaRowId);
  }

  lemma FilterKeepsIndices(indices: seq<IndexRow>, p: IndexRow -> bool, next: int)
    requires DistinctBy(indices, IndexKey) && IdsOk(indices, IndexRowId, next)
    ensures DistinctBy(Filter(indices, p), IndexKey) && IdsOk(Filter(indices, p), IndexRowId, next)
  {
    FilterDistinctBy(indices, p, IndexKey);
    FilterIncreasingBy(indices, p, IndexRowId);
  }

  /** Every update is a row of the table with the same id and key: only its frequency may differ. */
  predicate UpdatesKeepKeys(lemmas: seq<LemmaRow>, updates: seq<LemmaRow>) {
    forall k :: 0 <= k < |updates| ==>
      exists i :: 0 <= i < |lemmas| && lemmas[i].id == updates[k].id && LemmaRowKey(lemmas[i]) == LemmaRowKey(updates[k])
  }

  /**
   * saveAll of loaded rows that changed only their frequency keeps every
   * row's key and id, so the table stays valid.
   */
  lemma MergeLemmasKeepsKeys(lemmas: seq<LemmaRow>, updates: seq<LemmaRow>, next: int)
    requires DistinctBy(lemmas, LemmaRowKey) && IdsOk(lemmas, LemmaRowId, next)
    requires UpdatesKeepKeys(lemmas, updates)
    ensures var r := MergeLemmas(lemmas, updates);
            && forall i :: 0 <= i < |lemmas| ==> r[i].id == lemmas[i].id && LemmaRowKey(r[i]) == LemmaRowKey(lemmas[i])
    ensures DistinctBy(MergeLemmas(lemmas, updates), LemmaRowKey) && IdsOk(MergeLemmas(lemmas, updates), LemmaRowId, next)
  {
    var r := MergeLemmas(lemmas, updates);
    forall i | 0 <= i < |lemmas| ensures r[i].id == lemmas[i].id && LemmaRowKey(r[i]) == LemmaRowKey(lemmas[i]) {
      match FirstWhere(updates, (u: LemmaRow) => u.id == lemmas[i].id, 0)
      case None =>
      case Some(k) =>
        var i' :| 0 <= i' < |lemmas| && lemmas[i'].id == updates[k].id && LemmaRowKey(lemmas[i']) == LemmaRowKey(updates[k]);
        assert LemmaRowId(lemmas[i']) == LemmaRowId(lemmas[i]);
        assert i' == i;
    }
  }

  // ---------------------------------------------------------------- the database

  /**
   * The four tables with their auto-increment counters, and the number of
   * batch inserts made so far (the k-th one meets the driver behaviour
   * `drivers(k)` of its database).
   */
  datatype Tables = Tables(
    sites: seq<Site>, pages: seq<PageRow>, lemmas: seq<LemmaRow>, indices: seq<IndexRow>,
    nextSiteId: int, nextPageId: int, nextLemmaId: int, nextIndexId: int, batches: nat)

  /** What the schema enforces: unique keys and auto-increment ids. */
  predicate Valid(t: Tables) {
    && IdsOk(t.sites, SiteRowId, t.nextSiteId)
    && DistinctBy(t.pages, PageKey) && IdsOk(t.pages, PageRowId, t.nextPageId)
    && DistinctBy(t.lemmas, LemmaRowKey) && IdsOk(t.lemmas, LemmaRowId, t.nextLemmaId)
    && DistinctBy(t.indices, IndexKey) && IdsOk(t.indices, IndexRowId, t.nextIndexId)
  }

  function EmptyTables(): (t: Tables)
    ensures Valid(t) && t.sites == [] && t.pages == [] && t.lemmas == [] && t.indices == [] && t.batches == 0
  {
    Tables([], [], [], [], 1, 1, 1, 1, 0)
  }

  /** The row siteRepository.save gives a new site. */
  function NewSite(t: Tables, url: string, name: string, status: Status, lastError: Option<string>): Site {
    Site(t.nextSiteId, url, name, status, lastError)
  }

  /** siteRepository.save of a new site: it is appended with the next id. */
  function InsertSite(t: Tables, url: string, name: string, status: Status, lastError: Option<string>): (r: Tables)
    ensures Valid(t) ==> Valid(r)
    ensures r.sites == t.sites + [NewSite(t, url, name, status, lastError)] && r.nextSiteId == t.nextSiteId + 1
    ensures r.pages == t.pages && r.lemmas == t.lemmas && r.indices == t.indices
  {
    t.(sites := t.sites + [NewSite(t, url, name, status, lastError)], nextSiteId := t.nextSiteId + 1)
  }

  /** siteRepository.save of a loaded site: the row with its id takes the new values. */
  function SaveSite(t: Tables, s: Site): (r: Tables)
    ensures Valid(t) ==> Valid(r)
    ensures |r.sites| == |t.sites|
    ensures forall i :: 0 <= i < |t.sites| ==> r.sites[i] == if t.sites[i].id == s.id then s else t.sites[i]
    ensures r.pages == t.pages && r.lemmas == t.lemmas && r.indices == t.indices
  {
    var r := t.(sites := ReplaceSite(t.sites, s));
    assert forall i :: 0 <= i < |r.sites| ==> r.sites[i].id == t.sites[i].id;
    r
  }

  /** The row pageRepository.save gives a new page. */
  function NewPage(t: Tables, siteId: int, path: string, code: int, content: string): PageRow {
    PageRow(t.nextPageId, siteId, path, code, content)
  }

  /** pageRepository.save of a new page: appended with the next id, or a failure on a duplicate (path, site_id). */
  function InsertPage(t: Tables, siteId: int, path: string, code: int, content: string): (r: Result<Tables>)
    ensures Valid(t) && r.Success? ==> Valid(r.value)
    ensures Valid(t) ==> (r.Failure? <==> exists i :: 0 <= i < |t.pages| && PageKey(t.pages[i]) == (path, siteId))
    ensures r.Failure? ==> r.error == DuplicateKeyError
    ensures r.Success? ==> r.value == t.(pages := t.pages + [NewPage(t, siteId, path, code, content)], nextPageId := t.nextPageId + 1)
  {
    var row := NewPage(t, siteId, path, code, content);
    AppendBreaksKey(t.pages, row, PageKey);
    if DistinctBy(t.pages + [row], PageKey) then
      Success(t.(pages := t.pages + [row], nextPageId := t.nextPageId + 1))
    else
      Failure(DuplicateKeyError)
  }

  /** pageRepository.deleteById: that page goes, every other row stays. */
  function DeletePage(t: Tables, id: int): (r: Tables)
    ensures Valid(t) ==> Valid(r)
    ensures r.pages == WithoutPage(t.pages, id)
    ensures r.sites == t.sites && r.lemmas == t.lemmas && r.indices == t.indices
  {
    var r := t.(pages := WithoutPage(t.pages, id));
    assert Valid(t) ==> Valid(r) by {
      if Valid(t) { FilterKeepsPages(t.pages, (p: PageRow) => p.id != id, t.nextPageId); }
    }
    r
  }

  /** The (lemma, site_id) row after insertOrUpdateLemma: a new row with frequency 1, or the old one incremented. */
  function UpsertedRow(t: Tables, text: string, siteId: int): LemmaRow {
    match LemmaOnSite(t.lemmas, siteId, text)
    case None => LemmaRow(t.nextLemmaId, siteId, text, 1)
    case Some(l) => l.(frequency := l.frequency + 1)
  }

  /** insertOrUpdateLemma on the lemma table. */
  function UpsertLemma(t: Tables, text: string, siteId: int): (r: Tables)
    ensures Valid(t) ==> Valid(r)
    ensures Valid(t) ==> LemmaOnSite(r.lemmas, siteId, text) == Some(UpsertedRow(t, text, siteId))
    ensures |r.lemmas| >= |t.lemmas|
    ensures Valid(t) ==> forall i :: 0 <= i < |t.lemmas| && !LemmaMatches(t.lemmas[i], siteId, text) ==> r.lemmas[i] == t.lemmas[i]
    ensures r.sites == t.sites && r.pages == t.pages && r.indices == t.indices
  {
    var isNew := LemmaOnSite(t.lemmas, siteId, text).None?;
    var r := t.(lemmas := InsertOrIncrement(t.lemmas, text, siteId, t.nextLemmaId),
                nextLemmaId := if isNew then t.nextLemmaId + 1 else t.nextLemmaId);
    assert Valid(t) ==> (Valid(r) && LemmaOnSite(r.lemmas, siteId, text) == Some(UpsertedRow(t, text, siteId)) &&
      forall i :: 0 <= i < |t.lemmas| && !LemmaMatches(t.lemmas[i], siteId, text) ==> r.lemmas[i] == t.lemmas[i])
    by {
      if Valid(t) { InsertOrIncrementSpec(t.lemmas, text, siteId, t.nextLemmaId); }
    }
    r
  }

  /** lemmaRepository.saveAll of rows loaded by findByLemmaIn whose frequency changed. */
  function SaveLemmas(t: Tables, updates: seq<LemmaRow>): (r: Tables)
    requires UpdatesKeepKeys(t.lemmas, updates)
    ensures Valid(t) ==> Valid(r)
    ensures |r.lemmas| == |t.lemmas|
    ensures forall i :: 0 <= i < |t.lemmas| ==> r.lemmas[i].id == t.lemmas[i].id
    ensures forall i, k :: (0 <= i < |t.lemmas| && 0 <= k < |updates| && updates[k].id == t.lemmas[i].id &&
              forall k' :: 0 <= k' < k ==> updates[k'].id != t.lemmas[i].id) ==> r.lemmas[i] == updates[k]
    ensures forall i :: 0 <= i < |t.lemmas| && (forall k :: 0 <= k < |updates| ==> updates[k].id != t.lemmas[i].id)
              ==> r.lemmas[i] == t.lemmas[i]
    ensures r.sites == t.sites && r.pages == t.pages && r.indices == t.indices
  {
    var r := t.(lemmas := MergeLemmas(t.lemmas, updates));
    assert Valid(t) ==> Valid(r) by {
      if Valid(t) { MergeLemmasKeepsKeys(t.lemmas, updates, t.nextLemmaId); }
    }
    MergeLemmasKeepsIds(t.lemmas, updates);
    r
  }

  /** lemmaRepository.deleteAll(list): the rows with those ids go. */
  function DeleteLemmas(t: Tables, ids: set<int>): (r: Tables)
    ensures Valid(t) ==> Valid(r)
    ensures r.lemmas == WithoutLemmas(t.lemmas, ids)
    ensures r.sites == t.sites && r.pages == t.pages && r.indices == t.indices
  {
    var r := t.(lemmas := WithoutLemmas(t.lemmas, ids));
    assert Valid(t) ==> Valid(r) by {
      if Valid(t) { FilterKeepsLemmas(t.lemmas, (l: LemmaRow) => l.id !in ids, t.nextLemmaId); }
    }
    r
  }

  /** indexRepository.deleteByLemmaId: every index row of that lemma goes, on every page of every site. */
  function DeleteIndicesOfLemma(t: Tables, lemmaId: int): (r: Tables)
    ensures Valid(t) ==> Valid(r)
    ensures r.indices == WithoutLemmaIndices(t.indices, lemmaId)
    ensures r.sites == t.sites && r.pages == t.pages && r.lemmas == t.lemmas
  {
    var r := t.(indices := WithoutLemmaIndices(t.indices, lemmaId));
    assert Valid(t) ==> Valid(r) by {
      if Valid(t) { FilterKeepsIndices(t.indices, (x: IndexRow) => x.lemmaId != lemmaId, t.nextIndexId); }
    }
    r
  }

  /** The row indexRepository.insertIndex adds. */
  function NewIndex(t: Tables, pageId: int, lemmaId: int, rank: int): IndexRow {
    IndexRow(t.nextIndexId, pageId, lemmaId, rank)
  }

  /** indexRepository.insertIndex: appended with the next id, or a failure on a duplicate (page_id, lemma_id). */
  function InsertIndex(t: Tables, pageId: int, lemmaId: int, rank: int): (r: Result<Tables>)
    ensures Valid(t) && r.Success? ==> Valid(r.value)
    ensures Valid(t) ==> (r.Failure? <==> exists i :: 0 <= i < |t.indices| && IndexKey(t.indices[i]) == (pageId, lemmaId))
    ensures r.Failure? ==> r.error == DuplicateKeyError
    ensures r.Success? ==> r.value == t.(indices := t.indices + [NewIndex(t, pageId, lemmaId, rank)], nextIndexId := t.nextIndexId + 1)
  {
    var row := NewIndex(t, pageId, lemmaId, rank);
    AppendBreaksKey(t.indices, row, IndexKey);
    if DistinctBy(t.indices + [row], IndexKey) then
      Success(t.(indices := t.indices + [row], nextIndexId := t.nextIndexId + 1))
    else
      Failure(DuplicateKeyError)
  }

  /** deleteAll on one repository; the auto-increment counter keeps its value. */
  function ClearIndices(t: Tables): (r: Tables)
    ensures Valid(t) ==> Valid(r)
    ensures r.indices == [] && r.sites == t.sites && r.pages == t.pages && r.lemmas == t.lemmas
  {
    t.(indices := [])
  }

  function ClearLemmas(t: Tables): (r: Tables)
    ensures Valid(t) ==> Valid(r)
    ensures r.lemmas == [] && r.sites == t.sites && r.pages == t.pages && r.indices == t.indices
  {
    t.(lemmas := [])
  }

  function ClearPages(t: Tables): (r: Tables)
    ensures Valid(t) ==> Valid(r)
    ensures r.pages == [] && r.sites == t.sites && r.lemmas == t.lemmas && r.indices == t.indices
  {
    t.(pages := [])
  }

  function ClearSites(t: Tables): (r: Tables)
    ensures Valid(t) ==> Valid(r)
    ensures r.sites == [] && r.pages == t.pages && r.lemmas == t.lemmas && r.indices == t.indices
  {
    t.(sites := [])
  }

  /**
   * The page batch insert on a fresh connection with the page table's next
   * key as the base: the committed rows join the table, and only rows that
   * keep (path, site_id) unique are ever committed.
   */
  function AfterPageBatch(t: Tables, rows: seq<PageRow>, b: nat, stopped: nat -> bool, d: Driver): (r: Tables)
    requires b > 0
    ensures Valid(t) ==> Valid(r)
    ensures var added := CommittedBy(rows, b, stopped, d, t.nextPageId, PageWithId, PagesAccept(t.pages));
            r == t.(pages := t.pages + added, nextPageId := t.nextPageId + |added|, batches := t.batches + 1)
  {
    var added := CommittedBy(rows, b, stopped, d, t.nextPageId, PageWithId, PagesAccept(t.pages));
    var r := t.(pages := t.pages + added, nextPageId := t.nextPageId + |added|, batches := t.batches + 1);
    assert Valid(t) ==> Valid(r) by {
      if Valid(t) {
        assert PagesAccept(t.pages)([]) by { assert t.pages + [] == t.pages; }
        CommittedByAccepted(rows, b, stopped, d, t.nextPageId, PageWithId, PagesAccept(t.pages));
        AddedIdsOk(t.pages, added, PageRowId, PageWithId, rows[..Bound(|rows|, stopped)], t.nextPageId, added != []);
      }
    }
    r
  }

  /** The lemma batch insert: only rows that keep (lemma, site_id) unique are committed. */
  function AfterLemmaBatch(t: Tables, rows: seq<LemmaRow>, b: nat, stopped: nat -> bool, d: Driver): (r: Tables)
    requires b > 0
    ensures Valid(t) ==> Valid(r)
    ensures var added := CommittedBy(rows, b, stopped, d, t.nextLemmaId, LemmaWithId, LemmasAccept(t.lemmas));
            r == t.(lemmas := t.lemmas + added, nextLemmaId := t.nextLemmaId + |added|, batches := t.batches + 1)
  {
    var added := CommittedBy(rows, b, stopped, d, t.nextLemmaId, LemmaWithId, LemmasAccept(t.lemmas));
    var r := t.(lemmas := t.lemmas + added, nextLemmaId := t.nextLemmaId + |added|, batches := t.batches + 1);
    assert Valid(t) ==> Valid(r) by {
      if Valid(t) {
        assert LemmasAccept(t.lemmas)([]) by { assert t.lemmas + [] == t.lemmas; }
        CommittedByAccepted(rows, b, stopped, d, t.nextLemmaId, LemmaWithId, LemmasAccept(t.lemmas));
        AddedIdsOk(t.lemmas, added, LemmaRowId, LemmaWithId, rows[..Bound(|rows|, stopped)], t.nextLemmaId, added != []);
      }
    }
    r
  }

  /** The index batch insert: only rows that keep (page_id, lemma_id) unique are committed. */
  function AfterIndexBatch(t: Tables, rows: seq<IndexRow>, b: nat, stopped: nat -> bool, d: Driver): (r: Tables)
    requires b > 0
    ensures Valid(t) ==> Valid(r)
    ensures var added := CommittedBy(rows, b, stopped, d, t.nextIndexId, IndexWithId, IndicesAccept(t.indices));
            r == t.(indices := t.indices + added, nextIndexId := t.nextIndexId + |added|, batches := t.batches + 1)
  {
    var added := CommittedBy(rows, b, stopped, d, t.nextIndexId, IndexWithId, IndicesAccept(t.indices));
    var r := t.(indices := t.indices + added, nextIndexId := t.nextIndexId + |added|, batches := t.batches + 1);
    assert Valid(t) ==> Valid(r) by {
      if Valid(t) {
        assert IndicesAccept(t.indices)([]) by { assert t.indices + [] == t.indices; }
        CommittedByAccepted(rows, b, stopped, d, t.nextIndexId, IndexWithId, IndicesAccept(t.indices));
        AddedIdsOk(t.indices, added, IndexRowId, IndexWithId, rows[..Bound(|rows|, stopped)], t.nextIndexId, added != []);
      }
    }
    r
  }

  /** The reads of the stop flag the lemma batch insert makes, which the index batch after it follows. */
  function LemmaBatchReads(t: Tables, rows: seq<LemmaRow>, b: nat, stopped: nat -> bool, d: Driver): (r: nat)
    requires b > 0
    ensures r <= Reads(|rows|, stopped)
  {
    ReadsBy(rows, b, stopped, d, t.nextLemmaId, LemmaWithId, LemmasAccept(t.lemmas))
  }

  /** The database: its tables, changed only through the functions above, and its JDBC driver's behaviour. */
  class Database {
    var t: Tables
    const drivers: nat -> Driver

    constructor (drivers: nat -> Driver)
      ensures t == EmptyTables() && this.drivers == drivers
    {
      t := EmptyTables();
      this.drivers := drivers;
    }

    /**
     * BatchInserter.batchInsert over pages: a fresh auto-commit connection,
     * the page table's next key as the base, the generated keys written into
     * `slots`.
     */
    method InsertPageBatch(slots: seq<RowId>, rows: seq<PageRow>, batchSize: nat, stopped: nat -> bool)
      returns (outcome: Outcome)
      requires |rows| == |slots| && batchSize > 0 && Distinct(slots)
      modifies this, slots
      ensures var d := drivers(old(t.batches));
              var accepts := PagesAccept(old(t.pages));
              && t == AfterPageBatch(old(t), rows, batchSize, stopped, d)
              && outcome == (if |ExecutedBy(rows, batchSize, stopped, d, old(t.nextPageId), PageWithId, accepts)|
                                == |Plan(|rows|, batchSize, stopped)| then Committed else RolledBack)
              && forall k :: 0 <= k < |slots| ==>
                   slots[k].value == IdAfter(ExecutedBy(rows, batchSize, stopped, d, old(t.nextPageId), PageWithId, accepts), d, old(t.nextPageId), k, old(slots[k].value))
    {
      var d := drivers(t.batches);
      var conn := new Connection(true);
      var accepts := PagesAccept(t.pages);
      var committed, flagReads;
      outcome, committed, flagReads := BatchInsert(slots, rows, PageWithId, batchSize, stopped, d, t.nextPageId, accepts, conn);
      t := AfterPageBatch(t, rows, batchSize, stopped, d);
    }

    /** BatchInserter.batchInsert over lemmas; `flagReads` counts its reads of the stop flag. */
    method InsertLemmaBatch(slots: seq<RowId>, rows: seq<LemmaRow>, batchSize: nat, stopped: nat -> bool)
      returns (outcome: Outcome, flagReads: nat)
      requires |rows| == |slots| && batchSize > 0 && Distinct(slots)
      modifies this, slots
      ensures flagReads == LemmaBatchReads(old(t), rows, batchSize, stopped, drivers(old(t.batches)))
      // when every row commits and every key comes back, slot k holds the k-th key
      ensures ReturnsAll(drivers(old(t.batches)), batchSize) && |t.lemmas| == |old(t.lemmas)| + |rows| ==>
                forall k :: 0 <= k < |slots| ==> slots[k].value == Int32(old(t.nextLemmaId) + k)
      ensures var d := drivers(old(t.batches));
              var accepts := LemmasAccept(old(t.lemmas));
              && t == AfterLemmaBatch(old(t), rows, batchSize, stopped, d)
              && outcome == (if |ExecutedBy(rows, batchSize, stopped, d, old(t.nextLemmaId), LemmaWithId, accepts)|
                                == |Plan(|rows|, batchSize, stopped)| then Committed else RolledBack)
              && forall k :: 0 <= k < |slots| ==>
                   slots[k].value == IdAfter(ExecutedBy(rows, batchSize, stopped, d, old(t.nextLemmaId), LemmaWithId, accepts), d, old(t.nextLemmaId), k, old(slots[k].value))
    {
      var d := drivers(t.batches);
      var conn := new Connection(true);
      var accepts := LemmasAccept(t.lemmas);
      var committed;
      ghost var t0 := t;
      outcome, committed, flagReads := BatchInsert(slots, rows, LemmaWithId, batchSize, stopped, d, t.nextLemmaId, accepts, conn);
      t := AfterLemmaBatch(t, rows, batchSize, stopped, d);
      if ReturnsAll(d, batchSize) && |t.lemmas| == |t0.lemmas| + |rows| {
        ghost var added := CommittedBy(rows, batchSize, stopped, d, t0.nextLemmaId, LemmaWithId, accepts);
        assert t.lemmas == t0.lemmas + added;
        CommittedAssignsEach(rows, batchSize, stopped, d, t0.nextLemmaId, LemmaWithId, accepts);
        ghost var done := ExecutedBy(rows, batchSize, stopped, d, t0.nextLemmaId, LemmaWithId, accepts);
        forall k | 0 <= k < |slots| ensures slots[k].value == Int32(t0.nextLemmaId + k) {
          assert slots[k].value == IdAfter(done, d, t0.nextLemmaId, k, old(slots[k].value));
        }
      }
    }

    /** BatchInserter.batchInsert over index rows. */
    method InsertIndexBatch(slots: seq<RowId>, rows: seq<IndexRow>, batchSize: nat, stopped: nat -> bool)
      returns (outcome: Outcome)
      requires |rows| == |slots| && batchSize > 0 && Distinct(slots)
      modifies this, slots
      ensures var d := drivers(old(t.batches));
              var accepts := IndicesAccept(old(t.indices));
              && t == AfterIndexBatch(old(t), rows, batchSize, stopped, d)
              && outcome == (if |ExecutedBy(rows, batchSize, stopped, d, old(t.nextIndexId), IndexWithId, accepts)|
                                == |Plan(|rows|, batchSize, stopped)| then Committed else RolledBack)
              && forall k :: 0 <= k < |slots| ==>
                   slots[k].value == IdAfter(ExecutedBy(rows, batchSize, stopped, d, old(t.nextIndexId), IndexWithId, accepts), d, old(t.nextIndexId), k, old(slots[k].value))
    {
      var d := drivers(t.batches);
      var conn := new Connection(true);
      var accepts := IndicesAccept(t.indices);
      var committed, flagReads;
      outcome, committed, flagReads := BatchInsert(slots, rows, IndexWithId, batchSize, stopped, d, t.nextIndexId, accepts, conn);
      t := AfterIndexBatch(t, rows, batchSize, stopped, d);
    }
  }

  /** saveAll keeps each row's id. */
  lemma MergeLemmasKeepsIds(lemmas: seq<LemmaRow>, updates: seq<LemmaRow>)
    ensures forall i :: 0 <= i < |lemmas| ==> MergeLemmas(lemmas, updates)[i].id == lemmas[i].id
  {
    forall i | 0 <= i < |lemmas| ensures MergeLemmas(lemmas, updates)[i].id == lemmas[i].id {
      match FirstWhere(updates, (u: LemmaRow) => u.id == lemmas[i].id, 0)
      case None =>
      case Some(k) =>
    }
  }

  /** Appending a row to a table with a unique key keeps it unique iff no row has the same key. */
  lemma AppendBreaksKey<T, K>(table: seq<T>, row: T, key: T -> K)
    ensures DistinctBy(table, key) ==>
            (DistinctBy(table + [row], key) <==> forall i :: 0 <= i < |table| ==> key(table[i]) != key(row))
  {
    var all := table + [row];
    assert all[|table|] == row;
    assert forall i :: 0 <= i < |table| ==> all[i] == table[i];
    if DistinctBy(table, key) && forall i :: 0 <= i < |table| ==> key(table[i]) != key(row) {
      forall i, j | 0 <= i < j < |all| ensures key(all[i]) != key(all[j]) {
        if j < |table| { assert key(table[i]) != key(table[j]); }
      }
    }
  }

  /** Rows appended with keys next, next + 1, ... keep the ids increasing and below the new next id. */
  lemma AddedIdsOk<R>(table: seq<R>, added: seq<R>, id: R -> int, withId: (R, int) -> R, sent: seq<R>, next: int, ok: bool)
    requires IdsOk(table, id, next)
    requires forall r: R, k: int :: id(withId(r, k)) == k
    requires added == if ok then WithKeys(sent, next, withId) else []
    ensures IdsOk(table + added, id, next + |added|)
  {
    var all := table + added;
    forall i, j | 0 <= i < j < |all| ensures id(all[i]) < id(all[j]) {
      if j >= |table| {
        assert all[j] == withId(sent[j - |table|], next + j - |table|);
        if i >= |table| {
          assert all[i] == withId(sent[i - |table|], next + i - |table|);
        }
      }
    }
    forall i | 0 <= i < |all| ensures id(all[i]) < next + |added| {
      if i >= |table| {
        assert all[i] == withId(sent[i - |table|], next + i - |table|);
      }
    }
  }
}
