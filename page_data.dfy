/**
 * The data one page contributes to the lemma and index tables, and what
 * re-indexing that page must remove before the page is stored again.
 *
 * A lemma's frequency is the number of pages of its site that contain it,
 * and a page holds one index row per lemma it contains; `Consistent` states
 * this of the tables: every lemma's frequency is the number of index rows
 * that point to it, and every index row points to a stored lemma and a
 * stored page.
 *
 * `AsWrittenDeletePageData` is what deletePageData does: it looks the page
 * up by path alone, and for every lemma row of any site whose text occurs
 * in the NEW content it deletes all index rows of that lemma, on every page,
 * and lowers its frequency by one.  `DeletePageData` is the evidently
 * intended removal: the page of this site with this path, its own index
 * rows, and one off the frequency of exactly the lemmas those rows point to.
 */
module PageData {
  import opened Wrappers
  import opened Seqs
  import opened Model
  import opened UrlUtils
  import opened Store

  // ---------------------------------------------------------------- the invariant

  /** The number of index rows that point to a lemma id. */
  function RefCount(indices: seq<IndexRow>, lemmaId: int): (n: nat)
    ensures n <= |indices|
    decreases |indices|
  {
    if indices == [] then 0
    else (if indices[0].lemmaId == lemmaId then 1 else 0) + RefCount(indices[1..], lemmaId)
  }

  predicate HasLemmaId(lemmas: seq<LemmaRow>, id: int) {
    exists i :: 0 <= i < |lemmas| && lemmas[i].id == id
  }

  predicate HasPageId(pages: seq<PageRow>, id: int) {
    exists i :: 0 <= i < |pages| && pages[i].id == id
  }

  /** Frequencies count index rows, and no index row dangles. */
  predicate Consistent(t: Tables) {
    && (forall i :: 0 <= i < |t.lemmas| ==> t.lemmas[i].frequency == RefCount(t.indices, t.lemmas[i].id))
    && (forall j :: 0 <= j < |t.indices| ==> HasLemmaId(t.lemmas, t.indices[j].lemmaId))
    && (forall j :: 0 <= j < |t.indices| ==> HasPageId(t.pages, t.indices[j].pageId))
  }

  lemma EmptyTablesConsistent()
    ensures Consistent(EmptyTables())
  {
  }

  /** No row points to the id iff the count is zero. */
  lemma {:induction false} RefCountZero(indices: seq<IndexRow>, lemmaId: int)
    ensures RefCount(indices, lemmaId) == 0 <==> forall j :: 0 <= j < |indices| ==> indices[j].lemmaId != lemmaId
    decreases |indices|
  {
    if indices != [] {
      RefCountZero(indices[1..], lemmaId);
      assert forall j :: 1 <= j < |indices| ==> indices[j] == indices[1..][j - 1];
    }
  }

  /** One more row counts for its own lemma only. */
  lemma {:induction false} RefCountSnoc(indices: seq<IndexRow>, x: IndexRow, lemmaId: int)
    ensures RefCount(indices + [x], lemmaId) == RefCount(indices, lemmaId) + (if x.lemmaId == lemmaId then 1 else 0)
    decreases |indices|
  {
    if indices == [] {
      assert [] + [x] == [x] && [x][1..] == [];
    } else {
      assert (indices + [x])[0] == indices[0];
      assert (indices + [x])[1..] == indices[1..] + [x];
      RefCountSnoc(indices[1..], x, lemmaId);
    }
  }

  // ---------------------------------------------------------------- the intended removal

  /** The filter that keeps the index rows of other pages. */
  function OffPage(pageId: int): IndexRow -> bool {
    (x: IndexRow) => x.pageId != pageId
  }

  /** The lemma ids of a page's index rows. */
  function PageLemmaIds(indices: seq<IndexRow>, pageId: int): (ids: set<int>)
    ensures forall id :: id in ids <==> exists j :: 0 <= j < |indices| && IndexKey(indices[j]) == (pageId, id)
  {
    set j | 0 <= j < |indices| && indices[j].pageId == pageId :: indices[j].lemmaId
  }

  /** Each lemma of the given ids loses one from its frequency. */
  function Decremented(lemmas: seq<LemmaRow>, ids: set<int>): (r: seq<LemmaRow>)
    ensures |r| == |lemmas|
    ensures forall i :: 0 <= i < |lemmas| ==>
              r[i] == if lemmas[i].id in ids then lemmas[i].(frequency := lemmas[i].frequency - 1) else lemmas[i]
  {
    seq(|lemmas|, i requires 0 <= i < |lemmas| =>
      if lemmas[i].id in ids then lemmas[i].(frequency := lemmas[i].frequency - 1) else lemmas[i])
  }

  /** The rows that stay after the decrement: those not touched, and those still counted by some page. */
  function StillUsed(ids: set<int>): LemmaRow -> bool {
    (l: LemmaRow) => l.id !in ids || l.frequency > 0
  }

  /**
   * Removing a page: its own index rows go, every lemma they point to loses
   * one from its frequency (the row goes when that leaves no page), and the
   * page row goes.
   */
  function RemovePage(t: Tables, pageId: int): (r: Tables)
    ensures Valid(t) ==> Valid(r)
    ensures r.sites == t.sites && r.pages == WithoutPage(t.pages, pageId)
    ensures r.indices == Filter(t.indices, OffPage(pageId))
    ensures forall j :: 0 <= j < |t.indices| && t.indices[j].pageId != pageId ==> t.indices[j] in r.indices
    ensures r.lemmas == Filter(Decremented(t.lemmas, PageLemmaIds(t.indices, pageId)), StillUsed(PageLemmaIds(t.indices, pageId)))
    ensures r.nextPageId == t.nextPageId && r.nextLemmaId == t.nextLemmaId && r.nextIndexId == t.nextIndexId
  {
    var ids := PageLemmaIds(t.indices, pageId);
    var dec := Decremented(t.lemmas, ids);
    var t1 := t.(indices := Filter(t.indices, OffPage(pageId)), lemmas := Filter(dec, StillUsed(ids)));
    assert Valid(t) ==> Valid(t1) by {
      if Valid(t) {
        FilterKeepsIndices(t.indices, OffPage(pageId), t.nextIndexId);
        assert DistinctBy(dec, LemmaRowKey) && IdsOk(dec, LemmaRowId, t.nextLemmaId) by {
          assert forall i :: 0 <= i < |dec| ==> LemmaRowKey(dec[i]) == LemmaRowKey(t.lemmas[i]) && dec[i].id == t.lemmas[i].id;
        }
        FilterKeepsLemmas(dec, StillUsed(ids), t.nextLemmaId);
      }
    }
    DeletePage(t1, pageId)
  }

  /**
   * Without a page's rows, a lemma is counted once less if the page had a
   * row for it and as often as before otherwise: (page, lemma) is unique.
   */
  lemma {:induction false} RefCountOffPage(indices: seq<IndexRow>, pageId: int, lemmaId: int)
    requires DistinctBy(indices, IndexKey)
    ensures RefCount(Filter(indices, OffPage(pageId)), lemmaId) ==
            RefCount(indices, lemmaId) - (if lemmaId in PageLemmaIds(indices, pageId) then 1 else 0)
    decreases |indices|
  {
    if indices != [] {
      var rest := indices[1..];
      IndexTailDistinct(indices);
      RefCountOffPage(rest, pageId, lemmaId);
      var fr := Filter(rest, OffPage(pageId));
      if OffPage(pageId)(indices[0]) {
        assert Filter(indices, OffPage(pageId)) == [indices[0]] + fr;
        assert ([indices[0]] + fr)[1..] == fr;
      } else {
        assert Filter(indices, OffPage(pageId)) == fr;
      }
      if IndexKey(indices[0]) == (pageId, lemmaId) {
        HeadKeyNotInTail(indices, pageId, lemmaId);
      } else {
        PageLemmaIdsOfTail(indices, pageId, lemmaId);
      }
    }
  }

  /** The tail of a table with unique (page, lemma) keys has unique keys. */
  lemma IndexTailDistinct(indices: seq<IndexRow>)
    requires indices != [] && DistinctBy(indices, IndexKey)
    ensures DistinctBy(indices[1..], IndexKey)
  {
    var rest := indices[1..];
    forall i, j | 0 <= i < j < |rest| ensures IndexKey(rest[i]) != IndexKey(rest[j]) {
      assert rest[i] == indices[i + 1] && rest[j] == indices[j + 1];
    }
  }

  /** The key of the first row occurs nowhere in the tail. */
  lemma HeadKeyNotInTail(indices: seq<IndexRow>, pageId: int, lemmaId: int)
    requires indices != [] && DistinctBy(indices, IndexKey) && IndexKey(indices[0]) == (pageId, lemmaId)
    ensures lemmaId !in PageLemmaIds(indices[1..], pageId)
  {
    var rest := indices[1..];
    forall j | 0 <= j < |rest| ensures IndexKey(rest[j]) != (pageId, lemmaId) {
      assert rest[j] == indices[j + 1];
      assert IndexKey(indices[0]) != IndexKey(indices[j + 1]);
    }
  }

  /** A first row of another key does not decide whether the page holds the lemma. */
  lemma PageLemmaIdsOfTail(indices: seq<IndexRow>, pageId: int, lemmaId: int)
    requires indices != [] && IndexKey(indices[0]) != (pageId, lemmaId)
    ensures lemmaId in PageLemmaIds(indices, pageId) <==> lemmaId in PageLemmaIds(indices[1..], pageId)
  {
    var rest := indices[1..];
    if lemmaId in PageLemmaIds(indices, pageId) {
      var j :| 0 <= j < |indices| && IndexKey(indices[j]) == (pageId, lemmaId);
      assert j > 0 && rest[j - 1] == indices[j];
    }
    if lemmaId in PageLemmaIds(rest, pageId) {
      var j :| 0 <= j < |rest| && IndexKey(rest[j]) == (pageId, lemmaId);
      assert rest[j] == indices[j + 1];
    }
  }

  /** A row in the table counts for its lemma. */
  lemma RefCountOfMember(indices: seq<IndexRow>, x: IndexRow)
    requires x in indices
    ensures RefCount(indices, x.lemmaId) >= 1
  {
    RefCountZero(indices, x.lemmaId);
  }

  /**
   * Removing a page keeps the tables consistent: the lemmas the page held
   * lose exactly the one row they lose, and no remaining row is left
   * pointing at a deleted lemma or at the deleted page.
   */
  lemma RemovePageConsistent(t: Tables, pageId: int)
    requires Valid(t) && Consistent(t)
    ensures Consistent(RemovePage(t, pageId))
  {
    RemovePageCounts(t, pageId);
    RemovePageLemmaRefs(t, pageId);
    RemovePagePageRefs(t, pageId);
  }

  /** After the removal every remaining lemma's frequency is its number of rows. */
  lemma RemovePageCounts(t: Tables, pageId: int)
    requires Valid(t) && Consistent(t)
    ensures var r := RemovePage(t, pageId);
            forall i :: 0 <= i < |r.lemmas| ==> r.lemmas[i].frequency == RefCount(r.indices, r.lemmas[i].id)
  {
    var r := RemovePage(t, pageId);
    var dec := Decremented(t.lemmas, PageLemmaIds(t.indices, pageId));
    forall i | 0 <= i < |r.lemmas| ensures r.lemmas[i].frequency == RefCount(r.indices, r.lemmas[i].id) {
      assert r.lemmas[i] in dec;
      var k :| 0 <= k < |dec| && dec[k] == r.lemmas[i];
      RefCountOffPage(t.indices, pageId, t.lemmas[k].id);
    }
  }

  /** After the removal no remaining row points at a deleted lemma. */
  lemma RemovePageLemmaRefs(t: Tables, pageId: int)
    requires Valid(t) && Consistent(t)
    ensures var r := RemovePage(t, pageId);
            forall j :: 0 <= j < |r.indices| ==> HasLemmaId(r.lemmas, r.indices[j].lemmaId)
  {
    var r := RemovePage(t, pageId);
    var ids := PageLemmaIds(t.indices, pageId);
    var dec := Decremented(t.lemmas, ids);
    forall j | 0 <= j < |r.indices| ensures HasLemmaId(r.lemmas, r.indices[j].lemmaId) {
      var x := r.indices[j];
      assert x in t.indices && x.pageId != pageId;
      var jt :| 0 <= jt < |t.indices| && t.indices[jt] == x;
      assert HasLemmaId(t.lemmas, x.lemmaId);
      var k :| 0 <= k < |t.lemmas| && t.lemmas[k].id == x.lemmaId;
      if x.lemmaId in ids {
        RefCountOffPage(t.indices, pageId, x.lemmaId);
        RefCountOfMember(r.indices, x);
      }
      assert StillUsed(ids)(dec[k]);
      assert dec[k] in r.lemmas;
    }
  }

  /** After the removal no remaining row points at a deleted page. */
  lemma RemovePagePageRefs(t: Tables, pageId: int)
    requires Valid(t) && Consistent(t)
    ensures var r := RemovePage(t, pageId);
            forall j :: 0 <= j < |r.indices| ==> HasPageId(r.pages, r.indices[j].pageId)
  {
    var r := RemovePage(t, pageId);
    forall j | 0 <= j < |r.indices| ensures HasPageId(r.pages, r.indices[j].pageId) {
      var x := r.indices[j];
      assert x in t.indices && x.pageId != pageId;
      var jt :| 0 <= jt < |t.indices| && t.indices[jt] == x;
      assert HasPageId(t.pages, x.pageId);
      var k :| 0 <= k < |t.pages| && t.pages[k].id == x.pageId;
      assert t.pages[k] in r.pages;
    }
  }

  /** The page of a site with a path: (path, site_id) is the page table's unique key. */
  function PageOnSite(pages: seq<PageRow>, siteId: int, path: string): (r: Option<PageRow>)
    ensures r.None? <==> forall i :: 0 <= i < |pages| ==> PageKey(pages[i]) != (path, siteId)
    ensures r.Some? ==> r.value in pages && PageKey(r.value) == (path, siteId)
  {
    match FirstWhere(pages, (p: PageRow) => PageKey(p) == (path, siteId), 0)
    case None => None
    case Some(i) => Some(pages[i])
  }

  /** Re-indexing a page, corrected: the page of this site at this path, if stored, is removed with its data. */
  function DeletePageData(t: Tables, url: string, site: Site): (r: Tables)
    ensures Valid(t) ==> Valid(r)
    ensures Valid(t) && Consistent(t) ==> Consistent(r)
    ensures r.sites == t.sites
    ensures Valid(t) ==> forall i :: 0 <= i < |r.pages| ==> PageKey(r.pages[i]) != (ExtractPath(url, site.url), site.id)
    ensures Valid(t) ==> forall i :: 0 <= i < |t.pages| && t.pages[i].siteId != site.id ==> t.pages[i] in r.pages
  {
    match PageOnSite(t.pages, site.id, ExtractPath(url, site.url))
    case None => t
    case Some(p) =>
      var r := RemovePage(t, p.id);
      assert Valid(t) && Consistent(t) ==> Consistent(r) by {
        if Valid(t) && Consistent(t) { RemovePageConsistent(t, p.id); }
      }
      assert Valid(t) ==> forall i :: 0 <= i < |t.pages| && t.pages[i].id != p.id ==> PageKey(t.pages[i]) != PageKey(p) by {
        if Valid(t) { KeyedRowIsUnique(t.pages, p); }
      }
      assert Valid(t) ==> forall i :: 0 <= i < |t.pages| && t.pages[i] != p ==> t.pages[i].id != p.id by {
        if Valid(t) { OtherRowsOtherIds(t.pages, p); }
      }
      r
  }

  /** With increasing ids, no other row of a table has a row's id. */
  lemma OtherRowsOtherIds(pages: seq<PageRow>, p: PageRow)
    requires IncreasingBy(pages, PageRowId) && p in pages
    ensures forall i :: 0 <= i < |pages| && pages[i] != p ==> pages[i].id != p.id
  {
    var k :| 0 <= k < |pages| && pages[k] == p;
    forall i | 0 <= i < |pages| && pages[i] != p ensures pages[i].id != p.id {
      if i < k { assert PageRowId(pages[i]) < PageRowId(pages[k]); }
      else { assert PageRowId(pages[k]) < PageRowId(pages[i]); }
    }
  }

  /** In a table whose keys and ids are unique, a row's key is held by that row's id only. */
  lemma KeyedRowIsUnique(pages: seq<PageRow>, p: PageRow)
    requires DistinctBy(pages, PageKey) && p in pages
    ensures forall i :: 0 <= i < |pages| && pages[i].id != p.id ==> PageKey(pages[i]) != PageKey(p)
  {
    var k :| 0 <= k < |pages| && pages[k] == p;
    forall i | 0 <= i < |pages| && pages[i].id != p.id ensures PageKey(pages[i]) != PageKey(p) {
      assert i != k;
      if i < k { assert PageKey(pages[i]) != PageKey(pages[k]); }
      else { assert PageKey(pages[k]) != PageKey(pages[i]); }
    }
  }

  // ---------------------------------------------------------------- adding a page's postings

  /** Every index row of the page points to a lemma of the site whose text is in `done`. */
  predicate PostingsFrom(t: Tables, pageId: int, siteId: int, done: set<string>) {
    forall j :: 0 <= j < |t.indices| && t.indices[j].pageId == pageId ==>
      exists i :: 0 <= i < |t.lemmas| && t.lemmas[i].id == t.indices[j].lemmaId &&
                  t.lemmas[i].siteId == siteId && t.lemmas[i].text in done
  }

  /** A page just stored has no index rows yet. */
  lemma NewPageHasNoPostings(t: Tables, siteId: int, path: string, code: int, content: string)
    requires Valid(t) && Consistent(t)
    requires InsertPage(t, siteId, path, code, content).Success?
    ensures var t1 := InsertPage(t, siteId, path, code, content).value;
            && Valid(t1) && Consistent(t1)
            && HasPageId(t1.pages, t.nextPageId)
            && PostingsFrom(t1, t.nextPageId, siteId, {})
  {
    var t1 := InsertPage(t, siteId, path, code, content).value;
    assert t1.pages[|t.pages|].id == t.nextPageId;
    forall j | 0 <= j < |t.indices| ensures t.indices[j].pageId != t.nextPageId {
      var k :| 0 <= k < |t.pages| && t.pages[k].id == t.indices[j].pageId;
    }
    forall j | 0 <= j < |t1.indices| ensures HasPageId(t1.pages, t1.indices[j].pageId) {
      var k :| 0 <= k < |t.pages| && t.pages[k].id == t.indices[j].pageId;
      assert t1.pages[k] == t.pages[k];
    }
  }

  /**
   * insertOrUpdateLemma touched one row, at position `k`: the old row of
   * (site, text) with one more, or a new last row with the next id and
   * frequency 1.  Every other row is unchanged and has another id.
   */
  predicate UpsertedAt(t: Tables, text: string, siteId: int, k: nat) {
    var t1 := UpsertLemma(t, text, siteId);
    && Valid(t1)
    && k < |t1.lemmas| && t1.lemmas[k] == UpsertedRow(t, text, siteId)
    && |t1.lemmas| == |t.lemmas| + (if k == |t.lemmas| then 1 else 0)
    && (k < |t.lemmas| ==>
          LemmaMatches(t.lemmas[k], siteId, text) && t1.lemmas[k] == t.lemmas[k].(frequency := t.lemmas[k].frequency + 1))
    && (k == |t.lemmas| ==> t1.lemmas[k] == LemmaRow(t.nextLemmaId, siteId, text, 1))
    && (forall i :: 0 <= i < |t1.lemmas| && i != k ==> i < |t.lemmas| && t1.lemmas[i] == t.lemmas[i])
    && (forall i :: 0 <= i < |t1.lemmas| && i != k ==> t1.lemmas[i].id != t1.lemmas[k].id)
  }

  /** The position insertOrUpdateLemma touches. */
  lemma UpsertShape(t: Tables, text: string, siteId: int) returns (k: nat)
    requires Valid(t)
    ensures UpsertedAt(t, text, siteId, k)
  {
    if LemmaOnSite(t.lemmas, siteId, text).None? {
      k := UpsertAppends(t, text, siteId);
    } else {
      k := UpsertIncrements(t, text, siteId);
    }
  }

  /** A (site, text) not stored yet: the upsert appends a row. */
  lemma UpsertAppends(t: Tables, text: string, siteId: int) returns (k: nat)
    requires Valid(t) && LemmaOnSite(t.lemmas, siteId, text).None?
    ensures UpsertedAt(t, text, siteId, k)
  {
    var t1 := UpsertLemma(t, text, siteId);
    InsertsNewLemma(t.lemmas, text, siteId, t.nextLemmaId);
    k := |t.lemmas|;
    assert t1.lemmas == t.lemmas + [LemmaRow(t.nextLemmaId, siteId, text, 1)];
    forall i | 0 <= i < |t1.lemmas| && i != k ensures t1.lemmas[i].id != t1.lemmas[k].id {
      assert LemmaRowId(t1.lemmas[i]) < LemmaRowId(t1.lemmas[k]);
    }
  }

  /** A stored (site, text): the upsert increments that row in place. */
  lemma UpsertIncrements(t: Tables, text: string, siteId: int) returns (k: nat)
    requires Valid(t) && LemmaOnSite(t.lemmas, siteId, text).Some?
    ensures UpsertedAt(t, text, siteId, k)
  {
    var t1 := UpsertLemma(t, text, siteId);
    IncrementsExistingLemma(t.lemmas, text, siteId, t.nextLemmaId);
    var l0 := LemmaOnSite(t.lemmas, siteId, text).value;
    k :| 0 <= k < |t.lemmas| && t.lemmas[k] == l0;
    forall i | 0 <= i < |t.lemmas| && i != k ensures !LemmaMatches(t.lemmas[i], siteId, text) {
      if i < k { assert LemmaRowKey(t.lemmas[i]) != LemmaRowKey(t.lemmas[k]); }
      else { assert LemmaRowKey(t.lemmas[k]) != LemmaRowKey(t.lemmas[i]); }
    }
    forall i | 0 <= i < |t1.lemmas| && i != k ensures t1.lemmas[i].id != t1.lemmas[k].id {
      if i < k { assert LemmaRowId(t1.lemmas[i]) < LemmaRowId(t1.lemmas[k]); }
      else { assert LemmaRowId(t1.lemmas[k]) < LemmaRowId(t1.lemmas[i]); }
    }
  }

  /**
   * saveLemma then saveIndex for one lemma of a page: the (site, text) lemma
   * is inserted with frequency 1 or gains one, and the page's row for it is
   * inserted.  When the page holds no row for that lemma yet, the insert
   * succeeds and the tables stay consistent.
   */
  lemma AddPostingConsistent(t: Tables, siteId: int, text: string, pageId: int, rank: int, done: set<string>)
    requires Valid(t) && Consistent(t) && HasPageId(t.pages, pageId)
    requires PostingsFrom(t, pageId, siteId, done) && text !in done
    ensures var t1 := UpsertLemma(t, text, siteId);
            var ins := InsertIndex(t1, pageId, UpsertedRow(t, text, siteId).id, rank);
            && ins.Success? && Valid(ins.value) && Consistent(ins.value)
            && PostingsFrom(ins.value, pageId, siteId, done + {text})
            && ins.value.pages == t.pages && ins.value.sites == t.sites
  {
    var t1 := UpsertLemma(t, text, siteId);
    var u := UpsertedRow(t, text, siteId);
    var k := UpsertShape(t, text, siteId);
    PostingIsNew(t, siteId, text, pageId, done, k);
    var row := NewIndex(t1, pageId, u.id, rank);
    var ins := InsertIndex(t1, pageId, u.id, rank);
    assert ins.Success?;
    var t2 := ins.value;
    assert t2.indices == t.indices + [row] && t2.lemmas == t1.lemmas && t2.pages == t.pages;
    PostingKeepsConsistent(t, t2, k, row, siteId, done, text);
  }

  /** The page holds no row for the upserted lemma yet, and a new lemma has no row at all. */
  lemma PostingIsNew(t: Tables, siteId: int, text: string, pageId: int, done: set<string>, k: nat)
    requires Valid(t) && Consistent(t)
    requires PostingsFrom(t, pageId, siteId, done) && text !in done
    requires UpsertedAt(t, text, siteId, k)
    ensures k == |t.lemmas| ==> RefCount(t.indices, UpsertedRow(t, text, siteId).id) == 0
    ensures forall j :: 0 <= j < |t.indices| && t.indices[j].pageId == pageId ==> t.indices[j].lemmaId != UpsertedRow(t, text, siteId).id
  {
    var t1 := UpsertLemma(t, text, siteId);
    var u := UpsertedRow(t, text, siteId);
    if k == |t.lemmas| {
      forall j | 0 <= j < |t.indices| ensures t.indices[j].lemmaId != u.id {
        var i :| 0 <= i < |t.lemmas| && t.lemmas[i].id == t.indices[j].lemmaId;
      }
      RefCountZero(t.indices, u.id);
    }
    forall j | 0 <= j < |t.indices| && t.indices[j].pageId == pageId ensures t.indices[j].lemmaId != u.id {
      var i :| 0 <= i < |t.lemmas| && t.lemmas[i].id == t.indices[j].lemmaId &&
               t.lemmas[i].siteId == siteId && t.lemmas[i].text in done;
      assert i != k && t1.lemmas[i] == t.lemmas[i];
    }
  }

  /** Appending the page's new row for the upserted lemma keeps the tables consistent. */
  lemma PostingKeepsConsistent(t: Tables, t2: Tables, k: nat, row: IndexRow, siteId: int, done: set<string>, text: string)
    requires Consistent(t) && HasPageId(t.pages, row.pageId)
    requires PostingsFrom(t, row.pageId, siteId, done)
    requires UpsertedAt(t, text, siteId, k) && t2.lemmas == UpsertLemma(t, text, siteId).lemmas
    requires t2.indices == t.indices + [row] && t2.pages == t.pages
    requires row.lemmaId == UpsertedRow(t, text, siteId).id
    requires k == |t.lemmas| ==> RefCount(t.indices, row.lemmaId) == 0
    ensures Consistent(t2) && PostingsFrom(t2, row.pageId, siteId, done + {text})
  {
    CountsAfterPosting(t.lemmas, t2.lemmas, k, t.indices, row);
    RefsAfterPosting(t.lemmas, t2.lemmas, k, t.indices, row);
    PostingsAfterPosting(t.lemmas, t2.lemmas, k, t.indices, row, row.pageId, siteId, done, text);
    PageRefsAfterPosting(t.pages, t.indices, row);
  }

  /** After one posting of a stored page every row still points to a stored page. */
  lemma PageRefsAfterPosting(pages: seq<PageRow>, indices: seq<IndexRow>, row: IndexRow)
    requires forall j :: 0 <= j < |indices| ==> HasPageId(pages, indices[j].pageId)
    requires HasPageId(pages, row.pageId)
    ensures forall j :: 0 <= j < |indices + [row]| ==> HasPageId(pages, (indices + [row])[j].pageId)
  {
    forall j | 0 <= j < |indices + [row]| ensures HasPageId(pages, (indices + [row])[j].pageId) {
      if j < |indices| { assert (indices + [row])[j] == indices[j]; }
    }
  }

  /** The frequencies after one posting: the touched lemma gains the one new row, no other lemma does. */
  lemma CountsAfterPosting(lemmas: seq<LemmaRow>, lemmas1: seq<LemmaRow>, k: nat, indices: seq<IndexRow>, row: IndexRow)
    requires forall i :: 0 <= i < |lemmas| ==> lemmas[i].frequency == RefCount(indices, lemmas[i].id)
    requires k < |lemmas1| && row.lemmaId == lemmas1[k].id
    requires forall i :: 0 <= i < |lemmas1| && i != k ==> i < |lemmas| && lemmas1[i] == lemmas[i] && lemmas1[i].id != lemmas1[k].id
    requires k < |lemmas| ==> lemmas1[k].frequency == lemmas[k].frequency + 1 && lemmas1[k].id == lemmas[k].id
    requires k >= |lemmas| ==> lemmas1[k].frequency == 1 && RefCount(indices, lemmas1[k].id) == 0
    ensures forall i :: 0 <= i < |lemmas1| ==> lemmas1[i].frequency == RefCount(indices + [row], lemmas1[i].id)
  {
    forall i | 0 <= i < |lemmas1| ensures lemmas1[i].frequency == RefCount(indices + [row], lemmas1[i].id) {
      RefCountSnoc(indices, row, lemmas1[i].id);
    }
  }

  /** After one posting every row still points to a stored lemma. */
  lemma RefsAfterPosting(lemmas: seq<LemmaRow>, lemmas1: seq<LemmaRow>, k: nat, indices: seq<IndexRow>, row: IndexRow)
    requires forall j :: 0 <= j < |indices| ==> HasLemmaId(lemmas, indices[j].lemmaId)
    requires k < |lemmas1| && row.lemmaId == lemmas1[k].id
    requires forall i :: 0 <= i < |lemmas| ==> i < |lemmas1| && lemmas1[i].id == lemmas[i].id
    ensures forall j :: 0 <= j < |indices + [row]| ==> HasLemmaId(lemmas1, (indices + [row])[j].lemmaId)
  {
    forall j | 0 <= j < |indices + [row]| ensures HasLemmaId(lemmas1, (indices + [row])[j].lemmaId) {
      if j < |indices| {
        assert (indices + [row])[j] == indices[j];
        var i :| 0 <= i < |lemmas| && lemmas[i].id == indices[j].lemmaId;
        assert lemmas1[i].id == lemmas[i].id;
      } else {
        assert (indices + [row])[j] == row;
      }
    }
  }

  /** After one posting the page's rows point to lemmas of the site whose texts are done, now with the new text. */
  lemma PostingsAfterPosting(lemmas: seq<LemmaRow>, lemmas1: seq<LemmaRow>, k: nat, indices: seq<IndexRow>, row: IndexRow,
                             pageId: int, siteId: int, done: set<string>, text: string)
    requires forall j :: 0 <= j < |indices| && indices[j].pageId == pageId ==>
               exists i :: 0 <= i < |lemmas| && lemmas[i].id == indices[j].lemmaId && lemmas[i].siteId == siteId && lemmas[i].text in done
    requires k < |lemmas1| && row.lemmaId == lemmas1[k].id && lemmas1[k].siteId == siteId && lemmas1[k].text == text
    requires forall i :: 0 <= i < |lemmas| ==> i < |lemmas1| && lemmas1[i].id == lemmas[i].id && LemmaRowKey(lemmas1[i]) == LemmaRowKey(lemmas[i])
    ensures forall j :: 0 <= j < |indices + [row]| && (indices + [row])[j].pageId == pageId ==>
              exists i :: 0 <= i < |lemmas1| && lemmas1[i].id == (indices + [row])[j].lemmaId &&
                          lemmas1[i].siteId == siteId && lemmas1[i].text in done + {text}
  {
    var all := indices + [row];
    forall j | 0 <= j < |all| && all[j].pageId == pageId
      ensures exists i :: 0 <= i < |lemmas1| && lemmas1[i].id == all[j].lemmaId && lemmas1[i].siteId == siteId && lemmas1[i].text in done + {text}
    {
      if j < |indices| {
        assert all[j] == indices[j];
        var i :| 0 <= i < |lemmas| && lemmas[i].id == indices[j].lemmaId && lemmas[i].siteId == siteId && lemmas[i].text in done;
        assert lemmas1[i].id == lemmas[i].id && LemmaRowKey(lemmas1[i]) == LemmaRowKey(lemmas[i]);
      } else {
        assert all[j] == row;
      }
    }
  }

  // ---------------------------------------------------------------- what the postings leave

  /** A (site, text) lemma's frequency once one more page holds it: one more than stored, 1 for a new lemma. */
  function OneMore(frequency: Option<int>): int {
    match frequency
    case None => 1
    case Some(f) => f + 1
  }

  /**
   * One posting, by lookups: the (site, text) lemma is the upserted row, one
   * more frequent than before, and the page's row for it carries the rank;
   * every other (site, text) lemma and every other (page, lemma) rank is as
   * before, and no other stored lemma has the upserted row's id.
   */
  ghost predicate PostedOne(t: Tables, t2: Tables, pageId: int, siteId: int, text: string, rank: int) {
    var u := UpsertedRow(t, text, siteId);
    && LemmaOnSite(t2.lemmas, siteId, text) == Some(u)
    && u.frequency == OneMore(FrequencyOnSite(t.lemmas, text, siteId))
    && RankOf(t2.indices, pageId, u.id) == Some(rank)
    && (forall s, x :: (s, x) != (siteId, text) ==> LemmaOnSite(t2.lemmas, s, x) == LemmaOnSite(t.lemmas, s, x))
    && (forall s, x :: (s, x) != (siteId, text) && LemmaOnSite(t.lemmas, s, x).Some? ==> LemmaOnSite(t.lemmas, s, x).value.id != u.id)
    && (forall p, l :: (p, l) != (pageId, u.id) ==> RankOf(t2.indices, p, l) == RankOf(t.indices, p, l))
  }

  /**
   * What the postings of a page's lemma map leave, against the lemma and
   * index tables `lemmas0` and `indices0` they started from: each text of
   * `texts` has its lemma on the site, one more frequent than in `lemmas0`,
   * and the page's row for that lemma carries the text's count as rank;
   * every other (site, text) lemma has the frequency it had, and every other
   * page has the index rows, with the ranks, it had.
   */
  ghost predicate Posted(lemmas0: seq<LemmaRow>, indices0: seq<IndexRow>, t: Tables, pageId: int, siteId: int,
                         texts: set<string>, counts: map<string, nat>) {
    && (forall x :: x in texts ==>
          && x in counts
          && FrequencyOnSite(t.lemmas, x, siteId) == Some(OneMore(FrequencyOnSite(lemmas0, x, siteId)))
          && LemmaIdOnSite(t.lemmas, x, siteId).Some?
          && RankOf(t.indices, pageId, LemmaIdOnSite(t.lemmas, x, siteId).value) == Some(counts[x]))
    && (forall s, x :: !(s == siteId && x in texts) ==> FrequencyOnSite(t.lemmas, x, s) == FrequencyOnSite(lemmas0, x, s))
    && (forall p, l :: p != pageId ==> RankOf(t.indices, p, l) == RankOf(indices0, p, l))
  }

  /** What the postings leave depends on the lemma and index tables alone. */
  lemma PostedSameRows(lemmas0: seq<LemmaRow>, indices0: seq<IndexRow>, t: Tables, t2: Tables, pageId: int, siteId: int,
                       texts: set<string>, counts: map<string, nat>)
    requires Posted(lemmas0, indices0, t, pageId, siteId, texts, counts) && t2.lemmas == t.lemmas && t2.indices == t.indices
    ensures Posted(lemmas0, indices0, t2, pageId, siteId, texts, counts)
  {
  }

  /** With unique (text, site) keys, a matching row is the lookup's answer. */
  lemma LemmaOnSiteUnique(lemmas: seq<LemmaRow>, siteId: int, text: string, i: nat)
    requires DistinctBy(lemmas, LemmaRowKey) && i < |lemmas| && LemmaMatches(lemmas[i], siteId, text)
    ensures LemmaOnSite(lemmas, siteId, text) == Some(lemmas[i])
  {
    var r := LemmaOnSite(lemmas, siteId, text);
    var j :| 0 <= j < |lemmas| && lemmas[j] == r.value;
    assert LemmaRowKey(lemmas[j]) == LemmaRowKey(lemmas[i]);
  }

  /** With unique (page, lemma) keys, one more row sets the rank of its own key only. */
  lemma RankOfSnoc(indices: seq<IndexRow>, row: IndexRow, pageId: int, lemmaId: int)
    requires DistinctBy(indices + [row], IndexKey)
    ensures RankOf(indices + [row], pageId, lemmaId) ==
            if IndexKey(row) == (pageId, lemmaId) then Some(row.rank) else RankOf(indices, pageId, lemmaId)
  {
    var all := indices + [row];
    var r := RankOf(all, pageId, lemmaId);
    if IndexKey(row) == (pageId, lemmaId) {
      assert IndexKey(all[|indices|]) == (pageId, lemmaId);
      var j :| 0 <= j < |all| && IndexKey(all[j]) == (pageId, lemmaId) && all[j].rank == r.value;
      assert j == |indices|;
    } else if RankOf(indices, pageId, lemmaId).Some? {
      var i :| 0 <= i < |indices| && IndexKey(indices[i]) == (pageId, lemmaId) && indices[i].rank == RankOf(indices, pageId, lemmaId).value;
      assert all[i] == indices[i];
      var j :| 0 <= j < |all| && IndexKey(all[j]) == (pageId, lemmaId) && all[j].rank == r.value;
      assert i == j;
    } else {
      forall j | 0 <= j < |all| ensures IndexKey(all[j]) != (pageId, lemmaId) {
        if j < |indices| { assert all[j] == indices[j]; }
      }
    }
  }

  /** The upsert of one (site, text) leaves the lookup of every other key as it was, with another id. */
  lemma UpsertKeepsOthers(t: Tables, text: string, siteId: int, k: nat, s: int, x: string)
    requires Valid(t) && UpsertedAt(t, text, siteId, k) && (s, x) != (siteId, text)
    ensures LemmaOnSite(UpsertLemma(t, text, siteId).lemmas, s, x) == LemmaOnSite(t.lemmas, s, x)
    ensures LemmaOnSite(t.lemmas, s, x).Some? ==> LemmaOnSite(t.lemmas, s, x).value.id != UpsertedRow(t, text, siteId).id
  {
    var t1 := UpsertLemma(t, text, siteId);
    assert LemmaMatches(t1.lemmas[k], siteId, text);
    match LemmaOnSite(t.lemmas, s, x)
    case Some(l) =>
      var i :| 0 <= i < |t.lemmas| && t.lemmas[i] == l;
      assert i != k;
      LemmaOnSiteUnique(t1.lemmas, s, x, i);
    case None =>
      forall j | 0 <= j < |t1.lemmas| ensures !LemmaMatches(t1.lemmas[j], s, x) {
        if j != k { assert t1.lemmas[j] == t.lemmas[j]; }
      }
  }

  /**
   * saveLemma then saveIndex, from the upserted tables `t1` the coordinator
   * holds between the two: the page has no row for the upserted lemma yet,
   * and appending the row is one posting that keeps the tables consistent.
   */
  lemma AddPostingPosts(t: Tables, t1: Tables, siteId: int, text: string, pageId: int, rank: int, done: set<string>)
    requires Valid(t) && Consistent(t) && HasPageId(t.pages, pageId)
    requires PostingsFrom(t, pageId, siteId, done) && text !in done
    requires t1 == UpsertLemma(t, text, siteId)
    ensures forall i :: 0 <= i < |t1.indices| ==> IndexKey(t1.indices[i]) != (pageId, UpsertedRow(t, text, siteId).id)
    ensures var t2 := t1.(indices := t1.indices + [IndexRow(t1.nextIndexId, pageId, UpsertedRow(t, text, siteId).id, rank)],
                          nextIndexId := t1.nextIndexId + 1);
            && Consistent(t2) && PostingsFrom(t2, pageId, siteId, done + {text})
            && PostedOne(t, t2, pageId, siteId, text, rank)
  {
    AddPostingConsistent(t, siteId, text, pageId, rank, done);
    var u := UpsertedRow(t, text, siteId);
    var k := UpsertShape(t, text, siteId);
    PostingIsNew(t, siteId, text, pageId, done, k);
    var row := NewIndex(t1, pageId, u.id, rank);
    var t2 := t1.(indices := t1.indices + [row], nextIndexId := t1.nextIndexId + 1);
    assert t2 == InsertIndex(t1, pageId, u.id, rank).value;
    assert t2.indices == t.indices + [row] && t2.lemmas == t1.lemmas;
    assert RankOf(t.indices, pageId, u.id).None?;
    assert u.frequency == OneMore(FrequencyOnSite(t.lemmas, text, siteId));
    forall p, l ensures RankOf(t2.indices, p, l) == if (p, l) == (pageId, u.id) then Some(rank) else RankOf(t.indices, p, l) {
      RankOfSnoc(t.indices, row, p, l);
    }
    forall s, x | (s, x) != (siteId, text)
      ensures LemmaOnSite(t2.lemmas, s, x) == LemmaOnSite(t.lemmas, s, x)
      ensures LemmaOnSite(t.lemmas, s, x).Some? ==> LemmaOnSite(t.lemmas, s, x).value.id != u.id
    {
      UpsertKeepsOthers(t, text, siteId, k, s, x);
    }
  }

  /** One more posting, for a text not posted yet, extends what the postings leave by that text. */
  lemma PostedExtends(lemmas0: seq<LemmaRow>, indices0: seq<IndexRow>, t: Tables, t2: Tables, pageId: int, siteId: int,
                      text: string, texts: set<string>, counts: map<string, nat>)
    requires Posted(lemmas0, indices0, t, pageId, siteId, texts, counts)
    requires text !in texts && text in counts && PostedOne(t, t2, pageId, siteId, text, counts[text])
    ensures Posted(lemmas0, indices0, t2, pageId, siteId, texts + {text}, counts)
  {
    var u := UpsertedRow(t, text, siteId);
    assert FrequencyOnSite(t.lemmas, text, siteId) == FrequencyOnSite(lemmas0, text, siteId);
    forall x | x in texts
      ensures FrequencyOnSite(t2.lemmas, x, siteId) == FrequencyOnSite(t.lemmas, x, siteId)
      ensures LemmaIdOnSite(t2.lemmas, x, siteId) == LemmaIdOnSite(t.lemmas, x, siteId)
      ensures RankOf(t2.indices, pageId, LemmaIdOnSite(t.lemmas, x, siteId).value) == RankOf(t.indices, pageId, LemmaIdOnSite(t.lemmas, x, siteId).value)
    {
      assert (siteId, x) != (siteId, text);
      assert LemmaOnSite(t2.lemmas, siteId, x) == LemmaOnSite(t.lemmas, siteId, x);
    }
    forall s, x | !(s == siteId && x in texts + {text})
      ensures FrequencyOnSite(t2.lemmas, x, s) == FrequencyOnSite(lemmas0, x, s)
    {
      assert LemmaOnSite(t2.lemmas, s, x) == LemmaOnSite(t.lemmas, s, x);
    }
  }

  // ---------------------------------------------------------------- as written

  /** The ids of a list of lemma rows. */
  function IdsOf(rows: seq<LemmaRow>): (ids: set<int>)
    ensures forall id :: id in ids <==> exists i :: 0 <= i < |rows| && rows[i].id == id
  {
    set i | 0 <= i < |rows| :: rows[i].id
  }

  /** The filter that keeps the index rows of lemmas outside `ids`. */
  function OffLemmas(ids: set<int>): IndexRow -> bool {
    (x: IndexRow) => x.lemmaId !in ids
  }

  /** lemmasToUpdate: the loaded rows of frequency above 1, in order, each with one less. */
  function ToUpdate(found: seq<LemmaRow>): (r: seq<LemmaRow>)
    ensures |r| <= |found|
    decreases |found|
  {
    if found == [] then []
    else
      var last := found[|found| - 1];
      ToUpdate(found[..|found| - 1]) + (if last.frequency > 1 then [last.(frequency := last.frequency - 1)] else [])
  }

  /** lemmasToDelete: the loaded rows of frequency 1 or less, in order. */
  function ToDelete(found: seq<LemmaRow>): (r: seq<LemmaRow>)
    decreases |found|
  {
    if found == [] then []
    else
      var last := found[|found| - 1];
      ToDelete(found[..|found| - 1]) + (if last.frequency > 1 then [] else [last])
  }

  /** Decremented rows of the table keep their id and key. */
  lemma {:induction false} ToUpdateKeepsKeys(lemmas: seq<LemmaRow>, found: seq<LemmaRow>)
    requires forall i :: 0 <= i < |found| ==> found[i] in lemmas
    ensures UpdatesKeepKeys(lemmas, ToUpdate(found))
    decreases |found|
  {
    if found != [] {
      var init := found[..|found| - 1];
      var last := found[|found| - 1];
      assert forall i :: 0 <= i < |init| ==> init[i] == found[i];
      ToUpdateKeepsKeys(lemmas, init);
      var front := ToUpdate(init);
      var ups := ToUpdate(found);
      if last.frequency > 1 {
        var j :| 0 <= j < |lemmas| && lemmas[j] == last;
        assert ups == front + [last.(frequency := last.frequency - 1)];
        forall k | 0 <= k < |ups|
          ensures exists i :: 0 <= i < |lemmas| && lemmas[i].id == ups[k].id && LemmaRowKey(lemmas[i]) == LemmaRowKey(ups[k])
        {
          if k < |front| {
            assert ups[k] == front[k];
          } else {
            assert lemmas[j].id == ups[k].id && LemmaRowKey(lemmas[j]) == LemmaRowKey(ups[k]);
          }
        }
      } else {
        assert ups == front;
      }
    }
  }

  /** Before the loop of deleteLemmaAndIndexForOnePage: no lemma handled, every index row kept. */
  lemma CleanupStart(indices: seq<IndexRow>, found: seq<LemmaRow>)
    ensures Filter(indices, OffLemmas(IdsOf(found[..0]))) == indices
    ensures ToUpdate(found[..0]) == [] && ToDelete(found[..0]) == []
  {
    assert IdsOf(found[..0]) == {};
    FilterKeepsAll(indices, OffLemmas({}));
  }

  /**
   * One turn of that loop: deleting the index rows of the next lemma is the
   * filter by one more id, and the lemma joins the list to update or the
   * list to delete.
   */
  lemma CleanupStep(indices: seq<IndexRow>, found: seq<LemmaRow>, i: nat)
    requires i < |found|
    ensures WithoutLemmaIndices(Filter(indices, OffLemmas(IdsOf(found[..i]))), found[i].id)
            == Filter(indices, OffLemmas(IdsOf(found[..i + 1])))
    ensures ToUpdate(found[..i + 1]) ==
            ToUpdate(found[..i]) + (if found[i].frequency > 1 then [found[i].(frequency := found[i].frequency - 1)] else [])
    ensures ToDelete(found[..i + 1]) == ToDelete(found[..i]) + (if found[i].frequency > 1 then [] else [found[i]])
  {
    var before := IdsOf(found[..i]);
    assert found[..i + 1] == found[..i] + [found[i]];
    assert IdsOf(found[..i + 1]) == before + {found[i].id};
    FilterFilter(indices, OffLemmas(before), (x: IndexRow) => x.lemmaId != found[i].id, OffLemmas(before + {found[i].id}));
    assert found[..i + 1][..i] == found[..i];
  }

  /**
   * deleteLemmaAndIndexForOnePage as written, for the lemma texts of the new
   * content: nothing for none; otherwise the lemma rows of every site with
   * one of those texts are loaded, all their index rows are deleted, rows of
   * frequency above 1 are saved with one less and the others are deleted.
   */
  function AsWrittenCleanup(t: Tables, texts: set<string>): (r: Tables)
    ensures Valid(t) ==> Valid(r)
    ensures r.sites == t.sites && r.pages == t.pages
  {
    if texts == {} then t
    else
      var found := LemmasWithTextIn(t.lemmas, texts);
      var t1 := t.(indices := Filter(t.indices, OffLemmas(IdsOf(found))));
      assert Valid(t) ==> Valid(t1) by {
        if Valid(t) { FilterKeepsIndices(t.indices, OffLemmas(IdsOf(found)), t.nextIndexId); }
      }
      var ups := ToUpdate(found);
      assert UpdatesKeepKeys(t1.lemmas, ups) by { ToUpdateKeepsKeys(t.lemmas, found); }
      var t2 := if ups == [] then t1 else SaveLemmas(t1, ups);
      var dels := ToDelete(found);
      if dels == [] then t2 else DeleteLemmas(t2, IdsOf(dels))
  }

  /**
   * deletePageData as written: the page is looked up by path alone (two
   * pages of different sites with that path make the lookup throw); when it
   * exists, the cleanup runs and the page row is deleted.
   */
  function AsWrittenDeletePageData(t: Tables, url: string, site: Site, texts: set<string>): (r: Result<Tables>)
    ensures Valid(t) && r.Success? ==> Valid(r.value)
    ensures r.Failure? <==> PageByPath(t.pages, ExtractPath(url, site.url)).Failure?
    ensures (forall i :: 0 <= i < |t.pages| ==> t.pages[i].path != ExtractPath(url, site.url)) ==> r == Success(t)
    ensures r.Success? && r != Success(t) ==>
              exists i :: 0 <= i < |t.pages| && t.pages[i].path == ExtractPath(url, site.url) &&
                          r.value.pages == WithoutPage(t.pages, t.pages[i].id) && r.value.sites == t.sites &&
                          r.value.lemmas == AsWrittenCleanup(t, texts).lemmas && r.value.indices == AsWrittenCleanup(t, texts).indices
  {
    match PageByPath(t.pages, ExtractPath(url, site.url))
    case Failure(e) => Failure(e)
    case Success(None) => Success(t)
    case Success(Some(p)) => Success(DeletePage(AsWrittenCleanup(t, texts), p.id))
  }

  /** The ids of the stored lemmas, of any site, whose text is one of `texts`. */
  function NamedIds(lemmas: seq<LemmaRow>, texts: set<string>): (ids: set<int>)
    ensures forall id :: id in ids <==> exists i :: 0 <= i < |lemmas| && lemmas[i].id == id && lemmas[i].text in texts
  {
    set i | 0 <= i < |lemmas| && lemmas[i].text in texts :: lemmas[i].id
  }

  /** With increasing ids, a row of the table with the id of row i is row i. */
  lemma SameIdSameRow(lemmas: seq<LemmaRow>, x: LemmaRow, i: int)
    requires IncreasingBy(lemmas, LemmaRowId) && x in lemmas && 0 <= i < |lemmas| && x.id == lemmas[i].id
    ensures x == lemmas[i]
  {
    var m :| 0 <= m < |lemmas| && lemmas[m] == x;
  }

  /** Each row to update is a loaded row of frequency above 1 with one less, and every such row is there. */
  lemma {:induction false} ToUpdateRows(found: seq<LemmaRow>)
    ensures forall k :: 0 <= k < |ToUpdate(found)| ==>
              exists j :: 0 <= j < |found| && found[j].frequency > 1 && ToUpdate(found)[k] == found[j].(frequency := found[j].frequency - 1)
    ensures forall j :: 0 <= j < |found| && found[j].frequency > 1 ==> found[j].(frequency := found[j].frequency - 1) in ToUpdate(found)
    decreases |found|
  {
    if found == [] {
      assert ToUpdate(found) == [];
    } else {
      var n := |found| - 1;
      var init := found[..n];
      var last := found[n];
      ToUpdateRows(init);
      assert forall j :: 0 <= j < |init| ==> init[j] == found[j];
      var front := ToUpdate(init);
      var ups := ToUpdate(found);
      assert ups == front + (if last.frequency > 1 then [last.(frequency := last.frequency - 1)] else []);
      forall k | 0 <= k < |ups|
        ensures exists j :: 0 <= j < |found| && found[j].frequency > 1 && ups[k] == found[j].(frequency := found[j].frequency - 1)
      {
        if k < |front| {
          assert ups[k] == front[k];
          var j :| 0 <= j < |init| && init[j].frequency > 1 && front[k] == init[j].(frequency := init[j].frequency - 1);
          assert found[j] == init[j];
        } else {
          assert found[n].frequency > 1 && ups[k] == found[n].(frequency := found[n].frequency - 1);
        }
      }
      assert ups == ToUpdate(found);
    }
  }

  /** The rows to delete are the loaded rows of frequency 1 or less. */
  lemma {:induction false} ToDeleteRows(found: seq<LemmaRow>)
    ensures forall x :: x in ToDelete(found) <==> x in found && x.frequency <= 1
    decreases |found|
  {
    if found != [] {
      var init := found[..|found| - 1];
      ToDeleteRows(init);
      assert found == init + [found[|found| - 1]];
    }
  }

  /** A lemma row's id is named exactly when its text is: ids are unique. */
  lemma NamedRow(lemmas: seq<LemmaRow>, texts: set<string>, i: int)
    requires IncreasingBy(lemmas, LemmaRowId) && 0 <= i < |lemmas|
    ensures lemmas[i].id in NamedIds(lemmas, texts) <==> lemmas[i].text in texts
  {
    if lemmas[i].id in NamedIds(lemmas, texts) {
      var m :| 0 <= m < |lemmas| && lemmas[m].id == lemmas[i].id && lemmas[m].text in texts;
      SameIdSameRow(lemmas, lemmas[m], i);
    }
  }

  /** The deleteAll of the as-written cleanup takes a lemma row's id exactly when its text is named at frequency 1 or less. */
  lemma DeletedRow(t: Tables, texts: set<string>, i: int)
    requires Valid(t) && 0 <= i < |t.lemmas|
    ensures var l := t.lemmas[i];
            l.id in IdsOf(ToDelete(LemmasWithTextIn(t.lemmas, texts))) <==> l.text in texts && l.frequency <= 1
  {
    var l := t.lemmas[i];
    var found := LemmasWithTextIn(t.lemmas, texts);
    var dels := ToDelete(found);
    ToDeleteRows(found);
    if l.id in IdsOf(dels) {
      var k :| 0 <= k < |dels| && dels[k].id == l.id;
      SameIdSameRow(t.lemmas, dels[k], i);
    }
    if l.text in texts && l.frequency <= 1 {
      assert l in found;
      var k :| 0 <= k < |dels| && dels[k] == l;
    }
  }

  /** The saveAll of the as-written cleanup leaves a lemma row decremented when its text is named at frequency above 1. */
  lemma MergedRow(t: Tables, texts: set<string>, i: int)
    requires Valid(t) && 0 <= i < |t.lemmas|
    ensures var ups := ToUpdate(LemmasWithTextIn(t.lemmas, texts));
            var merged := if ups == [] then t.lemmas else MergeLemmas(t.lemmas, ups);
            var l := t.lemmas[i];
            merged[i] == if l.text in texts && l.frequency > 1 then l.(frequency := l.frequency - 1) else l
  {
    var l := t.lemmas[i];
    var found := LemmasWithTextIn(t.lemmas, texts);
    var ups := ToUpdate(found);
    ToUpdateRows(found);
    forall k | 0 <= k < |ups| && ups[k].id == l.id
      ensures l.text in texts && l.frequency > 1 && ups[k] == l.(frequency := l.frequency - 1)
    {
      var j :| 0 <= j < |found| && found[j].frequency > 1 && ups[k] == found[j].(frequency := found[j].frequency - 1);
      SameIdSameRow(t.lemmas, found[j], i);
    }
    if l.text in texts && l.frequency > 1 {
      assert l in found;
      assert l.(frequency := l.frequency - 1) in ups;
    }
    if ups != [] {
      var merged := MergeLemmas(t.lemmas, ups);
      assert merged[i] == match FirstWhere(ups, (u: LemmaRow) => u.id == l.id, 0)
                          case None => l
                          case Some(k) => ups[k];
    }
  }

  /**
   * One lemma row through the as-written cleanup: after the saveAll of the
   * decremented rows it is the row decremented when its text is named, and
   * the deleteAll removes it exactly when the decrement leaves no page.
   */
  lemma CleanupRow(t: Tables, texts: set<string>, i: int)
    requires Valid(t) && 0 <= i < |t.lemmas|
    ensures var found := LemmasWithTextIn(t.lemmas, texts);
            var ups := ToUpdate(found);
            var merged := if ups == [] then t.lemmas else MergeLemmas(t.lemmas, ups);
            var named := NamedIds(t.lemmas, texts);
            var dec := Decremented(t.lemmas, named);
            && |merged| == |t.lemmas|
            && (merged[i].id !in IdsOf(ToDelete(found)) <==> StillUsed(named)(dec[i]))
            && (merged[i].id !in IdsOf(ToDelete(found)) ==> merged[i] == dec[i])
  {
    NamedRow(t.lemmas, texts, i);
    DeletedRow(t, texts, i);
    MergedRow(t, texts, i);
  }

  /**
   * The as-written cleanup in terms of the lemmas it names: for no text it
   * changes nothing; otherwise it deletes every index row of every lemma,
   * of any site, whose text is named, takes one off the frequency of each
   * such lemma and deletes those left at no page, and keeps every other
   * row — the shape of the intended page removal, with every lemma named
   * by the new content in place of the lemmas of the old page.
   */
  lemma AsWrittenCleanupEffect(t: Tables, texts: set<string>)
    requires Valid(t)
    ensures texts == {} ==> AsWrittenCleanup(t, texts) == t
    ensures AsWrittenCleanup(t, texts).indices == Filter(t.indices, OffLemmas(NamedIds(t.lemmas, texts)))
    ensures AsWrittenCleanup(t, texts).lemmas ==
            Filter(Decremented(t.lemmas, NamedIds(t.lemmas, texts)), StillUsed(NamedIds(t.lemmas, texts)))
  {
    var named := NamedIds(t.lemmas, texts);
    var dec := Decremented(t.lemmas, named);
    if texts == {} {
      assert named == {};
      assert dec == t.lemmas;
      FilterKeepsAll(t.indices, OffLemmas(named));
      FilterKeepsAll(dec, StillUsed(named));
    } else {
      var found := LemmasWithTextIn(t.lemmas, texts);
      assert IdsOf(found) == named by {
        forall id | id in named ensures id in IdsOf(found) {
          var m :| 0 <= m < |t.lemmas| && t.lemmas[m].id == id && t.lemmas[m].text in texts;
          assert t.lemmas[m] in found;
        }
      }
      var ups := ToUpdate(found);
      ToUpdateKeepsKeys(t.lemmas, found);
      var t1 := t.(indices := Filter(t.indices, OffLemmas(named)));
      var merged := if ups == [] then t.lemmas else MergeLemmas(t.lemmas, ups);
      var t2 := if ups == [] then t1 else SaveLemmas(t1, ups);
      assert t2.lemmas == merged;
      var dels := ToDelete(found);
      var gone := (l: LemmaRow) => l.id !in IdsOf(dels);
      forall i | 0 <= i < |merged|
        ensures gone(merged[i]) == StillUsed(named)(dec[i]) && (gone(merged[i]) ==> merged[i] == dec[i])
      {
        CleanupRow(t, texts, i);
      }
      FilterAgree(merged, dec, gone, StillUsed(named));
      if dels == [] {
        assert IdsOf(dels) == {};
        FilterKeepsAll(merged, gone);
      }
    }
  }

  /** The as-written cleanup keeps an index row exactly when its lemma's text is not named. */
  lemma AsWrittenCleanupIndices(t: Tables, texts: set<string>)
    requires Valid(t)
    ensures forall x :: x in AsWrittenCleanup(t, texts).indices <==> x in t.indices && x.lemmaId !in NamedIds(t.lemmas, texts)
  {
    var kept := AsWrittenCleanup(t, texts).indices;
    var named := NamedIds(t.lemmas, texts);
    AsWrittenCleanupEffect(t, texts);
    assert kept == Filter(t.indices, OffLemmas(named));
    forall x ensures x in kept <==> x in t.indices && x.lemmaId !in named {
      if x in kept {
        var j :| 0 <= j < |kept| && kept[j] == x;
      }
      if x in t.indices && x.lemmaId !in named {
        var j :| 0 <= j < |t.indices| && t.indices[j] == x;
      }
    }
  }

  /** A lemma row the decrement and filter by the named ids keeps: not named, or named at frequency above 1. */
  lemma CleanedLemmaKept(lemmas: seq<LemmaRow>, texts: set<string>, i: int, kept: seq<LemmaRow>)
    requires IncreasingBy(lemmas, LemmaRowId) && 0 <= i < |lemmas|
    requires kept == Filter(Decremented(lemmas, NamedIds(lemmas, texts)), StillUsed(NamedIds(lemmas, texts)))
    ensures var l := lemmas[i];
            && (l.text !in texts ==> l in kept)
            && (l.text in texts && l.frequency > 1 ==> l.(frequency := l.frequency - 1) in kept)
  {
    var named := NamedIds(lemmas, texts);
    var dec := Decremented(lemmas, named);
    NamedRow(lemmas, texts, i);
    assert StillUsed(named)(dec[i]) ==> dec[i] in kept;
  }

  /** A named lemma row of frequency 1 or less leaves no row with its id after the decrement and filter. */
  lemma CleanedLemmaGone(lemmas: seq<LemmaRow>, texts: set<string>, i: int, kept: seq<LemmaRow>)
    requires IncreasingBy(lemmas, LemmaRowId) && 0 <= i < |lemmas|
    requires kept == Filter(Decremented(lemmas, NamedIds(lemmas, texts)), StillUsed(NamedIds(lemmas, texts)))
    requires lemmas[i].text in texts && lemmas[i].frequency <= 1
    ensures forall k :: 0 <= k < |kept| ==> kept[k].id != lemmas[i].id
  {
    var named := NamedIds(lemmas, texts);
    var dec := Decremented(lemmas, named);
    forall k | 0 <= k < |kept| ensures kept[k].id != lemmas[i].id {
      var m :| 0 <= m < |dec| && dec[m] == kept[k];
      NamedRow(lemmas, texts, i);
      if m < i {
        assert LemmaRowId(lemmas[m]) < LemmaRowId(lemmas[i]);
      } else if m > i {
        assert LemmaRowId(lemmas[i]) < LemmaRowId(lemmas[m]);
      }
    }
  }

  /**
   * The as-written cleanup lemma by lemma: a named lemma of frequency above
   * 1 stays with one less, a named lemma of frequency 1 or less leaves no
   * row with its id, and every lemma whose text is not named stays as it
   * was.
   */
  lemma AsWrittenCleanupLemmas(t: Tables, texts: set<string>)
    requires Valid(t)
    ensures var lemmas := AsWrittenCleanup(t, texts).lemmas;
            && (forall i :: 0 <= i < |t.lemmas| && t.lemmas[i].text !in texts ==> t.lemmas[i] in lemmas)
            && (forall i :: 0 <= i < |t.lemmas| && t.lemmas[i].text in texts && t.lemmas[i].frequency > 1 ==>
                  t.lemmas[i].(frequency := t.lemmas[i].frequency - 1) in lemmas)
            && (forall i :: 0 <= i < |t.lemmas| && t.lemmas[i].text in texts && t.lemmas[i].frequency <= 1 ==>
                  forall k :: 0 <= k < |lemmas| ==> lemmas[k].id != t.lemmas[i].id)
  {
    var lemmas := AsWrittenCleanup(t, texts).lemmas;
    AsWrittenCleanupEffect(t, texts);
    forall i | 0 <= i < |t.lemmas|
      ensures t.lemmas[i].text !in texts ==> t.lemmas[i] in lemmas
      ensures t.lemmas[i].text in texts && t.lemmas[i].frequency > 1 ==> t.lemmas[i].(frequency := t.lemmas[i].frequency - 1) in lemmas
      ensures t.lemmas[i].text in texts && t.lemmas[i].frequency <= 1 ==> forall k :: 0 <= k < |lemmas| ==> lemmas[k].id != t.lemmas[i].id
    {
      CleanedLemmaKept(t.lemmas, texts, i, lemmas);
      if t.lemmas[i].text in texts && t.lemmas[i].frequency <= 1 {
        CleanedLemmaGone(t.lemmas, texts, i, lemmas);
      }
    }
  }

  /** One site with pages /a and /b that both contain the lemma "кот": frequency 2, one index row per page. */
  function ExampleSite(): Site {
    Site(1, "http://a.ru", "A", INDEXED, Some(""))
  }

  function ExampleTables(): Tables {
    Tables([ExampleSite()],
           [PageRow(1, 1, "/a", 200, "<p>кот</p>"), PageRow(2, 1, "/b", 200, "<p>кот</p>")],
           [LemmaRow(1, 1, "кот", 2)],
           [IndexRow(1, 1, 1, 1), IndexRow(2, 2, 1, 1)],
           2, 3, 2, 3, 0)
  }

  /** The page url of /a gives the path /a. */
  lemma ExamplePath()
    ensures ExtractPath("http://a.ru/a", ExampleSite().url) == "/a"
  {
    assert NoOccurrence("/a", "http://a.ru");
    ExtractPathOfChild("http://a.ru", "/a");
    assert "http://a.ru" + "/a" == "http://a.ru/a";
  }

  lemma ExampleIsConsistent()
    ensures Valid(ExampleTables()) && Consistent(ExampleTables())
  {
    var t := ExampleTables();
    assert RefCount(t.indices, 1) == 2 by {
      assert t.indices[1..] == [IndexRow(2, 2, 1, 1)] && t.indices[1..][1..] == [];
    }
    assert t.lemmas[0].id == 1 && t.pages[0].id == 1 && t.pages[1].id == 2;
  }

  /** The as-written cleanup of the example for the text "кот": no index row is left and the lemma has frequency 1. */
  lemma ExampleCleanup()
    ensures AsWrittenCleanup(ExampleTables(), {"кот"}) == ExampleTables().(indices := [], lemmas := [LemmaRow(1, 1, "кот", 1)])
  {
    var t := ExampleTables();
    var l := LemmaRow(1, 1, "кот", 2);
    var l1 := l.(frequency := 1);
    var found := LemmasWithTextIn(t.lemmas, {"кот"});
    assert found == [l] by {
      assert t.lemmas[1..] == [];
    }
    assert IdsOf(found) == {1};
    assert Filter(t.indices, OffLemmas({1})) == [] by {
      assert t.indices[1..] == [IndexRow(2, 2, 1, 1)] && t.indices[1..][1..] == [];
    }
    assert ToUpdate(found) == [l1] by {
      assert found[..0] == [];
    }
    assert ToDelete(found) == [] by {
      assert found[..0] == [];
    }
    var merged := MergeLemmas(t.lemmas, [l1]);
    assert FirstWhere([l1], (u: LemmaRow) => u.id == t.lemmas[0].id, 0) == Some(0);
    assert merged == [l1];
  }

  /**
   * The discrepancy: re-indexing /a of the example with the same content
   * deletes the index row of /b as well and leaves "кот" with frequency 1
   * and no index row, so a search for it no longer finds /b.
   */
  lemma AsWrittenLosesOtherPagesPostings()
    ensures var r := AsWrittenDeletePageData(ExampleTables(), "http://a.ru/a", ExampleSite(), {"кот"});
            && r.Success? && r.value.indices == [] && r.value.lemmas == [LemmaRow(1, 1, "кот", 1)]
            && !Consistent(r.value)
  {
    var t := ExampleTables();
    ExamplePath();
    assert t.pages[1].path != "/a";
    assert PageByPath(t.pages, "/a") == Success(Some(t.pages[0]));
    ExampleCleanup();
    var r := DeletePage(AsWrittenCleanup(t, {"кот"}), 1);
    assert r.lemmas[0].frequency == 1 && r.indices == [];
    assert RefCount([], 1) == 0;
  }

  /** Removing page 1 of the example leaves /b's row and "кот" with frequency 1. */
  lemma ExampleRemovesPageA()
    ensures var r := RemovePage(ExampleTables(), 1);
            r.indices == [IndexRow(2, 2, 1, 1)] && r.lemmas == [LemmaRow(1, 1, "кот", 1)]
  {
    var t := ExampleTables();
    var l := LemmaRow(1, 1, "кот", 2);
    assert PageLemmaIds(t.indices, 1) == {1} by {
      assert IndexKey(t.indices[0]) == (1, 1);
    }
    assert Filter(t.indices, OffPage(1)) == [IndexRow(2, 2, 1, 1)] by {
      assert t.indices[1..] == [IndexRow(2, 2, 1, 1)] && t.indices[1..][1..] == [];
    }
    assert Decremented(t.lemmas, {1}) == [l.(frequency := 1)];
    assert Filter([l.(frequency := 1)], StillUsed({1})) == [l.(frequency := 1)] by {
      assert [l.(frequency := 1)][1..] == [];
    }
  }

  /** The corrected removal of /a on the example removes page 1, the page of the site at that path. */
  lemma ExampleDeletesPageA()
    ensures DeletePageData(ExampleTables(), "http://a.ru/a", ExampleSite()) == RemovePage(ExampleTables(), 1)
  {
    var t := ExampleTables();
    ExamplePath();
    assert PageOnSite(t.pages, 1, "/a") == Some(t.pages[0]);
  }

  /** The corrected removal on the same input keeps /b's row and leaves "кот" with frequency 1 and that one row. */
  lemma CorrectedKeepsOtherPagesPostings()
    ensures var r := DeletePageData(ExampleTables(), "http://a.ru/a", ExampleSite());
            && r.indices == [IndexRow(2, 2, 1, 1)] && r.lemmas == [LemmaRow(1, 1, "кот", 1)]
            && Consistent(r)
  {
    ExampleIsConsistent();
    ExampleDeletesPageA();
    ExampleRemovesPageA();
  }

  /**
   * The lookup by path alone: when the only page with the extracted path
   * belongs to another site, re-indexing that path deletes the other site's
   * page.  The corrected removal never deletes a page of another site.
   */
  lemma AsWrittenDeletesPageOfAnotherSite(t: Tables, url: string, site: Site, texts: set<string>, p: PageRow)
    requires Valid(t)
    requires p in t.pages && p.path == ExtractPath(url, site.url) && p.siteId != site.id
    requires forall i :: 0 <= i < |t.pages| && t.pages[i] != p ==> t.pages[i].path != p.path
    ensures AsWrittenDeletePageData(t, url, site, texts).Success?
    ensures p !in AsWrittenDeletePageData(t, url, site, texts).value.pages
    ensures p in DeletePageData(t, url, site).pages
  {
    var r := PageByPath(t.pages, p.path);
    forall i, j | 0 <= i < j < |t.pages| && t.pages[i].path == p.path ensures t.pages[j].path != p.path {
      assert t.pages[i] == p;
      assert PageKey(t.pages[i]) != PageKey(t.pages[j]);
    }
    assert r.value.Some? by {
      var k :| 0 <= k < |t.pages| && t.pages[k] == p;
    }
  }
}
