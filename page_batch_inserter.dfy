/**
 * PageBatchInserter: crawled pages wait in a buffer and go to the page table
 * one batch insert of 100 at a time.  The buffer never holds 100 pages on
 * return from `AddPage`; a flush empties the buffer before it sends the
 * batch, so pages of a failed batch are not kept for a later attempt.
 */
module PageBatch {
  import opened Wrappers
  import opened Model
  import opened Seqs
  import opened BatchInserter
  import Store

  const PageBatchSize: nat := 100

  /** The stop flag of a page batch: a new AtomicBoolean that nothing ever sets. */
  function NeverStopped(k: nat): bool {
    false
  }

  /** The generated-id cells of a list of pages, in list order. */
  function PageSlots(ps: seq<Page>): (slots: seq<RowId>)
    ensures |slots| == |ps| && forall i :: 0 <= i < |ps| ==> slots[i] == ps[i].id
  {
    seq(|ps|, i requires 0 <= i < |ps| => ps[i].id)
  }

  /** What PageStatementSetter binds for each page: path, site id, code and content. */
  function PageRows(ps: seq<Page>): (rows: seq<Store.PageRow>)
    ensures |rows| == |ps|
    ensures forall i :: 0 <= i < |ps| ==>
              rows[i] == Store.PageRow(0, ps[i].site.id, ps[i].path, ps[i].code, ps[i].content)
  {
    seq(|ps|, i requires 0 <= i < |ps| => Store.PageRow(0, ps[i].site.id, ps[i].path, ps[i].code, ps[i].content))
  }

  /** The id cells of a list of pages, as a frame. */
  ghost function CellsOf(ps: seq<Page>): set<RowId> {
    set i | 0 <= i < |ps| :: ps[i].id
  }

  /**
   * One page batch insert of `ps` happened on `db`: the committed rows joined
   * the page table and every page holds the key the driver gave it, if any.
   */
  twostate predicate SentBatch(db: Store.Database, ps: seq<Page>)
    reads db, CellsOf(ps)
  {
    var d := db.drivers(old(db.t.batches));
    var rows := PageRows(ps);
    var done := ExecutedBy(rows, PageBatchSize, NeverStopped, d, old(db.t.nextPageId), Store.PageWithId,
                           Store.PagesAccept(old(db.t.pages)));
    && db.t == Store.AfterPageBatch(old(db.t), rows, PageBatchSize, NeverStopped, d)
    && forall k :: 0 <= k < |ps| ==> ps[k].id.value == IdAfter(done, d, old(db.t.nextPageId), k, old(ps[k].id.value))
  }

  /** Nothing reads a stop for pages: every page of the list is bound. */
  lemma PageBatchBindsAll(n: nat)
    ensures Bound(n, NeverStopped) == n
  {
  }

  /**
   * A page batch either commits every page, with consecutive keys from the
   * table's next id, or commits none; with a driver that returns all keys,
   * every page of a committed batch holds its row's key.
   */
  lemma PageBatchAllOrNothing(ps: seq<Page>, d: Driver, base: int, table: seq<Store.PageRow>, k: nat)
    requires k < |ps|
    ensures var c := CommittedBy(PageRows(ps), PageBatchSize, NeverStopped, d, base, Store.PageWithId, Store.PagesAccept(table));
            c == [] || (|c| == |ps| && c[k] == Store.PageRow(base + k, ps[k].site.id, ps[k].path, ps[k].code, ps[k].content))
    ensures ReturnsAll(d, PageBatchSize) ==>
              AssignedId(Plan(|ps|, PageBatchSize, NeverStopped), d, base, k) == Some(Int32(base + k))
  {
    var rows := PageRows(ps);
    assert rows[..Bound(|ps|, NeverStopped)] == rows;
    if ReturnsAll(d, PageBatchSize) {
      PlanAssignsSentRows(|ps|, PageBatchSize, NeverStopped, d, base, k);
    }
  }

  class PageBatchInserter {
    var buffer: seq<Page>
    const db: Store.Database

    /** The buffer holds fewer than a batch of distinct pages. */
    ghost predicate Valid()
      reads this
    {
      |buffer| < PageBatchSize && Distinct(PageSlots(buffer))
    }

    ghost function Cells(): set<RowId>
      reads this
    {
      CellsOf(buffer)
    }

    constructor (db: Store.Database)
      ensures Valid() && buffer == [] && this.db == db
    {
      buffer := [];
      this.db := db;
    }

    /** addPage: the page joins the buffer; a buffer of 100 pages is flushed at once. */
    method AddPage(page: Page)
      requires Valid() && page.id !in Cells()
      modifies this, db, Cells(), page.id
      ensures Valid()
      ensures var all := old(buffer) + [page];
              if |all| >= PageBatchSize then buffer == [] && SentBatch(db, all)
              else buffer == all && db.t == old(db.t) && unchanged(Cells())
    {
      buffer := buffer + [page];
      assert Distinct(PageSlots(buffer)) by {
        forall i, j | 0 <= i < j < |buffer| ensures buffer[i].id != buffer[j].id {
          if j < |buffer| - 1 {
            assert old(buffer)[i].id != old(buffer)[j].id;
          } else {
            assert buffer[i].id in old(Cells());
          }
        }
      }
      if |buffer| >= PageBatchSize {
        Flush();
      }
    }

    /**
     * flush: nothing happens on an empty buffer; otherwise the buffer is
     * emptied and its pages are sent, in order, as one batch insert.
     */
    method Flush()
      requires Distinct(PageSlots(buffer))
      modifies this, db, Cells()
      ensures buffer == []
      ensures old(buffer) == [] ==> db.t == old(db.t)
      ensures old(buffer) != [] ==> SentBatch(db, old(buffer))
    {
      if buffer == [] {
        return;
      }
      var batch := buffer;
      buffer := [];
      var outcome := db.InsertPageBatch(PageSlots(batch), PageRows(batch), PageBatchSize, NeverStopped);
    }

    /** flushRemainingPages: the last, partial batch of a crawl. */
    method FlushRemainingPages()
      requires Valid()
      modifies this, db, Cells()
      ensures Valid() && buffer == []
      ensures old(buffer) == [] ==> db.t == old(db.t)
      ensures old(buffer) != [] ==> SentBatch(db, old(buffer))
    {
      Flush();
    }

    /** clearBuffer: the buffered pages are dropped without being inserted. */
    method ClearBuffer()
      modifies this
      ensures Valid() && buffer == []
    {
      buffer := [];
    }
  }
}
