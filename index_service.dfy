/**
 * IndexService: the crawl buffers one index entry per (page, lemma); before
 * the batch insert every entry is repointed from the lemma it was built with
 * to the reconciled lemma of the same key, so that its lemma_id is the id
 * the lemma batch gave that lemma.
 */
module IndexServices {
  import opened Wrappers
  import opened Model
  import opened Seqs
  import opened BatchInserter
  import Store

  const IndexBatchSize: nat := 1000

  function EntrySlots(es: seq<IndexEntry>): (slots: seq<RowId>)
    ensures |slots| == |es| && forall i :: 0 <= i < |es| ==> slots[i] == es[i].id
  {
    seq(|es|, i requires 0 <= i < |es| => es[i].id)
  }

  ghost function CellsOf(es: seq<IndexEntry>): set<RowId> {
    set i | 0 <= i < |es| :: es[i].id
  }

  ghost function EntriesOf(es: seq<IndexEntry>): set<IndexEntry> {
    set i | 0 <= i < |es| :: es[i]
  }

  /** The id cells of the pages and lemmas the entries point to. */
  ghost function TargetCells(es: seq<IndexEntry>): set<RowId>
    reads set i | 0 <= i < |es| :: es[i]
  {
    (set i | 0 <= i < |es| :: es[i].page.id) + (set i | 0 <= i < |es| :: es[i].lem.id)
  }

  /** What IndexStatementSetter binds for each entry: its page's id, its lemma's id and its rank. */
  function IndexRows(es: seq<IndexEntry>): (rows: seq<Store.IndexRow>)
    reads set i | 0 <= i < |es| :: es[i]
    reads (set i | 0 <= i < |es| :: es[i].page.id) + (set i | 0 <= i < |es| :: es[i].lem.id)
    ensures |rows| == |es|
    ensures forall i :: 0 <= i < |es| ==>
              rows[i] == Store.IndexRow(0, es[i].page.id.value, es[i].lem.id.value, es[i].rank)
  {
    seq(|es|, i reads set i | 0 <= i < |es| :: es[i]
                reads (set i | 0 <= i < |es| :: es[i].page.id) + (set i | 0 <= i < |es| :: es[i].lem.id)
                requires 0 <= i < |es| =>
      Store.IndexRow(0, es[i].page.id.value, es[i].lem.id.value, es[i].rank))
  }

  /** The lemma each entry points to. */
  function EntryLemmas(es: seq<IndexEntry>): (ls: seq<Lemma>)
    reads set i | 0 <= i < |es| :: es[i]
    ensures |ls| == |es| && forall i :: 0 <= i < |es| ==> ls[i] == es[i].lem
  {
    seq(|es|, i reads set i | 0 <= i < |es| :: es[i] requires 0 <= i < |es| => es[i].lem)
  }

  /** The (site, text) key of each entry's lemma. */
  function EntryKeys(es: seq<IndexEntry>): (ks: seq<LemmaKey>)
    reads set i | 0 <= i < |es| :: es[i]
    ensures |ks| == |es| && forall i :: 0 <= i < |es| ==> ks[i] == KeyOf(es[i].lem)
  {
    seq(|es|, i reads set i | 0 <= i < |es| :: es[i] requires 0 <= i < |es| => KeyOf(es[i].lem))
  }

  /** The lemma an entry holds after updateLemmaIdInIndex: the map's lemma for its key, if there is one. */
  function Repointed(l: Lemma, m: map<LemmaKey, Lemma>): Lemma {
    if KeyOf(l) in m then m[KeyOf(l)] else l
  }

  /**
   * One index batch insert of `es` happened on `db` with the stop flag
   * `stopped`: the committed rows joined the index table and every entry
   * holds the key the driver gave it, if any.
   */
  twostate predicate SentBatch(db: Store.Database, es: seq<IndexEntry>, stopped: nat -> bool)
    reads db, CellsOf(es), EntriesOf(es)
  {
    var d := db.drivers(old(db.t.batches));
    var rows := old(IndexRows(es));
    var done := ExecutedBy(rows, IndexBatchSize, stopped, d, old(db.t.nextIndexId), Store.IndexWithId,
                           Store.IndicesAccept(old(db.t.indices)));
    && db.t == Store.AfterIndexBatch(old(db.t), rows, IndexBatchSize, stopped, d)
    && forall k :: 0 <= k < |es| ==> es[k].id.value == IdAfter(done, d, old(db.t.nextIndexId), k, old(es[k].id.value))
  }

  class IndexService {
    var buffer: seq<IndexEntry>
    const db: Store.Database

    /** Buffered entries are distinct objects with distinct id cells. */
    ghost predicate Valid()
      reads this
    {
      Distinct(buffer) && Distinct(EntrySlots(buffer))
    }

    ghost function Cells(): set<RowId>
      reads this
    {
      CellsOf(buffer)
    }

    ghost function Entries(): set<IndexEntry>
      reads this
    {
      EntriesOf(buffer)
    }

    constructor (db: Store.Database)
      ensures Valid() && buffer == [] && this.db == db
    {
      buffer := [];
      this.db := db;
    }

    /** save: insertIndex of one row for a page indexed on its own. */
    method Save(pageId: int, lemmaId: int, rank: int) returns (r: Result<Store.IndexRow>)
      modifies db
      ensures var ins := Store.InsertIndex(old(db.t), pageId, lemmaId, rank);
              && (ins.Success? ==> db.t == ins.value && r == Success(Store.NewIndex(old(db.t), pageId, lemmaId, rank)))
              && (ins.Failure? ==> db.t == old(db.t) && r == Failure(ins.error))
    {
      var ins := Store.InsertIndex(db.t, pageId, lemmaId, rank);
      if ins.Success? {
        r := Success(Store.NewIndex(db.t, pageId, lemmaId, rank));
        db.t := ins.value;
      } else {
        r := Failure(ins.error);
      }
    }

    /**
     * updateLemmaIdInIndex: every entry whose lemma's key is in the map now
     * points to the map's lemma; the others keep theirs.  When the map sends
     * each key to a lemma of that key, no entry changes site or lemma text.
     */
    method UpdateLemmaIdInIndex(m: map<LemmaKey, Lemma>)
      requires Valid()
      modifies Entries()
      ensures forall i :: 0 <= i < |buffer| ==> buffer[i].lem == Repointed(old(buffer[i].lem), m)
      ensures (forall k :: k in m ==> KeyOf(m[k]) == k) ==>
                forall i :: 0 <= i < |buffer| ==> KeyOf(buffer[i].lem) == KeyOf(old(buffer[i].lem))
    {
      var i := 0;
      while i < |buffer|
        invariant 0 <= i <= |buffer|
        invariant forall j :: 0 <= j < i ==> buffer[j].lem == Repointed(old(buffer[j].lem), m)
        invariant forall j :: i <= j < |buffer| ==> buffer[j].lem == old(buffer[j].lem)
      {
        var entry := buffer[i];
        var oldLemma := entry.lem;
        if KeyOf(oldLemma) in m {
          var newLemma := m[KeyOf(oldLemma)];
          if oldLemma != newLemma {
            entry.lem := newLemma;
          }
        }
        i := i + 1;
      }
    }

    /** createBatchInsertForIndex: the buffer, in order, as one batch insert that reads the shared stop flag. */
    method CreateBatchInsertForIndex(stopped: nat -> bool)
      requires Valid()
      modifies db, Cells()
      ensures SentBatch(db, buffer, stopped)
    {
      var outcome := db.InsertIndexBatch(EntrySlots(buffer), IndexRows(buffer), IndexBatchSize, stopped);
    }

    /** addIndex: a new entry for (page, lemma, rank), without an id yet, joins the buffer. */
    method AddIndex(page: Page, lem: Lemma, rank: int) returns (e: IndexEntry)
      requires Valid()
      modifies this
      ensures Valid()
      ensures fresh(e) && fresh(e.id) && e.id.value == 0
      ensures e.page == page && e.lem == lem && e.rank == rank
      ensures buffer == old(buffer) + [e]
    {
      e := new IndexEntry(page, lem, rank);
      buffer := buffer + [e];
      assert Valid() by {
        forall i, j | 0 <= i < j < |buffer| ensures buffer[i] != buffer[j] && buffer[i].id != buffer[j].id {
          if j < |buffer| - 1 {
            assert old(buffer)[i] != old(buffer)[j] && old(buffer)[i].id != old(buffer)[j].id;
          }
        }
      }
    }

    /** deleteIndex: deleteByLemmaId, on every page. */
    method DeleteIndex(lemmaId: int)
      modifies db
      ensures db.t == Store.DeleteIndicesOfLemma(old(db.t), lemmaId)
    {
      db.t := Store.DeleteIndicesOfLemma(db.t, lemmaId);
    }

    /** deleteAll. */
    method DeleteAll()
      modifies db
      ensures db.t == Store.ClearIndices(old(db.t))
    {
      db.t := Store.ClearIndices(db.t);
    }

    /** clearBuffer: the buffered entries are dropped. */
    method ClearBuffer()
      modifies this
      ensures Valid() && buffer == []
    {
      buffer := [];
    }
  }
}
