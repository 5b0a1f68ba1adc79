/**
 * LemmaService: the crawl buffers one Lemma object per (page, lemma); at the
 * end of a site the buffer is reconciled to one lemma per key (site url,
 * site name, text) whose frequency is the number of buffered lemmas with
 * that key, and the result goes to the lemma table in batches of 1000.
 */
module LemmaServices {
  import opened Wrappers
  import opened Model
  import opened Seqs
  import opened BatchInserter
  import Store

  const LemmaBatchSize: nat := 1000

  function LemmaKeys(ls: seq<Lemma>): (ks: seq<LemmaKey>)
    ensures |ks| == |ls| && forall i :: 0 <= i < |ls| ==> ks[i] == KeyOf(ls[i])
  {
    seq(|ls|, i requires 0 <= i < |ls| => KeyOf(ls[i]))
  }

  function LemmaSlots(ls: seq<Lemma>): (slots: seq<RowId>)
    ensures |slots| == |ls| && forall i :: 0 <= i < |ls| ==> slots[i] == ls[i].id
  {
    seq(|ls|, i requires 0 <= i < |ls| => ls[i].id)
  }

  ghost function CellsOf(ls: seq<Lemma>): set<RowId> {
    set i | 0 <= i < |ls| :: ls[i].id
  }

  ghost function ObjectsOf(ls: seq<Lemma>): set<Lemma> {
    set i | 0 <= i < |ls| :: ls[i]
  }

  /** The k-th lemma of `ls` holds the k-th key handed out from `base`. */
  ghost predicate KeyedFrom(ls: seq<Lemma>, base: int)
    reads CellsOf(ls)
  {
    forall k :: 0 <= k < |ls| ==> ls[k].id.value == Int32(base + k)
  }

  /** What LemmaStatementSetter binds for each lemma: text, site id and frequency. */
  function LemmaRows(ls: seq<Lemma>): (rows: seq<Store.LemmaRow>)
    reads set i | 0 <= i < |ls| :: ls[i]
    ensures |rows| == |ls|
    ensures forall i :: 0 <= i < |ls| ==> rows[i] == Store.LemmaRow(0, ls[i].site.id, ls[i].text, ls[i].frequency)
  {
    seq(|ls|, i reads set i | 0 <= i < |ls| :: ls[i] requires 0 <= i < |ls| =>
      Store.LemmaRow(0, ls[i].site.id, ls[i].text, ls[i].frequency))
  }

  /** The site of the last buffered lemma with key `k`: the one whose merged lemma HashMap.put keeps. */
  function LastSite(ls: seq<Lemma>, k: LemmaKey): (r: Option<Site>)
    ensures r.None? <==> k !in LemmaKeys(ls)
    decreases |ls|
  {
    if ls == [] then None
    else if KeyOf(ls[|ls| - 1]) == k then Some(ls[|ls| - 1].site)
    else
      assert LemmaKeys(ls) == LemmaKeys(ls[..|ls| - 1]) + [KeyOf(ls[|ls| - 1])];
      LastSite(ls[..|ls| - 1], k)
  }

  /** One more lemma: its key joins the list, and it becomes the last of its key. */
  lemma PrefixStep(ls: seq<Lemma>, i: nat)
    requires i < |ls|
    ensures LemmaKeys(ls[..i + 1]) == LemmaKeys(ls[..i]) + [KeyOf(ls[i])]
    ensures forall k :: LastSite(ls[..i + 1], k) == if KeyOf(ls[i]) == k then Some(ls[i].site) else LastSite(ls[..i], k)
  {
    var p := ls[..i + 1];
    assert p[|p| - 1] == ls[i] && p[..|p| - 1] == ls[..i];
    forall k ensures LastSite(p, k) == if KeyOf(ls[i]) == k then Some(ls[i].site) else LastSite(ls[..i], k) {
      assert p != [];
    }
  }

  /** groupingBy(key, counting()): the size of each key's group. */
  function Grouped(ls: seq<Lemma>): (g: map<LemmaKey, nat>)
    ensures forall k :: k in g <==> k in LemmaKeys(ls)
    ensures forall k :: k in g ==> g[k] == Count(LemmaKeys(ls), k)
  {
    map k | k in LemmaKeys(ls) :: Count(LemmaKeys(ls), k)
  }

  /**
   * One lemma batch insert of `ls` happened on `db` with the stop flag
   * `stopped`: the committed rows joined the lemma table and every lemma holds
   * the key the driver gave it, if any.
   */
  twostate predicate SentBatch(db: Store.Database, ls: seq<Lemma>, stopped: nat -> bool)
    reads db, CellsOf(ls), ObjectsOf(ls)
  {
    var d := db.drivers(old(db.t.batches));
    var rows := old(LemmaRows(ls));
    var done := ExecutedBy(rows, LemmaBatchSize, stopped, d, old(db.t.nextLemmaId), Store.LemmaWithId,
                           Store.LemmasAccept(old(db.t.lemmas)));
    && db.t == Store.AfterLemmaBatch(old(db.t), rows, LemmaBatchSize, stopped, d)
    && forall k :: 0 <= k < |ls| ==> ls[k].id.value == IdAfter(done, d, old(db.t.nextLemmaId), k, old(ls[k].id.value))
  }

  /**
   * Reconciliation loses no occurrence: over the distinct keys of the
   * buffer, in the order the reconciled buffer lists them, the group sizes
   * add up to the number of buffered lemmas.
   */
  lemma MergedFrequenciesTotal(ls: seq<Lemma>)
    ensures SumCounts(Dedup(LemmaKeys(ls)), LemmaKeys(ls)) == |ls|
  {
    DedupCountsSum(LemmaKeys(ls));
  }

  /**
   * `m` is the reconciliation map after the prefix `p` of the buffer `ls`:
   * one merged lemma per key of `p`, with that key, the site of the last
   * lemma of the key in `p` and the size of the key's group in `ls`, no two
   * sharing an id cell.
   */
  ghost predicate MergedFrom(ls: seq<Lemma>, p: seq<Lemma>, m: map<LemmaKey, Lemma>)
    reads set k | k in m :: m[k]
  {
    && (forall k :: k in m <==> k in LemmaKeys(p))
    && (forall k :: k in m ==>
          KeyOf(m[k]) == k && Some(m[k].site) == LastSite(p, k) && m[k].frequency == Int32(Count(LemmaKeys(ls), k)))
    && (forall k, k' :: k in m && k' in m && k != k' ==> m[k].id != m[k'].id)
  }

  /** Putting the merged lemma of the next buffered lemma extends the map by one step of the buffer. */
  lemma MergedFromSnoc(ls: seq<Lemma>, i: nat, m: map<LemmaKey, Lemma>, merged: Lemma)
    requires i < |ls| && MergedFrom(ls, ls[..i], m)
    requires merged.site == ls[i].site && merged.text == ls[i].text
    requires merged.frequency == Int32(Count(LemmaKeys(ls), KeyOf(ls[i])))
    requires forall k :: k in m ==> m[k].id != merged.id
    ensures MergedFrom(ls, ls[..i + 1], m[KeyOf(ls[i]) := merged])
  {
    var key := KeyOf(ls[i]);
    var m1 := m[key := merged];
    PrefixStep(ls, i);
    forall k | k in m1
      ensures KeyOf(m1[k]) == k && Some(m1[k].site) == LastSite(ls[..i + 1], k)
      ensures m1[k].frequency == Int32(Count(LemmaKeys(ls), k))
    {
      if k != key { assert m1[k] == m[k]; }
    }
    forall k, k' | k in m1 && k' in m1 && k != k' ensures m1[k].id != m1[k'].id {
      if k != key && k' != key { assert m1[k] == m[k] && m1[k'] == m[k']; }
    }
  }

  /**
   * The loop of updatingTheDuplicateKey: for each buffered lemma in order, a
   * new lemma with its site and text and its key's group size; a later
   * lemma of the same key replaces the value of an earlier one.
   */
  method Reconcile(ls: seq<Lemma>) returns (m: map<LemmaKey, Lemma>)
    ensures forall k :: k in m <==> k in LemmaKeys(ls)
    ensures forall k :: k in m ==>
              && fresh(m[k]) && fresh(m[k].id) && m[k].id.value == 0
              && KeyOf(m[k]) == k
              && Some(m[k].site) == LastSite(ls, k)
              && m[k].frequency == Int32(Count(LemmaKeys(ls), k))
    ensures forall k, k' :: k in m && k' in m && k != k' ==> m[k].id != m[k'].id
  {
    var grouped := Grouped(ls);
    m := map[];
    var i := 0;
    while i < |ls|
      invariant 0 <= i <= |ls|
      invariant MergedFrom(ls, ls[..i], m)
      invariant forall k :: k in m ==> fresh(m[k]) && fresh(m[k].id) && m[k].id.value == 0
    {
      var original := ls[i];
      var key := KeyOf(original);
      assert key in LemmaKeys(ls);
      var merged := new Lemma(original.site, original.text, Int32(grouped[key]));
      MergedFromSnoc(ls, i, m, merged);
      ghost var m0 := m;
      m := m[key := merged];
      forall k | k in m ensures fresh(m[k]) && fresh(m[k].id) && m[k].id.value == 0 {
        if k != key { assert m[k] == m0[k]; }
      }
      i := i + 1;
    }
    assert ls[..i] == ls;
  }

  class LemmaService {
    var buffer: seq<Lemma>
    const db: Store.Database

    /** Buffered lemmas have distinct id cells. */
    ghost predicate Valid()
      reads this
    {
      Distinct(LemmaSlots(buffer))
    }

    ghost function Cells(): set<RowId>
      reads this
    {
      CellsOf(buffer)
    }

    constructor (db: Store.Database)
      ensures Valid() && buffer == [] && this.db == db
    {
      buffer := [];
      this.db := db;
    }

    /** saveAll of loaded lemmas whose frequency changed. */
    method SaveAll(updates: seq<Store.LemmaRow>)
      requires Store.UpdatesKeepKeys(db.t.lemmas, updates)
      modifies db
      ensures db.t == Store.SaveLemmas(old(db.t), updates)
    {
      db.t := Store.SaveLemmas(db.t, updates);
    }

    /**
     * saveOrUpdate: insert the (text, site) lemma with frequency 1 or add one
     * to its frequency, then load its row.
     */
    method SaveOrUpdate(site: Site, text: string) returns (r: Option<Store.LemmaRow>)
      modifies db
      ensures db.t == Store.UpsertLemma(old(db.t), text, site.id)
      ensures Store.Valid(old(db.t)) ==> r == Some(Store.UpsertedRow(old(db.t), text, site.id))
    {
      db.t := Store.UpsertLemma(db.t, text, site.id);
      r := Store.LemmaOnSite(db.t.lemmas, site.id, text);
    }

    /** deleteAll. */
    method DeleteAll()
      modifies db
      ensures db.t == Store.ClearLemmas(old(db.t))
    {
      db.t := Store.ClearLemmas(db.t);
    }

    /** deleteAllFromList: the loaded rows with these ids go. */
    method DeleteAllFromList(ids: set<int>)
      modifies db
      ensures db.t == Store.DeleteLemmas(old(db.t), ids)
    {
      db.t := Store.DeleteLemmas(db.t, ids);
    }

    /** addLemma: a new lemma, without an id yet, joins the buffer and is returned. */
    method AddLemma(site: Site, text: string, frequency: int) returns (l: Lemma)
      requires Valid()
      modifies this
      ensures Valid()
      ensures fresh(l) && fresh(l.id) && l.id.value == 0
      ensures l.site == site && l.text == text && l.frequency == frequency
      ensures buffer == old(buffer) + [l]
    {
      l := new Lemma(site, text, frequency);
      buffer := buffer + [l];
      assert Distinct(LemmaSlots(buffer)) by {
        forall i, j | 0 <= i < j < |buffer| ensures buffer[i].id != buffer[j].id {
          if j < |buffer| - 1 {
            assert old(buffer)[i].id != old(buffer)[j].id;
          }
        }
      }
    }

    /**
     * createBatchInsertForLemma: the buffer, in order, as one batch insert
     * that reads the shared stop flag; `flagReads` is how many times it read it.
     */
    method CreateBatchInsertForLemma(stopped: nat -> bool) returns (flagReads: nat)
      requires Valid()
      modifies db, Cells()
      ensures SentBatch(db, buffer, stopped)
      ensures flagReads == Store.LemmaBatchReads(old(db.t), old(LemmaRows(buffer)), LemmaBatchSize, stopped,
                                             db.drivers(old(db.t.batches)))
      // when every chunk commits, the k-th lemma holds the k-th key handed out
      ensures ReturnsAll(db.drivers(old(db.t.batches)), LemmaBatchSize) && |db.t.lemmas| == |old(db.t.lemmas)| + |buffer| ==>
                KeyedFrom(buffer, old(db.t.nextLemmaId))
    {
      var outcome;
      outcome, flagReads := db.InsertLemmaBatch(LemmaSlots(buffer), LemmaRows(buffer), LemmaBatchSize, stopped);
    }

    /**
     * updatingTheDuplicateKey: one new lemma per key of the buffer, with the
     * site of the last buffered lemma of that key and the group size cast to
     * int as its frequency; the buffer becomes these lemmas, one per key in
     * order of first occurrence, and the map from key to new lemma is returned.
     */
    method UpdatingTheDuplicateKey() returns (m: map<LemmaKey, Lemma>)
      modifies this
      ensures forall k :: k in m <==> k in LemmaKeys(old(buffer))
      ensures forall k :: k in m ==>
                && fresh(m[k]) && fresh(m[k].id) && m[k].id.value == 0
                && KeyOf(m[k]) == k
                && Some(m[k].site) == LastSite(old(buffer), k)
                && m[k].frequency == Int32(Count(LemmaKeys(old(buffer)), k))
      ensures var ks := Dedup(LemmaKeys(old(buffer)));
              |buffer| == |ks| && forall i :: 0 <= i < |ks| ==> ks[i] in m && buffer[i] == m[ks[i]]
      ensures Valid()
    {
      m := Reconcile(buffer);
      var ks := Dedup(LemmaKeys(buffer));
      assert forall j :: 0 <= j < |ks| ==> ks[j] in m;
      buffer := seq(|ks|, j requires 0 <= j < |ks| => m[ks[j]]);
      assert Distinct(LemmaSlots(buffer)) by {
        forall a, b | 0 <= a < b < |buffer| ensures buffer[a].id != buffer[b].id {
          assert ks[a] != ks[b];
        }
      }
    }

    /** clearBuffer: the buffered lemmas are dropped. */
    method ClearBuffer()
      modifies this
      ensures Valid() && buffer == []
    {
      buffer := [];
    }
  }
}
