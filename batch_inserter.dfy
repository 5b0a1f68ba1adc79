/**
 * The generic chunked JDBC batch insert: entities are bound in list order
 * until the list ends or the stop flag is seen, every `batchSize`-th bound
 * entity executes the batch, a last partial batch is executed after the loop,
 * and after each execution the generated keys are written back into the
 * entities' id fields.  Success commits; an SQL error rolls back and is
 * swallowed; auto-commit is restored on every path.
 *
 * The database assigns consecutive auto-increment keys `base, base + 1, ...`
 * to the rows in the order they are sent.  What the driver does is an input:
 * `Driver.fails(j)` says whether the j-th executeBatch of the call throws and
 * `Driver.returned(j)` how many generated keys it hands back.  An execution
 * also throws when the rows sent so far break a unique key of the table,
 * which the caller passes in as `accepts`.
 */
module BatchInserter {
  import opened Wrappers
  import opened Model
  import opened Seqs

  datatype Driver = Driver(fails: nat -> bool, returned: nat -> nat)

  datatype Outcome = Committed | RolledBack

  class Connection {
    var autoCommit: bool
    var commits: nat
    var rollbacks: nat

    constructor (autoCommit: bool)
      ensures this.autoCommit == autoCommit && commits == 0 && rollbacks == 0
    {
      this.autoCommit := autoCommit;
      commits := 0;
      rollbacks := 0;
    }
  }

  /**
   * One executeBatch: it sends rows `rowStart .. rowStart + count` and writes
   * their keys into the entities from index `target` on.
   */
  datatype Chunk = Chunk(target: nat, rowStart: nat, count: nat)

  function Min(a: nat, b: nat): nat {
    if a <= b then a else b
  }

  // ---------------------------------------------------------------- the plan

  /** The loop `for (i = k; i < n && !stop.get(); i++)` ends at the first stopped index, or at n. */
  function BoundFrom(k: nat, n: nat, stopped: nat -> bool): (m: nat)
    requires k <= n
    ensures k <= m <= n
    ensures forall i :: k <= i < m ==> !stopped(i)
    ensures m < n ==> stopped(m)
    decreases n - k
  {
    if k == n || stopped(k) then k else BoundFrom(k + 1, n, stopped)
  }

  /** The number of entities bound: the first index at which the stop flag is seen, or the list size. */
  function Bound(n: nat, stopped: nat -> bool): (m: nat)
    ensures m <= n
    ensures forall i :: 0 <= i < m ==> !stopped(i)
    ensures m < n ==> stopped(m)
  {
    BoundFrom(0, n, stopped)
  }

  /**
   * The reads of the stop flag that loop makes over n entities: one per bound
   * entity, and one more that saw the stop when the loop ended early (the
   * `i < n` test comes first, so at i == n the flag is not read).
   */
  function Reads(n: nat, stopped: nat -> bool): (r: nat)
    ensures Bound(n, stopped) <= r <= n
    ensures r == Bound(n, stopped) <==> forall i :: 0 <= i < n ==> !stopped(i)
    ensures r > Bound(n, stopped) ==> r == Bound(n, stopped) + 1 && stopped(r - 1)
  {
    if Bound(n, stopped) < n then Bound(n, stopped) + 1 else n
  }

  /** The reads of one flag that follow the first `done` of them. */
  function Later(stopped: nat -> bool, done: nat): nat -> bool {
    (k: nat) => stopped(done + k)
  }

  /** An AtomicBoolean that only `set(true)` touches: once seen set, it stays set. */
  ghost predicate StaysSet(stopped: nat -> bool) {
    forall i: nat, j: nat :: i <= j && stopped(i) ==> stopped(j)
  }

  /**
   * Two loops over one flag: when the last of the first loop's r reads saw
   * the stop, the second binds nothing, because its first read comes after
   * that one.
   */
  lemma StopCarriesOver(r: nat, m: nat, stopped: nat -> bool)
    requires StaysSet(stopped) && r > 0 && stopped(r - 1)
    ensures Bound(m, Later(stopped, r)) == 0
  {
    assert Later(stopped, r)(0) == stopped(r);
    if m > 0 {
      assert stopped(r);
    }
  }

  /** Bound is the one count with no stop below it and a stop at it, when short of n. */
  lemma BoundIs(n: nat, stopped: nat -> bool, x: nat)
    requires x <= n && (forall i :: 0 <= i < x ==> !stopped(i)) && (x < n ==> stopped(x))
    ensures Bound(n, stopped) == x
  {
  }

  /**
   * A stop that arrives after the first loop's last read: the first loop
   * binds all n entities and the second binds none.
   */
  lemma StopBetweenLoops(n: nat, m: nat)
    ensures var stopped := (i: nat) => i >= n;
            && Bound(n, stopped) == n
            && Bound(m, Later(stopped, Reads(n, stopped))) == 0
  {
    var stopped := (i: nat) => i >= n;
    assert Reads(n, stopped) == n;
    assert Later(stopped, n)(0);
  }

  /** The executions inside the loop: chunk j sends rows j*b .. j*b + b and back-fills the same entities. */
  function FullChunks(full: nat, b: nat): (cs: seq<Chunk>)
    ensures |cs| == full
    ensures forall j :: 0 <= j < full ==> cs[j] == Chunk(j * b, j * b, b)
    ensures ChunksFit(cs, full * b)
  {
    FullChunksFit(full, b);
    seq(full, j requires 0 <= j => Chunk(j * b, j * b, b))
  }

  /** The number of entities bound after the last full chunk: the size of the final, partial, execution. */
  function TailSize(n: nat, b: nat, stopped: nat -> bool): (r: nat)
    requires b > 0
    ensures r < b && r <= Bound(n, stopped)
  {
    Bound(n, stopped) % b
  }

  /**
   * The executions of one call: a full chunk for every `b` bound entities,
   * then, if entities are left over, a final chunk that sends the last
   * `TailSize` bound rows and back-fills the entities from `tailTarget`.
   */
  function PlanWith(n: nat, b: nat, stopped: nat -> bool, tailTarget: nat): (plan: seq<Chunk>)
    requires b > 0 && tailTarget + TailSize(n, b, stopped) <= n
    ensures ChunksFit(plan, n)
  {
    var m := Bound(n, stopped);
    var r := m % b;
    FullChunksWithin(m, b, n);
    FullChunks(m / b, b) + (if r != 0 then [Chunk(tailTarget, m - r, r)] else [])
  }

  /**
   * The executions of the source as written: the final chunk back-fills
   * entities[n - r ..], the last r positions of the whole list, whether or
   * not the loop was stopped before reaching them.
   */
  function PlanAsWritten(n: nat, b: nat, stopped: nat -> bool): seq<Chunk>
    requires b > 0
  {
    PlanWith(n, b, stopped, n - TailSize(n, b, stopped))
  }

  /** The executions with the final chunk back-filling the entities it actually sent. */
  function Plan(n: nat, b: nat, stopped: nat -> bool): seq<Chunk>
    requires b > 0
  {
    PlanWith(n, b, stopped, Bound(n, stopped) - TailSize(n, b, stopped))
  }

  // ---------------------------------------------------------------- semantics

  /** The rows with their auto-increment keys. */
  function WithKeys<R>(rows: seq<R>, base: int, withId: (R, int) -> R): (rs: seq<R>)
    ensures |rs| == |rows|
    ensures forall k :: 0 <= k < |rows| ==> rs[k] == withId(rows[k], base + k)
  {
    seq(|rows|, k requires 0 <= k < |rows| => withId(rows[k], base + k))
  }

  /** Whether the j-th execution throws: the driver fails, or the rows sent so far break a unique key. */
  predicate ChunkFails<R>(c: Chunk, j: nat, d: Driver, rows: seq<R>, base: int, withId: (R, int) -> R, accepts: seq<R> -> bool)
    requires c.rowStart + c.count <= |rows|
  {
    d.fails(j) || !accepts(WithKeys(rows[..c.rowStart + c.count], base, withId))
  }

  predicate ChunksFit(plan: seq<Chunk>, n: nat) {
    forall j :: 0 <= j < |plan| ==> plan[j].rowStart + plan[j].count <= n && plan[j].target + plan[j].count <= n
  }

  /** The number of executions that succeed before the first one that throws. */
  function Succeeded<R>(plan: seq<Chunk>, d: Driver, rows: seq<R>, base: int, withId: (R, int) -> R, accepts: seq<R> -> bool): (e: nat)
    requires ChunksFit(plan, |rows|)
    ensures e <= |plan|
    ensures forall j :: 0 <= j < e ==> !ChunkFails(plan[j], j, d, rows, base, withId, accepts)
    ensures e < |plan| ==> ChunkFails(plan[e], e, d, rows, base, withId, accepts)
  {
    SucceededFrom(plan, 0, d, rows, base, withId, accepts)
  }

  function SucceededFrom<R>(plan: seq<Chunk>, j: nat, d: Driver, rows: seq<R>, base: int, withId: (R, int) -> R, accepts: seq<R> -> bool): (e: nat)
    requires ChunksFit(plan, |rows|) && j <= |plan|
    ensures j <= e <= |plan|
    ensures forall i :: j <= i < e ==> !ChunkFails(plan[i], i, d, rows, base, withId, accepts)
    ensures e < |plan| ==> ChunkFails(plan[e], e, d, rows, base, withId, accepts)
    decreases |plan| - j
  {
    if j == |plan| || ChunkFails(plan[j], j, d, rows, base, withId, accepts) then j
    else SucceededFrom(plan, j + 1, d, rows, base, withId, accepts)
  }

  /**
   * The id written into entity k by the executed chunks, if any: the latest
   * chunk whose returned keys reach k.  The (int) cast of the statement
   * setters truncates the key to 32 bits.
   */
  function AssignedId(executed: seq<Chunk>, d: Driver, base: int, k: nat): Option<int>
  {
    if executed == [] then None
    else
      var j := |executed| - 1;
      var c := executed[j];
      if c.target <= k < c.target + Min(c.count, d.returned(j)) then Some(Int32(base + c.rowStart + (k - c.target)))
      else AssignedId(executed[..j], d, base, k)
  }

  /** The id an entity holds after the call, given the one it held before. */
  function IdAfter(executed: seq<Chunk>, d: Driver, base: int, k: nat, before: int): int {
    match AssignedId(executed, d, base, k)
    case Some(v) => v
    case None => before
  }

  // ---------------------------------------------------------------- arithmetic
  // Helpers for the chunk arithmetic of the plan below; they state nothing
  // about the inserter itself.

  lemma MulAtLeast(x: int, b: nat)
    requires x >= 1
    ensures x * b >= b
  {
  }

  lemma ModAtMost(a: nat, b: nat)
    requires b > 0
    ensures a % b <= a
  {
    if a < b {
      DivModUnique(a, b, 0, a);
    }
  }

  lemma DivModUnique(m: nat, b: nat, q: nat, r: nat)
    requires b > 0 && r < b && m == q * b + r
    ensures m / b == q && m % b == r
  {
    var q', r' := m / b, m % b;
    assert (q - q') * b == r' - r;
    if q' < q {
      MulAtLeast(q - q', b);
    } else if q' > q {
      MulAtLeast(q' - q, b);
    }
  }

  lemma MulMono(x: nat, y: nat, b: nat)
    requires x <= y
    ensures x * b <= y * b
  {
    if x < y {
      MulAtLeast(y - x, b);
    }
  }

  lemma FullChunksFit(full: nat, b: nat)
    ensures forall j :: 0 <= j < full ==> j * b + b <= full * b
  {
    forall j | 0 <= j < full
      ensures j * b + b <= full * b
    {
      MulMono(j + 1, full, b);
    }
  }

  /** The full chunks of m bound entities stay within the list, and the rest are m % b. */
  lemma FullChunksWithin(m: nat, b: nat, n: nat)
    requires b > 0 && m <= n
    ensures (m / b) * b + m % b == m
    ensures ChunksFit(FullChunks(m / b, b), n)
  {
    var cs := FullChunks(m / b, b);
    assert ChunksFit(cs, (m / b) * b);
  }

  lemma ChunkWithinBound(j: nat, b: nat, m: nat)
    requires b > 0 && (j + 1) * b <= m
    ensures j < m / b
  {
    if m / b <= j {
      MulAtLeast(j + 1 - m / b, b);
    }
  }

  // ---------------------------------------------------------------- methods

  /** The generated keys of an execution: those of its rows, as many as the driver returns. */
  function KeysOf(c: Chunk, j: nat, d: Driver, base: int): (keys: seq<int>)
    ensures |keys| == Min(c.count, d.returned(j))
  {
    seq(Min(c.count, d.returned(j)), q => base + c.rowStart + q)
  }

  /**
   * assignGeneratedKeys: walks the returned keys and the id fields from
   * `startIndex` together, writing at most `count` ids.  It returns how many
   * it wrote (fewer than `count` is only logged).  `slots[k]` is the id
   * field of entities[k], which setGeneratedId writes.
   */
  method AssignGeneratedKeys(slots: seq<RowId>, startIndex: nat, count: nat, keys: seq<int>)
    returns (written: nat)
    requires startIndex + count <= |slots|
    requires Distinct(slots)
    modifies slots
    ensures written == Min(count, |keys|)
    ensures forall k :: 0 <= k < |slots| ==>
      slots[k].value == (if startIndex <= k < startIndex + written then Int32(keys[k - startIndex]) else old(slots[k].value))
  {
    var index := 0;
    while index < |keys| && index < count
      invariant 0 <= index <= Min(count, |keys|)
      invariant forall k :: 0 <= k < |slots| ==>
        slots[k].value == (if startIndex <= k < startIndex + index then Int32(keys[k - startIndex]) else old(slots[k].value))
    {
      var id := keys[index];
      slots[startIndex + index].value := Int32(id);
      index := index + 1;
    }
    written := index;
  }

  /** One `ps.executeBatch()` for chunk c, the j-th execution of the call, followed by assignGeneratedKeys. */
  method ExecuteChunk<R>(slots: seq<RowId>, rows: seq<R>, withId: (R, int) -> R,
                         c: Chunk, j: nat, d: Driver, base: int, accepts: seq<R> -> bool)
    returns (ok: bool)
    requires |rows| == |slots| && c.rowStart + c.count <= |rows| && c.target + c.count <= |slots|
    requires Distinct(slots)
    modifies slots
    ensures ok == !ChunkFails(c, j, d, rows, base, withId, accepts)
    ensures forall k :: 0 <= k < |slots| ==>
      slots[k].value ==
        (if ok && c.target <= k < c.target + Min(c.count, d.returned(j)) then Int32(base + c.rowStart + (k - c.target))
         else old(slots[k].value))
  {
    if ChunkFails(c, j, d, rows, base, withId, accepts) {
      return false;
    }
    var keys := KeysOf(c, j, d, base);
    var _ := AssignGeneratedKeys(slots, c.target, c.count, keys);
    return true;
  }

  /** Executing one more chunk extends the assignment by that chunk. */
  lemma AssignedIdSnoc(done: seq<Chunk>, c: Chunk, d: Driver, base: int, k: nat, before: int)
    ensures IdAfter(done + [c], d, base, k, before) ==
      (if c.target <= k < c.target + Min(c.count, d.returned(|done|)) then Int32(base + c.rowStart + (k - c.target))
       else IdAfter(done, d, base, k, before))
  {
    assert (done + [c])[..|done|] == done;
  }

  lemma FullChunksSnoc(j: nat, b: nat)
    ensures FullChunks(j + 1, b) == FullChunks(j, b) + [Chunk(j * b, j * b, b)]
  {
  }

  lemma {:induction false} SucceededFromAppend<R>(plan: seq<Chunk>, tail: seq<Chunk>, j: nat, d: Driver, rows: seq<R>, base: int,
                                                  withId: (R, int) -> R, accepts: seq<R> -> bool)
    requires ChunksFit(plan + tail, |rows|) && j <= |plan|
    ensures ChunksFit(plan, |rows|)
    ensures var e := SucceededFrom(plan, j, d, rows, base, withId, accepts);
      SucceededFrom(plan + tail, j, d, rows, base, withId, accepts) ==
        (if e < |plan| then e else SucceededFrom(plan + tail, |plan|, d, rows, base, withId, accepts))
    decreases |plan| - j
  {
    assert forall i :: 0 <= i < |plan| ==> (plan + tail)[i] == plan[i];
    if j < |plan| && !ChunkFails(plan[j], j, d, rows, base, withId, accepts) {
      SucceededFromAppend(plan, tail, j + 1, d, rows, base, withId, accepts);
    }
  }

  /** If a prefix of the plan already stops at a failure, so does the whole plan. */
  lemma SucceededPrefix<R>(plan: seq<Chunk>, p: nat, d: Driver, rows: seq<R>, base: int,
                           withId: (R, int) -> R, accepts: seq<R> -> bool)
    requires ChunksFit(plan, |rows|) && p <= |plan|
    ensures ChunksFit(plan[..p], |rows|)
    ensures Succeeded(plan[..p], d, rows, base, withId, accepts) < p ==>
      Succeeded(plan, d, rows, base, withId, accepts) == Succeeded(plan[..p], d, rows, base, withId, accepts)
  {
    assert plan == plan[..p] + plan[p..];
    SucceededFromAppend(plan[..p], plan[p..], 0, d, rows, base, withId, accepts);
  }

  /** Executing one more chunk after a run without failures: the count grows iff that chunk succeeds. */
  lemma SucceededSnoc<R>(plan: seq<Chunk>, c: Chunk, d: Driver, rows: seq<R>, base: int,
                         withId: (R, int) -> R, accepts: seq<R> -> bool)
    requires ChunksFit(plan + [c], |rows|) && c.rowStart + c.count <= |rows|
    requires ChunksFit(plan, |rows|) && Succeeded(plan, d, rows, base, withId, accepts) == |plan|
    ensures Succeeded(plan + [c], d, rows, base, withId, accepts) ==
      (if ChunkFails(c, |plan|, d, rows, base, withId, accepts) then |plan| else |plan| + 1)
  {
    SucceededFromAppend(plan, [c], 0, d, rows, base, withId, accepts);
    assert (plan + [c])[|plan|] == c;
  }

  /** The j-th execution inside the loop: chunk j of the full chunks, after j successful ones. */
  method ExecuteFullChunk<R>(slots: seq<RowId>, rows: seq<R>, withId: (R, int) -> R, batchSize: nat, j: nat,
                             d: Driver, base: int, accepts: seq<R> -> bool, ghost v0: seq<int>)
    returns (ok: bool)
    requires |rows| == |slots| == |v0| && batchSize > 0 && Distinct(slots) && j * batchSize + batchSize <= |slots|
    requires ChunksFit(FullChunks(j, batchSize), |rows|)
    requires Succeeded(FullChunks(j, batchSize), d, rows, base, withId, accepts) == j
    requires forall k :: 0 <= k < |slots| ==> slots[k].value == IdAfter(FullChunks(j, batchSize), d, base, k, v0[k])
    modifies slots
    ensures ChunksFit(FullChunks(j + 1, batchSize), |rows|)
    ensures Succeeded(FullChunks(j + 1, batchSize), d, rows, base, withId, accepts) == if ok then j + 1 else j
    ensures forall k :: 0 <= k < |slots| ==>
      slots[k].value == IdAfter(FullChunks(if ok then j + 1 else j, batchSize), d, base, k, v0[k])
  {
    var chunk := Chunk(j * batchSize, j * batchSize, batchSize);
    FullChunksSnoc(j, batchSize);
    ok := ExecuteChunk(slots, rows, withId, chunk, j, d, base, accepts);
    SucceededSnoc(FullChunks(j, batchSize), chunk, d, rows, base, withId, accepts);
    if ok {
      forall k | 0 <= k < |slots|
        ensures slots[k].value == IdAfter(FullChunks(j + 1, batchSize), d, base, k, v0[k])
      {
        AssignedIdSnoc(FullChunks(j, batchSize), chunk, d, base, k, v0[k]);
      }
    }
  }

  /** A failure at full chunk j < m / b is where the whole run of full chunks stops. */
  lemma FailureStopsFullChunks<R>(m: nat, b: nat, j: nat, d: Driver, rows: seq<R>, base: int,
                                  withId: (R, int) -> R, accepts: seq<R> -> bool)
    requires b > 0 && m <= |rows| && (j + 1) * b <= m
    requires ChunksFit(FullChunks(j + 1, b), |rows|)
    requires Succeeded(FullChunks(j + 1, b), d, rows, base, withId, accepts) == j
    ensures ChunksFit(FullChunks(m / b, b), |rows|)
    ensures Succeeded(FullChunks(m / b, b), d, rows, base, withId, accepts) == j
    ensures FullChunks(m / b, b)[..j] == FullChunks(j, b)
  {
    ChunkWithinBound(j, b, m);
    FullChunksWithin(m, b, |rows|);
    var full := FullChunks(m / b, b);
    assert full[..j + 1] == FullChunks(j + 1, b);
    SucceededPrefix(full, j + 1, d, rows, base, withId, accepts);
  }

  /**
   * The reads of the stop flag one batchInsert call makes: those of its
   * loop, unless an execution inside the loop throws, which leaves the loop
   * right after the read that bound the last entity of that chunk.
   */
  function ReadsBy<R>(rows: seq<R>, b: nat, stopped: nat -> bool, d: Driver, base: int,
                      withId: (R, int) -> R, accepts: seq<R> -> bool): (r: nat)
    requires b > 0
    ensures r <= Reads(|rows|, stopped)
    ensures var m := Bound(|rows|, stopped);
            var full := FullChunks(m / b, b);
            && ChunksFit(full, |rows|)
            && var e := Succeeded(full, d, rows, base, withId, accepts);
            && (e == |full| ==> r == Reads(|rows|, stopped))
            && (e < |full| ==> b <= r <= m && r % b == 0 && r / b == e + 1)
  {
    var m := Bound(|rows|, stopped);
    FullChunksWithin(m, b, |rows|);
    var full := FullChunks(m / b, b);
    var e := Succeeded(full, d, rows, base, withId, accepts);
    if e < |full| then
      ChunkEnd(e, m, b);
      (e + 1) * b
    else Reads(|rows|, stopped)
  }

  /** The end of full chunk e < m / b lies within the m bound entities, on a chunk boundary. */
  lemma ChunkEnd(e: nat, m: nat, b: nat)
    requires b > 0 && e < m / b
    ensures var r := (e + 1) * b;
            b <= r <= m && r % b == 0 && r / b == e + 1
  {
    MulMono(e + 1, m / b, b);
    MulAtLeast(e + 1, b);
    DivModUnique((e + 1) * b, b, e + 1, 0);
    DivModUnique(m, b, m / b, m % b);
  }

  /**
   * A first execution that throws after a full chunk of bound entities: the
   * loop has read the flag exactly batchSize times, whatever it would read
   * later.
   */
  lemma FirstChunkThrows<R>(rows: seq<R>, b: nat, stopped: nat -> bool, d: Driver, base: int,
                            withId: (R, int) -> R, accepts: seq<R> -> bool)
    requires b > 0 && d.fails(0) && b <= Bound(|rows|, stopped)
    ensures ReadsBy(rows, b, stopped, d, base, withId, accepts) == b
  {
    var m := Bound(|rows|, stopped);
    ChunkWithinBound(0, b, m);
    var full := FullChunks(m / b, b);
    assert ChunkFails(full[0], 0, d, rows, base, withId, accepts);
  }

  /**
   * Two thousand lemma rows in chunks of 1000, the first execution failing
   * and the stop set from read 1500 on: the lemma loop reads the flag 1000
   * times, so a following loop over at least 500 entities binds 500 of them.
   */
  lemma ThrowingChunkLeavesReads<R>(rows: seq<R>, d: Driver, base: int, withId: (R, int) -> R,
                                    accepts: seq<R> -> bool, m: nat)
    requires |rows| == 2000 && d.fails(0) && m >= 500
    ensures var stopped := (i: nat) => i >= 1500;
            && ReadsBy(rows, 1000, stopped, d, base, withId, accepts) == 1000
            && Bound(m, Later(stopped, 1000)) == 500
  {
    var stopped := (i: nat) => i >= 1500;
    BoundIs(2000, stopped, 1500);
    FirstChunkThrows(rows, 1000, stopped, d, base, withId, accepts);
    var later := Later(stopped, 1000);
    assert forall i: nat :: later(i) == (i >= 500);
    BoundIs(m, later, 500);
  }

  /**
   * The for loop of batchInsert: binds entities in order until the list ends
   * or the stop flag is seen, executing the batch after every
   * `batchSize`-th one.  `ok` is false when an execution threw; otherwise
   * `counting` entities were bound.  `flagReads` counts the reads of the flag.
   */
  method BindAndExecute<R>(slots: seq<RowId>, rows: seq<R>, withId: (R, int) -> R, batchSize: nat,
                           stopped: nat -> bool, d: Driver, base: int, accepts: seq<R> -> bool)
    returns (ok: bool, counting: nat, flagReads: nat)
    requires |rows| == |slots| && batchSize > 0 && Distinct(slots)
    modifies slots
    ensures counting <= |slots|
    ensures flagReads == ReadsBy(rows, batchSize, stopped, d, base, withId, accepts)
    ensures var m := Bound(|slots|, stopped);
            var full := FullChunks(m / batchSize, batchSize);
            ChunksFit(full, |rows|) &&
            var e := Succeeded(full, d, rows, base, withId, accepts);
            && ok == (e == |full|)
            && (ok ==> counting == m)
            && forall k :: 0 <= k < |slots| ==> slots[k].value == IdAfter(full[..e], d, base, k, old(slots[k].value))
  {
    ghost var v0 := Values(slots);
    ghost var m := Bound(|slots|, stopped);
    FullChunksWithin(m, batchSize, |slots|);
    counting := 0;
    var i := 0;
    var j := 0;  // executions so far: the driver is consulted per execution
    ghost var c := 0;
    while i < |slots| && !stopped(i)
      invariant 0 <= i <= |slots| && counting == i
      invariant i == j * batchSize + c && 0 <= c < batchSize
      invariant forall k :: 0 <= k < i ==> !stopped(k)
      invariant ChunksFit(FullChunks(j, batchSize), |rows|)
      invariant Succeeded(FullChunks(j, batchSize), d, rows, base, withId, accepts) == j
      invariant forall k :: 0 <= k < |slots| ==> slots[k].value == IdAfter(FullChunks(j, batchSize), d, base, k, v0[k])
    {
      counting := counting + 1;
      if c + 1 < batchSize {
        DivModUnique(counting, batchSize, j, c + 1);
      } else {
        DivModUnique(counting, batchSize, j + 1, 0);
      }
      if counting % batchSize == 0 {
        assert i - batchSize + 1 == j * batchSize;
        ok := ExecuteFullChunk(slots, rows, withId, batchSize, j, d, base, accepts, v0);
        if !ok {
          FailureStopsFullChunks(m, batchSize, j, d, rows, base, withId, accepts);
          assert i + 1 == (j + 1) * batchSize;
          DivModUnique(i + 1, batchSize, j + 1, 0);
          flagReads := i + 1;
          return;
        }
        j := j + 1;
        c := 0;
      } else {
        c := c + 1;
      }
      i := i + 1;
    }
    DivModUnique(m, batchSize, j, c);
    ok := true;
    flagReads := if i < |slots| then i + 1 else i;
    assert FullChunks(m / batchSize, batchSize)[..j] == FullChunks(j, batchSize);
  }

  /** The current values of the id fields. */
  ghost function Values(slots: seq<RowId>): (vs: seq<int>)
    reads slots
    ensures |vs| == |slots| && forall k :: 0 <= k < |slots| ==> vs[k] == slots[k].value
  {
    seq(|slots|, k requires 0 <= k < |slots| reads slots => slots[k].value)
  }

  /** Putting the loop and the final execution together gives the effect of the whole plan. */
  lemma TailStep<R>(n: nat, b: nat, stopped: nat -> bool, tailTarget: nat, d: Driver, rows: seq<R>, base: int,
                    withId: (R, int) -> R, accepts: seq<R> -> bool,
                    v0: seq<int>, v1: seq<int>, v2: seq<int>, okLoop: bool, okFinal: bool)
    requires b > 0 && |rows| == n && |v0| == n && |v1| == n && |v2| == n
    requires tailTarget + TailSize(n, b, stopped) <= n
    requires var m := Bound(n, stopped);
             var full := FullChunks(m / b, b);
             ChunksFit(full, n) &&
             var e1 := Succeeded(full, d, rows, base, withId, accepts);
             && okLoop == (e1 == |full|)
             && (forall k :: 0 <= k < n ==> v1[k] == IdAfter(full[..e1], d, base, k, v0[k]))
             && var r := m % b;
             var tail := Chunk(tailTarget, m - r, r);
             if okLoop && r != 0 then
               && okFinal == !ChunkFails(tail, |full|, d, rows, base, withId, accepts)
               && forall k :: 0 <= k < n ==>
                    v2[k] == (if okFinal && tailTarget <= k < tailTarget + Min(r, d.returned(|full|))
                              then Int32(base + (m - r) + (k - tailTarget)) else v1[k])
             else okFinal == okLoop && v2 == v1
    ensures var plan := PlanWith(n, b, stopped, tailTarget);
            var e := Succeeded(plan, d, rows, base, withId, accepts);
            && okFinal == (e == |plan|)
            && forall k :: 0 <= k < n ==> v2[k] == IdAfter(plan[..e], d, base, k, v0[k])
  {
    var m := Bound(n, stopped);
    var r := m % b;
    var full := FullChunks(m / b, b);
    var plan := PlanWith(n, b, stopped, tailTarget);
    var e1 := Succeeded(full, d, rows, base, withId, accepts);
    var tail := Chunk(tailTarget, m - r, r);
    if r == 0 {
      assert plan == full;
    } else {
      assert plan == full + [tail];
      assert plan[..|full|] == full;
      if !okLoop {
        SucceededPrefix(plan, |full|, d, rows, base, withId, accepts);
        assert plan[..e1] == full[..e1];
      } else {
        SucceededSnoc(full, tail, d, rows, base, withId, accepts);
        assert full[..e1] == full;
        if okFinal {
          assert plan[..|full| + 1] == full + [tail];
          forall k | 0 <= k < n
            ensures v2[k] == IdAfter(plan[..|full| + 1], d, base, k, v0[k])
          {
            AssignedIdSnoc(full, tail, d, base, k, v0[k]);
          }
        }
      }
    }
  }

  /**
   * The final execution of batchInsert: when the loop succeeded and left a
   * partial batch, that batch is executed and back-fills the entities from
   * `tailTarget`.  With the loop's effect, the result is the effect of the
   * whole plan whose final chunk targets `target`, which is `tailTarget`
   * whenever the final execution happens.
   */
  method ExecuteTail<R>(slots: seq<RowId>, rows: seq<R>, withId: (R, int) -> R, batchSize: nat,
                        stopped: nat -> bool, d: Driver, base: int, accepts: seq<R> -> bool,
                        okLoop: bool, counting: nat, tailTarget: nat, ghost target: nat, ghost v0: seq<int>)
    returns (ok: bool, ghost plan: seq<Chunk>, ghost e: nat)
    requires |rows| == |slots| && batchSize > 0 && Distinct(slots) && |v0| == |slots|
    requires target + TailSize(|slots|, batchSize, stopped) <= |slots|
    requires okLoop ==> counting == Bound(|slots|, stopped) && tailTarget == target
    requires var m := Bound(|slots|, stopped);
             var full := FullChunks(m / batchSize, batchSize);
             ChunksFit(full, |rows|) &&
             var e := Succeeded(full, d, rows, base, withId, accepts);
             && okLoop == (e == |full|)
             && forall k :: 0 <= k < |slots| ==> slots[k].value == IdAfter(full[..e], d, base, k, v0[k])
    modifies slots
    ensures ok ==> okLoop
    ensures plan == PlanWith(|slots|, batchSize, stopped, target) && ChunksFit(plan, |rows|)
    ensures e == Succeeded(plan, d, rows, base, withId, accepts) && ok == (e == |plan|)
    ensures forall k :: 0 <= k < |slots| ==> slots[k].value == IdAfter(plan[..e], d, base, k, v0[k])
  {
    plan := PlanWith(|slots|, batchSize, stopped, target);
    e := Succeeded(plan, d, rows, base, withId, accepts);
    ghost var v1 := Values(slots);
    ok := okLoop;
    if okLoop && counting % batchSize != 0 {
      var remaining := counting % batchSize;
      ok := ExecuteChunk(slots, rows, withId, Chunk(tailTarget, counting - remaining, remaining),
                         counting / batchSize, d, base, accepts);
    }
    TailStep(|slots|, batchSize, stopped, target, d, rows, base, withId, accepts, v0, v1, Values(slots), okLoop, ok);
  }

  /** The end of batchInsert: commit after success, rollback after an SQL error, and restore auto-commit either way. */
  method Complete<R>(conn: Connection, ok: bool, originalAutoCommit: bool, sent: seq<R>, base: int, withId: (R, int) -> R)
    returns (outcome: Outcome, committed: seq<R>)
    modifies conn
    ensures conn.autoCommit == originalAutoCommit
    ensures ok ==> outcome == Committed && committed == WithKeys(sent, base, withId)
    ensures ok ==> conn.commits == old(conn.commits) + 1 && conn.rollbacks == old(conn.rollbacks)
    ensures !ok ==> outcome == RolledBack && committed == []
    ensures !ok ==> conn.commits == old(conn.commits) && conn.rollbacks == old(conn.rollbacks) + 1
  {
    if ok {
      conn.commits := conn.commits + 1;
      outcome, committed := Committed, WithKeys(sent, base, withId);
    } else {
      conn.rollbacks := conn.rollbacks + 1;
      outcome, committed := RolledBack, [];
    }
    conn.autoCommit := originalAutoCommit;
  }

  /**
   * batchInsert as written.  `slots[k]` is the id field of entities[k] and
   * `rows[k]` the row its statement setter binds; `base` is the table's next
   * auto-increment key.  The committed rows carry their keys.
   */
  method BatchInsertAsWritten<R>(slots: seq<RowId>, rows: seq<R>, withId: (R, int) -> R, batchSize: nat,
                                 stopped: nat -> bool, d: Driver, base: int, accepts: seq<R> -> bool, conn: Connection)
    returns (outcome: Outcome, committed: seq<R>)
    requires |rows| == |slots| && batchSize > 0 && Distinct(slots)
    modifies slots, conn
    ensures var plan := PlanAsWritten(|slots|, batchSize, stopped);
            outcome == (if Succeeded(plan, d, rows, base, withId, accepts) == |plan| then Committed else RolledBack)
    ensures outcome == Committed ==> committed == WithKeys(rows[..Bound(|slots|, stopped)], base, withId)
    ensures outcome == RolledBack ==> committed == []
    ensures var plan := PlanAsWritten(|slots|, batchSize, stopped);
            var e := Succeeded(plan, d, rows, base, withId, accepts);
            forall k :: 0 <= k < |slots| ==> slots[k].value == IdAfter(plan[..e], d, base, k, old(slots[k].value))
    ensures conn.autoCommit == old(conn.autoCommit)
    ensures outcome == Committed ==> conn.commits == old(conn.commits) + 1 && conn.rollbacks == old(conn.rollbacks)
    ensures outcome == RolledBack ==> conn.commits == old(conn.commits) && conn.rollbacks == old(conn.rollbacks) + 1
  {
    ghost var v0 := Values(slots);
    var originalAutoCommit := conn.autoCommit;
    conn.autoCommit := false;
    var ok, counting, _ := BindAndExecute(slots, rows, withId, batchSize, stopped, d, base, accepts);
    var remaining := counting % batchSize;
    ModAtMost(counting, batchSize);
    ghost var plan, e;
    ok, plan, e := ExecuteTail(slots, rows, withId, batchSize, stopped, d, base, accepts, ok, counting,
                      |slots| - remaining, |slots| - TailSize(|slots|, batchSize, stopped), v0);
    assert plan == PlanAsWritten(|slots|, batchSize, stopped);
    outcome, committed := Complete(conn, ok, originalAutoCommit, rows[..counting], base, withId);
    forall k | 0 <= k < |slots|
      ensures slots[k].value == IdAfter(plan[..e], d, base, k, old(slots[k].value))
    {
      assert old(slots[k].value) == v0[k];
    }
  }

  /**
   * batchInsert with the final execution back-filling the entities it sent,
   * entities[counting - remaining ..]; the rest of the model uses this one.
   * `flagReads` is how many reads of the stop flag the call made, which the
   * next batch insert over the same flag follows.
   */
  method BatchInsert<R>(slots: seq<RowId>, rows: seq<R>, withId: (R, int) -> R, batchSize: nat,
                        stopped: nat -> bool, d: Driver, base: int, accepts: seq<R> -> bool, conn: Connection)
    returns (outcome: Outcome, committed: seq<R>, flagReads: nat)
    requires |rows| == |slots| && batchSize > 0 && Distinct(slots)
    modifies slots, conn
    ensures flagReads == ReadsBy(rows, batchSize, stopped, d, base, withId, accepts)
    ensures var plan := Plan(|slots|, batchSize, stopped);
            outcome == (if Succeeded(plan, d, rows, base, withId, accepts) == |plan| then Committed else RolledBack)
    ensures outcome == Committed ==> committed == WithKeys(rows[..Bound(|slots|, stopped)], base, withId)
    ensures outcome == RolledBack ==> committed == []
    ensures var plan := Plan(|slots|, batchSize, stopped);
            var e := Succeeded(plan, d, rows, base, withId, accepts);
            forall k :: 0 <= k < |slots| ==> slots[k].value == IdAfter(plan[..e], d, base, k, old(slots[k].value))
    ensures conn.autoCommit == old(conn.autoCommit)
    ensures outcome == Committed ==> conn.commits == old(conn.commits) + 1 && conn.rollbacks == old(conn.rollbacks)
    ensures outcome == RolledBack ==> conn.commits == old(conn.commits) && conn.rollbacks == old(conn.rollbacks) + 1
  {
    ghost var v0 := Values(slots);
    var originalAutoCommit := conn.autoCommit;
    conn.autoCommit := false;
    var ok, counting;
    ok, counting, flagReads := BindAndExecute(slots, rows, withId, batchSize, stopped, d, base, accepts);
    var remaining := counting % batchSize;
    ModAtMost(counting, batchSize);
    ghost var plan, e;
    ok, plan, e := ExecuteTail(slots, rows, withId, batchSize, stopped, d, base, accepts, ok, counting,
                      counting - remaining, Bound(|slots|, stopped) - TailSize(|slots|, batchSize, stopped), v0);
    assert plan == Plan(|slots|, batchSize, stopped);
    outcome, committed := Complete(conn, ok, originalAutoCommit, rows[..counting], base, withId);
    forall k | 0 <= k < |slots|
      ensures slots[k].value == IdAfter(plan[..e], d, base, k, old(slots[k].value))
    {
      assert old(slots[k].value) == v0[k];
    }
  }

  // ---------------------------------------------------------------- properties

  /** The driver hands back a key for every row of every execution, as MySQL does for an auto-increment table. */
  ghost predicate ReturnsAll(d: Driver, b: nat) {
    forall j: nat :: d.returned(j) >= b
  }

  /** After the full chunks, entity k holds the key of row k exactly when it was in one of them. */
  lemma {:induction false} FullChunksAssign(q: nat, b: nat, d: Driver, base: int, k: nat)
    requires ReturnsAll(d, b)
    ensures AssignedId(FullChunks(q, b), d, base, k) == if k < q * b then Some(Int32(base + k)) else None
  {
    if q > 0 {
      FullChunksSnoc(q - 1, b);
      assert FullChunks(q, b)[..q - 1] == FullChunks(q - 1, b);
      assert q * b == (q - 1) * b + b;
      assert Min(b, d.returned(q - 1)) == b;
      FullChunksAssign(q - 1, b, d, base, k);
    }
  }

  /**
   * The corrected plan: when every key comes back, entity k receives the
   * key of row k for every bound entity, and no other entity receives one.
   */
  lemma PlanAssignsSentRows(n: nat, b: nat, stopped: nat -> bool, d: Driver, base: int, k: nat)
    requires b > 0 && ReturnsAll(d, b)
    ensures AssignedId(Plan(n, b, stopped), d, base, k) ==
            if k < Bound(n, stopped) then Some(Int32(base + k)) else None
  {
    var m := Bound(n, stopped);
    var r := m % b;
    var q := m / b;
    FullChunksWithin(m, b, n);
    var plan := Plan(n, b, stopped);
    FullChunksAssign(q, b, d, base, k);
    if r != 0 {
      assert plan[..q] == FullChunks(q, b);
      assert plan[q] == Chunk(m - r, m - r, r);
      assert Min(r, d.returned(q)) == r;
    } else {
      assert plan == FullChunks(q, b);
    }
  }

  /**
   * A call that committed every row, on a driver that hands back every key:
   * entity k holds the key of row k, cast to int.
   */
  lemma CommittedAllAssigns<R>(rows: seq<R>, b: nat, stopped: nat -> bool, d: Driver, base: int,
                               withId: (R, int) -> R, accepts: seq<R> -> bool, k: nat, before: int)
    requires b > 0 && ReturnsAll(d, b) && k < |rows|
    requires |CommittedBy(rows, b, stopped, d, base, withId, accepts)| == |rows|
    ensures IdAfter(ExecutedBy(rows, b, stopped, d, base, withId, accepts), d, base, k, before) == Int32(base + k)
  {
    var plan := Plan(|rows|, b, stopped);
    assert Succeeded(plan, d, rows, base, withId, accepts) == |plan|;
    assert plan[..|plan|] == plan;
    PlanAssignsSentRows(|rows|, b, stopped, d, base, k);
  }

  /** The same for every entity of the batch at once. */
  lemma CommittedAssignsEach<R>(rows: seq<R>, b: nat, stopped: nat -> bool, d: Driver, base: int,
                                withId: (R, int) -> R, accepts: seq<R> -> bool)
    requires b > 0 && ReturnsAll(d, b)
    requires |CommittedBy(rows, b, stopped, d, base, withId, accepts)| == |rows|
    ensures forall k: nat, before :: k < |rows| ==>
              IdAfter(ExecutedBy(rows, b, stopped, d, base, withId, accepts), d, base, k, before) == Int32(base + k)
  {
    forall k: nat, before | k < |rows|
      ensures IdAfter(ExecutedBy(rows, b, stopped, d, base, withId, accepts), d, base, k, before) == Int32(base + k)
    {
      CommittedAllAssigns(rows, b, stopped, d, base, withId, accepts, k, before);
    }
  }

  /** Without a stop the two plans coincide: the as-written tail is only wrong after a stop. */
  lemma PlansAgreeWithoutStop(n: nat, b: nat, stopped: nat -> bool)
    requires b > 0 && Bound(n, stopped) == n
    ensures PlanAsWritten(n, b, stopped) == Plan(n, b, stopped)
  {
  }

  /**
   * The plan as written, after a stop that leaves a partial final chunk:
   * the last entity of the list, which was never inserted, receives the key
   * of the last row that was.
   */
  lemma AsWrittenMisassigns(n: nat, b: nat, stopped: nat -> bool, d: Driver, base: int)
    requires b > 0 && ReturnsAll(d, b)
    requires Bound(n, stopped) < n && Bound(n, stopped) % b != 0
    ensures n - 1 >= Bound(n, stopped)
    ensures AssignedId(PlanAsWritten(n, b, stopped), d, base, n - 1) == Some(Int32(base + Bound(n, stopped) - 1))
  {
    var m := Bound(n, stopped);
    var r := m % b;
    var q := m / b;
    var plan := PlanAsWritten(n, b, stopped);
    assert plan[q] == Chunk(n - r, m - r, r);
    assert Min(r, d.returned(q)) == r;
  }

  /**
   * The concrete case: five entities, batch size 1000, a stop seen before
   * the third.  Rows 0 and 1 are inserted, but their keys go to entities 3
   * and 4 and entities 0 and 1 keep their old ids.
   */
  lemma StoppedTailMisassigned(d: Driver, base: int)
    requires ReturnsAll(d, 1000)
    ensures var stopped := (k: nat) => k >= 2;
            var plan := PlanAsWritten(5, 1000, stopped);
            && Bound(5, stopped) == 2
            && plan == [Chunk(3, 0, 2)]
            && AssignedId(plan, d, base, 0) == None
            && AssignedId(plan, d, base, 1) == None
            && AssignedId(plan, d, base, 3) == Some(Int32(base))
            && AssignedId(plan, d, base, 4) == Some(Int32(base + 1))
  {
    var stopped := (k: nat) => k >= 2;
    assert BoundFrom(2, 5, stopped) == 2;
    assert BoundFrom(1, 5, stopped) == 2;
    assert Bound(5, stopped) == 2;
    var plan := PlanAsWritten(5, 1000, stopped);
    assert FullChunks(0, 1000) == [];
    assert plan == [Chunk(3, 0, 2)];
    assert Min(2, d.returned(0)) == 2;
    assert plan[..0] == [];
  }

  /** An empty list: no execution, nothing committed but the (empty) transaction. */
  lemma EmptyListPlan(b: nat, stopped: nat -> bool)
    requires b > 0
    ensures Plan(0, b, stopped) == [] && PlanAsWritten(0, b, stopped) == []
  {
  }

  /**
   * A committed call sent every bound row by its last execution, so the
   * database accepted all of them together: the committed rows never break a
   * unique key.
   */
  lemma CommittedRowsAccepted<R>(n: nat, b: nat, stopped: nat -> bool, d: Driver, rows: seq<R>, base: int,
                                 withId: (R, int) -> R, accepts: seq<R> -> bool)
    requires b > 0 && |rows| == n
    requires Succeeded(Plan(n, b, stopped), d, rows, base, withId, accepts) == |Plan(n, b, stopped)|
    ensures Bound(n, stopped) > 0 ==> accepts(WithKeys(rows[..Bound(n, stopped)], base, withId))
  {
    var m := Bound(n, stopped);
    var q := m / b;
    var r := m % b;
    var plan := Plan(n, b, stopped);
    FullChunksWithin(m, b, n);
    if m > 0 {
      if r != 0 {
        assert plan[q] == Chunk(m - r, m - r, r);
        assert !ChunkFails(plan[q], q, d, rows, base, withId, accepts);
      } else {
        assert q > 0;
        assert plan[q - 1] == Chunk((q - 1) * b, (q - 1) * b, b);
        assert (q - 1) * b + b == m;
        assert !ChunkFails(plan[q - 1], q - 1, d, rows, base, withId, accepts);
      }
    }
  }

  /** The executions of a BatchInsert call that succeeded, in order. */
  function ExecutedBy<R>(rows: seq<R>, b: nat, stopped: nat -> bool, d: Driver, base: int,
                         withId: (R, int) -> R, accepts: seq<R> -> bool): (done: seq<Chunk>)
    requires b > 0
    ensures |done| <= |Plan(|rows|, b, stopped)|
  {
    var plan := Plan(|rows|, b, stopped);
    plan[..Succeeded(plan, d, rows, base, withId, accepts)]
  }

  /** The rows a BatchInsert call commits, with their keys; none when it rolls back. */
  function CommittedBy<R>(rows: seq<R>, b: nat, stopped: nat -> bool, d: Driver, base: int,
                          withId: (R, int) -> R, accepts: seq<R> -> bool): (committed: seq<R>)
    requires b > 0
    ensures committed == [] || committed == WithKeys(rows[..Bound(|rows|, stopped)], base, withId)
  {
    var plan := Plan(|rows|, b, stopped);
    if Succeeded(plan, d, rows, base, withId, accepts) == |plan| then WithKeys(rows[..Bound(|rows|, stopped)], base, withId)
    else []
  }

  /** The committed rows always pass the database's check. */
  lemma CommittedByAccepted<R>(rows: seq<R>, b: nat, stopped: nat -> bool, d: Driver, base: int,
                               withId: (R, int) -> R, accepts: seq<R> -> bool)
    requires b > 0 && accepts([])
    ensures accepts(CommittedBy(rows, b, stopped, d, base, withId, accepts))
  {
    var plan := Plan(|rows|, b, stopped);
    if Succeeded(plan, d, rows, base, withId, accepts) == |plan| {
      CommittedRowsAccepted(|rows|, b, stopped, d, rows, base, withId, accepts);
      if Bound(|rows|, stopped) == 0 {
        assert WithKeys(rows[..0], base, withId) == [];
      }
    }
  }
}
