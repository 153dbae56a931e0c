/** The storage accounting that triggers keep beside the `handles` table: a (rows, bytes) total and
    one handle count per (space, epoch). Every change of the table goes through `InsertRow`,
    `DropRow` or `PutRow`; all of them keep the accounting equal to a recount. */
module Accounting {
  import opened Tables
  import opened Totals

  type Bucket = (string, nat)

  /** The tables of one relay's database. `counter` is the singleton `sync_counter.seq`. */
  datatype Db = Db(
    rows: Table,
    counter: nat,
    buckets: map<Bucket, int>,
    totalRows: int,
    totalBytes: int)

  function BucketOf(row: Row): Bucket {
    (row.space, row.epochHeight)
  }

  /** INSERT of a handle that has no row, with trigger `handles_count_insert`. */
  function InsertRow(db: Db, h: string, row: Row): Db {
    var k := BucketOf(row);
    db.(rows := db.rows[h := row],
        buckets := db.buckets[k := if k in db.buckets then db.buckets[k] + 1 else 1],
        totalRows := db.totalRows + 1,
        totalBytes := db.totalBytes + RowBytes(row))
  }

  /** DELETE of one row, with trigger `handles_count_delete`. */
  function DropRow(db: Db, h: string): Db
    requires h in db.rows
  {
    var k := BucketOf(db.rows[h]);
    db.(rows := db.rows - {h},
        buckets := if k in db.buckets then db.buckets[k := db.buckets[k] - 1] else db.buckets,
        totalRows := db.totalRows - 1,
        totalBytes := db.totalBytes - RowBytes(db.rows[h]))
  }

  /** INSERT OR REPLACE: with `recursive_triggers` the displaced row fires the delete trigger. */
  function PutRow(db: Db, h: string, row: Row): Db {
    InsertRow(if h in db.rows then DropRow(db, h) else db, h, row)
  }

  /** `DELETE FROM handles WHERE handle IN (...)`. */
  function DropAll(db: Db, handles: seq<string>): (after: Db)
    ensures after.counter == db.counter
  {
    if handles == [] then db
    else
      var rest := DropAll(db, handles[..|handles| - 1]);
      var h := handles[|handles| - 1];
      if h in rest.rows then DropRow(rest, h) else rest
  }

  function BucketRows(rows: Table, k: Bucket): set<string> {
    set h | h in rows && BucketOf(rows[h]) == k
  }

  ghost function TableBytes(rows: Table): int {
    Total(map h | h in rows :: RowBytes(rows[h]))
  }

  /** The accounting says what a full scan of the table would say. */
  ghost predicate Recount(db: Db) {
    && db.totalRows == |db.rows|
    && db.totalBytes == TableBytes(db.rows)
    && (forall k | k in db.buckets :: db.buckets[k] == |BucketRows(db.rows, k)|)
    && forall h | h in db.rows :: BucketOf(db.rows[h]) in db.buckets
  }

  lemma BytesWith(rows: Table, h: string, row: Row)
    requires h !in rows
    ensures TableBytes(rows[h := row]) == TableBytes(rows) + RowBytes(row)
  {
    var m := map g | g in rows :: RowBytes(rows[g]);
    PutIn(m, h, RowBytes(row));
    var after := rows[h := row];
    assert m[h := RowBytes(row)] == map g | g in after :: RowBytes(after[g]);
  }

  lemma BytesWithout(rows: Table, h: string)
    requires h in rows
    ensures TableBytes(rows - {h}) == TableBytes(rows) - RowBytes(rows[h])
  {
    var m := map g | g in rows :: RowBytes(rows[g]);
    TakeOut(m, h);
    var after := rows - {h};
    assert m - {h} == map g | g in after :: RowBytes(after[g]);
  }

  lemma BucketWith(rows: Table, h: string, row: Row, k: Bucket)
    requires h !in rows
    ensures |BucketRows(rows[h := row], k)| == |BucketRows(rows, k)| + (if k == BucketOf(row) then 1 else 0)
  {
    if k == BucketOf(row) {
      assert BucketRows(rows[h := row], k) == BucketRows(rows, k) + {h};
    } else {
      assert BucketRows(rows[h := row], k) == BucketRows(rows, k);
    }
  }

  lemma InsertKeepsRecount(db: Db, h: string, row: Row)
    requires Recount(db) && h !in db.rows
    ensures Recount(InsertRow(db, h, row))
  {
    var after := InsertRow(db, h, row);
    BytesWith(db.rows, h, row);
    forall k | k in after.buckets ensures after.buckets[k] == |BucketRows(after.rows, k)| {
      BucketWith(db.rows, h, row, k);
      if k !in db.buckets {
        assert BucketRows(db.rows, k) == {};
      }
    }
  }

  lemma DropKeepsRecount(db: Db, h: string)
    requires Recount(db) && h in db.rows
    ensures Recount(DropRow(db, h))
  {
    var after := DropRow(db, h);
    BytesWithout(db.rows, h);
    assert db.rows == after.rows[h := db.rows[h]];
    forall k | k in after.buckets ensures after.buckets[k] == |BucketRows(after.rows, k)| {
      BucketWith(after.rows, h, db.rows[h], k);
    }
    assert |after.rows[h := db.rows[h]]| == |after.rows| + 1;
  }

  /** Main result. A bulk replace keeps the accounting equal to a recount, whether or not the handle
      had a row, and even when the new row keeps the old one's certificate bytes. */
  lemma PutKeepsRecount(db: Db, h: string, row: Row)
    requires Recount(db)
    ensures Recount(PutRow(db, h, row))
  {
    if h in db.rows {
      DropKeepsRecount(db, h);
      InsertKeepsRecount(DropRow(db, h), h, row);
    } else {
      InsertKeepsRecount(db, h, row);
    }
  }

  /** A replace changes one row and forgets no (space, epoch). */
  lemma PutRowChangesOneRow(db: Db, h: string, row: Row)
    ensures PutRow(db, h, row).rows == db.rows[h := row]
    ensures db.buckets.Keys <= PutRow(db, h, row).buckets.Keys
    ensures PutRow(db, h, row).counter == db.counter
  {
  }

  /** A bulk delete removes exactly the listed rows; the epochs a space was seen committing stay on
      record. */
  lemma {:induction false} DropAllRemovesListed(db: Db, handles: seq<string>)
    ensures DropAll(db, handles).rows == db.rows - (set h | h in handles)
    ensures DropAll(db, handles).buckets.Keys == db.buckets.Keys
    decreases |handles|
  {
    if handles != [] {
      var init := handles[..|handles| - 1];
      var last := handles[|handles| - 1];
      DropAllRemovesListed(db, init);
      assert (set h | h in handles) == (set h | h in init) + {last} by {
        assert handles == init + [last];
      }
    }
  }

  /** Main result. A bulk delete keeps the accounting equal to a recount. */
  lemma {:induction false} DropAllKeepsRecount(db: Db, handles: seq<string>)
    requires Recount(db)
    ensures Recount(DropAll(db, handles))
    decreases |handles|
  {
    if handles != [] {
      var init := handles[..|handles| - 1];
      var last := handles[|handles| - 1];
      DropAllKeepsRecount(db, init);
      if last in DropAll(db, init).rows {
        DropKeepsRecount(DropAll(db, init), last);
      }
    }
  }

  /** What a recount says in the rows' own columns: the bytes of all certificates and zones, and for each
      space and epoch height on record how many rows have both. Each row's space and epoch are on record. */
  lemma RecountMeans(db: Db, space: string, epoch: nat)
    requires Recount(db)
    ensures db.totalRows == |db.rows|
    ensures db.totalBytes == Total(map h | h in db.rows :: |db.rows[h].cert| + |db.rows[h].zone|)
    ensures forall h | h in db.rows :: (db.rows[h].space, db.rows[h].epochHeight) in db.buckets
    ensures (space, epoch) in db.buckets ==>
      db.buckets[(space, epoch)]
        == |set h | h in db.rows && db.rows[h].space == space && db.rows[h].epochHeight == epoch|
  {
    assert (map h | h in db.rows :: RowBytes(db.rows[h]))
        == map h | h in db.rows :: |db.rows[h].cert| + |db.rows[h].zone|;
    assert BucketRows(db.rows, (space, epoch))
        == set h | h in db.rows && db.rows[h].space == space && db.rows[h].epochHeight == epoch;
  }

  /** No bucket is ever below zero. */
  lemma BucketsNeverNegative(db: Db, k: Bucket)
    requires Recount(db) && k in db.buckets
    ensures db.buckets[k] >= 0
    ensures db.buckets[k] == 0 <==> forall h | h in db.rows :: BucketOf(db.rows[h]) != k
  {
    if h :| h in db.rows && BucketOf(db.rows[h]) == k {
      assert h in BucketRows(db.rows, k);
    } else {
      assert BucketRows(db.rows, k) == {};
    }
  }

  // ---- what the retention queries read -----------------------------------------------------------

  /** The buckets of one space, as read by `space_usage`. */
  function SpaceBuckets(buckets: map<Bucket, int>, space: string): map<Bucket, int> {
    map k | k in buckets && k.0 == space :: buckets[k]
  }

  ghost function StoredIn(buckets: map<Bucket, int>, space: string): int {
    Total(SpaceBuckets(buckets, space))
  }

  function EpochsOf(buckets: map<Bucket, int>, space: string): nat {
    |SpaceBuckets(buckets, space)|
  }

  /** The epochs on record for a space. */
  function EpochsSeen(buckets: map<Bucket, int>, space: string): set<nat> {
    set k | k in buckets && k.0 == space :: k.1
  }

  /** There is one bucket for each epoch the space was seen committing. */
  lemma {:induction false} EpochsAreSeen(buckets: map<Bucket, int>, space: string)
    ensures EpochsOf(buckets, space) == |EpochsSeen(buckets, space)|
    decreases |buckets|
  {
    if k :| k in buckets && k.0 == space {
      EpochsAreSeen(buckets - {k}, space);
      OneEpochLess(buckets, space, k);
    } else {
      assert SpaceBuckets(buckets, space) == map[];
      assert EpochsSeen(buckets, space) == {};
    }
  }

  lemma OneEpochLess(buckets: map<Bucket, int>, space: string, k: Bucket)
    requires k in buckets && k.0 == space
    ensures EpochsOf(buckets, space) == EpochsOf(buckets - {k}, space) + 1
    ensures |EpochsSeen(buckets, space)| == |EpochsSeen(buckets - {k}, space)| + 1
  {
    assert SpaceBuckets(buckets - {k}, space) == SpaceBuckets(buckets, space) - {k};
    assert EpochsSeen(buckets, space) == EpochsSeen(buckets - {k}, space) + {k.1};
  }

  ghost function RowsOf(rows: Table, space: string): set<string> {
    set h | h in rows && rows[h].space == space
  }

  /** Dropping a row of a space takes one off the space's count. */
  lemma DropTakesOne(db: Db, h: string, space: string)
    requires h in db.rows && db.rows[h].space == space && BucketOf(db.rows[h]) in db.buckets
    ensures StoredIn(DropRow(db, h).buckets, space) == StoredIn(db.buckets, space) - 1
  {
    var k := BucketOf(db.rows[h]);
    var m, m' := SpaceBuckets(db.buckets, space), SpaceBuckets(DropRow(db, h).buckets, space);
    TakeOut(m, k);
    TakeOut(m', k);
    assert m - {k} == m' - {k};
  }

  /** Main result. The usage read from the counts table is the number of rows the space has: this is
      what entitlement and victim choice are computed from. */
  lemma {:induction false} UsageIsRowCount(db: Db, space: string)
    requires Recount(db)
    ensures StoredIn(db.buckets, space) == |RowsOf(db.rows, space)|
    decreases |db.rows|
  {
    if h :| h in db.rows && db.rows[h].space == space {
      var less := DropRow(db, h);
      DropKeepsRecount(db, h);
      assert |db.rows - {h}| == |db.rows| - 1;
      UsageIsRowCount(less, space);
      DropTakesOne(db, h, space);
      assert RowsOf(less.rows, space) == RowsOf(db.rows, space) - {h};
    } else {
      NoRowsNoUse(db, space);
      assert RowsOf(db.rows, space) == {};
    }
  }

  lemma NoRowsNoUse(db: Db, space: string)
    requires Recount(db) && forall h | h in db.rows :: db.rows[h].space != space
    ensures StoredIn(db.buckets, space) == 0
  {
    var m := SpaceBuckets(db.buckets, space);
    forall k | k in m ensures m[k] == 0 {
      BucketsNeverNegative(db, k);
    }
    ZerosAddNothing(m, map[]);
  }
}
