/** The `handles` table: rows by handle (the primary key), read back in `sync_seq` order. */
module Tables {
  import opened Names
  import opened Totals
  import opened Sets

  newtype Byte = x: int | 0 <= x < 256

  type Blob = seq<Byte>

  /** One row of `handles`; the handle itself is the key of the table. */
  datatype Row = Row(
    space: string,
    cert: Blob,
    zone: Blob,
    epochHeight: nat,
    offchainSeq: nat,
    delegateSeq: nat,
    syncSeq: nat,
    zoneHash: Blob,
    updatedAt: int)

  type Table = map<string, Row>

  /** What /sync ships for one row. The row's place in the write order is not part of it. */
  datatype SyncRecord = SyncRecord(
    handle: string, epochHeight: nat, offchainSeq: nat, delegateSeq: nat, cert: Blob, zone: Blob)

  function ToRecord(handle: string, row: Row): SyncRecord {
    SyncRecord(handle, row.epochHeight, row.offchainSeq, row.delegateSeq, row.cert, row.zone)
  }

  function RowBytes(row: Row): nat {
    |row.cert| + |row.zone|
  }

  function RecordBytes(r: SyncRecord): nat {
    |r.cert| + |r.zone|
  }

  ghost predicate Distinct(t: Table) {
    forall h, k | h in t && k in t && t[h].syncSeq == t[k].syncSeq :: h == k
  }

  /** The `space` column is the space of the handle. */
  ghost predicate SpacesAgree(t: Table) {
    forall h | h in t :: t[h].space == SpaceName(h)
  }

  predicate IsNext(t: Table, c: nat, h: string) {
    && h in t
    && t[h].syncSeq > c
    && forall k | k in t && t[k].syncSeq > c :: t[h].syncSeq <= t[k].syncSeq
  }

  ghost function Beyond(t: Table, c: nat): set<string> {
    set h | h in t && t[h].syncSeq > c
  }

  lemma NextExists(t: Table, c: nat, some: string)
    requires some in t && t[some].syncSeq > c
    ensures exists h :: IsNext(t, c, h)
  {
    var seqs := map h | h in t :: t[h].syncSeq;
    assert some in Beyond(t, c);
    LeastExists(Beyond(t, c), seqs);
    var h :| h in Beyond(t, c) && forall k | k in Beyond(t, c) :: seqs[h] <= seqs[k];
    assert forall k | k in t && t[k].syncSeq > c :: k in Beyond(t, c) && seqs[h] <= seqs[k];
    assert IsNext(t, c, h);
  }

  /** `SELECT handle ... WHERE sync_seq > c ORDER BY sync_seq`. */
  function After(t: Table, c: nat): seq<string>
    requires Distinct(t)
    decreases |Beyond(t, c)|
  {
    if forall h | h in t :: t[h].syncSeq <= c then []
    else
      assert exists h :: IsNext(t, c, h) by {
        var some :| some in t && t[some].syncSeq > c;
        NextExists(t, c, some);
      }
      var h :| IsNext(t, c, h);
      assert Beyond(t, t[h].syncSeq) < Beyond(t, c) by {
        assert h in Beyond(t, c) && h !in Beyond(t, t[h].syncSeq);
      }
      SubsetSize(Beyond(t, t[h].syncSeq), Beyond(t, c));
      [h] + After(t, t[h].syncSeq)
  }

  ghost predicate Ascending(t: Table, order: seq<string>) {
    && (forall i | 0 <= i < |order| :: order[i] in t)
    && forall i, j | 0 <= i < j < |order| :: t[order[i]].syncSeq < t[order[j]].syncSeq
  }

  lemma AfterUnfolds(t: Table, c: nat)
    requires Distinct(t) && Beyond(t, c) != {}
    ensures After(t, c) != [] && IsNext(t, c, After(t, c)[0])
    ensures After(t, c) == [After(t, c)[0]] + After(t, t[After(t, c)[0]].syncSeq)
    ensures |Beyond(t, t[After(t, c)[0]].syncSeq)| < |Beyond(t, c)|
  {
    var h := After(t, c)[0];
    assert h in Beyond(t, c) && h !in Beyond(t, t[h].syncSeq);
    SubsetSize(Beyond(t, t[h].syncSeq), Beyond(t, c));
  }

  lemma AscendingCons(t: Table, h: string, rest: seq<string>)
    requires h in t && Ascending(t, rest) && forall k | k in rest :: k in t && t[k].syncSeq > t[h].syncSeq
    ensures Ascending(t, [h] + rest)
  {
  }

  /** The query returns every row past the cursor, once, in write order. */
  lemma {:induction false} AfterIsOrdered(t: Table, c: nat)
    requires Distinct(t)
    ensures Ascending(t, After(t, c))
    ensures forall h :: h in After(t, c) <==> h in Beyond(t, c)
    decreases |Beyond(t, c)|
  {
    if Beyond(t, c) != {} {
      AfterUnfolds(t, c);
      var h := After(t, c)[0];
      AfterIsOrdered(t, t[h].syncSeq);
      AscendingCons(t, h, After(t, t[h].syncSeq));
    } else {
      assert forall h | h in t :: h !in Beyond(t, c);
    }
  }

  /** Reading from the seq of the k-th result continues exactly where the first k results ended. */
  lemma {:induction false} AfterResumes(t: Table, c: nat, k: nat)
    requires Distinct(t)
    requires 0 < k <= |After(t, c)|
    ensures After(t, c)[k - 1] in t
    ensures After(t, t[After(t, c)[k - 1]].syncSeq) == After(t, c)[k..]
    decreases k
  {
    var h := After(t, c)[0];
    assert IsNext(t, c, h);
    assert After(t, c) == [h] + After(t, t[h].syncSeq);
    if k > 1 {
      AfterResumes(t, t[h].syncSeq, k - 1);
    }
  }
}
