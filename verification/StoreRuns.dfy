/** What holds of the store over whole runs of bulk updates and evictions: the write sequence, the
    accounting, the owner's records, the derived columns and the stored receipts. */
module StoreRuns {
  import opened Names
  import opened Tables
  import opened Accounting
  import opened UpdateRule

  datatype Op = Batch(updates: seq<HandleRecord>, now: int) | Evict(handles: seq<string>)

  function Apply(codec: Codec, db: Db, op: Op): Db {
    match op
    case Batch(updates, now) => Update(codec, db, updates, now)
    case Evict(handles) => DropAll(db, handles)
  }

  function Run(codec: Codec, db: Db, ops: seq<Op>): Db {
    if ops == [] then db else Apply(codec, Run(codec, db, ops[..|ops| - 1]), ops[|ops| - 1])
  }

  const EMPTY: Db := Db(map[], 0, map[], 0, 0)

  // ---- the write sequence --------------------------------------------------------------------------

  /** All sequence numbers are distinct and have been issued. */
  ghost predicate Sequenced(t: Table, counter: nat) {
    && Distinct(t)
    && forall h | h in t :: 1 <= t[h].syncSeq <= counter
  }

  /** What any number of writes does to a table: a row is either left exactly as it was or carries a
      number above every number issued, and so every number advertised, before. */
  ghost predicate Writes(t: Table, counter: nat, t': Table, counter': nat) {
    && counter <= counter'
    && Sequenced(t', counter')
    && forall h | h in t' :: (h in t && t'[h] == t[h]) || t'[h].syncSeq > counter
  }

  lemma WritesCompose(t: Table, c: nat, t': Table, c': nat, t'': Table, c'': nat)
    requires Writes(t, c, t', c') && Writes(t', c', t'', c'')
    ensures Writes(t, c, t'', c'')
  {
  }

  lemma {:induction false} PutAllSequenced(codec: Codec, db: Db, es: seq<Prepared>, base: nat, now: int)
    requires forall e | e in es :: e.preserveCert ==> e.handle in db.rows
    requires Sequenced(db.rows, base)
    ensures Writes(db.rows, base, PutAll(codec, db, es, base, now).rows, base + |es|)
    decreases |es|
  {
    if es != [] {
      var n := |es| - 1;
      PutAllSequenced(codec, db, es[..n], base, now);
      PutAllStep(codec, db, es, base, now);
    }
  }

  lemma BatchSequenced(codec: Codec, db: Db, updates: seq<HandleRecord>, now: int)
    requires Sequenced(db.rows, db.counter)
    requires forall u | u in updates :: Usable(codec, db.rows, u)
    ensures Writes(db.rows, db.counter, Update(codec, db, updates, now).rows, Update(codec, db, updates, now).counter)
  {
    var raised, es := UpdateUnfolded(codec, db, updates, now);
    PutAllSequenced(codec, raised, es, db.counter, now);
  }

  lemma ApplySequenced(codec: Codec, db: Db, op: Op)
    requires Sequenced(db.rows, db.counter)
    ensures Writes(db.rows, db.counter, Apply(codec, db, op).rows, Apply(codec, db, op).counter)
  {
    match op
    case Batch(updates, now) =>
      if forall u | u in updates :: Usable(codec, db.rows, u) {
        BatchSequenced(codec, db, updates, now);
      }
    case Evict(handles) =>
      DropAllRemovesListed(db, handles);
  }

  /** Main result. Over any run, with any batches (even ones that repeat a handle) and any evictions:
      all sequence numbers stay distinct and within the counter, the counter never goes back, and
      every version written gets a number above all that were ever issued. */
  lemma {:induction false} SequenceDiscipline(codec: Codec, db: Db, ops: seq<Op>)
    requires Sequenced(db.rows, db.counter)
    ensures Writes(db.rows, db.counter, Run(codec, db, ops).rows, Run(codec, db, ops).counter)
    decreases |ops|
  {
    if ops != [] {
      var before := Run(codec, db, ops[..|ops| - 1]);
      SequenceDiscipline(codec, db, ops[..|ops| - 1]);
      ApplySequenced(codec, before, ops[|ops| - 1]);
      var after := Run(codec, db, ops);
      WritesCompose(db.rows, db.counter, before.rows, before.counter, after.rows, after.counter);
    }
  }

  // ---- the accounting ------------------------------------------------------------------------------

  lemma {:induction false} PutAllRecounts(codec: Codec, db: Db, es: seq<Prepared>, base: nat, now: int)
    requires forall e | e in es :: e.preserveCert ==> e.handle in db.rows
    requires Recount(db)
    ensures Recount(PutAll(codec, db, es, base, now))
    ensures db.buckets.Keys <= PutAll(codec, db, es, base, now).buckets.Keys
    decreases |es|
  {
    if es != [] {
      var n := |es| - 1;
      PutAllRecounts(codec, db, es[..n], base, now);
      var before := PutAll(codec, db, es[..n], base, now);
      assert es[n] in es;
      var row := RowFor(codec, db.rows, es[n], base + 1 + n, now);
      PutKeepsRecount(before, es[n].handle, row);
      PutRowChangesOneRow(before, es[n].handle, row);
    }
  }

  lemma RaiseRecounts(db: Db, counter: nat)
    requires Recount(db)
    ensures Recount(db.(counter := counter))
  {
  }

  lemma BatchRecounts(codec: Codec, db: Db, updates: seq<HandleRecord>, now: int)
    requires Recount(db)
    requires forall u | u in updates :: Usable(codec, db.rows, u)
    ensures Recount(Update(codec, db, updates, now))
    ensures db.buckets.Keys <= Update(codec, db, updates, now).buckets.Keys
  {
    var raised, es := UpdateUnfolded(codec, db, updates, now);
    RaiseRecounts(db, raised.counter);
    PutAllRecounts(codec, raised, es, db.counter, now);
  }

  lemma ApplyRecounts(codec: Codec, db: Db, op: Op)
    requires Recount(db)
    ensures Recount(Apply(codec, db, op))
    ensures db.buckets.Keys <= Apply(codec, db, op).buckets.Keys
  {
    match op
    case Batch(updates, now) =>
      if forall u | u in updates :: Usable(codec, db.rows, u) {
        BatchRecounts(codec, db, updates, now);
      }
    case Evict(handles) =>
      DropAllKeepsRecount(db, handles);
      DropAllRemovesListed(db, handles);
  }

  lemma SubMapSize(a: map<Bucket, int>, b: map<Bucket, int>)
    requires a.Keys <= b.Keys
    ensures |a| <= |b|
  {
    var more := b.Keys - a.Keys;
    assert b.Keys == a.Keys + more;
    assert |a.Keys| <= |b.Keys|;
  }

  /** Main result. In every reachable state the totals and every (space, epoch) count equal a
      recount of the table, and the number of epochs on record for a space never decreases. */
  lemma {:induction false} AccountingRefinesRecount(codec: Codec, db: Db, ops: seq<Op>, space: string)
    requires Recount(db)
    ensures Recount(Run(codec, db, ops))
    ensures EpochsOf(db.buckets, space) <= EpochsOf(Run(codec, db, ops).buckets, space)
    decreases |ops|
  {
    if ops != [] {
      var before := Run(codec, db, ops[..|ops| - 1]);
      AccountingRefinesRecount(codec, db, ops[..|ops| - 1], space);
      ApplyRecounts(codec, before, ops[|ops| - 1]);
      SubMapSize(SpaceBuckets(before.buckets, space), SpaceBuckets(Run(codec, db, ops).buckets, space));
    }
  }

  // ---- the zone stored for a handle ----------------------------------------------------------------

  /** `row` was written for entry `e`, over table `t`. */
  ghost predicate FromEntry(codec: Codec, t: Table, row: Row, e: Prepared) {
    && (e.preserveCert ==> e.handle in t)
    && row == RowFor(codec, t, e, row.syncSeq, row.updatedAt)
  }

  lemma {:induction false} PutAllLast(codec: Codec, db: Db, es: seq<Prepared>, base: nat, now: int, h: string)
    requires forall e | e in es :: e.preserveCert ==> e.handle in db.rows
    requires h in PutAll(codec, db, es, base, now).rows
    ensures var row := PutAll(codec, db, es, base, now).rows[h];
      (h in db.rows && row == db.rows[h]) || exists e :: e in es && e.handle == h && FromEntry(codec, db.rows, row, e)
    decreases |es|
  {
    if es != [] {
      var n := |es| - 1;
      var before := PutAll(codec, db, es[..n], base, now);
      assert es[n] in es;
      var row := RowFor(codec, db.rows, es[n], base + 1 + n, now);
      PutRowChangesOneRow(before, es[n].handle, row);
      if h == es[n].handle {
        assert FromEntry(codec, db.rows, row, es[n]);
      } else {
        PutAllLast(codec, db, es[..n], base, now, h);
      }
    }
  }

  /** The zone the filter stores for an accepted record. */
  function StoredZone(codec: Codec, u: HandleRecord, existing: Option<Zone>): Zone {
    if existing.Some? && KeepsRecords(u.zone, existing.value)
       && codec.encodeZone(Merged(u.zone, existing.value)).Some?
    then Merged(u.zone, existing.value) else u.zone
  }

  lemma EntryHoldsStoredZone(codec: Codec, t: Table, maxSeq: int, e: Prepared, u: HandleRecord)
    requires Faithful(codec) && Usable(codec, t, u) && Stems(codec, t, maxSeq, e, u)
    ensures e.handle == u.cert.subject
    ensures codec.decodeZone(e.zone) == Some(StoredZone(codec, u, Stored(codec, t, u.cert.subject)))
    ensures u.offchainSeq == RecordsSeq(u.zone.records) ==>
      e.offchainSeq == RecordsSeq(StoredZone(codec, u, Stored(codec, t, u.cert.subject)).records)
    ensures u.cert.space == Some(SpaceName(u.cert.subject)) ==> e.space == SpaceName(e.handle)
  {
  }

  ghost predicate Accepts(codec: Codec, t: Table, u: HandleRecord) {
    Stored(codec, t, u.cert.subject).Some? ==>
      Accepted(codec, u.zone, Stored(codec, t, u.cert.subject).value)
  }

  /** `row` is what record `u` of a batch leaves in the table, certificate aside. */
  ghost predicate Wrote(codec: Codec, t: Table, row: Row, u: HandleRecord) {
    && Accepts(codec, t, u)
    && codec.decodeZone(row.zone) == Some(StoredZone(codec, u, Stored(codec, t, u.cert.subject)))
    && StoredZone(codec, u, Stored(codec, t, u.cert.subject)).commitment == u.zone.commitment
    && StoredZone(codec, u, Stored(codec, t, u.cert.subject)).anchor == u.zone.anchor
    && row.zoneHash == codec.hash(row.zone)
    && (u.offchainSeq == RecordsSeq(u.zone.records) ==>
          row.offchainSeq == RecordsSeq(StoredZone(codec, u, Stored(codec, t, u.cert.subject)).records))
    && (u.cert.space == Some(SpaceName(u.cert.subject)) ==> row.space == SpaceName(u.cert.subject))
  }

  /** The certificate that record `u` of a batch leaves in the table: its own, or for a receipt-less root
      certificate under an unchanged commitment root the stored one. */
  ghost predicate WroteCert(codec: Codec, t: Table, row: Row, u: HandleRecord) {
    var existing := Stored(codec, t, u.cert.subject);
    if u.cert.proof == RootWitness(None) && existing.Some? && SameCommitmentRoot(u.zone, existing.value) then
      u.cert.subject in t && row.cert == t[u.cert.subject].cert
    else
      codec.encodeCert(u.cert) == Some(row.cert)
  }

  lemma EntryCert(codec: Codec, t: Table, maxSeq: int, e: Prepared, u: HandleRecord)
    requires Usable(codec, t, u) && Stems(codec, t, maxSeq, e, u)
    ensures e.preserveCert <==>
      u.cert.proof == RootWitness(None) && Stored(codec, t, u.cert.subject).Some?
      && SameCommitmentRoot(u.zone, Stored(codec, t, u.cert.subject).value)
    ensures codec.encodeCert(u.cert) == Some(e.cert)
  {
  }

  lemma RowOfEntry(codec: Codec, t: Table, maxSeq: int, row: Row, e: Prepared, u: HandleRecord)
    requires Faithful(codec) && Usable(codec, t, u) && Stems(codec, t, maxSeq, e, u)
    requires FromEntry(codec, t, row, e)
    ensures Wrote(codec, t, row, u) && WroteCert(codec, t, row, u)
  {
    EntryHoldsStoredZone(codec, t, maxSeq, e, u);
    EntryCert(codec, t, maxSeq, e, u);
  }

  lemma WrittenForEntry(codec: Codec, db: Db, updates: seq<HandleRecord>, now: int, e: Prepared, row: Row)
    requires Faithful(codec) && forall u | u in updates :: Usable(codec, db.rows, u)
    requires e in ToStore(codec, db.rows, now + SIX_HOURS, updates) && FromEntry(codec, db.rows, row, e)
    ensures exists u :: u in updates && u.cert.subject == e.handle
                        && Wrote(codec, db.rows, row, u) && WroteCert(codec, db.rows, row, u)
  {
    EntriesStem(codec, db.rows, now + SIX_HOURS, updates);
    var u :| u in updates && Stems(codec, db.rows, now + SIX_HOURS, e, u);
    RowOfEntry(codec, db.rows, now + SIX_HOURS, row, e, u);
  }

  /** After any batch a row is untouched, or was written for an accepted record of the batch. */
  lemma RowAfterBatch(codec: Codec, db: Db, updates: seq<HandleRecord>, now: int, h: string)
    requires Faithful(codec)
    requires h in Update(codec, db, updates, now).rows
    ensures var row := Update(codec, db, updates, now).rows[h];
      (h in db.rows && row == db.rows[h])
      || exists u :: u in updates && u.cert.subject == h
                     && Wrote(codec, db.rows, row, u) && WroteCert(codec, db.rows, row, u)
  {
    if forall u | u in updates :: Usable(codec, db.rows, u) {
      var raised, es := UpdateUnfolded(codec, db, updates, now);
      PutAllLast(codec, raised, es, db.counter, now, h);
      var row := PutAll(codec, raised, es, db.counter, now).rows[h];
      if !(h in db.rows && row == db.rows[h]) {
        var e :| e in es && e.handle == h && FromEntry(codec, db.rows, row, e);
        WrittenForEntry(codec, db, updates, now, e, row);
      }
    }
  }

  // ---- derived columns -----------------------------------------------------------------------------

  /** The denormalised columns agree with the stored zone and handle. */
  ghost predicate ColumnsAgree(codec: Codec, t: Table) {
    && SpacesAgree(t)
    && forall h | h in t ::
         && codec.decodeZone(t[h].zone).Some?
         && t[h].zoneHash == codec.hash(t[h].zone)
         && t[h].offchainSeq == RecordsSeq(codec.decodeZone(t[h].zone).value.records)
  }

  /** What the message handler guarantees of the records it passes on. */
  predicate Derived(u: HandleRecord) {
    && u.offchainSeq == RecordsSeq(u.zone.records)
    && u.cert.space == Some(SpaceName(u.cert.subject))
  }

  ghost predicate AllDerived(ops: seq<Op>) {
    forall op | op in ops && op.Batch? :: forall u | u in op.updates :: Derived(u)
  }

  lemma ApplyColumns(codec: Codec, db: Db, op: Op)
    requires Faithful(codec) && ColumnsAgree(codec, db.rows)
    requires op.Batch? ==> forall u | u in op.updates :: Derived(u)
    ensures ColumnsAgree(codec, Apply(codec, db, op).rows)
  {
    match op
    case Batch(updates, now) =>
      forall h | h in Apply(codec, db, op).rows
        ensures var row := Apply(codec, db, op).rows[h];
          && row.space == SpaceName(h)
          && codec.decodeZone(row.zone).Some?
          && row.zoneHash == codec.hash(row.zone)
          && row.offchainSeq == RecordsSeq(codec.decodeZone(row.zone).value.records)
      {
        RowAfterBatch(codec, db, updates, now, h);
      }
    case Evict(handles) =>
      DropAllRemovesListed(db, handles);
  }

  /** Main result. Over any run, `offchain_seq` and `zone_hash` always describe the zone that is
      stored, merged or not. */
  lemma {:induction false} ColumnsAgreeOverRuns(codec: Codec, db: Db, ops: seq<Op>)
    requires Faithful(codec) && ColumnsAgree(codec, db.rows) && AllDerived(ops)
    ensures ColumnsAgree(codec, Run(codec, db, ops).rows)
    decreases |ops|
  {
    if ops != [] {
      assert ops[|ops| - 1] in ops;
      ColumnsAgreeOverRuns(codec, db, ops[..|ops| - 1]);
      ApplyColumns(codec, Run(codec, db, ops[..|ops| - 1]), ops[|ops| - 1]);
    }
  }

  // ---- the owner's records -------------------------------------------------------------------------

  /** `after` keeps what the owner had signed in `before`. */
  predicate RecordsSurvive(before: OwnerRecords, after: OwnerRecords) {
    && RecordsSeq(after) >= RecordsSeq(before)
    && (before != NoRecords ==> after != NoRecords)
  }

  /** For an accepted record under the same key, the owner's records survive exactly when no merge
      was due or the merged zone could be serialised; the code's fallback for a merged zone that
      does not serialise is to store the incoming zone as it is. */
  lemma SurvivalIsSerialisation(codec: Codec, u: HandleRecord, existing: Zone)
    requires u.zone.scriptPubkey == existing.scriptPubkey
    ensures RecordsSurvive(existing.records, StoredZone(codec, u, Some(existing)).records)
      <==> !(KeepsRecords(u.zone, existing) && codec.encodeZone(Merged(u.zone, existing)).None?)
    ensures StoredZone(codec, u, Some(existing)).(records := NoRecords) == u.zone.(records := NoRecords)
  {
  }

  /** Zones always serialise: borsh writing into memory has no failing case for a zone. */
  ghost predicate EncodesEveryZone(codec: Codec) {
    forall z: Zone :: codec.encodeZone(z).Some?
  }

  /** The zone stored for `h` at every point of the run, all under one key. */
  ghost predicate SameKeyThroughout(codec: Codec, db: Db, ops: seq<Op>, h: string, key: Blob) {
    forall k | 0 <= k <= |ops| ::
      var z := Stored(codec, Run(codec, db, ops[..k]).rows, h);
      z.Some? && z.value.scriptPubkey == key
  }

  lemma RecordsSurviveStep(codec: Codec, db: Db, op: Op, h: string)
    requires Faithful(codec) && EncodesEveryZone(codec)
    requires Stored(codec, db.rows, h).Some? && Stored(codec, Apply(codec, db, op).rows, h).Some?
    requires Stored(codec, db.rows, h).value.scriptPubkey
          == Stored(codec, Apply(codec, db, op).rows, h).value.scriptPubkey
    ensures RecordsSurvive(Stored(codec, db.rows, h).value.records,
                           Stored(codec, Apply(codec, db, op).rows, h).value.records)
  {
    match op
    case Batch(updates, now) =>
      RowAfterBatch(codec, db, updates, now, h);
      var row := Apply(codec, db, op).rows[h];
      if row != db.rows[h] {
        var u :| u in updates && u.cert.subject == h && Wrote(codec, db.rows, row, u);
        SurvivalIsSerialisation(codec, u, Stored(codec, db.rows, h).value);
      }
    case Evict(handles) =>
      DropAllRemovesListed(db, handles);
  }

  lemma PrefixOfPrefix(ops: seq<Op>, n: nat)
    requires n <= |ops|
    ensures forall k | 0 <= k <= n :: ops[..n][..k] == ops[..k]
  {
  }

  /** Main result. Over any run of batches, while a handle stays stored under the same key, its
      records' sequence number never goes down and records that were there never disappear,
      whatever comparison accepted the updates, and even if a batch repeats a handle. */
  lemma {:induction false} OwnerRecordsSurvive(codec: Codec, db: Db, ops: seq<Op>, h: string, key: Blob)
    requires Faithful(codec) && EncodesEveryZone(codec)
    requires SameKeyThroughout(codec, db, ops, h, key)
    ensures Stored(codec, db.rows, h).Some? && Stored(codec, Run(codec, db, ops).rows, h).Some?
    ensures RecordsSurvive(Stored(codec, db.rows, h).value.records,
                           Stored(codec, Run(codec, db, ops).rows, h).value.records)
    decreases |ops|
  {
    assert ops[..|ops|] == ops && ops[..0] == [];
    if ops != [] {
      var n := |ops| - 1;
      PrefixOfPrefix(ops, n);
      assert SameKeyThroughout(codec, db, ops[..n], h, key);
      OwnerRecordsSurvive(codec, db, ops[..n], h, key);
      RecordsSurviveStep(codec, Run(codec, db, ops[..n]), ops[n], h);
    }
  }

  // ---- stored receipts -----------------------------------------------------------------------------

  /** The stored certificate of `h` is a root certificate with its receipt. */
  ghost predicate HasReceipt(codec: Codec, t: Table, h: string) {
    && h in t
    && var cert := codec.decodeCert(t[h].cert);
       cert.Some? && cert.value.proof.RootWitness? && cert.value.proof.receipt.Some?
  }

  /** For a record accepted under an unchanged commitment root, a stored receipt is kept exactly when
      the record's certificate is a root certificate, with or without a receipt of its own. */
  lemma ReceiptKeptIffRootCert(codec: Codec, t: Table, row: Row, u: HandleRecord)
    requires Faithful(codec)
    requires Stored(codec, t, u.cert.subject).Some?
    requires SameCommitmentRoot(u.zone, Stored(codec, t, u.cert.subject).value)
    requires HasReceipt(codec, t, u.cert.subject)
    requires WroteCert(codec, t, row, u)
    ensures HasReceipt(codec, map[u.cert.subject := row], u.cert.subject) <==> u.cert.proof.RootWitness?
  {
  }

  /** The zone stored for `h` carries commitment root `root` at every point of the run. */
  ghost predicate SameRootThroughout(codec: Codec, db: Db, ops: seq<Op>, h: string, root: Blob) {
    forall k | 0 <= k <= |ops| ::
      var z := Stored(codec, Run(codec, db, ops[..k]).rows, h);
      z.Some? && z.value.commitment.Exists? && z.value.commitment.stateRoot == root
  }

  /** Batches bring only root certificates for `h`. */
  ghost predicate RootCertsOnly(op: Op, h: string) {
    op.Batch? ==> forall u | u in op.updates && u.cert.subject == h :: u.cert.proof.RootWitness?
  }

  lemma StoredZoneKeepsCommitment(codec: Codec, u: HandleRecord, existing: Option<Zone>)
    ensures StoredZone(codec, u, existing).commitment == u.zone.commitment
    ensures StoredZone(codec, u, existing).anchor == u.zone.anchor
  {
  }

  lemma ReceiptKeptStep(codec: Codec, db: Db, op: Op, h: string, root: Blob)
    requires Faithful(codec) && RootCertsOnly(op, h)
    requires HasReceipt(codec, db.rows, h)
    requires SameRootThroughout(codec, db, [op], h, root)
    ensures HasReceipt(codec, Apply(codec, db, op).rows, h)
  {
    assert [op][..0] == [] && [op][..1] == [op];
    assert Run(codec, db, [op]) == Apply(codec, db, op);
    match op
    case Batch(updates, now) =>
      RowAfterBatch(codec, db, updates, now, h);
      var row := Apply(codec, db, op).rows[h];
      if row != db.rows[h] {
        var u :| u in updates && u.cert.subject == h
                 && Wrote(codec, db.rows, row, u) && WroteCert(codec, db.rows, row, u);
        StoredZoneKeepsCommitment(codec, u, Stored(codec, db.rows, h));
        ReceiptKeptIffRootCert(codec, db.rows, row, u);
      }
    case Evict(handles) =>
      DropAllRemovesListed(db, handles);
  }

  /** Main result. Once a root row holds a receipt for a commitment root, its stored certificate
      keeps a receipt for as long as the stored zones carry that commitment root, whatever
      receipt-less certificates are sent again, even if a batch repeats the handle. */
  lemma {:induction false} ReceiptsPersist(codec: Codec, db: Db, ops: seq<Op>, h: string, root: Blob)
    requires Faithful(codec)
    requires forall op | op in ops :: RootCertsOnly(op, h)
    requires SameRootThroughout(codec, db, ops, h, root)
    requires HasReceipt(codec, db.rows, h)
    ensures HasReceipt(codec, Run(codec, db, ops).rows, h)
    decreases |ops|
  {
    if ops != [] {
      var n := |ops| - 1;
      PrefixOfPrefix(ops, n);
      assert ops[..|ops|] == ops;
      ReceiptsPersist(codec, db, ops[..n], h, root);
      var before := Run(codec, db, ops[..n]);
      assert [ops[n]][..0] == [] && [ops[n]][..1] == [ops[n]];
      assert Run(codec, before, [ops[n]]) == Apply(codec, before, ops[n]);
      assert SameRootThroughout(codec, before, [ops[n]], h, root) by {
        forall k | 0 <= k <= 1
          ensures var z := Stored(codec, Run(codec, before, [ops[n]][..k]).rows, h);
            z.Some? && z.value.commitment.Exists? && z.value.commitment.stateRoot == root
        {
          assert k == 0 || k == 1;
        }
      }
      ReceiptKeptStep(codec, before, ops[n], h, root);
    }
  }
}
