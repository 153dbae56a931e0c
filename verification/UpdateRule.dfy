/** The rule by which a batch of verified records changes the `handles` table
    (`SqliteStore::update_handles`): which records are accepted, when the owner's stored records are
    merged into a fresher zone, and when a stored certificate is kept for the sake of its receipt. */
module UpdateRule {
  import opened Names
  import opened Tables
  import opened Accounting

  datatype Sovereignty = Dependent | Pending | Sovereign

  /** `sovereignty_rank`. */
  function Rank(s: Sovereignty): nat {
    match s
    case Sovereign => 2
    case Pending => 1
    case Dependent => 0
  }

  /** A zone's owner records. The sequence number is itself a record, so an empty set has none. */
  datatype OwnerRecords = NoRecords | SignedRecords(seqNo: Option<nat>, payload: Blob)

  /** `records.seq().unwrap_or(0)`. */
  function RecordsSeq(r: OwnerRecords): nat {
    match r
    case NoRecords => 0
    case SignedRecords(n, _) => n.GetOr(0)
  }

  datatype Commitment = Unknown | Absent | Exists(stateRoot: Blob, details: Blob)

  /** The parts of a zone that the update rule looks at; `rest` is everything else. */
  datatype Zone = Zone(
    scriptPubkey: Blob,
    anchor: nat,
    sovereignty: Sovereignty,
    commitment: Commitment,
    records: OwnerRecords,
    rest: Blob)

  datatype Witness = RootWitness(receipt: Option<Blob>) | OtherWitness(data: Blob)

  /** `space` is what the certificate's subject names as its space, if anything. */
  datatype Certificate = Certificate(subject: string, space: Option<string>, proof: Witness)

  datatype HandleRecord = HandleRecord(
    cert: Certificate, zone: Zone, epochHeight: nat, offchainSeq: nat, delegateSeq: nat)

  /** What the store relies on from libraries: serialisation, hashing and zone comparison. */
  datatype Codec = Codec(
    encodeZone: Zone -> Option<Blob>,
    decodeZone: Blob -> Option<Zone>,
    encodeCert: Certificate -> Option<Blob>,
    decodeCert: Blob -> Option<Certificate>,
    hash: Blob -> Blob,
    isBetterThan: (Zone, Zone) -> Option<bool>)

  /** Decoding inverts encoding. Nothing is assumed about `hash` or `isBetterThan`. */
  ghost predicate Faithful(codec: Codec) {
    && (forall z: Zone :: codec.encodeZone(z).Some? ==> codec.decodeZone(codec.encodeZone(z).value) == Some(z))
    && forall c: Certificate ::
         codec.encodeCert(c).Some? ==> codec.decodeCert(codec.encodeCert(c).value) == Some(c)
  }

  /** `same_commitment_root`. */
  predicate SameCommitmentRoot(a: Zone, b: Zone) {
    a.commitment.Exists? && b.commitment.Exists? && a.commitment.stateRoot == b.commitment.stateRoot
  }

  datatype Prepared = Prepared(
    handle: string, space: string, cert: Blob, zone: Blob,
    epochHeight: nat, offchainSeq: nat, delegateSeq: nat, preserveCert: bool)

  /** `None` aborts the whole batch: no space, or a value that does not serialise. */
  function Prepare(codec: Codec, u: HandleRecord): (e: Option<Prepared>)
    ensures e.Some? ==> e.value.handle == u.cert.subject && !e.value.preserveCert
  {
    match (u.cert.space, codec.encodeCert(u.cert), codec.encodeZone(u.zone))
    case (Some(space), Some(cert), Some(zone)) =>
      Some(Prepared(u.cert.subject, space, cert, zone, u.epochHeight, u.offchainSeq, u.delegateSeq, false))
    case _ => None
  }

  const SIX_HOURS: nat := 6 * 3600

  /** A strictly fresher proof from the same key that does not lower finality. */
  predicate FresherProof(incoming: Zone, existing: Zone) {
    && incoming.scriptPubkey == existing.scriptPubkey
    && incoming.anchor > existing.anchor
    && Rank(incoming.sovereignty) >= Rank(existing.sovereignty)
  }

  predicate Accepted(codec: Codec, incoming: Zone, existing: Zone) {
    FresherProof(incoming, existing) || codec.isBetterThan(incoming, existing).GetOr(false)
  }

  /** The same key still controls the handle and the stored records are the fresher ones. */
  predicate KeepsRecords(incoming: Zone, existing: Zone) {
    && existing.scriptPubkey == incoming.scriptPubkey
    && existing.records != NoRecords
    && (incoming.records == NoRecords || RecordsSeq(existing.records) > RecordsSeq(incoming.records))
  }

  function Merged(incoming: Zone, existing: Zone): Zone {
    incoming.(records := existing.records)
  }

  /** The filter over one entry; `None` skips it. */
  function Consider(codec: Codec, existing: Option<Zone>, maxSeq: int, e: Prepared, u: HandleRecord)
    : (kept: Option<Prepared>)
    ensures kept.Some? ==> kept.value.handle == e.handle && kept.value.space == e.space
    ensures kept.Some? && kept.value.preserveCert ==> existing.Some? || e.preserveCert
    ensures kept.Some? && existing.None? ==> kept.value == e
  {
    if e.offchainSeq > maxSeq || e.delegateSeq > maxSeq then None
    else if existing.None? then Some(e)
    else if !Accepted(codec, u.zone, existing.value) then None
    else
      var merged := Merged(u.zone, existing.value);
      var e1 :=
        if KeepsRecords(u.zone, existing.value) && codec.encodeZone(merged).Some? then
          e.(zone := codec.encodeZone(merged).value, offchainSeq := RecordsSeq(merged.records))
        else e;
      Some(if u.cert.proof == RootWitness(None) && SameCommitmentRoot(u.zone, existing.value) then
             e1.(preserveCert := true)
           else e1)
  }

  /** The zone stored for a handle before the batch; the batch is refused if it does not decode. */
  function Stored(codec: Codec, t: Table, h: string): Option<Zone> {
    if h in t then codec.decodeZone(t[h].zone) else None
  }

  predicate Usable(codec: Codec, t: Table, u: HandleRecord) {
    && Prepare(codec, u).Some?
    && (u.cert.subject in t ==> codec.decodeZone(t[u.cert.subject].zone).Some?)
  }

  /** The rows a batch stores, decided against the table as it was before the batch. */
  function ToStore(codec: Codec, t: Table, maxSeq: int, updates: seq<HandleRecord>): (kept: seq<Prepared>)
    requires forall u | u in updates :: Usable(codec, t, u)
    ensures |kept| <= |updates|
    ensures forall e | e in kept :: e.preserveCert ==> e.handle in t
  {
    if updates == [] then []
    else
      var u := updates[|updates| - 1];
      assert Usable(codec, t, u);
      var rest := ToStore(codec, t, maxSeq, updates[..|updates| - 1]);
      match Consider(codec, Stored(codec, t, u.cert.subject), maxSeq, Prepare(codec, u).value, u)
      case Some(e) => rest + [e]
      case None => rest
  }

  /** The row written for one entry. A preserved certificate is read by a subquery of the statement that
      writes the rows, so `t` is the table as it was before that statement. */
  function RowFor(codec: Codec, t: Table, e: Prepared, seqNo: nat, now: int): Row
    requires e.preserveCert ==> e.handle in t
  {
    Row(e.space, if e.preserveCert then t[e.handle].cert else e.cert, e.zone, e.epochHeight,
        e.offchainSeq, e.delegateSeq, seqNo, codec.hash(e.zone), now)
  }

  /** The bulk INSERT OR REPLACE: entry `i` gets sequence number `base + 1 + i`. */
  function PutAll(codec: Codec, db: Db, es: seq<Prepared>, base: nat, now: int): (after: Db)
    requires forall e | e in es :: e.preserveCert ==> e.handle in db.rows
    ensures db.rows.Keys <= after.rows.Keys
    ensures after.counter == db.counter
  {
    if es == [] then db
    else
      var n := |es| - 1;
      var before := PutAll(codec, db, es[..n], base, now);
      PutRow(before, es[n].handle, RowFor(codec, db.rows, es[n], base + 1 + n, now))
  }

  /** The whole transaction: the counter is raised by the number of rows, then they are written. */
  function Update(codec: Codec, db: Db, updates: seq<HandleRecord>, now: int): Db {
    if forall u | u in updates :: Usable(codec, db.rows, u) then
      var es := ToStore(codec, db.rows, now + SIX_HOURS, updates);
      PutAll(codec, db.(counter := db.counter + |es|), es, db.counter, now)
    else db
  }

  lemma UpdateUnfolded(codec: Codec, db: Db, updates: seq<HandleRecord>, now: int)
    returns (raised: Db, es: seq<Prepared>)
    requires forall u | u in updates :: Usable(codec, db.rows, u)
    ensures es == ToStore(codec, db.rows, now + SIX_HOURS, updates)
    ensures raised == db.(counter := db.counter + |es|)
    ensures forall e | e in es :: e.preserveCert ==> e.handle in raised.rows
    ensures Update(codec, db, updates, now) == PutAll(codec, raised, es, db.counter, now)
  {
    es := ToStore(codec, db.rows, now + SIX_HOURS, updates);
    raised := db.(counter := db.counter + |es|);
  }

  // ---- what a batch does to each row ---------------------------------------------------------------

  /** Entry `e` is what the filter made of record `u`. */
  predicate Stems(codec: Codec, t: Table, maxSeq: int, e: Prepared, u: HandleRecord)
    requires Usable(codec, t, u)
  {
    Consider(codec, Stored(codec, t, u.cert.subject), maxSeq, Prepare(codec, u).value, u) == Some(e)
  }

  lemma {:induction false} EntriesStem(codec: Codec, t: Table, maxSeq: int, updates: seq<HandleRecord>)
    requires forall u | u in updates :: Usable(codec, t, u)
    ensures forall e | e in ToStore(codec, t, maxSeq, updates) ::
      exists u :: u in updates && Stems(codec, t, maxSeq, e, u)
    decreases |updates|
  {
    if updates != [] {
      var init := updates[..|updates| - 1];
      EntriesStem(codec, t, maxSeq, init);
      var u := updates[|updates| - 1];
      forall e | e in ToStore(codec, t, maxSeq, updates)
        ensures exists u :: u in updates && Stems(codec, t, maxSeq, e, u)
      {
        if e in ToStore(codec, t, maxSeq, init) {
          var v :| v in init && Stems(codec, t, maxSeq, e, v);
          assert v in updates;
        } else {
          assert Stems(codec, t, maxSeq, e, u);
        }
      }
    }
  }

  /** One more entry of a bulk insert writes one more row. */
  lemma PutAllStep(codec: Codec, db: Db, es: seq<Prepared>, base: nat, now: int)
    requires es != [] && forall e | e in es :: e.preserveCert ==> e.handle in db.rows
    ensures var n := |es| - 1;
      && (forall e | e in es[..n] :: e.preserveCert ==> e.handle in db.rows)
      && (es[n].preserveCert ==> es[n].handle in db.rows)
      && PutAll(codec, db, es, base, now).rows
           == PutAll(codec, db, es[..n], base, now).rows[
                es[n].handle := RowFor(codec, db.rows, es[n], base + 1 + n, now)]
  {
    var n := |es| - 1;
    assert es[n] in es;
    var before := PutAll(codec, db, es[..n], base, now);
    PutRowChangesOneRow(before, es[n].handle, RowFor(codec, db.rows, es[n], base + 1 + n, now));
  }

  /** The last entry for a handle decides its row, which is made out of the table as it was before. */
  lemma {:induction false} LastEntryWrites(codec: Codec, db: Db, es: seq<Prepared>, base: nat, now: int, i: nat)
    requires forall e | e in es :: e.preserveCert ==> e.handle in db.rows
    requires i < |es| && forall j | i < j < |es| :: es[j].handle != es[i].handle
    ensures es[i].handle in PutAll(codec, db, es, base, now).rows
    ensures es[i].preserveCert ==> es[i].handle in db.rows
    ensures PutAll(codec, db, es, base, now).rows[es[i].handle] == RowFor(codec, db.rows, es[i], base + 1 + i, now)
    decreases |es|
  {
    PutAllStep(codec, db, es, base, now);
    if i < |es| - 1 {
      LastEntryWrites(codec, db, es[..|es| - 1], base, now, i);
    }
  }

  lemma ToStoreLast(codec: Codec, t: Table, maxSeq: int, us: seq<HandleRecord>, u: HandleRecord)
    requires forall v | v in us + [u] :: Usable(codec, t, v)
    ensures forall v | v in us :: Usable(codec, t, v)
    ensures Usable(codec, t, u)
    ensures ToStore(codec, t, maxSeq, us + [u]) == ToStore(codec, t, maxSeq, us)
      + match Consider(codec, Stored(codec, t, u.cert.subject), maxSeq, Prepare(codec, u).value, u)
        case Some(e) => [e]
        case None => []
  {
    assert forall v | v in us :: v in us + [u];
    assert u in us + [u];
    assert (us + [u])[..|us|] == us;
  }

  lemma {:induction false} ToStoreConcat(codec: Codec, t: Table, maxSeq: int,
                                         a: seq<HandleRecord>, b: seq<HandleRecord>)
    requires forall u | u in a + b :: Usable(codec, t, u)
    ensures forall u | u in a :: Usable(codec, t, u)
    ensures forall u | u in b :: Usable(codec, t, u)
    ensures ToStore(codec, t, maxSeq, a + b) == ToStore(codec, t, maxSeq, a) + ToStore(codec, t, maxSeq, b)
    decreases |b|
  {
    assert forall u | u in a :: u in a + b;
    assert forall u | u in b :: u in a + b;
    if b == [] {
      assert a + b == a;
    } else {
      var front, last := b[..|b| - 1], b[|b| - 1];
      assert b == front + [last] && a + b == (a + front) + [last];
      ToStoreConcat(codec, t, maxSeq, a, front);
      ToStoreLast(codec, t, maxSeq, a + front, last);
      ToStoreLast(codec, t, maxSeq, front, last);
    }
  }

  lemma EntriesElsewhere(codec: Codec, t: Table, maxSeq: int, us: seq<HandleRecord>, h: string)
    requires forall u | u in us :: Usable(codec, t, u) && u.cert.subject != h
    ensures forall e | e in ToStore(codec, t, maxSeq, us) :: e.handle != h
  {
    EntriesStem(codec, t, maxSeq, us);
  }

  /** Where the entry of `v` stands among the entries of a batch. */
  lemma EntryAmong(codec: Codec, t: Table, maxSeq: int, earlier: seq<HandleRecord>, v: HandleRecord,
                   later: seq<HandleRecord>, e: Prepared) returns (i: nat)
    requires forall u | u in earlier + [v] + later :: Usable(codec, t, u)
    requires Usable(codec, t, v)
    requires Consider(codec, Stored(codec, t, v.cert.subject), maxSeq, Prepare(codec, v).value, v) == Some(e)
    requires forall u | u in later :: Usable(codec, t, u)
    requires forall e | e in ToStore(codec, t, maxSeq, later) :: e.handle != v.cert.subject
    ensures var es := ToStore(codec, t, maxSeq, earlier + [v] + later);
      i < |es| && es[i] == e && forall j | i < j < |es| :: es[j].handle != e.handle
  {
    ToStoreConcat(codec, t, maxSeq, earlier + [v], later);
    ToStoreLast(codec, t, maxSeq, earlier, v);
    i := |ToStore(codec, t, maxSeq, earlier)|;
    var after := ToStore(codec, t, maxSeq, later);
    assert forall k | 0 <= k < |after| :: after[k] in after;
  }

  /** Main result. Every record is compared with the table as it was before the batch, never with an
      earlier record of the same batch. So when a batch repeats a handle, the last of its records that the
      filter keeps wins outright: the row is the one that record alone would have left, but for its number,
      whatever better records came before it. */
  lemma LastRecordWins(codec: Codec, db: Db, earlier: seq<HandleRecord>, v: HandleRecord,
                       later: seq<HandleRecord>, now: int)
    requires forall u | u in earlier + [v] + later :: Usable(codec, db.rows, u)
    requires Usable(codec, db.rows, v)
    requires Consider(codec, Stored(codec, db.rows, v.cert.subject), now + SIX_HOURS, Prepare(codec, v).value, v).Some?
    requires forall u | u in later :: u.cert.subject != v.cert.subject
    ensures var h := v.cert.subject;
      var all, alone := Update(codec, db, earlier + [v] + later, now).rows, Update(codec, db, [v], now).rows;
      h in all && h in alone && all[h] == alone[h].(syncSeq := all[h].syncSeq) && all[h].syncSeq > db.counter
  {
    var maxSeq := now + SIX_HOURS;
    var e := Consider(codec, Stored(codec, db.rows, v.cert.subject), maxSeq, Prepare(codec, v).value, v).value;
    EntriesElsewhere(codec, db.rows, maxSeq, later, v.cert.subject);
    var i := EntryAmong(codec, db.rows, maxSeq, earlier, v, later, e);
    var raised, es := UpdateUnfolded(codec, db, earlier + [v] + later, now);
    LastEntryWrites(codec, raised, es, db.counter, now, i);
    var k := EntryAmong(codec, db.rows, maxSeq, [], v, [], e);
    assert [] + [v] + [] == [v];
    var raised', es' := UpdateUnfolded(codec, db, [v], now);
    LastEntryWrites(codec, raised', es', db.counter, now, k);
  }
}
