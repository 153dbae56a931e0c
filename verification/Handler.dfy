/** From a verified message to the store (relay/src/handler.rs, `handle_message_opts`): which of its
    certificates become records for a bulk update, and why skipping redeliveries early is invisible. */
module Handler {
  import opened Names
  import opened Tables
  import opened Accounting
  import opened UpdateRule
  import opened StoreRuns
  import opened Store

  /** A verified message: its certificates, the verified zone of each handle, and the epoch height of
      each space whose root zone is in it. */
  datatype Verified = Verified(certs: seq<Certificate>, zones: map<string, Zone>, epochs: map<string, nat>)

  /** What is read off a zone, the caller's options, and the limiters: `limited(i)` says that the
      limiter of certificate `i`'s space or handle is exhausted. */
  datatype Options = Options(
    recordBytes: Zone -> nat, delegateSeq: Zone -> nat, gatedSpaces: set<string>, chargeLimits: bool,
    limited: nat -> bool)

  const MAX_RECORDS_SIZE: nat := 1024

  /** What became of one certificate. */
  datatype Fate = NoZone | TooLarge | NoSpace | Redelivered | Gated | Limited | Passed

  /** The record a certificate makes, if its zone was verified, is small enough, and it names a space. */
  function RecordOf(m: Verified, o: Options, i: nat): Option<HandleRecord>
    requires i < |m.certs|
  {
    var cert := m.certs[i];
    if cert.subject !in m.zones then None
    else if o.recordBytes(m.zones[cert.subject]) > MAX_RECORDS_SIZE then None
    else
      match cert.space
      case None => None
      case Some(space) =>
        var zone := m.zones[cert.subject];
        Some(HandleRecord(cert, zone, if space in m.epochs then m.epochs[space] else 0,
                          RecordsSeq(zone.records), o.delegateSeq(zone)))
  }

  /** Identical metadata and identical zone bytes, by their hash. */
  predicate IsRedelivery(codec: Codec, t: Table, u: HandleRecord) {
    && u.cert.subject in t
    && var row := t[u.cert.subject];
       && (row.epochHeight, row.offchainSeq, row.delegateSeq) == (u.epochHeight, u.offchainSeq, u.delegateSeq)
       && codec.encodeZone(u.zone).Some? && codec.hash(codec.encodeZone(u.zone).value) == row.zoneHash
  }

  /** `charges_churn`. */
  predicate ChargesChurn(storedEpoch: Option<nat>, incomingEpoch: nat) {
    storedEpoch.Some? && incomingEpoch <= storedEpoch.value
  }

  predicate IsGated(t: Table, o: Options, u: HandleRecord) {
    u.cert.subject !in t && u.cert.space.Some? && u.cert.space.value in o.gatedSpaces
  }

  predicate IsLimited(t: Table, o: Options, i: nat, u: HandleRecord) {
    && o.chargeLimits
    && ChargesChurn(if u.cert.subject in t then Some(t[u.cert.subject].epochHeight) else None, u.epochHeight)
    && o.limited(i)
  }

  function FateOf(codec: Codec, t: Table, m: Verified, o: Options, i: nat): Fate
    requires i < |m.certs|
  {
    if m.certs[i].subject !in m.zones then NoZone
    else if o.recordBytes(m.zones[m.certs[i].subject]) > MAX_RECORDS_SIZE then TooLarge
    else
      match RecordOf(m, o, i)
      case None => NoSpace
      case Some(u) =>
        if IsRedelivery(codec, t, u) then Redelivered
        else if IsGated(t, o, u) then Gated
        else if IsLimited(t, o, i, u) then Limited
        else Passed
  }

  /** The records passed to the store, from the first `n` certificates. */
  function PassedOn(codec: Codec, t: Table, m: Verified, o: Options, n: nat): seq<HandleRecord>
    requires n <= |m.certs|
  {
    if n == 0 then []
    else
      PassedOn(codec, t, m, o, n - 1)
        + if FateOf(codec, t, m, o, n - 1) == Passed && RecordOf(m, o, n - 1).Some?
          then [RecordOf(m, o, n - 1).value] else []
  }

  function Count(codec: Codec, t: Table, m: Verified, o: Options, n: nat, fate: Fate): nat
    requires n <= |m.certs|
  {
    if n == 0 then 0
    else Count(codec, t, m, o, n - 1, fate) + if FateOf(codec, t, m, o, n - 1) == fate then 1 else 0
  }

  /** The certificates name the space of their subject. */
  predicate Named(m: Verified) {
    forall c | c in m.certs :: c.space.Some? ==> c.space == Some(SpaceName(c.subject))
  }

  lemma {:induction false} PassedAreNamed(codec: Codec, t: Table, m: Verified, o: Options, n: nat)
    requires Named(m) && n <= |m.certs|
    ensures forall u | u in PassedOn(codec, t, m, o, n) :: SpaceNamed(u) && Derived(u)
    decreases n
  {
    if n > 0 {
      PassedAreNamed(codec, t, m, o, n - 1);
      assert m.certs[n - 1] in m.certs;
    }
  }

  /** Main result. What decides each certificate's fate: no verified zone; more than 1024 bytes of records; no
      space; then, with the epoch of its space (0 if the message has no root zone of it), the number of its
      records and that of its delegate: a row with the same three numbers and the hash of the zone; a new
      handle of a gated space; and, where limits are charged, a stored row of the same epoch or a later one
      with the limiter exhausted. */
  lemma FateMeans(codec: Codec, t: Table, m: Verified, o: Options, i: nat)
    requires i < |m.certs|
    ensures var cert, fate := m.certs[i], FateOf(codec, t, m, o, i);
      && (fate == NoZone <==> cert.subject !in m.zones)
      && (fate == TooLarge <==> cert.subject in m.zones && o.recordBytes(m.zones[cert.subject]) > 1024)
      && (fate == NoSpace <==>
            cert.subject in m.zones && o.recordBytes(m.zones[cert.subject]) <= 1024 && cert.space == None)
      && (fate !in {NoZone, TooLarge, NoSpace} ==>
            var h, zone, space := cert.subject, m.zones[cert.subject], cert.space.value;
            var epoch := if space in m.epochs then m.epochs[space] else 0;
            && (fate == Redelivered <==>
                  && h in t && t[h].epochHeight == epoch && t[h].offchainSeq == RecordsSeq(zone.records)
                  && t[h].delegateSeq == o.delegateSeq(zone)
                  && codec.encodeZone(zone).Some? && codec.hash(codec.encodeZone(zone).value) == t[h].zoneHash)
            && (fate == Gated <==> h !in t && space in o.gatedSpaces)
            && (fate == Limited <==>
                  fate != Redelivered && o.chargeLimits && h in t && epoch <= t[h].epochHeight && o.limited(i)))
  {
  }

  /** Main result. The records passed on are those of the certificates whose fate it is, in order: the
      certificate after `k` others that passed makes record `k`, out of its own zone, the epoch of its space,
      and the numbers read off the zone. */
  lemma {:induction false} PassedInOrder(codec: Codec, t: Table, m: Verified, o: Options, n: nat)
    requires n <= |m.certs|
    ensures |PassedOn(codec, t, m, o, n)| == Count(codec, t, m, o, n, Passed)
    ensures forall i: nat | i < n && FateOf(codec, t, m, o, i) == Passed ::
      && Count(codec, t, m, o, i, Passed) < |PassedOn(codec, t, m, o, n)|
      && m.certs[i].subject in m.zones && m.certs[i].space.Some?
      && var u, zone := PassedOn(codec, t, m, o, n)[Count(codec, t, m, o, i, Passed)], m.zones[m.certs[i].subject];
         var space := m.certs[i].space.value;
         && u.cert == m.certs[i] && u.zone == zone
         && u.epochHeight == (if space in m.epochs then m.epochs[space] else 0)
         && u.offchainSeq == RecordsSeq(zone.records) && u.delegateSeq == o.delegateSeq(zone)
    decreases n
  {
    if n > 0 {
      PassedInOrder(codec, t, m, o, n - 1);
    }
  }

  /** Each certificate is counted once, whatever its fate. */
  lemma {:induction false} FatesAddUp(codec: Codec, t: Table, m: Verified, o: Options, n: nat)
    requires n <= |m.certs|
    ensures Count(codec, t, m, o, n, NoZone) + Count(codec, t, m, o, n, TooLarge)
          + Count(codec, t, m, o, n, NoSpace) + Count(codec, t, m, o, n, Redelivered)
          + Count(codec, t, m, o, n, Gated) + Count(codec, t, m, o, n, Limited)
          + Count(codec, t, m, o, n, Passed) == n
    decreases n
  {
    if n > 0 {
      FatesAddUp(codec, t, m, o, n - 1);
    }
  }

  class MessageHandler {
    const store: SqliteStore

    constructor (store: SqliteStore)
      ensures this.store == store
    {
      this.store := store;
    }

    /** The filter over the certificates, and its two counters. */
    method Sift(m: Verified, o: Options) returns (updates: seq<HandleRecord>, preskipped: nat, gated: nat)
      ensures updates == PassedOn(store.codec, store.handles, m, o, |m.certs|)
      ensures preskipped == Count(store.codec, store.handles, m, o, |m.certs|, Redelivered)
      ensures gated == Count(store.codec, store.handles, m, o, |m.certs|, Gated)
    {
      updates, preskipped, gated := [], 0, 0;
      for i := 0 to |m.certs|
        invariant updates == PassedOn(store.codec, store.handles, m, o, i)
        invariant preskipped == Count(store.codec, store.handles, m, o, i, Redelivered)
        invariant gated == Count(store.codec, store.handles, m, o, i, Gated)
      {
        match RecordOf(m, o, i)
        case None =>
        case Some(u) =>
          if IsRedelivery(store.codec, store.handles, u) {
            preskipped := preskipped + 1;
          } else if IsGated(store.handles, o, u) {
            gated := gated + 1;
          } else if !IsLimited(store.handles, o, i, u) {
            updates := updates + [u];
          }
      }
    }

    /** A verified message is stored exactly as a bulk update of the records that pass the filter, or
        refused as a whole; redeliveries are counted as skipped, gated first inserts as gated. */
    method HandleMessage(m: Verified, o: Options, now: int) returns (r: Result<BulkStoreResult>)
      requires store.Valid() && Named(m)
      modifies store
      ensures store.Valid() && store.watermarks == old(store.watermarks)
      ensures var passed := PassedOn(store.codec, old(store.handles), m, o, |m.certs|);
        && store.State() == Update(store.codec, old(store.State()), passed, now)
        && (r.Success? <==> forall u | u in passed :: Usable(store.codec, old(store.handles), u))
        && (r.Success? ==>
              && r.value.skipped + r.value.stored
                   == |passed| + Count(store.codec, old(store.handles), m, o, |m.certs|, Redelivered)
              && r.value.gated == Count(store.codec, old(store.handles), m, o, |m.certs|, Gated)
              && r.value.storedHandles
                   == HandlesOf(ToStore(store.codec, old(store.handles), now + SIX_HOURS, passed)))
      ensures r.Success? ==>
        r.value.stored + r.value.skipped + r.value.gated == |m.certs|
          - Count(store.codec, old(store.handles), m, o, |m.certs|, NoZone)
          - Count(store.codec, old(store.handles), m, o, |m.certs|, TooLarge)
          - Count(store.codec, old(store.handles), m, o, |m.certs|, NoSpace)
          - Count(store.codec, old(store.handles), m, o, |m.certs|, Limited)
    {
      PassedInOrder(store.codec, store.handles, m, o, |m.certs|);
      FatesAddUp(store.codec, store.handles, m, o, |m.certs|);
      var updates, preskipped, gated := Sift(m, o);
      PassedAreNamed(store.codec, store.handles, m, o, |m.certs|);
      r := store.UpdateHandles(updates, now);
      if r.Success? {
        r := Success(r.value.(skipped := r.value.skipped + preskipped, gated := r.value.gated + gated));
      }
    }
  }

  // ---- skipping early changes nothing --------------------------------------------------------------

  /** The batch without its redeliveries. */
  function Sifted(codec: Codec, t: Table, us: seq<HandleRecord>): seq<HandleRecord> {
    if us == [] then []
    else
      Sifted(codec, t, us[..|us| - 1])
        + if IsRedelivery(codec, t, us[|us| - 1]) then [] else [us[|us| - 1]]
  }

  /** What skipping a record early relies on: its zone does not collide with the stored one under the
      hash, and it is not better than itself. */
  ghost predicate Discerns(codec: Codec, t: Table, u: HandleRecord) {
    u.cert.subject in t && codec.encodeZone(u.zone).Some? ==>
      && (codec.hash(codec.encodeZone(u.zone).value) == codec.hash(t[u.cert.subject].zone) ==>
            codec.encodeZone(u.zone).value == t[u.cert.subject].zone)
      && !codec.isBetterThan(u.zone, u.zone).GetOr(false)
  }

  /** A redelivery is a record that the update rule would skip. */
  lemma RedeliveryIsSkipped(codec: Codec, t: Table, maxSeq: int, u: HandleRecord)
    requires Faithful(codec) && ColumnsAgree(codec, t) && Discerns(codec, t, u)
    requires Usable(codec, t, u) && IsRedelivery(codec, t, u)
    ensures Consider(codec, Stored(codec, t, u.cert.subject), maxSeq, Prepare(codec, u).value, u) == None
  {
    var bytes := codec.encodeZone(u.zone).value;
    assert bytes == t[u.cert.subject].zone;
    assert Stored(codec, t, u.cert.subject) == Some(u.zone);
    assert !Accepted(codec, u.zone, u.zone);
  }

  lemma {:induction false} SiftedMembers(codec: Codec, t: Table, us: seq<HandleRecord>)
    ensures forall u | u in Sifted(codec, t, us) :: u in us
    decreases |us|
  {
    if us != [] {
      SiftedMembers(codec, t, us[..|us| - 1]);
    }
  }

  lemma SiftedLast(codec: Codec, t: Table, us: seq<HandleRecord>, u: HandleRecord)
    ensures Sifted(codec, t, us + [u]) == Sifted(codec, t, us) + if IsRedelivery(codec, t, u) then [] else [u]
  {
    assert (us + [u])[..|us|] == us;
  }

  lemma {:induction false} SameToStore(codec: Codec, t: Table, maxSeq: int, us: seq<HandleRecord>)
    requires Faithful(codec) && ColumnsAgree(codec, t)
    requires forall u | u in us :: Usable(codec, t, u) && Discerns(codec, t, u)
    ensures forall u | u in Sifted(codec, t, us) :: Usable(codec, t, u)
    ensures ToStore(codec, t, maxSeq, Sifted(codec, t, us)) == ToStore(codec, t, maxSeq, us)
    decreases |us|
  {
    SiftedMembers(codec, t, us);
    if us != [] {
      var n := |us| - 1;
      var front, u := us[..n], us[n];
      assert us == front + [u];
      SameToStore(codec, t, maxSeq, front);
      ToStoreLast(codec, t, maxSeq, front, u);
      SiftedLast(codec, t, front, u);
      if IsRedelivery(codec, t, u) {
        RedeliveryIsSkipped(codec, t, maxSeq, u);
        assert Sifted(codec, t, us) == Sifted(codec, t, front);
        assert ToStore(codec, t, maxSeq, us) == ToStore(codec, t, maxSeq, front);
      } else {
        ToStoreLast(codec, t, maxSeq, Sifted(codec, t, front), u);
      }
    }
  }

  /** Main result. Dropping redeliveries before the bulk update leaves the same database, row for row,
      number for number, as handing the whole batch to the update rule. */
  lemma SkippingEarlyIsInvisible(codec: Codec, db: Db, us: seq<HandleRecord>, now: int)
    requires Faithful(codec) && ColumnsAgree(codec, db.rows)
    requires forall u | u in us :: Usable(codec, db.rows, u) && Discerns(codec, db.rows, u)
    ensures Update(codec, db, Sifted(codec, db.rows, us), now) == Update(codec, db, us, now)
  {
    SameToStore(codec, db.rows, now + SIX_HOURS, us);
    var raised, es := UpdateUnfolded(codec, db, us, now);
    var raised', es' := UpdateUnfolded(codec, db, Sifted(codec, db.rows, us), now);
    assert es == es' && raised == raised';
  }

  /** The records of a message that storage pressure does not keep out. */
  function Admitted(t: Table, m: Verified, o: Options, n: nat): seq<HandleRecord>
    requires n <= |m.certs|
  {
    if n == 0 then []
    else
      Admitted(t, m, o, n - 1)
        + match RecordOf(m, o, n - 1)
          case None => []
          case Some(u) => if IsGated(t, o, u) then [] else [u]
  }

  lemma {:induction false} PassedIsSifted(codec: Codec, t: Table, m: Verified, o: Options, n: nat)
    requires n <= |m.certs| && !o.chargeLimits
    ensures PassedOn(codec, t, m, o, n) == Sifted(codec, t, Admitted(t, m, o, n))
    decreases n
  {
    if n > 0 {
      PassedIsSifted(codec, t, m, o, n - 1);
      var before, after := Admitted(t, m, o, n - 1), Admitted(t, m, o, n);
      if |after| > |before| {
        assert after[..|after| - 1] == before;
      } else {
        assert after == before;
      }
    }
  }

  /** Main result. A message taken without charging the limiters, as sync takes it, leaves the database
      as a bulk update of every admitted record would: nothing is lost behind the watermark to a limiter
      or to the early skip. */
  lemma SyncLosesNothing(codec: Codec, db: Db, m: Verified, o: Options, now: int)
    requires Faithful(codec) && ColumnsAgree(codec, db.rows)
    requires !o.chargeLimits
    requires forall u | u in Admitted(db.rows, m, o, |m.certs|) ::
      Usable(codec, db.rows, u) && Discerns(codec, db.rows, u)
    ensures Update(codec, db, PassedOn(codec, db.rows, m, o, |m.certs|), now)
         == Update(codec, db, Admitted(db.rows, m, o, |m.certs|), now)
  {
    PassedIsSifted(codec, db.rows, m, o, |m.certs|);
    SkippingEarlyIsInvisible(codec, db, Admitted(db.rows, m, o, |m.certs|), now);
  }
}
