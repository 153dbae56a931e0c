/** What a bulk update accepts and what it writes, told from the records, the stored zones and the clock
    alone: when a row is rewritten, and every column of the row that is written. */
module Acceptance {
  import opened Names
  import opened Tables
  import opened Accounting
  import opened UpdateRule
  import opened StoreRuns

  /** Record `u` may replace what is stored for its handle, where `was` is the zone stored there, if any:
      it is not from more than six hours ahead, and the handle is new, or the zone comparison prefers the
      record, or it is a higher proof from the same key that is no less final. */
  predicate Wins(codec: Codec, t: Table, now: int, u: HandleRecord, was: Zone) {
    && u.offchainSeq <= now + 21600 && u.delegateSeq <= now + 21600
    && (u.cert.subject !in t
        || codec.isBetterThan(u.zone, was) == Some(true)
        || (was.scriptPubkey == u.zone.scriptPubkey && was.anchor < u.zone.anchor
            && (was.sovereignty == Dependent || u.zone.sovereignty == Sovereign
                || was.sovereignty == u.zone.sovereignty)))
  }

  /** The owner's stored records go into the new zone: same key, some records stored, and the incoming zone
      has none or older ones. */
  predicate Merges(codec: Codec, t: Table, u: HandleRecord, was: Zone) {
    && u.cert.subject in t
    && was.scriptPubkey == u.zone.scriptPubkey
    && was.records.SignedRecords?
    && (u.zone.records.NoRecords? || was.records.seqNo.GetOr(0) > u.zone.records.seqNo.GetOr(0))
    && codec.encodeZone(u.zone.(records := was.records)).Some?
  }

  /** The stored certificate stays: a root certificate without receipt under an unchanged commitment. */
  predicate KeepsCert(t: Table, u: HandleRecord, was: Zone) {
    && u.cert.subject in t
    && u.cert.proof.RootWitness? && u.cert.proof.receipt.None?
    && u.zone.commitment.Exists? && was.commitment.Exists?
    && u.zone.commitment.stateRoot == was.commitment.stateRoot
  }

  /** A batch the store can work with: each record names its space and serialises, and each zone stored
      for one of its handles decodes. */
  predicate Readable(codec: Codec, t: Table, updates: seq<HandleRecord>) {
    forall u | u in updates ::
      && u.cert.space.Some? && codec.encodeCert(u.cert).Some? && codec.encodeZone(u.zone).Some?
      && (u.cert.subject in t ==> codec.decodeZone(t[u.cert.subject].zone).Some?)
  }

  /** `was` is the zone stored for `h`, if there is one. */
  predicate IsOld(codec: Codec, t: Table, h: string, was: Zone) {
    h in t ==> codec.decodeZone(t[h].zone) == Some(was)
  }

  lemma ReadableIsUsable(codec: Codec, t: Table, updates: seq<HandleRecord>)
    ensures Readable(codec, t, updates) <==> forall u | u in updates :: Usable(codec, t, u)
  {
  }

  /** The filter keeps exactly the winning records. */
  lemma WinsIffKept(codec: Codec, t: Table, now: int, u: HandleRecord, was: Zone) returns (kept: Option<Prepared>)
    requires Usable(codec, t, u) && IsOld(codec, t, u.cert.subject, was)
    ensures Wins(codec, t, now, u, was) <==> kept.Some?
    ensures forall e :: Stems(codec, t, now + SIX_HOURS, e, u) <==> kept == Some(e)
  {
    kept := Consider(codec, Stored(codec, t, u.cert.subject), now + SIX_HOURS, Prepare(codec, u).value, u);
  }

  lemma {:induction false} KeptIsEntry(codec: Codec, t: Table, maxSeq: int, updates: seq<HandleRecord>,
                                       u: HandleRecord, e: Prepared)
    requires forall v | v in updates :: Usable(codec, t, v)
    requires u in updates && Stems(codec, t, maxSeq, e, u)
    ensures e in ToStore(codec, t, maxSeq, updates)
    decreases |updates|
  {
    var n := |updates| - 1;
    if u != updates[n] {
      assert updates == updates[..n] + [updates[n]];
      KeptIsEntry(codec, t, maxSeq, updates[..n], u, e);
    }
  }

  /** An entry for `h` is a winning record of `h`. */
  lemma EntryWins(codec: Codec, t: Table, now: int, updates: seq<HandleRecord>, h: string, was: Zone, e: Prepared)
    requires forall u | u in updates :: Usable(codec, t, u)
    requires IsOld(codec, t, h, was)
    requires e in ToStore(codec, t, now + SIX_HOURS, updates) && e.handle == h
    ensures exists u :: u in updates && u.cert.subject == h && Wins(codec, t, now, u, was)
  {
    EntriesStem(codec, t, now + SIX_HOURS, updates);
    var u :| u in updates && Stems(codec, t, now + SIX_HOURS, e, u);
    var kept := WinsIffKept(codec, t, now, u, was);
  }

  lemma LastOf(es: seq<Prepared>, h: string) returns (i: nat)
    requires exists e :: e in es && e.handle == h
    ensures i < |es| && es[i].handle == h && forall j | i < j < |es| :: es[j].handle != h
    decreases |es|
  {
    i := |es| - 1;
    if es[i].handle != h {
      assert es == es[..i] + [es[i]];
      i := LastOf(es[..i], h);
    }
  }

  /** Main result. A batch rewrites the row of a handle if and only if some record of the batch for that
      handle wins over the stored zone: its numbers are at most six hours ahead, and the handle is new, or
      the zone comparison prefers it, or it is a higher proof under the same key and no less final.
      Otherwise the row is untouched. */
  lemma RewrittenIff(codec: Codec, db: Db, updates: seq<HandleRecord>, now: int, h: string, was: Zone)
    requires Readable(codec, db.rows, updates) && IsOld(codec, db.rows, h, was)
    requires h in db.rows ==> db.rows[h].syncSeq <= db.counter
    ensures var after := Update(codec, db, updates, now).rows;
      if exists u :: u in updates && u.cert.subject == h && Wins(codec, db.rows, now, u, was)
      then h in after && after[h].syncSeq > db.counter
      else (h in after <==> h in db.rows) && (h in after ==> after[h] == db.rows[h])
  {
    ReadableIsUsable(codec, db.rows, updates);
    var raised, es := UpdateUnfolded(codec, db, updates, now);
    if u :| u in updates && u.cert.subject == h && Wins(codec, db.rows, now, u, was) {
      var kept := WinsIffKept(codec, db.rows, now, u, was);
      KeptIsEntry(codec, db.rows, now + SIX_HOURS, updates, u, kept.value);
      var i := LastOf(es, h);
      LastEntryWrites(codec, raised, es, db.counter, now, i);
    } else if h in Update(codec, db, updates, now).rows {
      PutAllLast(codec, raised, es, db.counter, now, h);
      if e :| e in es && e.handle == h {
        EntryWins(codec, db.rows, now, updates, h, was, e);
      }
    }
  }

  /** Every column of the row that a winning record leaves, its number aside. */
  ghost predicate Written(codec: Codec, t: Table, now: int, u: HandleRecord, was: Zone, row: Row) {
    && Some(row.space) == u.cert.space
    && row.epochHeight == u.epochHeight && row.delegateSeq == u.delegateSeq && row.updatedAt == now
    && row.zoneHash == codec.hash(row.zone)
    && (if Merges(codec, t, u, was) then
          && Some(row.zone) == codec.encodeZone(u.zone.(records := was.records))
          && row.offchainSeq == was.records.seqNo.GetOr(0)
        else Some(row.zone) == codec.encodeZone(u.zone) && row.offchainSeq == u.offchainSeq)
    && (if KeepsCert(t, u, was) then row.cert == t[u.cert.subject].cert
        else Some(row.cert) == codec.encodeCert(u.cert))
  }

  lemma EntryIsWritten(codec: Codec, t: Table, now: int, u: HandleRecord, was: Zone, e: Prepared, seqNo: nat)
    requires Usable(codec, t, u) && IsOld(codec, t, u.cert.subject, was)
    requires Stems(codec, t, now + SIX_HOURS, e, u)
    ensures e.handle == u.cert.subject && (e.preserveCert ==> e.handle in t)
    ensures Written(codec, t, now, u, was, RowFor(codec, t, e, seqNo, now))
    ensures RowFor(codec, t, e, seqNo, now).syncSeq == seqNo
  {
  }

  /** Main result. The last winning record for a handle decides every column of its row, whatever the batch
      brings for the handle before it: its own values, except that the owner's newer records stay in the
      zone, with their number, and that a receipt-less root certificate under an unchanged commitment
      leaves the stored certificate. */
  lemma LastWinnerDecides(codec: Codec, db: Db, earlier: seq<HandleRecord>, v: HandleRecord,
                          later: seq<HandleRecord>, now: int, was: Zone)
    requires Readable(codec, db.rows, earlier + [v] + later) && IsOld(codec, db.rows, v.cert.subject, was)
    requires Wins(codec, db.rows, now, v, was)
    requires forall u | u in later && u.cert.subject == v.cert.subject :: !Wins(codec, db.rows, now, u, was)
    ensures var h, after := v.cert.subject, Update(codec, db, earlier + [v] + later, now);
      && h in after.rows && db.counter < after.rows[h].syncSeq <= after.counter
      && var row := after.rows[h];
         && Some(row.space) == v.cert.space
         && row.epochHeight == v.epochHeight && row.delegateSeq == v.delegateSeq && row.updatedAt == now
         && row.zoneHash == codec.hash(row.zone)
         && (if Merges(codec, db.rows, v, was) then
               && Some(row.zone) == codec.encodeZone(v.zone.(records := was.records))
               && row.offchainSeq == was.records.seqNo.GetOr(0)
             else Some(row.zone) == codec.encodeZone(v.zone) && row.offchainSeq == v.offchainSeq)
         && (if KeepsCert(db.rows, v, was) then row.cert == db.rows[h].cert
             else Some(row.cert) == codec.encodeCert(v.cert))
  {
    var t, maxSeq := db.rows, now + SIX_HOURS;
    var updates := earlier + [v] + later;
    ReadableIsUsable(codec, t, updates);
    assert v in updates && forall u | u in later :: u in updates;
    var kept := WinsIffKept(codec, t, now, v, was);
    var e := kept.value;
    forall f | f in ToStore(codec, t, maxSeq, later) ensures f.handle != v.cert.subject {
      if f.handle == v.cert.subject {
        EntryWins(codec, t, now, later, v.cert.subject, was, f);
      }
    }
    var i := EntryAmong(codec, t, maxSeq, earlier, v, later, e);
    var raised, es := UpdateUnfolded(codec, db, updates, now);
    LastEntryWrites(codec, raised, es, db.counter, now, i);
    EntryIsWritten(codec, t, now, v, was, e, db.counter + 1 + i);
  }

  /** The counter grows by what was stored, and the handles stored are those whose rows got new numbers. */
  lemma StoredAreNumbered(codec: Codec, db: Db, updates: seq<HandleRecord>, now: int, stored: seq<Prepared>)
    requires Readable(codec, db.rows, updates) && Sequenced(db.rows, db.counter)
    requires forall u | u in updates :: Usable(codec, db.rows, u)
    requires stored == ToStore(codec, db.rows, now + SIX_HOURS, updates)
    ensures var after := Update(codec, db, updates, now);
      && after.counter == db.counter + |stored|
      && (forall e | e in stored :: e.handle in after.rows && after.rows[e.handle].syncSeq > db.counter)
      && forall h | h in after.rows && after.rows[h].syncSeq > db.counter :: exists e :: e in stored && e.handle == h
  {
    var raised, es := UpdateUnfolded(codec, db, updates, now);
    forall e | e in es
      ensures e.handle in Update(codec, db, updates, now).rows
      ensures Update(codec, db, updates, now).rows[e.handle].syncSeq > db.counter
    {
      var i := LastOf(es, e.handle);
      LastEntryWrites(codec, raised, es, db.counter, now, i);
    }
    forall h | h in Update(codec, db, updates, now).rows && Update(codec, db, updates, now).rows[h].syncSeq > db.counter
      ensures exists e :: e in es && e.handle == h
    {
      PutAllLast(codec, raised, es, db.counter, now, h);
    }
  }
}
