/** The relay's store (`SqliteStore`): the tables and the operations that read and change them in
    place. Each operation is proved against the functions of the other modules. */
module Store {
  import opened Names
  import opened Tables
  import opened Totals
  import opened Pages
  import opened Accounting
  import opened UpdateRule
  import opened StoreRuns
  import C = Acceptance
  import B = Backfill
  import E = Eviction
  import R = Replication

  /** `BulkStoreResult`. */
  datatype BulkStoreResult = BulkStoreResult(stored: nat, skipped: nat, gated: nat, storedHandles: seq<string>)

  /** `SyncSummary`. */
  datatype SyncSummary = Summary(count: nat, latestCursor: Option<nat>)

  function HandlesOf(es: seq<Prepared>): seq<string> {
    seq(|es|, i requires 0 <= i < |es| => es[i].handle)
  }

  lemma HandlesListed(es: seq<Prepared>)
    ensures |HandlesOf(es)| == |es|
    ensures forall h :: h in HandlesOf(es) <==> exists e :: e in es && e.handle == h
  {
    forall e | e in es ensures e.handle in HandlesOf(es) {
      var i :| 0 <= i < |es| && es[i] == e;
      assert HandlesOf(es)[i] == e.handle;
    }
  }

  function Outcome(updates: seq<HandleRecord>, es: seq<Prepared>): BulkStoreResult
    requires |es| <= |updates|
  {
    BulkStoreResult(|es|, |updates| - |es|, 0, HandlesOf(es))
  }

  /** A batch is refused exactly when some record of it is not usable; otherwise the result lists what
      the filter let through. */
  ghost predicate Reports(codec: Codec, before: Db, updates: seq<HandleRecord>, now: int, r: Result<BulkStoreResult>) {
    if forall u | u in updates :: Usable(codec, before.rows, u) then
      r == Success(Outcome(updates, ToStore(codec, before.rows, now + SIX_HOURS, updates)))
    else r.Failure?
  }

  /** A record whose certificate names a space names the space of its handle. */
  predicate SpaceNamed(u: HandleRecord) {
    u.cert.space.Some? ==> u.cert.space == Some(SpaceName(u.cert.subject))
  }

  lemma {:induction false} EntrySpaces(codec: Codec, t: Table, maxSeq: int, updates: seq<HandleRecord>)
    requires forall u | u in updates :: Usable(codec, t, u) && SpaceNamed(u)
    ensures forall e | e in ToStore(codec, t, maxSeq, updates) :: e.space == SpaceName(e.handle)
    decreases |updates|
  {
    if updates != [] {
      EntrySpaces(codec, t, maxSeq, updates[..|updates| - 1]);
      assert Usable(codec, t, updates[|updates| - 1]) && SpaceNamed(updates[|updates| - 1]);
    }
  }

  lemma PutAllKeepsSpaces(codec: Codec, db: Db, es: seq<Prepared>, base: nat, now: int)
    requires SpacesAgree(db.rows)
    requires forall e | e in es :: e.space == SpaceName(e.handle)
    requires forall e | e in es :: e.preserveCert ==> e.handle in db.rows
    ensures SpacesAgree(PutAll(codec, db, es, base, now).rows)
  {
    forall h | h in PutAll(codec, db, es, base, now).rows
      ensures PutAll(codec, db, es, base, now).rows[h].space == SpaceName(h)
    {
      PutAllLast(codec, db, es, base, now, h);
    }
  }

  lemma UpdateKeepsSpaces(codec: Codec, db: Db, updates: seq<HandleRecord>, now: int)
    requires SpacesAgree(db.rows)
    requires forall u | u in updates :: Usable(codec, db.rows, u) && SpaceNamed(u)
    ensures SpacesAgree(Update(codec, db, updates, now).rows)
  {
    EntrySpaces(codec, db.rows, now + SIX_HOURS, updates);
    var raised, es := UpdateUnfolded(codec, db, updates, now);
    PutAllKeepsSpaces(codec, raised, es, db.counter, now);
  }

  /** What holds of a database between operations. */
  ghost predicate WellKept(db: Db) {
    Recount(db) && Sequenced(db.rows, db.counter) && SpacesAgree(db.rows)
  }

  lemma UpdateKeepsWell(codec: Codec, db: Db, updates: seq<HandleRecord>, now: int)
    requires WellKept(db)
    requires forall u | u in updates :: Usable(codec, db.rows, u) && SpaceNamed(u)
    ensures WellKept(Update(codec, db, updates, now))
  {
    ApplyRecounts(codec, db, Batch(updates, now));
    ApplySequenced(codec, db, Batch(updates, now));
    UpdateKeepsSpaces(codec, db, updates, now);
  }

  lemma DropKeepsWell(codec: Codec, db: Db, handles: seq<string>)
    requires WellKept(db)
    ensures WellKept(DropAll(db, handles))
  {
    ApplyRecounts(codec, db, Evict(handles));
    ApplySequenced(codec, db, Evict(handles));
    DropAllRemovesListed(db, handles);
  }

  /** A database before its first migration: rows without a number, and possibly no accounting. */
  ghost predicate Migratable(db: Db) {
    && (forall h, k | h in db.rows && k in db.rows && db.rows[h].syncSeq == db.rows[k].syncSeq > 0 :: h == k)
    && (forall h | h in db.rows :: db.rows[h].syncSeq <= db.counter)
    && SpacesAgree(db.rows)
    && (Recount(db) || (db.totalRows == 0 && db.totalBytes == 0 && db.buckets == map[]))
  }

  lemma OneRowLess(t: Tables.Table, h: string)
    requires h in t
    ensures |t - {h}| == |t| - 1
  {
    assert (t - {h}).Keys == t.Keys - {h};
  }

  // ---- watermarks ----------------------------------------------------------------------------------

  type Watermarks = map<string, nat>

  function MarkOf(marks: Watermarks, peer: string): Option<nat> {
    if peer in marks then Some(marks[peer]) else None
  }

  /** INSERT OR REPLACE, once for each of these. */
  function MarksAfter(marks: Watermarks, sets: seq<(string, nat)>): Watermarks {
    if sets == [] then marks
    else
      var last := sets[|sets| - 1];
      MarksAfter(marks, sets[..|sets| - 1])[last.0 := last.1]
  }

  ghost predicate LastSet(sets: seq<(string, nat)>, peer: string, cursor: nat) {
    exists i :: 0 <= i < |sets| && sets[i] == (peer, cursor) && forall j | i < j < |sets| :: sets[j].0 != peer
  }

  /** What is read for a peer is what was last set for that peer, whatever was set for others in between:
      nothing if nothing was. */
  lemma {:induction false} LastSetIsRead(sets: seq<(string, nat)>, peer: string, cursor: nat)
    ensures MarkOf(MarksAfter(map[], sets), peer) == Some(cursor) <==> LastSet(sets, peer, cursor)
    ensures MarkOf(MarksAfter(map[], sets), peer) == None <==> forall s | s in sets :: s.0 != peer
    decreases |sets|
  {
    if sets != [] {
      var front, last := sets[..|sets| - 1], sets[|sets| - 1];
      assert sets == front + [last];
      LastSetIsRead(front, peer, cursor);
      LastSetGrows(front, last, peer, cursor);
    }
  }

  lemma LastSetGrows(front: seq<(string, nat)>, last: (string, nat), peer: string, cursor: nat)
    ensures LastSet(front + [last], peer, cursor) <==>
      if last.0 == peer then last.1 == cursor else LastSet(front, peer, cursor)
  {
    var sets := front + [last];
    assert sets[|front|] == last;
    if last.0 == peer {
      if LastSet(sets, peer, cursor) {
        var i :| 0 <= i < |sets| && sets[i] == (peer, cursor) && forall j | i < j < |sets| :: sets[j].0 != peer;
        assert i == |front|;
      }
      assert last.1 == cursor ==> sets[|front|] == (peer, cursor);
    }
    if last.0 != peer && LastSet(front, peer, cursor) {
      var i :| 0 <= i < |front| && front[i] == (peer, cursor) && forall j | i < j < |front| :: front[j].0 != peer;
      assert sets[i] == (peer, cursor);
      assert forall j | i < j < |front| :: sets[j] == front[j];
    }
    if last.0 != peer && LastSet(sets, peer, cursor) {
      var i :| 0 <= i < |sets| && sets[i] == (peer, cursor) && forall j | i < j < |sets| :: sets[j].0 != peer;
      assert i < |front| && front[i] == sets[i];
      assert forall j | i < j < |front| :: front[j] == sets[j];
    }
  }

  lemma ListOneMore(list: seq<string>, s: set<string>, h: string)
    requires Lists(list, s) && h !in s
    ensures Lists(list + [h], s + {h})
  {
  }

  class SqliteStore {
    var handles: Tables.Table
    var counter: nat
    var buckets: map<Bucket, int>
    var totalRows: int
    var totalBytes: int
    /** `sync_watermarks`: the cursor per peer URL. */
    var watermarks: map<string, nat>
    const codec: Codec

    ghost function State(): Db
      reads this
    {
      Db(handles, counter, buckets, totalRows, totalBytes)
    }

    ghost predicate Valid()
      reads this
    {
      WellKept(State())
    }

    constructor Empty(codec: Codec)
      ensures Valid() && State() == EMPTY && watermarks == map[] && this.codec == codec
      ensures handles == map[] && counter == 0 && buckets == map[] && totalRows == totalBytes == 0
    {
      this.codec := codec;
      handles, counter, buckets, totalRows, totalBytes := map[], 0, map[], 0, 0;
      watermarks := map[];
      new;
      assert TableBytes(map[]) == 0;
    }

    // ---- row changes, with their triggers ----------------------------------------------------------

    /** DELETE of one row. */
    method Drop(h: string)
      requires h in handles
      modifies this
      ensures State() == DropRow(old(State()), h) && watermarks == old(watermarks)
    {
      var row := handles[h];
      handles := handles - {h};
      if BucketOf(row) in buckets {
        buckets := buckets[BucketOf(row) := buckets[BucketOf(row)] - 1];
      }
      totalRows, totalBytes := totalRows - 1, totalBytes - RowBytes(row);
    }

    /** INSERT OR REPLACE of one row. */
    method Put(h: string, row: Row)
      modifies this
      ensures State() == PutRow(old(State()), h, row) && watermarks == old(watermarks)
    {
      if h in handles {
        Drop(h);
      }
      handles := handles[h := row];
      if BucketOf(row) in buckets {
        buckets := buckets[BucketOf(row) := buckets[BucketOf(row)] + 1];
      } else {
        buckets := buckets[BucketOf(row) := 1];
      }
      totalRows, totalBytes := totalRows + 1, totalBytes + RowBytes(row);
    }

    // ---- update_handles ----------------------------------------------------------------------------

    /** Serialise every record of the batch; refuse the batch if one fails. */
    method PrepareAll(updates: seq<HandleRecord>) returns (ok: bool, entries: seq<Prepared>)
      ensures ok <==> forall u | u in updates :: Prepare(codec, u).Some?
      ensures ok ==>
        |entries| == |updates| && forall i | 0 <= i < |updates| :: Prepare(codec, updates[i]) == Some(entries[i])
    {
      ok, entries := true, [];
      for i := 0 to |updates|
        invariant |entries| == i
        invariant forall k | 0 <= k < i :: Prepare(codec, updates[k]) == Some(entries[k])
      {
        match Prepare(codec, updates[i])
        case None =>
          assert updates[i] in updates;
          ok := false;
          return;
        case Some(e) => entries := entries + [e];
      }
    }

    /** The zones stored for the handles of the batch; refuse the batch if one does not decode. */
    method GetZones(updates: seq<HandleRecord>) returns (ok: bool, zones: map<string, Zone>)
      ensures ok <==> forall u | u in updates ::
        u.cert.subject in handles ==> codec.decodeZone(handles[u.cert.subject].zone).Some?
      ensures ok ==> forall u | u in updates ::
        Stored(codec, handles, u.cert.subject) == if u.cert.subject in zones then Some(zones[u.cert.subject]) else None
    {
      ok, zones := true, map[];
      for i := 0 to |updates|
        invariant forall h | h in zones :: Stored(codec, handles, h) == Some(zones[h])
        invariant forall k | 0 <= k < i :: updates[k].cert.subject in handles ==> updates[k].cert.subject in zones
      {
        var h := updates[i].cert.subject;
        if h in handles {
          match codec.decodeZone(handles[h].zone)
          case None =>
            assert updates[i] in updates;
            ok := false;
            return;
          case Some(z) => zones := zones[h := z];
        }
      }
    }

    method Filter(entries: seq<Prepared>, updates: seq<HandleRecord>, zones: map<string, Zone>, maxSeq: int)
      returns (toStore: seq<Prepared>)
      requires forall u | u in updates :: Usable(codec, handles, u)
      requires |entries| == |updates| && forall i | 0 <= i < |updates| :: Prepare(codec, updates[i]) == Some(entries[i])
      requires forall u | u in updates ::
        Stored(codec, handles, u.cert.subject) == if u.cert.subject in zones then Some(zones[u.cert.subject]) else None
      ensures toStore == ToStore(codec, handles, maxSeq, updates)
    {
      toStore := [];
      for i := 0 to |updates|
        invariant toStore == ToStore(codec, handles, maxSeq, updates[..i])
      {
        var u := updates[i];
        assert u in updates && updates[..i + 1][..i] == updates[..i];
        var existing := if u.cert.subject in zones then Some(zones[u.cert.subject]) else None;
        match Consider(codec, existing, maxSeq, entries[i], u)
        case Some(e) => toStore := toStore + [e];
        case None =>
      }
      assert updates[..|updates|] == updates;
    }

    /** The rows a bulk insert writes, all computed before the first of them is written. */
    method MakeRows(es: seq<Prepared>, base: nat, now: int) returns (rows: seq<Row>)
      requires forall e | e in es :: e.preserveCert ==> e.handle in handles
      ensures |rows| == |es|
      ensures forall i | 0 <= i < |es| ::
        (es[i].preserveCert ==> es[i].handle in handles) && rows[i] == RowFor(codec, handles, es[i], base + 1 + i, now)
    {
      rows := [];
      for i := 0 to |es|
        invariant |rows| == i
        invariant forall k | 0 <= k < i ::
          && (es[k].preserveCert ==> es[k].handle in handles)
          && rows[k] == RowFor(codec, handles, es[k], base + 1 + k, now)
      {
        assert es[i] in es;
        rows := rows + [RowFor(codec, handles, es[i], base + 1 + i, now)];
      }
    }

    /** The bulk INSERT OR REPLACE: one statement over all entries. */
    method InsertAll(es: seq<Prepared>, base: nat, now: int)
      requires forall e | e in es :: e.preserveCert ==> e.handle in handles
      modifies this
      ensures State() == PutAll(codec, old(State()), es, base, now)
      ensures watermarks == old(watermarks)
    {
      var rows := MakeRows(es, base, now);
      for i := 0 to |es|
        invariant State() == PutAll(codec, old(State()), es[..i], base, now)
        invariant watermarks == old(watermarks)
      {
        assert es[i] in es;
        assert es[..i + 1][..i] == es[..i];
        Put(es[i].handle, rows[i]);
      }
      assert es[..|es|] == es;
    }

    /** The transaction: counter first, then the rows. Nothing to store means no transaction. */
    method Commit(toStore: seq<Prepared>, now: int)
      requires forall e | e in toStore :: e.preserveCert ==> e.handle in handles
      modifies this
      ensures State() == PutAll(codec, old(State().(counter := counter + |toStore|)), toStore, old(counter), now)
      ensures watermarks == old(watermarks)
    {
      if toStore != [] {
        var base := counter;
        counter := counter + |toStore|;
        InsertAll(toStore, base, now);
      }
    }

    /** The second half of a bulk update: what the filter kept is stored. */
    method StoreKept(updates: seq<HandleRecord>, toStore: seq<Prepared>, now: int)
      requires forall u | u in updates :: Usable(codec, handles, u)
      requires toStore == ToStore(codec, handles, now + SIX_HOURS, updates)
      modifies this
      ensures watermarks == old(watermarks)
      ensures State() == Update(codec, old(State()), updates, now)
    {
      ghost var raised, es := UpdateUnfolded(codec, State(), updates, now);
      assert State().(counter := counter + |toStore|) == raised;
      Commit(toStore, now);
    }

    /** The first half of a bulk update: everything that can refuse the batch, and the filter. */
    method Select(updates: seq<HandleRecord>, now: int) returns (ok: bool, toStore: seq<Prepared>)
      ensures ok <==> forall u | u in updates :: Usable(codec, handles, u)
      ensures ok ==> toStore == ToStore(codec, handles, now + SIX_HOURS, updates)
    {
      toStore := [];
      var entries, zones;
      ok, entries := PrepareAll(updates);
      if ok {
        ok, zones := GetZones(updates);
        if ok {
          toStore := Filter(entries, updates, zones, now + SIX_HOURS);
        }
      }
    }

    /** A bulk update either is refused as a whole and changes nothing, or changes the tables as
        `UpdateRule.Update` says and reports what it stored. */
    method UpdateHandles(updates: seq<HandleRecord>, now: int) returns (r: Result<BulkStoreResult>)
      requires Valid()
      requires forall u | u in updates :: SpaceNamed(u)
      modifies this
      ensures Valid() && watermarks == old(watermarks)
      ensures State() == Update(codec, old(State()), updates, now)
      ensures Reports(codec, old(State()), updates, now, r)
      ensures r.Success? <==> C.Readable(codec, old(handles), updates)
      ensures r.Failure? ==> State() == old(State())
      ensures r.Success? ==>
        && r.value.stored + r.value.skipped == |updates| && r.value.gated == 0
        && r.value.stored == |r.value.storedHandles| && counter == old(counter) + r.value.stored
        && forall h :: h in r.value.storedHandles <==> h in handles && handles[h].syncSeq > old(counter)
    {
      var ok, toStore := Select(updates, now);
      C.ReadableIsUsable(codec, handles, updates);
      if !ok {
        return Failure("a record does not serialise or names no space, or a stored zone does not decode");
      }
      UpdateKeepsWell(codec, State(), updates, now);
      C.StoredAreNumbered(codec, State(), updates, now, toStore);
      StoreKept(updates, toStore, now);
      HandlesListed(toStore);
      r := Success(Outcome(updates, toStore));
    }

    // ---- delete_handles ----------------------------------------------------------------------------

    method DeleteHandles(doomed: seq<string>) returns (deleted: nat)
      requires Valid()
      modifies this
      ensures Valid() && watermarks == old(watermarks)
      ensures State() == DropAll(old(State()), doomed)
      ensures deleted == |old(handles)| - |handles|
    {
      deleted := 0;
      for i := 0 to |doomed|
        invariant State() == DropAll(old(State()), doomed[..i])
        invariant watermarks == old(watermarks)
        invariant deleted == |old(handles)| - |handles|
      {
        assert doomed[..i + 1][..i] == doomed[..i];
        if doomed[i] in handles {
          OneRowLess(handles, doomed[i]);
          Drop(doomed[i]);
          deleted := deleted + 1;
        }
      }
      assert doomed[..|doomed|] == doomed;
      DropKeepsWell(codec, old(State()), doomed);
    }

    // ---- sync_page ---------------------------------------------------------------------------------

    /** Read rows in write order until the byte budget is exceeded. */
    method SelectMain(order: seq<string>, maxBytes: nat) returns (main: seq<string>)
      requires forall h | h in order :: h in handles
      ensures main == order[..SelectLen(handles, order, maxBytes, 0)]
    {
      main := [];
      var bytes: nat := 0;
      for i := 0 to |order|
        invariant main == order[..i]
        invariant SelectLen(handles, order, maxBytes, 0) == i + SelectLen(handles, order[i..], maxBytes, bytes)
      {
        SelectStep(handles, order, i, maxBytes, bytes);
        assert order[i] in order;
        bytes := bytes + RowBytes(handles[order[i]]);
        main := main + [order[i]];
        if bytes > maxBytes {
          return;
        }
      }
    }

    /** The combined payload of the main rows and of those collected roots that they need. */
    method Weigh(main: seq<string>, roots: set<string>) returns (total: nat)
      requires forall h | h in main :: h in handles
      requires roots <= handles.Keys
      ensures total == SeqBytes(handles, main) + SetBytes(handles, set r | r in roots && r in SubSpaces(main))
    {
      total := 0;
      for i := 0 to |main|
        invariant total == SeqBytes(handles, main[..i])
      {
        assert main[..i + 1][..i] == main[..i] && main[i] in main;
        total := total + RowBytes(handles[main[i]]);
      }
      assert main[..|main|] == main;
      var needed := set r | r in roots && r in SubSpaces(main);
      var pending, counted: set<string> := needed, {};
      assert SetBytes(handles, counted) == 0;
      while pending != {}
        invariant pending !! counted && pending + counted == needed
        invariant total == SeqBytes(handles, main) + SetBytes(handles, counted)
        decreases pending
      {
        var r :| r in pending;
        SetBytesWith(counted, r);
        total := total + RowBytes(handles[r]);
        pending, counted := pending - {r}, counted + {r};
      }
      assert counted == needed;
    }

    lemma SetBytesWith(s: set<string>, r: string)
      requires s <= handles.Keys && r in handles && r !in s
      ensures SetBytes(handles, s + {r}) == SetBytes(handles, s) + RowBytes(handles[r])
    {
      var m := map h | h in s :: RowBytes(handles[h]);
      var more := s + {r};
      PutIn(m, r, RowBytes(handles[r]));
      assert m[r := RowBytes(handles[r])] == map h | h in more :: RowBytes(handles[h]);
    }

    /** One pop of the trim loop. A popped root may still be needed by sub-handles earlier in the page,
        so it joins the collected roots. */
    method PopTail(main: seq<string>, roots: set<string>, after: nat, ghost order: seq<string>)
      returns (rest: seq<string>, more: set<string>, total: nat)
      requires Listing(handles, after, order) && main <= order && |main| >= 2
      requires forall h | h in main :: h in handles
      requires RootsCollected(handles, main, after, roots)
      ensures rest == main[..|main| - 1] && rest <= order
      ensures forall h | h in rest :: h in handles
      ensures RootsCollected(handles, rest, after, more)
      ensures total == Payload(handles, rest, after)
    {
      var popped := main[|main| - 1];
      rest := main[..|main| - 1];
      more := if IsRoot(popped) then roots + {popped} else roots;
      PopRehomes(handles, after, order, main, roots, more);
      total := Weigh(rest, more);
      CollectedAreLate(handles, rest, after, more);
    }

    /** Trimming in progress: `main` is the first `k` selected rows, with their roots and payload. */
    ghost predicate Trimming(selected: seq<string>, k: nat, after: nat, main: seq<string>, roots: set<string>,
                             total: nat)
      reads this
    {
      && k <= |selected| && main == selected[..k]
      && (forall h | h in main :: h in handles)
      && RootsCollected(handles, main, after, roots)
      && total == Payload(handles, main, after)
    }

    /** One pass of the trim loop. */
    method TrimOnce(selected: seq<string>, ghost k: nat, after: nat, main: seq<string>, roots: set<string>,
                    ghost total: nat, ghost order: seq<string>)
      returns (rest: seq<string>, more: set<string>, less: nat)
      requires Listing(handles, after, order) && selected <= order && k >= 2
      requires Trimming(selected, k, after, main, roots, total)
      ensures Trimming(selected, k - 1, after, rest, more, less)
    {
      assert main <= order;
      rest, more, less := PopTail(main, roots, after, order);
      assert selected[..k][..k - 1] == selected[..k - 1];
    }

    /** Shrink the selection from its tail until it fits with its roots, or one row is left. */
    method Trim(selected: seq<string>, found: set<string>, after: nat, cap: nat, ghost order: seq<string>)
      returns (main: seq<string>, roots: set<string>)
      requires Listing(handles, after, order) && selected <= order
      requires forall h | h in selected :: h in handles
      requires found == LateRoots(handles, selected, after)
      ensures main == selected[..TrimTo(handles, selected, |selected|, after, cap)]
      ensures forall h | h in main :: h in handles
      ensures RootsCollected(handles, main, after, roots)
    {
      main, roots := selected, found;
      ghost var k: nat := |selected|;
      ghost var target := TrimTo(handles, selected, |selected|, after, cap);
      var total: nat := Weigh(main, roots);
      CollectedAreLate(handles, main, after, roots);
      while |main| > 1 && total > cap
        invariant Trimming(selected, k, after, main, roots, total)
        invariant target == TrimTo(handles, selected, k, after, cap)
        decreases k
      {
        TrimStep(handles, selected, k, after, cap);
        main, roots, total := TrimOnce(selected, k, after, main, roots, total, order);
        k := k - 1;
      }
      TrimStop(handles, selected, k, after, cap);
    }

    /** The page: the main rows, then the roots they need in any order. */
    method Assemble(main: seq<string>, roots: set<string>, after: nat)
      returns (page: SyncPage, ghost extra: seq<string>)
      requires forall h | h in main :: h in handles
      requires RootsCollected(handles, main, after, roots)
      ensures Lists(extra, LateRoots(handles, main, after))
      ensures page.records == Records(handles, main + extra)
      ensures page.nextCursor == if main == [] then None else Some(LastSeq(handles, main, after))
    {
      var records := [];
      for i := 0 to |main|
        invariant records == Records(handles, main[..i])
      {
        assert main[i] in main;
        records := records + [ToRecord(main[i], handles[main[i]])];
      }
      assert main[..|main|] == main;
      extra := [];
      assert main + extra == main;
      CollectedAreLate(handles, main, after, roots);
      var needed := set r | r in roots && r in SubSpaces(main);
      var pending := needed;
      while pending != {}
        invariant pending <= needed && Lists(extra, needed - pending)
        invariant records == Records(handles, main + extra)
        decreases pending
      {
        var r :| r in pending;
        records := records + [ToRecord(r, handles[r])];
        assert main + (extra + [r]) == (main + extra) + [r];
        extra := extra + [r];
        pending := pending - {r};
      }
      assert needed - pending == needed;
      page := Pages.SyncPage(records, if main == [] then None else Some(handles[main[|main| - 1]].syncSeq));
    }

    method ServePage(after: nat, limit: nat, maxBytes: nat) returns (page: SyncPage)
      requires Served(handles, after)
      ensures IsPage(handles, after, limit, maxBytes, page)
    {
      ghost var listing := After(handles, after);
      var order := Prefix(After(handles, after), limit);
      Members(listing, order);
      var selected := SelectMain(order, maxBytes);
      Members(order, selected);
      var found := RootsPast(handles, SubSpaces(selected), LastSeq(handles, selected, after));
      var main, roots := Trim(selected, found, after, HardCap(maxBytes), listing);
      ghost var extra;
      page, extra := Assemble(main, roots, after);
      assert selected == Selected(handles, after, limit, maxBytes);
      assert main == Main(handles, after, limit, maxBytes);
      assert IsPageWith(handles, after, limit, maxBytes, page, extra);
    }

    /** An answer to `GET /sync`: any page this returns has the properties proved in `Pages`. Each record
        on it carries the certificate, zone and numbers of the row stored past the cursor under its handle. */
    method SyncPage(cursor: Option<nat>, limit: nat, maxBytes: nat) returns (page: SyncPage)
      requires Valid()
      ensures IsPage(handles, cursor.GetOr(0), limit, maxBytes, page)
      ensures forall r | r in page.records ::
        && r.handle in handles && (cursor.Some? ==> handles[r.handle].syncSeq > cursor.value)
        && r.cert == handles[r.handle].cert && r.zone == handles[r.handle].zone
        && r.epochHeight == handles[r.handle].epochHeight
        && r.offchainSeq == handles[r.handle].offchainSeq && r.delegateSeq == handles[r.handle].delegateSeq
      ensures limit >= 1 && cursor.None? && handles != map[] ==> page.records != []
    {
      ServedAlways(handles, cursor.GetOr(0));
      page := ServePage(cursor.GetOr(0), limit, maxBytes);
      PageHasNoRepeats(handles, cursor.GetOr(0), limit, maxBytes, page);
      if limit >= 1 {
        PageMakesProgress(handles, cursor.GetOr(0), limit, maxBytes, page);
      }
    }

    method SyncSummary() returns (summary: SyncSummary)
      ensures summary.count == |handles|
      ensures summary.latestCursor == R.Advertised(counter)
      ensures summary.latestCursor == if counter == 0 then None else Some(counter)
    {
      summary := Summary(|handles|, if counter > 0 then Some(counter) else None);
    }

    method GetWatermark(peer: string) returns (mark: Option<nat>)
      ensures mark == MarkOf(watermarks, peer)
    {
      mark := if peer in watermarks then Some(watermarks[peer]) else None;
    }

    method SetWatermark(peer: string, cursor: nat)
      modifies this`watermarks
      ensures watermarks == MarksAfter(old(watermarks), [(peer, cursor)])
    {
      assert [(peer, cursor)][..0] == [];
      watermarks := watermarks[peer := cursor];
    }

    // ---- migrations --------------------------------------------------------------------------------

    const CHUNK: nat := 1000

    /** Number the legacy rows, chunk by chunk; each pass of the outer loop is one transaction. */
    method BackfillSync()
      modifies this
      ensures State() == B.Migrated(codec.hash, old(State()))
      ensures B.Legacy(handles) == {}
      ensures watermarks == old(watermarks)
    {
      while true
        invariant B.Migrated(codec.hash, State()) == B.Migrated(codec.hash, old(State()))
        invariant watermarks == old(watermarks)
        decreases |B.Legacy(handles)|
      {
        var chunk := B.Chunk(handles, CHUNK);
        if chunk == [] {
          B.NothingLeftNothingDone(codec.hash, State());
          return;
        }
        B.ChunkKeepsOutcome(codec.hash, State(), CHUNK);
        B.OrderAfterChunk(codec.hash, State(), CHUNK);
        CommitChunk(chunk);
      }
    }

    /** The updates of one chunk, row by row. */
    method NumberRows(chunk: seq<string>, base: nat)
      requires B.InOrder(handles, chunk)
      modifies this`handles
      ensures forall h | h in chunk :: h in old(handles)
      ensures handles == B.Assign(codec.hash, old(handles), chunk, base)
    {
      ghost var before := handles;
      for i := 0 to |chunk|
        invariant handles == B.Assign(codec.hash, before, chunk[..i], base)
      {
        B.AssignOne(codec.hash, before, chunk, i, base);
        handles := handles[chunk[i] := B.Numbered(codec.hash, handles[chunk[i]], base + 1 + i)];
      }
      assert chunk[..|chunk|] == chunk;
    }

    method CommitChunk(chunk: seq<string>)
      requires chunk == B.Chunk(handles, CHUNK)
      modifies this
      ensures State() == B.CommitChunk(codec.hash, old(State()), CHUNK)
      ensures watermarks == old(watermarks)
    {
      B.ChunkInOrder(handles, CHUNK);
      NumberRows(chunk, counter);
      counter := counter + |chunk|;
    }

    /** SUM of the blob sizes over the whole table. */
    method SumBytes() returns (bytes: int)
      ensures bytes == TableBytes(handles)
    {
      var m := map h | h in handles :: RowBytes(handles[h]);
      bytes := Sum(m);
    }

    /** Rebuild the accounting from a full scan when it is empty although handles exist. */
    method BackfillStorage()
      modifies this
      ensures State() == B.Rebuilt(old(State()))
      ensures watermarks == old(watermarks)
    {
      if totalRows != 0 || handles == map[] {
        return;
      }
      buckets := buckets + map k | k in B.BucketKeys(handles) :: |BucketRows(handles, k)|;
      totalRows := |handles|;
      totalBytes := SumBytes();
    }

    method Migrate()
      requires Migratable(State())
      modifies this
      ensures Valid() && watermarks == old(watermarks)
      ensures State() == B.Rebuilt(B.Migrated(codec.hash, old(State())))
      ensures handles.Keys == old(handles).Keys
      ensures forall h | h in handles :: RowMigrated(codec.hash, old(counter), old(handles)[h], handles[h])
    {
      MigrationMeans(codec.hash, State());
      MigrationKeepsWell(codec.hash, State());
      BackfillSync();
      BackfillStorage();
    }

    /** Opening an existing database: both migrations run before anything else does. */
    constructor Open(codec: Codec, handles: Tables.Table, counter: nat, buckets: map<Bucket, int>,
                     totalRows: int, totalBytes: int, watermarks: map<string, nat>)
      requires Migratable(Db(handles, counter, buckets, totalRows, totalBytes))
      ensures Valid() && this.codec == codec && this.watermarks == watermarks
      ensures State() == B.Rebuilt(B.Migrated(codec.hash, Db(handles, counter, buckets, totalRows, totalBytes)))
      ensures this.handles.Keys == handles.Keys
      ensures forall h | h in handles && handles[h].syncSeq > 0 :: this.handles[h] == handles[h]
      ensures forall h | h in handles && handles[h].syncSeq == 0 ::
        && this.handles[h].cert == handles[h].cert && this.handles[h].zone == handles[h].zone
        && this.handles[h].zoneHash == codec.hash(handles[h].zone) && this.handles[h].syncSeq > counter
    {
      this.codec := codec;
      this.handles, this.counter, this.buckets := handles, counter, buckets;
      this.totalRows, this.totalBytes, this.watermarks := totalRows, totalBytes, watermarks;
      new;
      Migrate();
    }

    // ---- retention queries -------------------------------------------------------------------------

    method StorageTotals() returns (rows: nat, bytes: nat)
      requires Valid()
      ensures rows == |handles| && bytes == TableBytes(handles) == totalBytes
      ensures bytes == Total(map h | h in handles :: |handles[h].cert| + |handles[h].zone|)
    {
      RecountMeans(State(), "", 0);
      rows := ClampToZero(totalRows);
      NonNegative(map h | h in handles :: RowBytes(handles[h]));
      bytes := ClampToZero(totalBytes);
    }

    method SpaceUsage(space: string) returns (use: E.Use)
      requires Valid()
      ensures use == E.Use(|RowsOf(handles, space)|, EpochsOf(buckets, space))
      ensures use.stored == |set h | h in handles && handles[h].space == space|
      ensures use.epochs == |EpochsSeen(buckets, space)|
      ensures forall h | h in handles && handles[h].space == space ::
        handles[h].epochHeight in EpochsSeen(buckets, space)
    {
      EpochsAreSeen(buckets, space);
      RecountMeans(State(), space, 0);
      forall h | h in handles && handles[h].space == space
        ensures handles[h].epochHeight in EpochsSeen(buckets, space)
      {
        assert (space, handles[h].epochHeight) in buckets;
      }
      var stored := Sum(SpaceBuckets(buckets, space));
      UsageIsRowCount(State(), space);
      use := E.Use(ClampToZero(stored), |SpaceBuckets(buckets, space)|);
    }

    /** Usage of every space that has handles. */
    method SpaceUsageAll() returns (usage: E.Usage)
      requires Valid()
      ensures E.Describes(usage, State())
      ensures forall s | s in usage ::
        && usage[s].stored == |set h | h in handles && handles[h].space == s|
        && usage[s].epochs == |EpochsSeen(buckets, s)|
      ensures forall h | h in handles :: handles[h].space in usage
    {
      usage := map[];
      var spaces := set k | k in buckets :: k.0;
      var pending := spaces;
      while pending != {}
        invariant pending <= spaces && usage.Keys <= spaces - pending
        invariant forall s | s in spaces - pending :: s in usage <==> RowsOf(handles, s) != {}
        invariant forall s | s in usage :: usage[s] == E.Use(|RowsOf(handles, s)|, EpochsOf(buckets, s))
        decreases pending
      {
        var space :| space in pending;
        var use := SpaceUsage(space);
        if use.stored > 0 {
          usage := usage[space := use];
        }
        pending := pending - {space};
      }
      forall s | RowsOf(handles, s) != {} ensures s in spaces {
        var h :| h in RowsOf(handles, s);
        assert BucketOf(handles[h]) in buckets;
      }
      forall s | s in usage ensures EpochsOf(buckets, s) == |EpochsSeen(buckets, s)| {
        EpochsAreSeen(buckets, s);
      }
      assert forall h | h in handles :: h in RowsOf(handles, handles[h].space);
    }

    /** Candidates picked so far: the oldest of `all`, in order, with `pending` left. */
    ghost predicate Picked(all: set<string>, pending: set<string>, candidates: seq<string>)
      reads this
    {
      && pending <= all <= handles.Keys
      && Lists(candidates, all - pending)
      && |candidates| + |pending| == |all|
      && Older(candidates, pending)
      && E.ByAge(handles, candidates)
    }

    lemma PickOne(all: set<string>, pending: set<string>, candidates: seq<string>, h: string)
      requires Picked(all, pending, candidates)
      requires h in pending && forall k | k in pending :: handles[h].updatedAt <= handles[k].updatedAt
      ensures Picked(all, pending - {h}, candidates + [h])
    {
      assert all - (pending - {h}) == (all - pending) + {h};
      ListOneMore(candidates, all - pending, h);
      OlderStays(candidates, pending, h);
      E.AgeSplit(handles, candidates, h);
    }

    lemma OlderStays(listed: seq<string>, pending: set<string>, h: string)
      requires Older(listed, pending) && h in pending
      requires forall k | k in pending && k in handles && h in handles :: handles[h].updatedAt <= handles[k].updatedAt
      ensures Older(listed + [h], pending - {h})
    {
      assert forall c | c in listed + [h] :: c in listed || c == h;
    }

    lemma PickedAreOldest(space: string, limit: nat, pending: set<string>, candidates: seq<string>)
      requires Picked(E.Evictable(handles, space), pending, candidates)
      requires |candidates| <= limit && (pending == {} || |candidates| == limit)
      ensures E.OldestFirst(handles, space, limit, candidates)
    {
      if pending == {} {
        assert E.Evictable(handles, space) - pending == E.Evictable(handles, space);
      }
    }

    /** The oldest-updated handles of a space, never its root. */
    method EvictionCandidates(space: string, limit: nat) returns (candidates: seq<string>)
      ensures E.OldestFirst(handles, space, limit, candidates)
    {
      candidates := [];
      var all := E.Evictable(handles, space);
      var pending := all;
      while pending != {} && |candidates| < limit
        invariant Picked(all, pending, candidates) && |candidates| <= limit
        decreases pending
      {
        var h := PickOldest(pending);
        PickOne(all, pending, candidates, h);
        candidates := candidates + [h];
        pending := pending - {h};
      }
      PickedAreOldest(space, limit, pending, candidates);
    }

    /** Everything listed is at least as old as everything still pending. */
    ghost predicate Older(listed: seq<string>, pending: set<string>)
      reads this
    {
      forall c, e | c in listed && c in handles && e in pending && e in handles ::
        handles[c].updatedAt <= handles[e].updatedAt
    }

    /** A least recently updated handle of the set. */
    method PickOldest(s: set<string>) returns (h: string)
      requires s != {} && s <= handles.Keys
      ensures h in s && forall k | k in s :: handles[h].updatedAt <= handles[k].updatedAt
    {
      var ages := map k | k in handles :: handles[k].updatedAt;
      LeastExists(s, ages);
      h :| h in s && forall k | k in s :: ages[h] <= ages[k];
      assert forall k | k in s :: ages[k] == handles[k].updatedAt;
    }
  }

  /** `n.max(0) as u64`. */
  function ClampToZero(n: int): nat {
    if n < 0 then 0 else n
  }

  /** SUM over a query's rows. */
  method Sum<K(==)>(m: map<K, int>) returns (total: int)
    ensures total == Total(m)
  {
    total := 0;
    var rest := m;
    while rest != map[]
      invariant total + Total(rest) == Total(m)
      decreases |rest|
    {
      var k :| k in rest;
      TakeOut(rest, k);
      assert |rest.Keys - {k}| == |rest| - 1;
      assert (rest - {k}).Keys == rest.Keys - {k};
      total, rest := total + rest[k], rest - {k};
    }
  }

  lemma MigrationKeepsWell(hash: B.Hash, db: Db)
    requires Migratable(db)
    ensures WellKept(B.Rebuilt(B.Migrated(hash, db)))
  {
    B.MigratedIsSequenced(hash, db);
    var m := B.Migrated(hash, db);
    MigrationMovesNothing(hash, db);
    B.RebuiltRecounts(m);
  }

  /** What both migrations together leave, column by column. */
  lemma MigrationMeans(hash: B.Hash, db: Db)
    requires Migratable(db)
    ensures var after := B.Rebuilt(B.Migrated(hash, db));
      && after.rows.Keys == db.rows.Keys
      && after.counter == db.counter + |set h | h in db.rows && db.rows[h].syncSeq == 0|
      && forall h | h in db.rows :: RowMigrated(hash, db.counter, db.rows[h], after.rows[h])
  {
    B.LegacyMeans(db.rows);
    B.RebuiltMovesNothing(B.Migrated(hash, db));
    forall h | h in db.rows ensures RowMigrated(hash, db.counter, db.rows[h], B.Migrated(hash, db).rows[h]) {
      MigratedRowMeans(hash, db, h);
    }
  }

  predicate RowMigrated(hash: B.Hash, counter: nat, row: Row, row': Row) {
    if row.syncSeq > 0 then row' == row
    else row'.cert == row.cert && row'.zone == row.zone && row'.zoneHash == hash(row.zone) && row'.syncSeq > counter
  }

  lemma MigratedRowMeans(hash: B.Hash, db: Db, h: string)
    requires Migratable(db) && h in db.rows
    ensures RowMigrated(hash, db.counter, db.rows[h], B.Migrated(hash, db).rows[h])
  {
    var upTo := B.MigratedMeans(hash, db, h);
    B.MigratedInRange(hash, db, h);
  }

  /** Two tables whose rows agree in size, space and epoch have the same recount. */
  lemma SameRecount(t: Tables.Table, t': Tables.Table)
    requires t.Keys == t'.Keys
    requires forall h | h in t :: RowBytes(t[h]) == RowBytes(t'[h]) && BucketOf(t[h]) == BucketOf(t'[h])
    ensures |t| == |t'| && TableBytes(t) == TableBytes(t')
    ensures forall k :: BucketRows(t, k) == BucketRows(t', k)
  {
    assert (map h | h in t :: RowBytes(t[h])) == map h | h in t' :: RowBytes(t'[h]);
    assert |t| == |t.Keys| && |t'| == |t'.Keys|;
  }

  lemma RecountMoves(db: Db, m: Db)
    requires Recount(db)
    requires m.totalRows == db.totalRows && m.totalBytes == db.totalBytes && m.buckets == db.buckets
    requires db.rows.Keys == m.rows.Keys
    requires forall h | h in db.rows ::
      RowBytes(db.rows[h]) == RowBytes(m.rows[h]) && BucketOf(db.rows[h]) == BucketOf(m.rows[h])
    ensures Recount(m)
  {
    SameRecount(db.rows, m.rows);
  }

  lemma MigratedKeepsRow(hash: B.Hash, db: Db, h: string)
    requires h in db.rows
    ensures h in B.Migrated(hash, db).rows
    ensures var row := B.Migrated(hash, db).rows[h];
      RowBytes(row) == RowBytes(db.rows[h]) && BucketOf(row) == BucketOf(db.rows[h])
      && row.space == db.rows[h].space
  {
  }

  lemma MigratedKeepsRest(hash: B.Hash, db: Db)
    ensures var m := B.Migrated(hash, db);
      m.rows.Keys == db.rows.Keys
      && m.totalRows == db.totalRows && m.totalBytes == db.totalBytes && m.buckets == db.buckets
  {
  }

  lemma SpacesMove(db: Db, m: Db)
    requires SpacesAgree(db.rows)
    requires m.rows.Keys == db.rows.Keys
    requires forall h | h in db.rows :: m.rows[h].space == db.rows[h].space
    ensures SpacesAgree(m.rows)
  {
  }

  /** Numbering rows changes neither their sizes nor their (space, epoch). */
  lemma MigrationMovesNothing(hash: B.Hash, db: Db)
    ensures var m := B.Migrated(hash, db);
      && (Recount(db) ==> Recount(m))
      && m.totalRows == db.totalRows && m.totalBytes == db.totalBytes && m.buckets == db.buckets
      && (SpacesAgree(db.rows) ==> SpacesAgree(m.rows))
  {
    MigratedKeepsRest(hash, db);
    forall h | h in db.rows
      ensures var row := B.Migrated(hash, db).rows[h];
        RowBytes(row) == RowBytes(db.rows[h]) && BucketOf(row) == BucketOf(db.rows[h])
        && row.space == db.rows[h].space
    {
      MigratedKeepsRow(hash, db, h);
    }
    MovesNothing(db, B.Migrated(hash, db));
  }

  lemma MovesNothing(db: Db, m: Db)
    requires m.rows.Keys == db.rows.Keys
    requires m.totalRows == db.totalRows && m.totalBytes == db.totalBytes && m.buckets == db.buckets
    requires forall h | h in db.rows ::
      RowBytes(m.rows[h]) == RowBytes(db.rows[h]) && BucketOf(m.rows[h]) == BucketOf(db.rows[h])
      && m.rows[h].space == db.rows[h].space
    ensures Recount(db) ==> Recount(m)
    ensures SpacesAgree(db.rows) ==> SpacesAgree(m.rows)
  {
    if Recount(db) {
      RecountMoves(db, m);
    }
    if SpacesAgree(db.rows) {
      SpacesMove(db, m);
    }
  }
}
