/** The loops around a sync round (relay/src/sync.rs): the page loop of `sync_with_peer`, which moves the
    stored watermark as it goes, and the cooldown of `run_poke_sync_loop`. */
module SyncLoop {
  import opened Names
  import opened Tables
  import opened Puller
  import Store

  class Syncer {
    const store: Store.SqliteStore
    const maxPages: nat

    constructor (store: Store.SqliteStore, maxPages: nat)
      ensures this.store == store && this.maxPages == maxPages
    {
      this.store, this.maxPages := store, maxPages;
    }

    function Mark(peer: string): Option<nat>
      reads store
    {
      Store.MarkOf(store.watermarks, peer)
    }

    /** The stored watermarks are the given ones, but for `peer`, whose watermark is `mark`. */
    ghost predicate Left(before: map<string, nat>, peer: string, mark: Option<nat>)
      reads store
    {
      store.watermarks == match mark case None => before case Some(m) => before[peer := m]
    }

    /** One round against a peer: it ends, and leaves the watermark, exactly as `Puller.SyncRound`
        says. A watermark above the advertised cursor becomes 0, one at the cursor stays, and no other
        peer's watermark moves. `taken` collects the records of the pages ingested to the end. */
    method SyncWithPeer(peer: string, advertised: Option<nat>, replies: nat -> Reply)
      returns (result: Result<RoundTotals>, ghost taken: set<SyncRecord>)
      modifies store`watermarks
      ensures var o := SyncRound(old(Mark(peer)), advertised, replies, maxPages);
        && Left(old(store.watermarks), peer, o.mark)
        && (if o.ok then result == Success(o.totals) else result.Failure?)
      ensures taken == TakenInRound(old(Mark(peer)), advertised, replies, maxPages)
      ensures forall p | p != peer ::
        && (p in store.watermarks <==> p in old(store.watermarks))
        && (p in store.watermarks ==> store.watermarks[p] == old(store.watermarks)[p])
      ensures advertised.Some? && peer in old(store.watermarks) && old(store.watermarks)[peer] > advertised.value ==>
        result.Success? && store.watermarks == old(store.watermarks)[peer := 0]
      ensures advertised.None? || (peer in old(store.watermarks) && old(store.watermarks)[peer] == advertised.value) ==>
        result == Success(RoundTotals(0, 0, 0)) && store.watermarks == old(store.watermarks)
    {
      var mark := store.GetWatermark(peer);
      taken := {};
      match OnSummary(mark, advertised)
      case NothingNew =>
        result := Success(RoundTotals(0, 0, 0));
      case Reset =>
        store.SetWatermark(peer, 0);
        result := Success(RoundTotals(0, 0, 0));
      case Pull(latest) =>
        result, taken := PullFrom(peer, mark, latest, replies);
    }

    method PullFrom(peer: string, mark: Option<nat>, latest: nat, replies: nat -> Reply)
      returns (result: Result<RoundTotals>, ghost taken: set<SyncRecord>)
      requires mark == Mark(peer)
      modifies store`watermarks
      ensures var o := PullPages(replies, 0, maxPages, mark, latest, mark, RoundTotals(0, 0, 0));
        && Left(old(store.watermarks), peer, o.mark)
        && (if o.ok then result == Success(o.totals) else result.Failure?)
      ensures taken == Taken(replies, 0, maxPages, mark, latest, RoundTotals(0, 0, 0))
    {
      ghost var whole := PullPages(replies, 0, maxPages, mark, latest, mark, RoundTotals(0, 0, 0));
      ghost var all := Taken(replies, 0, maxPages, mark, latest, RoundTotals(0, 0, 0));
      var cursor, totals := mark, RoundTotals(0, 0, 0);
      ghost var stored := mark;
      taken := {};
      for k := 0 to maxPages
        invariant Left(old(store.watermarks), peer, stored)
        invariant PullPages(replies, k, maxPages, cursor, latest, stored, totals) == whole
        invariant taken + Taken(replies, k, maxPages, cursor, latest, totals) == all
      {
        if replies(k).NoBody? {
          return Failure("no usable page"), taken;
        }
        var page := replies(k).page;
        match OnPage(cursor, latest, page)
        case CatchUp(move) =>
          if move {
            store.SetWatermark(peer, latest);
          }
          return Success(totals), taken;
        case Refuse =>
          return Failure("sync cursor missing or not advancing"), taken;
        case Process(next) =>
          var ingest := replies(k).ingest(Remaining(totals.failedSpaces));
          if ingest.Aborted? {
            return Failure("page not ingested"), taken;
          }
          totals := Add(totals, ingest.stats);
          if ingest.stats.incomplete {
            return Failure("failed-space budget spent mid-page"), taken;
          }
          taken := taken + set x | x in page.records;
          store.SetWatermark(peer, Clamp(next, latest));
          stored, cursor := Some(Clamp(next, latest)), Some(next);
          if next >= latest || totals.failedSpaces > MAX_FAILED_SPACES_PER_ROUND {
            return Success(totals), taken;
          }
      }
      result := Success(totals);
    }
  }

  // ---- pokes ---------------------------------------------------------------------------------------

  /** A poke taken off the queue, and the clock when it was. */
  datatype Poke = Poke(url: string, now: int)

  type LastSynced = map<string, int>

  predicate CoolingDown(cooldown: nat, last: LastSynced, p: Poke) {
    p.url in last && p.now - last[p.url] < cooldown
  }

  /** What one poke leaves in the map: a sync is noted, and what is four cooldowns old is forgotten. */
  function Noted(cooldown: nat, last: LastSynced, p: Poke): LastSynced {
    if CoolingDown(cooldown, last, p) then last
    else
      var noted := last[p.url := p.now];
      map u | u in noted && p.now - noted[u] < cooldown * 4 :: noted[u]
  }

  function LastAfter(cooldown: nat, pokes: seq<Poke>, n: nat): LastSynced
    requires n <= |pokes|
  {
    if n == 0 then map[] else Noted(cooldown, LastAfter(cooldown, pokes, n - 1), pokes[n - 1])
  }

  /** Poke number `i` starts a sync. */
  predicate Syncs(cooldown: nat, pokes: seq<Poke>, i: nat)
    requires i < |pokes|
  {
    !CoolingDown(cooldown, LastAfter(cooldown, pokes, i), pokes[i])
  }

  ghost predicate ClockRuns(pokes: seq<Poke>) {
    forall i, j | 0 <= i < j < |pokes| :: pokes[i].now <= pokes[j].now
  }

  /** The map says nothing false: each entry is the time of some sync of that peer. */
  lemma {:induction false} EntriesAreSyncs(cooldown: nat, pokes: seq<Poke>, n: nat, url: string) returns (i: nat)
    requires n <= |pokes| && url in LastAfter(cooldown, pokes, n)
    ensures i < n && Syncs(cooldown, pokes, i)
    ensures pokes[i] == Poke(url, LastAfter(cooldown, pokes, n)[url])
    decreases n
  {
    var before := LastAfter(cooldown, pokes, n - 1);
    if CoolingDown(cooldown, before, pokes[n - 1]) || url != pokes[n - 1].url {
      i := EntriesAreSyncs(cooldown, pokes, n - 1, url);
    } else {
      i := n - 1;
    }
  }

  /** The map forgets nothing that matters: a sync less than a cooldown before the last poke is in it,
      with a time no earlier. */
  lemma {:induction false} SyncsAreNoted(cooldown: nat, pokes: seq<Poke>, n: nat, i: nat)
    requires i < n <= |pokes| && ClockRuns(pokes) && Syncs(cooldown, pokes, i)
    requires pokes[n - 1].now - pokes[i].now < cooldown
    ensures pokes[i].url in LastAfter(cooldown, pokes, n)
    ensures pokes[i].now <= LastAfter(cooldown, pokes, n)[pokes[i].url]
    decreases n
  {
    if i < n - 1 {
      assert pokes[n - 2].now <= pokes[n - 1].now;
      SyncsAreNoted(cooldown, pokes, n - 1, i);
    }
  }

  /** Main result. A poke starts a sync if and only if every earlier poke-triggered sync of the same peer
      is at least a cooldown old, over any queue of pokes: no flood of pokes gets more, and pruning the
      map never costs or grants a sync. */
  lemma CooldownIsExact(cooldown: nat, pokes: seq<Poke>, j: nat)
    requires ClockRuns(pokes) && j < |pokes|
    ensures Syncs(cooldown, pokes, j) <==>
      forall i: nat | i < j && Syncs(cooldown, pokes, i) && pokes[i].url == pokes[j].url ::
        pokes[j].now - pokes[i].now >= cooldown
  {
    if Syncs(cooldown, pokes, j) {
      forall i: nat | i < j && Syncs(cooldown, pokes, i) && pokes[i].url == pokes[j].url
        ensures pokes[j].now - pokes[i].now >= cooldown
      {
        if pokes[j].now - pokes[i].now < cooldown {
          assert j > 0 && pokes[j - 1].now <= pokes[j].now;
          SyncsAreNoted(cooldown, pokes, j, i);
        }
      }
    } else {
      var i := EntriesAreSyncs(cooldown, pokes, j, pokes[j].url);
    }
  }

  class PokeLoop {
    const cooldown: nat
    var lastSynced: LastSynced
    /** Every poke taken off the queue so far. */
    ghost var history: seq<Poke>

    ghost predicate Valid()
      reads this
    {
      ClockRuns(history) && lastSynced == LastAfter(cooldown, history, |history|)
    }

    constructor (cooldown: nat)
      ensures Valid() && history == [] && this.cooldown == cooldown
    {
      this.cooldown, lastSynced, history := cooldown, map[], [];
    }

    /** Take one poke off the queue and decide whether to sync with its sender now. */
    method Receive(url: string, now: int) returns (sync: bool)
      requires Valid()
      requires history != [] ==> history[|history| - 1].now <= now
      modifies this
      ensures Valid() && history == old(history) + [Poke(url, now)]
      ensures sync == Syncs(cooldown, history, |old(history)|)
      ensures !sync ==> lastSynced == old(lastSynced)
      ensures sync ==> forall u :: u in lastSynced <==>
        if u == url then cooldown > 0 else u in old(lastSynced) && now - old(lastSynced)[u] < 4 * cooldown
      ensures sync <==>
        forall i: nat | i < |old(history)| && Syncs(cooldown, history, i) && history[i].url == url ::
          now - history[i].now >= cooldown
    {
      ghost var was := history;
      history := history + [Poke(url, now)];
      LastOfPrefix(cooldown, was, Poke(url, now), |was|);
      CooldownIsExact(cooldown, history, |was|);
      if url in lastSynced && now - lastSynced[url] < cooldown {
        return false;
      }
      lastSynced := lastSynced[url := now];
      lastSynced := map u | u in lastSynced && now - lastSynced[u] < cooldown * 4 :: lastSynced[u];
      sync := true;
    }
  }

  lemma {:induction false} LastOfPrefix(cooldown: nat, pokes: seq<Poke>, p: Poke, n: nat)
    requires n <= |pokes|
    ensures LastAfter(cooldown, pokes + [p], n) == LastAfter(cooldown, pokes, n)
    decreases n
  {
    if n > 0 {
      LastOfPrefix(cooldown, pokes, p, n - 1);
    }
  }
}
