/** Retention in place: the recently-queried set (`QueryHeat`), the admission gate and the sweep. */
module Retention {
  import opened Sets
  import opened Accounting
  import opened Eviction
  import opened Store

  // ---- query heat ----------------------------------------------------------------------------------

  datatype Heat = Heat(cap: nat, active: set<string>, prev: set<string>)

  function Touched(h: Heat, handle: string): Heat {
    if |h.active| >= h.cap then h.(active := {handle}, prev := h.active)
    else h.(active := h.active + {handle})
  }

  function TouchedAll(h: Heat, handles: seq<string>): Heat {
    if handles == [] then h else Touched(TouchedAll(h, handles[..|handles| - 1]), handles[|handles| - 1])
  }

  predicate IsHot(h: Heat, handle: string) {
    handle in h.active || handle in h.prev
  }

  ghost predicate HeatBounded(h: Heat) {
    h.cap >= 1 && |h.active| <= h.cap && |h.prev| <= h.cap
  }

  lemma {:induction false} HeatStaysBounded(h: Heat, handles: seq<string>)
    requires HeatBounded(h)
    ensures HeatBounded(TouchedAll(h, handles)) && TouchedAll(h, handles).cap == h.cap
    decreases |handles|
  {
    if handles != [] {
      HeatStaysBounded(h, handles[..|handles| - 1]);
      var before := TouchedAll(h, handles[..|handles| - 1]);
      assert |before.active + {handles[|handles| - 1]}| <= |before.active| + 1;
    }
  }

  /** Since `handle` was touched it is either still active, or only handles touched since then are. */
  ghost predicate Tracks(h: Heat, handle: string, since: seq<string>) {
    handle in h.active || (handle in h.prev && h.active <= set x | x in since)
  }

  lemma {:induction false} HeatTracks(h: Heat, handle: string, since: seq<string>)
    requires HeatBounded(h) && handle in h.active
    requires |set x | x in since| < h.cap
    ensures Tracks(TouchedAll(h, since), handle, since)
    decreases |since|
  {
    if since != [] {
      var init := since[..|since| - 1];
      var last := since[|since| - 1];
      assert (set x | x in since) == (set x | x in init) + {last} by {
        assert since == init + [last];
      }
      SubsetSize(set x | x in init, set x | x in since);
      HeatTracks(h, handle, init);
      HeatStaysBounded(h, init);
      var before := TouchedAll(h, init);
      if handle !in before.active {
        SubsetSize(before.active, set x | x in init);
      }
    }
  }

  /** Main result. A touched handle is still hot after any further touches of fewer than `cap` distinct
      handles, while the two sets together never hold more than twice `cap`. */
  lemma TouchKeepsHot(h: Heat, handle: string, since: seq<string>)
    requires HeatBounded(h)
    requires |set x | x in since| < h.cap
    ensures var after := TouchedAll(Touched(h, handle), since);
      && IsHot(after, handle) && (handle in after.active || handle in after.prev)
      && |after.active| <= h.cap && |after.prev| <= h.cap
      && (since != [] ==> since[|since| - 1] in after.active)
  {
    var t := Touched(h, handle);
    assert |h.active + {handle}| <= |h.active| + 1;
    HeatTracks(t, handle, since);
    HeatStaysBounded(t, since);
  }

  /** Nothing is hot that was not touched. */
  lemma {:induction false} HotWasTouched(cap: nat, handles: seq<string>, handle: string)
    requires IsHot(TouchedAll(Heat(cap, {}, {}), handles), handle)
    ensures handle in handles
    decreases |handles|
  {
    if handles != [] {
      var front, last := handles[..|handles| - 1], handles[|handles| - 1];
      assert handles == front + [last];
      if handle != last {
        HotWasTouched(cap, front, handle);
      }
    }
  }

  class QueryHeat {
    const cap: nat
    var active: set<string>
    var prev: set<string>

    ghost function View(): Heat
      reads this
    {
      Heat(cap, active, prev)
    }

    constructor (cap: nat)
      ensures HeatBounded(View()) && View() == Heat(if cap < 1 then 1 else cap, {}, {})
    {
      this.cap := AtLeastOne(cap);
      active, prev := {}, {};
    }

    method Touch(handle: string)
      modifies this
      ensures View() == Touched(old(View()), handle)
    {
      if |active| >= cap {
        prev := active;
        active := {};
      }
      active := active + {handle};
    }
  }

  // ---- the gate and the sweep ----------------------------------------------------------------------

  method GateFirstInsert(store: SqliteStore, cfg: Config, space: string) returns (gated: bool)
    requires store.Valid()
    ensures gated == FirstInsertGated(cfg, store.State(), space)
    ensures gated <==>
      && cfg.maxStorageBytes != 0 && TableBytes(store.handles) > cfg.maxStorageBytes
      && var epochs := |EpochsSeen(store.buckets, space)|;
         |set h | h in store.handles && store.handles[h].space == space|
           > cfg.entitlementPerEpoch * (if epochs < 1 then 1 else epochs)
  {
    UsageIsRowCount(store.State(), space);
    GateMeans(cfg, store.State(), space);
    if cfg.maxStorageBytes == 0 {
      return false;
    }
    var _, bytes := store.StorageTotals();
    if bytes <= cfg.maxStorageBytes {
      return false;
    }
    var use := store.SpaceUsage(space);
    gated := OverEntitled(cfg, use);
  }

  lemma WorstExists(cfg: Config, usage: Usage, s: set<string>)
    requires s != {} && s <= usage.Keys
    ensures exists v :: v in s && forall x | x in s :: Ratio(cfg, usage[x]) <= Ratio(cfg, usage[v])
  {
    var worse := (a, b) => a in usage && b in usage && Ratio(cfg, usage[b]) <= Ratio(cfg, usage[a]);
    LeastBy(s, worse);
    var v :| v in s && forall x | x in s :: worse(v, x);
    assert forall x | x in s :: Ratio(cfg, usage[x]) <= Ratio(cfg, usage[v]);
  }

  lemma LargestExists(usage: Usage, s: set<string>)
    requires s != {} && s <= usage.Keys
    ensures exists v :: v in s && forall x | x in s :: usage[x].stored <= usage[v].stored
  {
    var larger := (a, b) => a in usage && b in usage && usage[b].stored <= usage[a].stored;
    LeastBy(s, larger);
    var v :| v in s && forall x | x in s :: larger(v, x);
    assert forall x | x in s :: usage[x].stored <= usage[v].stored;
  }

  method PickVictim(cfg: Config, usage: Usage) returns (victim: string)
    requires usage != map[]
    ensures IsVictim(cfg, usage, victim)
  {
    var over := set s | s in usage && OverEntitled(cfg, usage[s]);
    if over != {} {
      WorstExists(cfg, usage, over);
      victim :| victim in over && forall x | x in over :: Ratio(cfg, usage[x]) <= Ratio(cfg, usage[victim]);
    } else {
      LargestExists(usage, usage.Keys);
      victim :| victim in usage && forall x | x in usage :: usage[x].stored <= usage[victim].stored;
      assert forall s | s in usage :: s !in over;
    }
  }

  /** How a sweep may end: at its mark, out of passes, or with nothing left that may be evicted. */
  ghost predicate Ended(cfg: Config, last: Sweeping, passes: nat) {
    || last.db.totalBytes <= Mark(cfg, last.evicted)
    || passes == cfg.maxBatchesPerSweep
    || OnlyRootsLeft(last.db.rows)
  }

  /** One pass of the sweep, up to the choice of the batch. `open` is false when no space is left. */
  method Survey(store: SqliteStore, cfg: Config, exhausted: set<string>)
    returns (open: bool, pass: Pass)
    requires store.Valid()
    ensures Describes(pass.usage, store.State())
    ensures !open <==> pass.usage.Keys <= exhausted
    ensures open ==> IsVictim(cfg, pass.usage - exhausted, pass.victim)
    ensures open ==> OldestFirst(store.handles, pass.victim, cfg.evictionBatch * 2, pass.candidates)
  {
    var usage := store.SpaceUsageAll();
    var eligible := usage - exhausted;
    if eligible == map[] {
      assert forall s | s in usage :: s in exhausted || s in eligible;
      return false, Pass(usage, "", []);
    }
    var victim := PickVictim(cfg, eligible);
    var candidates := store.EvictionCandidates(victim, cfg.evictionBatch * 2);
    return true, Pass(usage, victim, candidates);
  }

  /** The rest of the pass: give up on a space without candidates, or delete a batch. */
  method Carry(store: SqliteStore, cfg: Config, hot: set<string>, pass: Pass, exhausted: set<string>, evicted: nat)
    returns (exhausted': set<string>, evicted': nat, stuck: bool)
    requires store.Valid()
    requires store.totalBytes > Mark(cfg, evicted)
    requires Describes(pass.usage, store.State())
    requires IsVictim(cfg, pass.usage - exhausted, pass.victim)
    requires OldestFirst(store.handles, pass.victim, cfg.evictionBatch * 2, pass.candidates)
    modifies store
    ensures store.Valid() && store.watermarks == old(store.watermarks)
    ensures Passes(cfg, hot, Sweeping(old(store.State()), exhausted, evicted), pass,
                   Sweeping(store.State(), exhausted', evicted'))
    ensures !stuck
  {
    exhausted', evicted', stuck := exhausted, evicted, false;
    if pass.candidates == [] {
      exhausted' := exhausted + {pass.victim};
      return;
    }
    assert cfg.evictionBatch >= 1;
    BatchDeletes(cfg, hot, store.State(), pass.victim, pass.candidates);
    var deleted := store.DeleteHandles(Batch(cfg, hot, pass.candidates));
    evicted' := evicted + deleted;
    stuck := deleted == 0;
  }

  /** What a sweep comes to, in numbers. */
  lemma SweepComesTo(cfg: Config, hot: set<string>, db: Db, w: Sweep)
    requires IsSweep(cfg, hot, db, w)
    ensures var last := w.states[|w.passes|];
      && last.evicted == |db.rows| - |last.db.rows|
      && (db.totalBytes <= cfg.maxStorageBytes ==> last.db == db)
      && (Ended(cfg, last, |w.passes|) && |w.passes| != cfg.maxBatchesPerSweep && !OnlyRootsLeft(last.db.rows) ==>
            if last.evicted == 0 then last.db.totalBytes <= cfg.maxStorageBytes
            else last.db.totalBytes * 100
                   <= cfg.maxStorageBytes * (if cfg.lowWaterPct < 100 then cfg.lowWaterPct else 100))
  {
    var last := w.states[|w.passes|];
    SweepSparesRoots(cfg, hot, db, w, |w.passes|);
    if |w.passes| > 0 {
      PassBeginsOver(cfg, hot, db, w, 0);
    }
    if last.evicted != 0 && last.db.totalBytes <= Mark(cfg, last.evicted) {
      AboveShare(last.db.totalBytes, cfg.maxStorageBytes * Min(cfg.lowWaterPct, 100));
    }
  }

  /** One pass of the loop, after which `w'` is the sweep so far. `more` is false when the sweep has ended. A pass
      that deletes nothing would end it, but no pass does. */
  method SweepPass(store: SqliteStore, cfg: Config, hot: set<string>, exhausted: set<string>, evicted: nat,
                   ghost db: Db, ghost w: Sweep)
    returns (more: bool, exhausted': set<string>, evicted': nat, ghost w': Sweep)
    requires store.Valid() && IsSweep(cfg, hot, db, w)
    requires w.states[|w.passes|] == Sweeping(store.State(), exhausted, evicted)
    modifies store
    ensures store.Valid() && store.watermarks == old(store.watermarks)
    ensures IsSweep(cfg, hot, db, w')
    ensures w'.states[|w'.passes|] == Sweeping(store.State(), exhausted', evicted')
    ensures |w'.passes| == |w.passes| + if more then 1 else 0
    ensures !more && cfg.evictionBatch >= 1 ==>
      store.totalBytes <= Mark(cfg, evicted') || OnlyRootsLeft(store.handles)
  {
    more, exhausted', evicted', w' := false, exhausted, evicted, w;
    var _, bytes := store.StorageTotals();
    if bytes <= Mark(cfg, evicted) {
      return;
    }
    var open, pass := Survey(store, cfg, exhausted);
    if !open {
      if cfg.evictionBatch >= 1 {
        NothingOpenMeansOnlyRoots(cfg, hot, db, w, pass.usage);
      }
      return;
    }
    var stuck;
    exhausted', evicted', stuck := Carry(store, cfg, hot, pass, exhausted, evicted);
    ghost var after := Sweeping(store.State(), exhausted', evicted');
    ExtendSweep(cfg, hot, db, w, pass, after);
    w' := Sweep(w.states + [after], w.passes + [pass]);
    more := !stuck;
  }

  /** One sweep, with the set of recently queried handles as it stands. The run it makes is returned as
      `w`: the results of `Eviction` apply to it. A relay within its budget loses nothing; a sweep that stops
      by itself, with rows left that are not roots, has brought the relay down to the low-water mark. */
  method SweepOnce(store: SqliteStore, cfg: Config, hot: set<string>) returns (evicted: nat, ghost w: Sweep)
    requires store.Valid()
    modifies store
    ensures store.Valid() && store.watermarks == old(store.watermarks)
    ensures IsSweep(cfg, hot, old(store.State()), w)
    ensures w.states[|w.passes|].db == store.State() && w.states[|w.passes|].evicted == evicted
    ensures cfg.evictionBatch >= 1 ==> Ended(cfg, w.states[|w.passes|], |w.passes|)
    ensures evicted == |old(store.handles)| - |store.handles| && |w.passes| <= cfg.maxBatchesPerSweep
    ensures old(store.totalBytes) <= cfg.maxStorageBytes ==> store.State() == old(store.State())
    ensures cfg.evictionBatch >= 1 && |w.passes| < cfg.maxBatchesPerSweep
            && (exists h :: h in store.handles && store.handles[h].space != h) ==>
      if evicted == 0 then store.totalBytes <= cfg.maxStorageBytes
      else store.totalBytes * 100 <= cfg.maxStorageBytes * (if cfg.lowWaterPct < 100 then cfg.lowWaterPct else 100)
  {
    evicted := 0;
    var exhausted: set<string> := {};
    w := Sweep([Sweeping(store.State(), {}, 0)], []);
    for i := 0 to cfg.maxBatchesPerSweep
      invariant store.Valid() && store.watermarks == old(store.watermarks)
      invariant IsSweep(cfg, hot, old(store.State()), w) && |w.passes| == i
      invariant w.states[i] == Sweeping(store.State(), exhausted, evicted)
    {
      var more;
      more, exhausted, evicted, w := SweepPass(store, cfg, hot, exhausted, evicted, old(store.State()), w);
      if !more {
        break;
      }
    }
    SweepComesTo(cfg, hot, old(store.State()), w);
  }
}
