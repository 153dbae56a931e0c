/** What a retention sweep may do (`retention::sweep`): the victim it picks, the batch it deletes and
    when it stops, as a run of steps; and what every such run guarantees. Ties between equally
    over-entitled spaces, equally large spaces and equally old rows may go either way. Ratios are
    exact. */
module Eviction {
  import opened Names
  import opened Tables
  import opened Sets
  import opened Accounting
  import Pages

  datatype Config = Config(
    maxStorageBytes: nat,
    entitlementPerEpoch: nat,
    lowWaterPct: nat,
    evictionBatch: nat,
    maxBatchesPerSweep: nat)

  function AtLeastOne(n: nat): nat {
    if n < 1 then 1 else n
  }

  function Min(a: nat, b: nat): nat {
    if a < b then a else b
  }

  function LowWater(cfg: Config): nat {
    cfg.maxStorageBytes * Min(cfg.lowWaterPct, 100) / 100
  }

  /** The mark that ends the sweep: the budget before anything was evicted, the low-water mark after. */
  function Mark(cfg: Config, evicted: nat): nat {
    if evicted == 0 then cfg.maxStorageBytes else LowWater(cfg)
  }

  /** A space's stored handles and the epochs it was seen committing. */
  datatype Use = Use(stored: nat, epochs: nat)

  predicate OverEntitled(cfg: Config, u: Use) {
    u.stored > AtLeastOne(u.epochs) * cfg.entitlementPerEpoch
  }

  /** Stored over entitled; with no entitlement at all every ratio is infinite, hence equal. */
  function Ratio(cfg: Config, u: Use): real {
    if cfg.entitlementPerEpoch == 0 then 0.0
    else u.stored as real / (AtLeastOne(u.epochs) * cfg.entitlementPerEpoch) as real
  }

  type Usage = map<string, Use>

  /** `usage` covers every space with rows, and says how many it has. */
  ghost predicate Describes(usage: Usage, db: Db) {
    && (forall s :: s in usage <==> RowsOf(db.rows, s) != {})
    && forall s | s in usage :: usage[s] == Use(|RowsOf(db.rows, s)|, EpochsOf(db.buckets, s))
  }

  /** The worst over-entitled space, or the largest space when none is over. */
  predicate IsVictim(cfg: Config, usage: Usage, v: string) {
    && v in usage
    && if exists s | s in usage :: OverEntitled(cfg, usage[s]) then
         && OverEntitled(cfg, usage[v])
         && forall s | s in usage && OverEntitled(cfg, usage[s]) :: Ratio(cfg, usage[s]) <= Ratio(cfg, usage[v])
       else forall s | s in usage :: usage[s].stored <= usage[v].stored
  }

  /** The rows of a space that may be evicted: all but its root. */
  function Evictable(t: Table, space: string): set<string> {
    set h | h in t && t[h].space == space && h != space
  }

  /** `ORDER BY updated_at ASC LIMIT`. */
  ghost predicate OldestFirst(t: Table, space: string, limit: nat, candidates: seq<string>) {
    && Pages.NoRepeats(candidates)
    && (forall c | c in candidates :: c in Evictable(t, space))
    && |candidates| == Min(limit, |Evictable(t, space)|)
    && (forall i, j | 0 <= i < j < |candidates| && candidates[i] in t && candidates[j] in t ::
          t[candidates[i]].updatedAt <= t[candidates[j]].updatedAt)
    && forall c, e | c in candidates && c in t && e in Evictable(t, space) && e !in candidates ::
         t[c].updatedAt <= t[e].updatedAt
  }

  function Take(s: seq<string>, n: nat): (r: seq<string>)
    ensures r <= s
    ensures |r| == Min(n, |s|)
  {
    if n < |s| then s[..n] else s
  }

  /** The handles that were not queried recently, in order. */
  function Cold(hot: set<string>, s: seq<string>): (cold: seq<string>)
    ensures |cold| <= |s|
    ensures forall h | h in cold :: h in s && h !in hot
    ensures cold == [] ==> forall h | h in s :: h in hot
  {
    if s == [] then []
    else
      var rest := Cold(hot, s[..|s| - 1]);
      if s[|s| - 1] in hot then rest else rest + [s[|s| - 1]]
  }

  /** Cold candidates only, unless every candidate is hot. */
  function Batch(cfg: Config, hot: set<string>, candidates: seq<string>): (batch: seq<string>)
    ensures forall h | h in batch :: h in candidates
    ensures (exists h | h in batch :: h in hot) ==> forall c | c in candidates :: c in hot
    ensures candidates != [] && cfg.evictionBatch >= 1 ==> batch != []
    ensures |batch| <= cfg.evictionBatch
  {
    var cold := Cold(hot, candidates);
    var from := if cold == [] then candidates else cold;
    Pages.Members(from, Take(from, cfg.evictionBatch));
    Take(from, cfg.evictionBatch)
  }

  // ---- sweeps as runs ------------------------------------------------------------------------------

  datatype Sweeping = Sweeping(db: Db, exhausted: set<string>, evicted: nat)

  /** One pass of the loop that does not end the sweep. */
  datatype Pass = Pass(usage: Usage, victim: string, candidates: seq<string>)

  ghost predicate Passes(cfg: Config, hot: set<string>, s: Sweeping, p: Pass, s': Sweeping) {
    && s.db.totalBytes > Mark(cfg, s.evicted)
    && Describes(p.usage, s.db)
    && IsVictim(cfg, p.usage - s.exhausted, p.victim)
    && OldestFirst(s.db.rows, p.victim, cfg.evictionBatch * 2, p.candidates)
    && if p.candidates == [] then s' == s.(exhausted := s.exhausted + {p.victim})
       else
         && s'.exhausted == s.exhausted
         && s'.db == DropAll(s.db, Batch(cfg, hot, p.candidates))
         && s'.evicted == s.evicted + |s.db.rows| - |s'.db.rows|
  }

  datatype Sweep = Sweep(states: seq<Sweeping>, passes: seq<Pass>)

  /** Each state leads to the next by its label. */
  ghost predicate Chain<S, L>(states: seq<S>, labels: seq<L>, r: (S, L, S) -> bool) {
    && |states| == |labels| + 1
    && forall k | 0 <= k < |labels| :: r(states[k], labels[k], states[k + 1])
  }

  lemma ExtendChain<S, L>(states: seq<S>, labels: seq<L>, r: (S, L, S) -> bool, l: L, after: S)
    requires Chain(states, labels, r) && r(states[|labels|], l, after)
    ensures Chain(states + [after], labels + [l], r)
  {
  }

  ghost function PassRelation(cfg: Config, hot: set<string>): (Sweeping, Pass, Sweeping) -> bool {
    (s, p, s') => Passes(cfg, hot, s, p, s')
  }

  ghost predicate IsSweep(cfg: Config, hot: set<string>, db: Db, w: Sweep) {
    Chain(w.states, w.passes, PassRelation(cfg, hot)) && w.states[0] == Sweeping(db, {}, 0)
  }

  lemma PassOf(cfg: Config, hot: set<string>, db: Db, w: Sweep, k: nat)
    requires IsSweep(cfg, hot, db, w) && k < |w.passes|
    ensures Passes(cfg, hot, w.states[k], w.passes[k], w.states[k + 1])
  {
    assert PassRelation(cfg, hot)(w.states[k], w.passes[k], w.states[k + 1]);
  }

  lemma ExtendSweep(cfg: Config, hot: set<string>, db: Db, w: Sweep, p: Pass, after: Sweeping)
    requires IsSweep(cfg, hot, db, w)
    requires Passes(cfg, hot, w.states[|w.passes|], p, after)
    ensures IsSweep(cfg, hot, db, Sweep(w.states + [after], w.passes + [p]))
  {
    ExtendChain(w.states, w.passes, PassRelation(cfg, hot), p, after);
  }

  /** Every root row is as it was, and rows only went. */
  ghost predicate SparesRoots(t: Table, t': Table) {
    && t'.Keys <= t.Keys
    && (forall h | h in t' :: t'[h] == t[h])
    && forall h | h in t && h == t[h].space :: h in t'
  }

  /** The rows of a pass come from the victim, and its root is not among them. */
  lemma PassDrops(cfg: Config, hot: set<string>, s: Sweeping, p: Pass, s': Sweeping)
    requires Passes(cfg, hot, s, p, s')
    ensures s'.db.rows.Keys <= s.db.rows.Keys
    ensures forall h | h in s'.db.rows :: s'.db.rows[h] == s.db.rows[h]
    ensures forall h | h in s.db.rows && h !in s'.db.rows ::
      s.db.rows[h].space == p.victim && h != p.victim && h in Batch(cfg, hot, p.candidates)
  {
    if p.candidates != [] {
      DropAllRemovesListed(s.db, Batch(cfg, hot, p.candidates));
    }
  }

  lemma PassSparesRoots(cfg: Config, hot: set<string>, s: Sweeping, p: Pass, s': Sweeping)
    requires Passes(cfg, hot, s, p, s')
    ensures SparesRoots(s.db.rows, s'.db.rows)
    ensures s'.evicted == s.evicted + |s.db.rows| - |s'.db.rows|
  {
    PassDrops(cfg, hot, s, p, s');
  }

  /** Each state of a sweep is related to the next as `PassSparesRoots` says. */
  ghost predicate SparingSteps(states: seq<Sweeping>) {
    forall k | 0 <= k < |states| - 1 ::
      && SparesRoots(states[k].db.rows, states[k + 1].db.rows)
      && states[k + 1].evicted == states[k].evicted + |states[k].db.rows| - |states[k + 1].db.rows|
  }

  lemma SweepSteps(cfg: Config, hot: set<string>, db: Db, w: Sweep)
    requires IsSweep(cfg, hot, db, w)
    ensures SparingSteps(w.states)
  {
    forall k | 0 <= k < |w.states| - 1
      ensures SparesRoots(w.states[k].db.rows, w.states[k + 1].db.rows)
      ensures w.states[k + 1].evicted == w.states[k].evicted + |w.states[k].db.rows| - |w.states[k + 1].db.rows|
    {
      PassOf(cfg, hot, db, w, k);
      PassSparesRoots(cfg, hot, w.states[k], w.passes[k], w.states[k + 1]);
    }
  }

  lemma {:induction false} StepsSpareRoots(states: seq<Sweeping>, k: nat)
    requires SparingSteps(states) && k < |states|
    ensures SparesRoots(states[0].db.rows, states[k].db.rows)
    ensures states[k].evicted - states[0].evicted == |states[0].db.rows| - |states[k].db.rows|
    decreases k
  {
    if k > 0 {
      StepsSpareRoots(states, k - 1);
      assert SparesRoots(states[k - 1].db.rows, states[k - 1 + 1].db.rows);
    }
  }

  /** Main result. A sweep never deletes a root row and changes no row that it leaves, and what it
      reports as evicted is what the table lost. */
  lemma SweepSparesRoots(cfg: Config, hot: set<string>, db: Db, w: Sweep, k: nat)
    requires IsSweep(cfg, hot, db, w) && k < |w.states|
    ensures SparesRoots(db.rows, w.states[k].db.rows)
    ensures w.states[k].evicted == |db.rows| - |w.states[k].db.rows|
  {
    SweepSteps(cfg, hot, db, w);
    StepsSpareRoots(w.states, k);
  }

  /** Main result. If a pass deletes a row of a space that is within its entitlement, then no space
      that could still be evicted from was over its own; and if it deletes a recently queried handle,
      then every candidate was recently queried. */
  lemma WithinEntitlementGoesLast(cfg: Config, hot: set<string>, db: Db, w: Sweep, k: nat, h: string)
    requires IsSweep(cfg, hot, db, w) && k < |w.passes|
    requires h in w.states[k].db.rows && h !in w.states[k + 1].db.rows
    ensures var s := w.states[k]; var space := s.db.rows[h].space;
      !OverEntitled(cfg, Use(|RowsOf(s.db.rows, space)|, EpochsOf(s.db.buckets, space))) ==>
        forall other | RowsOf(s.db.rows, other) != {} && other !in s.exhausted ::
          !OverEntitled(cfg, Use(|RowsOf(s.db.rows, other)|, EpochsOf(s.db.buckets, other)))
    ensures h in hot ==> forall c | c in w.passes[k].candidates :: c in hot
  {
    var s := w.states[k];
    var p := w.passes[k];
    PassOf(cfg, hot, db, w, k);
    PassDrops(cfg, hot, s, p, w.states[k + 1]);
    var open := p.usage - s.exhausted;
    forall other | RowsOf(s.db.rows, other) != {} && other !in s.exhausted
      ensures OverEntitled(cfg, Use(|RowsOf(s.db.rows, other)|, EpochsOf(s.db.buckets, other)))
        ==> exists x | x in open :: OverEntitled(cfg, open[x])
    {
      assert other in p.usage && open[other] == p.usage[other];
    }
  }

  lemma AboveShare(bytes: int, product: nat)
    ensures bytes > product / 100 <==> bytes * 100 > product
  {
  }

  /** Main result. No pass begins at or under the budget while nothing was evicted, nor, once something was, at
      or under the share of the budget that is the low-water mark. A sweep that finds the relay within its
      budget therefore deletes nothing, and one that deletes stops at the mark. */
  lemma PassBeginsOver(cfg: Config, hot: set<string>, db: Db, w: Sweep, k: nat)
    requires IsSweep(cfg, hot, db, w) && k < |w.passes|
    ensures var s := w.states[k];
      if s.evicted == 0 then s.db.totalBytes > cfg.maxStorageBytes
      else s.db.totalBytes * 100 > cfg.maxStorageBytes * (if cfg.lowWaterPct < 100 then cfg.lowWaterPct else 100)
    ensures db.totalBytes > cfg.maxStorageBytes
  {
    PassOf(cfg, hot, db, w, k);
    PassOf(cfg, hot, db, w, 0);
    if w.states[k].evicted != 0 {
      AboveShare(w.states[k].db.totalBytes, cfg.maxStorageBytes * Min(cfg.lowWaterPct, 100));
    }
  }

  lemma CrossMultiplied(a: nat, b: nat, c: nat, d: nat)
    requires b > 0 && d > 0 && a as real / b as real <= c as real / d as real
    ensures a * d <= c * b
  {
    assert a as real * d as real <= c as real * b as real by {
      assert a as real / b as real * b as real == a as real;
      assert c as real / d as real * d as real == c as real;
      ScaledUp(a as real / b as real, c as real / d as real, b as real * d as real);
    }
    assert (a * d) as real <= (c * b) as real;
  }

  lemma ScaledUp(x: real, y: real, z: real)
    requires x <= y && z > 0.0
    ensures x * z <= y * z
  {
  }

  /** Main result. A pass takes from the worst space: if a space with rows that is not given up stores more than
      its entitlement (the given number for each epoch it was seen committing, and for one at least), then so
      does the space the pass takes from, in no smaller proportion; and if none does, the space the pass
      takes from is a largest one. */
  lemma WorstGoesFirst(cfg: Config, hot: set<string>, db: Db, w: Sweep, k: nat, h: string, other: string)
    requires IsSweep(cfg, hot, db, w) && k < |w.passes|
    requires h in w.states[k].db.rows && h !in w.states[k + 1].db.rows
    requires RowsOf(w.states[k].db.rows, other) != {} && other !in w.states[k].exhausted
    ensures var s := w.states[k]; var space := s.db.rows[h].space;
      var mine, theirs := |set g | g in s.db.rows && s.db.rows[g].space == space|,
                          |set g | g in s.db.rows && s.db.rows[g].space == other|;
      var myEpochs, theirEpochs := |EpochsSeen(s.db.buckets, space)|, |EpochsSeen(s.db.buckets, other)|;
      var myShare := cfg.entitlementPerEpoch * (if myEpochs < 1 then 1 else myEpochs);
      var theirShare := cfg.entitlementPerEpoch * (if theirEpochs < 1 then 1 else theirEpochs);
      && (theirs > theirShare ==> mine > myShare && theirs * myShare <= mine * theirShare)
      && (mine <= myShare ==> theirs <= mine)
  {
    var s, p := w.states[k], w.passes[k];
    PassOf(cfg, hot, db, w, k);
    PassDrops(cfg, hot, s, p, w.states[k + 1]);
    EpochsAreSeen(s.db.buckets, p.victim);
    EpochsAreSeen(s.db.buckets, other);
    var open := p.usage - s.exhausted;
    assert other in open && p.victim in open;
    VictimIsWorst(cfg, open, p.victim, other);
  }

  lemma VictimIsWorst(cfg: Config, usage: Usage, v: string, other: string)
    requires IsVictim(cfg, usage, v) && other in usage
    ensures var mine, theirs := usage[v], usage[other];
      var myShare := cfg.entitlementPerEpoch * AtLeastOne(mine.epochs);
      var theirShare := cfg.entitlementPerEpoch * AtLeastOne(theirs.epochs);
      && (theirs.stored > theirShare ==>
            mine.stored > myShare && theirs.stored * myShare <= mine.stored * theirShare)
      && (mine.stored <= myShare ==> theirs.stored <= mine.stored)
  {
    var mine, theirs := usage[v], usage[other];
    if OverEntitled(cfg, theirs) && cfg.entitlementPerEpoch > 0 {
      CrossMultiplied(theirs.stored, AtLeastOne(theirs.epochs) * cfg.entitlementPerEpoch,
                      mine.stored, AtLeastOne(mine.epochs) * cfg.entitlementPerEpoch);
    }
  }

  /** A pass deletes no more than a batch. What it looks at are the oldest rows of the space, root aside, twice
      the batch if there are as many; it deletes hot ones only if all of these are hot, and stops short of a
      full batch only with hot ones left. */
  lemma BatchBounds(cfg: Config, hot: set<string>, db: Db, w: Sweep, k: nat, h: string)
    requires IsSweep(cfg, hot, db, w) && k < |w.passes|
    requires h in w.states[k].db.rows && h !in w.states[k + 1].db.rows
    ensures var s, s', seen := w.states[k], w.states[k + 1], w.passes[k].candidates;
      var rows := set g | g in s.db.rows && s.db.rows[g].space == s.db.rows[h].space && g != s.db.rows[g].space;
      && |s.db.rows| - |s'.db.rows| <= cfg.evictionBatch
      && (forall c | c in seen :: c in rows)
      && |seen| == (if |rows| < 2 * cfg.evictionBatch then |rows| else 2 * cfg.evictionBatch)
      && (h in hot ==> forall c | c in seen :: c in hot)
      && (|s.db.rows| - |s'.db.rows| < cfg.evictionBatch ==> forall c | c in seen && c in s'.db.rows :: c in hot)
  {
    PassOf(cfg, hot, db, w, k);
    PassBounds(cfg, hot, w.states[k], w.passes[k], w.states[k + 1], h);
  }

  lemma PassBounds(cfg: Config, hot: set<string>, s: Sweeping, p: Pass, s': Sweeping, h: string)
    requires Passes(cfg, hot, s, p, s') && h in s.db.rows && h !in s'.db.rows
    ensures var rows := set g | g in s.db.rows && s.db.rows[g].space == s.db.rows[h].space && g != s.db.rows[g].space;
      && |s.db.rows| - |s'.db.rows| <= cfg.evictionBatch
      && (forall c | c in p.candidates :: c in rows)
      && |p.candidates| == (if |rows| < 2 * cfg.evictionBatch then |rows| else 2 * cfg.evictionBatch)
      && (h in hot ==> forall c | c in p.candidates :: c in hot)
      && (|s.db.rows| - |s'.db.rows| < cfg.evictionBatch ==>
            forall c | c in p.candidates && c in s'.db.rows :: c in hot)
  {
    PassDrops(cfg, hot, s, p, s');
    PassTakesBatch(cfg, hot, s, p, s');
    assert Evictable(s.db.rows, p.victim)
        == set g | g in s.db.rows && s.db.rows[g].space == p.victim && g != s.db.rows[g].space;
  }

  /** What a pass removes is its batch. */
  lemma PassTakesBatch(cfg: Config, hot: set<string>, s: Sweeping, p: Pass, s': Sweeping)
    requires Passes(cfg, hot, s, p, s') && p.candidates != []
    ensures |s.db.rows| - |s'.db.rows| == |Batch(cfg, hot, p.candidates)|
    ensures forall c | c in p.candidates && c in s'.db.rows :: c !in Batch(cfg, hot, p.candidates)
    ensures |Batch(cfg, hot, p.candidates)| < cfg.evictionBatch ==>
      forall c | c in p.candidates && c in s'.db.rows :: c in hot
  {
    var batch := Batch(cfg, hot, p.candidates);
    DropAllRemovesListed(s.db, batch);
    BatchIsStored(cfg, hot, s.db.rows, p.victim, p.candidates);
    RowsLeft(s.db.rows, s'.db.rows, batch);
    ShortBatch(cfg, hot, p.candidates);
  }

  lemma BatchIsStored(cfg: Config, hot: set<string>, t: Table, space: string, candidates: seq<string>)
    requires OldestFirst(t, space, cfg.evictionBatch * 2, candidates)
    ensures forall g | g in Batch(cfg, hot, candidates) :: g in t
    ensures Pages.NoRepeats(Batch(cfg, hot, candidates))
  {
    forall g | g in Batch(cfg, hot, candidates) ensures g in t {
      assert g in candidates;
    }
    ColdRepeatsNothing(hot, candidates);
  }

  lemma {:induction false} ColdRepeatsNothing(hot: set<string>, s: seq<string>)
    requires Pages.NoRepeats(s)
    ensures Pages.NoRepeats(Cold(hot, s))
    decreases |s|
  {
    if s != [] {
      ColdRepeatsNothing(hot, s[..|s| - 1]);
    }
  }

  lemma RowsLeft(t: Table, t': Table, batch: seq<string>)
    requires (forall g | g in batch :: g in t) && Pages.NoRepeats(batch)
    requires t' == t - (set g | g in batch)
    ensures |t| - |t'| == |batch|
  {
    var gone := set g | g in batch;
    DistinctCount(batch, gone);
    assert t'.Keys == t.Keys - gone && t.Keys == t'.Keys + gone;
  }

  lemma ShortBatch(cfg: Config, hot: set<string>, candidates: seq<string>)
    ensures |Batch(cfg, hot, candidates)| < cfg.evictionBatch ==>
      forall c | c in candidates && c !in Batch(cfg, hot, candidates) :: c in hot
  {
    ColdComplete(hot, candidates);
  }

  /** `s` lists the rows it names from the least recently updated on. */
  ghost predicate ByAge(t: Table, s: seq<string>) {
    && (forall c | c in s :: c in t)
    && forall i, j | 0 <= i < j < |s| :: t[s[i]].updatedAt <= t[s[j]].updatedAt
  }

  lemma AgeSplit(t: Table, front: seq<string>, last: string)
    ensures ByAge(t, front + [last]) <==>
      ByAge(t, front) && last in t && forall c | c in front :: t[c].updatedAt <= t[last].updatedAt
  {
    var s := front + [last];
    if ByAge(t, s) {
      assert last in s && s[|front|] == last;
      assert forall c | c in front :: c in s;
      assert forall i | 0 <= i < |front| :: front[i] == s[i];
    }
  }

  lemma {:induction false} ColdComplete(hot: set<string>, s: seq<string>)
    ensures forall h | h in s && h !in hot :: h in Cold(hot, s)
    decreases |s|
  {
    if s != [] {
      ColdComplete(hot, s[..|s| - 1]);
      assert s == s[..|s| - 1] + [s[|s| - 1]];
    }
  }

  lemma {:induction false} ColdByAge(hot: set<string>, t: Table, s: seq<string>)
    requires ByAge(t, s)
    ensures ByAge(t, Cold(hot, s))
    decreases |s|
  {
    if s != [] {
      var front, last := s[..|s| - 1], s[|s| - 1];
      assert s == front + [last];
      AgeSplit(t, front, last);
      ColdByAge(hot, t, front);
      AgeSplit(t, Cold(hot, front), last);
    }
  }

  lemma PrefixIsOlder(t: Table, s: seq<string>, n: nat, h: string, e: string)
    requires ByAge(t, s) && h in Take(s, n) && e in s && e !in Take(s, n)
    ensures h in t && e in t && t[h].updatedAt <= t[e].updatedAt
  {
    var i :| 0 <= i < |Take(s, n)| && Take(s, n)[i] == h;
    var j :| 0 <= j < |s| && s[j] == e;
    assert s[i] == h;
    assert forall k | 0 <= k < |Take(s, n)| :: s[k] == Take(s, n)[k] && s[k] in Take(s, n);
  }

  /** A batch takes the oldest rows that were not queried recently: no other such row of the space was
      updated earlier than one the batch takes. */
  lemma OldestColdFirst(cfg: Config, hot: set<string>, t: Table, space: string, candidates: seq<string>,
                        h: string, e: string)
    requires OldestFirst(t, space, cfg.evictionBatch * 2, candidates)
    requires h in Batch(cfg, hot, candidates)
    requires e in Evictable(t, space) && e !in hot && e !in Batch(cfg, hot, candidates)
    ensures h in t && t[h].updatedAt <= t[e].updatedAt
  {
    assert ByAge(t, candidates);
    if e in candidates {
      ColdByAge(hot, t, candidates);
      ColdComplete(hot, candidates);
      PrefixIsOlder(t, Cold(hot, candidates), cfg.evictionBatch, h, e);
    }
  }

  /** Main result. Whatever row a pass deletes, every evictable row of its space that stays was updated no
      earlier, or was queried recently. */
  lemma SweepTakesOldest(cfg: Config, hot: set<string>, db: Db, w: Sweep, k: nat, h: string, e: string)
    requires IsSweep(cfg, hot, db, w) && k < |w.passes|
    requires h in w.states[k].db.rows && h !in w.states[k + 1].db.rows
    requires e in Evictable(w.states[k].db.rows, w.states[k].db.rows[h].space) && e in w.states[k + 1].db.rows
    ensures e in hot || w.states[k].db.rows[h].updatedAt <= w.states[k].db.rows[e].updatedAt
  {
    var s, p := w.states[k], w.passes[k];
    PassOf(cfg, hot, db, w, k);
    PassDrops(cfg, hot, s, p, w.states[k + 1]);
    if e !in hot {
      DropAllRemovesListed(s.db, Batch(cfg, hot, p.candidates));
      OldestColdFirst(cfg, hot, s.db.rows, p.victim, p.candidates, h, e);
    }
  }

  // ---- progress ------------------------------------------------------------------------------------

  ghost function NonRoots(t: Table): set<string> {
    set h | h in t && h != t[h].space
  }

  ghost function SpacesWithRows(t: Table): set<string> {
    set h | h in t :: t[h].space
  }

  /** What a sweep can still use up: rows that are not roots, and spaces not yet exhausted. */
  ghost function Left(s: Sweeping): nat {
    |NonRoots(s.db.rows)| + |SpacesWithRows(s.db.rows) - s.exhausted|
  }

  lemma DeletionProgress(cfg: Config, hot: set<string>, s: Sweeping, p: Pass, s': Sweeping)
    requires cfg.evictionBatch >= 1
    requires Passes(cfg, hot, s, p, s') && p.candidates != []
    ensures Left(s') < Left(s)
  {
    PassDrops(cfg, hot, s, p, s');
    var batch := Batch(cfg, hot, p.candidates);
    DropAllRemovesListed(s.db, batch);
    var h := batch[0];
    assert h in batch && h in p.candidates && h in Evictable(s.db.rows, p.victim);
    assert h in NonRoots(s.db.rows) && h !in NonRoots(s'.db.rows);
    SubsetSize(NonRoots(s'.db.rows), NonRoots(s.db.rows));
    SubsetSize(SpacesWithRows(s'.db.rows) - s.exhausted, SpacesWithRows(s.db.rows) - s.exhausted);
  }

  /** A batch that was picked deletes something. */
  lemma BatchDeletes(cfg: Config, hot: set<string>, db: Db, victim: string, candidates: seq<string>)
    requires cfg.evictionBatch >= 1 && candidates != []
    requires OldestFirst(db.rows, victim, cfg.evictionBatch * 2, candidates)
    ensures |DropAll(db, Batch(cfg, hot, candidates)).rows| < |db.rows|
  {
    var batch := Batch(cfg, hot, candidates);
    DropAllRemovesListed(db, batch);
    var h := batch[0];
    assert h in batch && h in candidates && h in Evictable(db.rows, victim);
    var after := DropAll(db, batch).rows;
    assert h in db.rows && h !in after;
    SubsetSize(after.Keys, db.rows.Keys);
    assert |after| == |after.Keys| && |db.rows| == |db.rows.Keys|;
  }

  lemma ExhaustionProgress(cfg: Config, hot: set<string>, s: Sweeping, p: Pass, s': Sweeping)
    requires Passes(cfg, hot, s, p, s') && p.candidates == []
    ensures Left(s') < Left(s)
  {
    assert p.victim in p.usage && p.victim !in s.exhausted;
    var h :| h in RowsOf(s.db.rows, p.victim);
    assert p.victim in SpacesWithRows(s.db.rows);
    SubsetSize(SpacesWithRows(s'.db.rows) - s'.exhausted, SpacesWithRows(s.db.rows) - s.exhausted);
  }

  ghost predicate Shrinking(states: seq<Sweeping>) {
    forall k | 0 <= k < |states| - 1 :: Left(states[k + 1]) < Left(states[k])
  }

  lemma SweepShrinks(cfg: Config, hot: set<string>, db: Db, w: Sweep)
    requires cfg.evictionBatch >= 1 && IsSweep(cfg, hot, db, w)
    ensures Shrinking(w.states)
  {
    forall k | 0 <= k < |w.states| - 1 ensures Left(w.states[k + 1]) < Left(w.states[k]) {
      PassOf(cfg, hot, db, w, k);
      if w.passes[k].candidates == [] {
        ExhaustionProgress(cfg, hot, w.states[k], w.passes[k], w.states[k + 1]);
      } else {
        DeletionProgress(cfg, hot, w.states[k], w.passes[k], w.states[k + 1]);
      }
    }
  }

  lemma {:induction false} ShrinkingIsShort(states: seq<Sweeping>, k: nat)
    requires Shrinking(states) && k < |states|
    ensures k + Left(states[k]) <= Left(states[0])
    decreases k
  {
    if k > 0 {
      ShrinkingIsShort(states, k - 1);
      assert Left(states[k - 1 + 1]) < Left(states[k - 1]);
    }
  }

  /** Main result. Every pass uses something up, so a sweep makes at most as many passes as there were
      non-root rows and spaces. */
  lemma SweepEnds(cfg: Config, hot: set<string>, db: Db, w: Sweep)
    requires cfg.evictionBatch >= 1
    requires IsSweep(cfg, hot, db, w)
    ensures |w.passes| <= |NonRoots(db.rows)| + |SpacesWithRows(db.rows)|
  {
    SweepShrinks(cfg, hot, db, w);
    ShrinkingIsShort(w.states, |w.passes|);
    assert SpacesWithRows(db.rows) - {} == SpacesWithRows(db.rows);
  }

  ghost predicate ExhaustedAreBare(s: Sweeping) {
    forall x | x in s.exhausted :: Evictable(s.db.rows, x) == {}
  }

  lemma PassKeepsBare(cfg: Config, hot: set<string>, s: Sweeping, p: Pass, s': Sweeping)
    requires cfg.evictionBatch >= 1
    requires Passes(cfg, hot, s, p, s') && ExhaustedAreBare(s)
    ensures ExhaustedAreBare(s')
  {
    PassDrops(cfg, hot, s, p, s');
    forall x | x in s'.exhausted ensures Evictable(s'.db.rows, x) == {} {
      assert Evictable(s'.db.rows, x) <= Evictable(s.db.rows, x);
      if x == p.victim && p.candidates == [] {
        assert |Evictable(s.db.rows, x)| == 0;
      }
    }
  }

  ghost predicate BareSteps(states: seq<Sweeping>) {
    forall k | 0 <= k < |states| - 1 :: ExhaustedAreBare(states[k]) ==> ExhaustedAreBare(states[k + 1])
  }

  lemma SweepKeepsBare(cfg: Config, hot: set<string>, db: Db, w: Sweep)
    requires cfg.evictionBatch >= 1 && IsSweep(cfg, hot, db, w)
    ensures BareSteps(w.states)
  {
    forall k | 0 <= k < |w.states| - 1 && ExhaustedAreBare(w.states[k]) ensures ExhaustedAreBare(w.states[k + 1]) {
      PassOf(cfg, hot, db, w, k);
      PassKeepsBare(cfg, hot, w.states[k], w.passes[k], w.states[k + 1]);
    }
  }

  /** Exhausted spaces hold nothing that may be evicted. */
  lemma {:induction false} ExhaustedStayBare(states: seq<Sweeping>, k: nat)
    requires BareSteps(states) && k < |states|
    requires states[0].exhausted == {}
    ensures ExhaustedAreBare(states[k])
    decreases k
  {
    if k > 0 {
      ExhaustedStayBare(states, k - 1);
      assert ExhaustedAreBare(states[k - 1]) ==> ExhaustedAreBare(states[k - 1 + 1]);
    }
  }

  ghost predicate OnlyRootsLeft(t: Table) {
    forall h | h in t :: h == t[h].space
  }

  lemma BareMeansOnlyRoots(s: Sweeping, usage: Usage)
    requires ExhaustedAreBare(s) && Describes(usage, s.db) && usage.Keys <= s.exhausted
    ensures OnlyRootsLeft(s.db.rows)
  {
    forall h | h in s.db.rows ensures h == s.db.rows[h].space {
      var space := s.db.rows[h].space;
      assert h in RowsOf(s.db.rows, space);
      assert space in usage;
      assert h != space ==> h in Evictable(s.db.rows, space);
    }
  }

  /** Main result. When a sweep finds no space left to evict from, only root rows are left. */
  lemma NothingOpenMeansOnlyRoots(cfg: Config, hot: set<string>, db: Db, w: Sweep, usage: Usage)
    requires cfg.evictionBatch >= 1
    requires IsSweep(cfg, hot, db, w)
    requires Describes(usage, w.states[|w.passes|].db)
    requires usage.Keys <= w.states[|w.passes|].exhausted
    ensures OnlyRootsLeft(w.states[|w.passes|].db.rows)
    ensures forall h | h in w.states[|w.passes|].db.rows :: h == w.states[|w.passes|].db.rows[h].space
  {
    SweepKeepsBare(cfg, hot, db, w);
    ExhaustedStayBare(w.states, |w.passes|);
    BareMeansOnlyRoots(w.states[|w.passes|], usage);
  }

  // ---- the admission gate --------------------------------------------------------------------------

  /** `first_insert_gated`. */
  ghost function FirstInsertGated(cfg: Config, db: Db, space: string): bool {
    && cfg.maxStorageBytes != 0
    && db.totalBytes > cfg.maxStorageBytes
    && StoredIn(db.buckets, space) > AtLeastOne(EpochsOf(db.buckets, space)) * cfg.entitlementPerEpoch
  }

  /** What closes the gate, in the rows and epochs of the space. */
  lemma GateMeans(cfg: Config, db: Db, space: string)
    requires Recount(db)
    ensures FirstInsertGated(cfg, db, space) <==>
      && cfg.maxStorageBytes != 0 && TableBytes(db.rows) > cfg.maxStorageBytes
      && var epochs := |EpochsSeen(db.buckets, space)|;
         |set h | h in db.rows && db.rows[h].space == space|
           > cfg.entitlementPerEpoch * (if epochs < 1 then 1 else epochs)
  {
    UsageIsRowCount(db, space);
    EpochsAreSeen(db.buckets, space);
    var epochs := |EpochsSeen(db.buckets, space)|;
    SameProduct(AtLeastOne(epochs), cfg.entitlementPerEpoch);
    assert RowsOf(db.rows, space) == set h | h in db.rows && db.rows[h].space == space;
  }

  lemma SameProduct(a: nat, b: nat)
    ensures a * b == b * a
  {
  }

  lemma NonNegativeProduct(a: nat, b: nat)
    ensures a * b >= 0
  {
  }

  /** Main result. The gate only closes on a space that has rows; so if the relay holds the root of
      everything it stores, it holds the root of every gated space. */
  lemma GateNeedsRows(cfg: Config, db: Db, space: string)
    requires Recount(db) && SpacesAgree(db.rows)
    requires forall h | h in db.rows :: SpaceName(h) in db.rows
    requires FirstInsertGated(cfg, db, space)
    ensures space in db.rows
  {
    UsageIsRowCount(db, space);
    assert StoredIn(db.buckets, space) > 0 by {
      NonNegativeProduct(AtLeastOne(EpochsOf(db.buckets, space)), cfg.entitlementPerEpoch);
    }
    assert RowsOf(db.rows, space) != {};
    var h :| h in RowsOf(db.rows, space);
  }

  /** A sweep keeps the root of everything that stays. */
  lemma SweepKeepsRootClosed(t: Table, t': Table)
    requires SpacesAgree(t) && SparesRoots(t, t')
    requires forall h | h in t :: SpaceName(h) in t
    ensures forall h | h in t' :: SpaceName(h) in t'
  {
    forall h | h in t' ensures SpaceName(h) in t' {
      SpaceNameIsRoot(h);
    }
  }
}
