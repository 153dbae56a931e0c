/** The peer table (`PeerTable`): which announced URLs are being tried, which are synced from, and how
    entries move between the two. URLs are taken in normalised form; `now` is the clock reading of
    the call. A URL may be in both tables at once (a stale verified peer that announces itself before
    `demote_expired` runs), so nothing here assumes otherwise. */
module Peers {
  import opened Names
  import opened Totals
  import opened Sets

  datatype Ip = Unspecified | Address(id: nat)

  datatype PeerEntry = PeerEntry(sourceIp: Ip, capabilities: nat, lastSeen: int, added: int, syncFailures: nat)

  datatype Config = Config(maxUnverified: nat, maxVerified: nat, verifiedTtl: int, unverifiedTtl: int)

  const SYNC_FAILURES_BEFORE_DEMOTE: nat := 3

  type Entries = map<string, PeerEntry>

  datatype Table = Table(ipSlots: map<Ip, string>, unverified: Entries, verified: Entries)

  const EMPTY: Table := Table(map[], map[], map[])

  datatype Op =
    | Announce(url: string, sourceIp: Ip, capabilities: nat)
    | MarkAlive(url: string)
    | MarkSynced(url: string)
    | EnsureSeed(url: string)
    | SyncFailure(url: string)
    | ExpireUnverified
    | DemoteExpired
    | Remove(url: string)

  // ---- what each call does -------------------------------------------------------------------------

  /** `after` is `before` cut down to `cap` entries by removing least-recently-seen ones. Entries seen
      at the same time may go in any order. */
  ghost predicate Evicts(before: Entries, cap: nat, after: Entries) {
    && after.Keys <= before.Keys
    && (forall u | u in after :: after[u] == before[u])
    && |after| == (if |before| <= cap then |before| else cap)
    && forall u, v | u in before && u !in after && v in after :: before[u].lastSeen <= before[v].lastSeen
  }

  function SlotsWithout(slots: map<Ip, string>, gone: set<string>): map<Ip, string> {
    map ip | ip in slots && slots[ip] !in gone :: slots[ip]
  }

  /** The unverified table is over capacity: evict from it, and free the IP slots of what goes. */
  ghost predicate EvictsUnverified(cfg: Config, s: Table, s': Table) {
    && s'.verified == s.verified
    && Evicts(s.unverified, cfg.maxUnverified, s'.unverified)
    && s'.ipSlots == SlotsWithout(s.ipSlots, s.unverified.Keys - s'.unverified.Keys)
  }

  predicate Fresh(cfg: Config, e: PeerEntry, now: int) {
    now - e.lastSeen < cfg.verifiedTtl
  }

  /** An attributed announcement takes the IP's slot; the URL that held it is dropped from the
      unverified table unless another IP points to it. */
  function TakeSlot(s: Table, url: string, ip: Ip): Table {
    var displaced := ip in s.ipSlots && s.ipSlots[ip] != url;
    var orphan := displaced && forall other | other in s.ipSlots && other != ip :: s.ipSlots[other] != s.ipSlots[ip];
    s.(unverified := if orphan then s.unverified - {s.ipSlots[ip]} else s.unverified,
       ipSlots := s.ipSlots[ip := url])
  }

  function Upsert(s: Table, url: string, ip: Ip, capabilities: nat, now: int): Table {
    s.(unverified := s.unverified[url :=
         if url in s.unverified then
           s.unverified[url].(lastSeen := now, added := now, capabilities := capabilities)
         else PeerEntry(ip, capabilities, now, now, 0)])
  }

  ghost predicate Announces(cfg: Config, self: Option<string>, s: Table, url: string, ip: Ip, caps: nat, now: int,
                            s': Table)
  {
    if self == Some(url) then s' == s
    else if url in s.verified && Fresh(cfg, s.verified[url], now) then
      s' == s.(verified := s.verified[url := s.verified[url].(lastSeen := now, capabilities := caps)])
    else if ip.Unspecified? && url !in s.unverified && |s.unverified| >= cfg.maxUnverified then s' == s
    else
      var slotted := if ip.Unspecified? then s else TakeSlot(s, url, ip);
      EvictsUnverified(cfg, Upsert(slotted, url, ip, caps, now), s')
  }

  ghost predicate MarksAlive(cfg: Config, s: Table, url: string, now: int, s': Table) {
    if url in s.verified then
      s' == s.(verified := s.verified[url := s.verified[url].(lastSeen := now)])
    else if url !in s.unverified then s' == s
    else
      var e := s.unverified[url];
      && s'.unverified == s.unverified - {url}
      && s'.ipSlots == SlotsWithout(s.ipSlots, {url})
      && Evicts(s.verified[url := PeerEntry(e.sourceIp, e.capabilities, now, now, 0)], cfg.maxVerified, s'.verified)
  }

  function ClearFailures(s: Table, url: string): Table {
    if url in s.verified then s.(verified := s.verified[url := s.verified[url].(syncFailures := 0)]) else s
  }

  ghost predicate MarksSynced(cfg: Config, s: Table, url: string, now: int, s': Table) {
    exists mid :: MarksAlive(cfg, s, url, now, mid) && s' == ClearFailures(mid, url)
  }

  ghost predicate EnsuresSeed(cfg: Config, self: Option<string>, s: Table, url: string, now: int, s': Table) {
    if self == Some(url) || url in s.verified then s' == s
    else
      EvictsUnverified(cfg,
        if url in s.unverified then s
        else s.(unverified := s.unverified[url := PeerEntry(Unspecified, 0, now, now, 0)]), s')
  }

  function AfterFailure(s: Table, url: string, now: int): Table {
    if url in s.unverified then
      s.(unverified := s.unverified[url := s.unverified[url].(lastSeen := now)])
    else if url !in s.verified then s
    else
      var failures := s.verified[url].syncFailures + 1;
      if failures >= SYNC_FAILURES_BEFORE_DEMOTE then
        s.(verified := s.verified - {url},
           unverified := s.unverified[url := s.verified[url].(lastSeen := now, added := now, syncFailures := 0)])
      else s.(verified := s.verified[url := s.verified[url].(syncFailures := failures)])
  }

  function AfterExpiry(cfg: Config, s: Table, now: int): Table {
    var kept := map u | u in s.unverified && now - s.unverified[u].added < cfg.unverifiedTtl :: s.unverified[u];
    s.(unverified := kept,
       ipSlots := map ip | ip in s.ipSlots && (s.ipSlots[ip] in kept || s.ipSlots[ip] in s.verified) :: s.ipSlots[ip])
  }

  /** The entries of `moved` enter `table`; one that is already there keeps its place. */
  function MovedInto(table: Entries, moved: Entries, urls: set<string>, now: int): Entries {
    (map u | u in moved && u in urls :: moved[u].(added := now, syncFailures := 0)) + table
  }

  function AfterDemotion(cfg: Config, s: Table, now: int): Table {
    var stale := set u | u in s.verified && !Fresh(cfg, s.verified[u], now);
    s.(verified := s.verified - stale, unverified := MovedInto(s.unverified, s.verified, stale, now))
  }

  function AfterRemoval(s: Table, url: string): Table {
    Table(SlotsWithout(s.ipSlots, {url}), s.unverified - {url}, s.verified - {url})
  }

  ghost predicate Next(cfg: Config, self: Option<string>, s: Table, op: Op, now: int, s': Table) {
    match op
    case Announce(url, ip, caps) => Announces(cfg, self, s, url, ip, caps, now, s')
    case MarkAlive(url) => MarksAlive(cfg, s, url, now, s')
    case MarkSynced(url) => MarksSynced(cfg, s, url, now, s')
    case EnsureSeed(url) => EnsuresSeed(cfg, self, s, url, now, s')
    case SyncFailure(url) => s' == AfterFailure(s, url, now)
    case ExpireUnverified => s' == AfterExpiry(cfg, s, now)
    case DemoteExpired => s' == AfterDemotion(cfg, s, now)
    case Remove(url) => s' == AfterRemoval(s, url)
  }

  // ---- bounds --------------------------------------------------------------------------------------

  /** The bound on the unverified table alone does not hold: demotions go into it unchecked. */
  ghost predicate Bounded(cfg: Config, s: Table) {
    && |s.verified| <= cfg.maxVerified
    && |s.verified| + |s.unverified| <= cfg.maxUnverified + cfg.maxVerified
  }

  lemma UpdateSize(m: Entries, u: string, e: PeerEntry)
    ensures |m[u := e]| == |m| + (if u in m then 0 else 1)
  {
    assert m[u := e].Keys == m.Keys + {u};
  }

  lemma RemoveSize(m: Entries, u: string)
    ensures |m - {u}| == |m| - (if u in m then 1 else 0)
  {
    assert (m - {u}).Keys == m.Keys - {u};
  }

  lemma DemotionKeys(cfg: Config, s: Table, now: int) returns (stale: set<string>)
    ensures stale <= s.verified.Keys
    ensures AfterDemotion(cfg, s, now).verified.Keys == s.verified.Keys - stale
    ensures AfterDemotion(cfg, s, now).unverified.Keys == s.unverified.Keys + stale
  {
    stale := set u | u in s.verified && !Fresh(cfg, s.verified[u], now);
  }

  lemma MoveSize(from: set<string>, to: set<string>, moved: set<string>)
    requires moved <= from
    ensures |from - moved| <= |from|
    ensures |from - moved| + |to + moved| <= |from| + |to|
  {
    assert from == (from - moved) + moved;
    assert to + moved == to + (moved - to);
    SubsetSize(moved - to, moved);
  }

  lemma DemotionSize(cfg: Config, s: Table, now: int)
    ensures |AfterDemotion(cfg, s, now).verified| <= |s.verified|
    ensures |AfterDemotion(cfg, s, now).verified| + |AfterDemotion(cfg, s, now).unverified|
         <= |s.verified| + |s.unverified|
  {
    var stale := DemotionKeys(cfg, s, now);
    MoveSize(s.verified.Keys, s.unverified.Keys, stale);
    assert |AfterDemotion(cfg, s, now).verified| == |AfterDemotion(cfg, s, now).verified.Keys|;
    assert |AfterDemotion(cfg, s, now).unverified| == |AfterDemotion(cfg, s, now).unverified.Keys|;
  }

  lemma StepKeepsBounded(cfg: Config, self: Option<string>, s: Table, op: Op, now: int, s': Table)
    requires Bounded(cfg, s) && Next(cfg, self, s, op, now, s')
    ensures Bounded(cfg, s')
  {
    match op
    case Announce(url, ip, caps) => AnnounceKeepsBounded(cfg, self, s, url, ip, caps, now, s');
    case MarkAlive(url) => AliveKeepsBounded(cfg, s, url, now, s');
    case MarkSynced(url) => SyncedKeepsBounded(cfg, s, url, now, s');
    case EnsureSeed(url) =>
    case SyncFailure(url) => FailureKeepsBounded(cfg, s, url, now);
    case ExpireUnverified =>
      SubsetSize(s'.unverified.Keys, s.unverified.Keys);
    case DemoteExpired => DemotionSize(cfg, s, now);
    case Remove(url) =>
      RemoveSize(s.unverified, url);
      RemoveSize(s.verified, url);
  }

  lemma AnnounceKeepsBounded(cfg: Config, self: Option<string>, s: Table, url: string, ip: Ip, caps: nat,
                             now: int, s': Table)
    requires Bounded(cfg, s) && Announces(cfg, self, s, url, ip, caps, now, s')
    ensures Bounded(cfg, s')
  {
    if url in s.verified {
      UpdateSize(s.verified, url, s.verified[url].(lastSeen := now, capabilities := caps));
    }
  }

  lemma SyncedKeepsBounded(cfg: Config, s: Table, url: string, now: int, s': Table)
    requires Bounded(cfg, s) && MarksSynced(cfg, s, url, now, s')
    ensures Bounded(cfg, s')
  {
    var mid :| MarksAlive(cfg, s, url, now, mid) && s' == ClearFailures(mid, url);
    AliveKeepsBounded(cfg, s, url, now, mid);
    if url in mid.verified {
      UpdateSize(mid.verified, url, mid.verified[url].(syncFailures := 0));
    }
  }

  lemma AliveKeepsBounded(cfg: Config, s: Table, url: string, now: int, s': Table)
    requires Bounded(cfg, s) && MarksAlive(cfg, s, url, now, s')
    ensures Bounded(cfg, s')
  {
    if url in s.verified {
      UpdateSize(s.verified, url, s.verified[url].(lastSeen := now));
    } else if url in s.unverified {
      var e := s.unverified[url];
      UpdateSize(s.verified, url, PeerEntry(e.sourceIp, e.capabilities, now, now, 0));
      RemoveSize(s.unverified, url);
    }
  }

  lemma FailureKeepsBounded(cfg: Config, s: Table, url: string, now: int)
    requires Bounded(cfg, s)
    ensures Bounded(cfg, AfterFailure(s, url, now))
  {
    if url in s.unverified {
      UpdateSize(s.unverified, url, s.unverified[url].(lastSeen := now));
    } else if url in s.verified {
      var failures := s.verified[url].syncFailures + 1;
      UpdateSize(s.verified, url, s.verified[url].(syncFailures := failures));
      RemoveSize(s.verified, url);
      UpdateSize(s.unverified, url, s.verified[url].(lastSeen := now, added := now, syncFailures := 0));
    }
  }

  // ---- whole histories -----------------------------------------------------------------------------

  /** A history of calls: the tables between them, and the clock at each. */
  datatype History = History(tables: seq<Table>, ops: seq<Op>, clock: seq<int>)

  ghost predicate IsHistory(cfg: Config, self: Option<string>, x: History) {
    && |x.tables| == |x.ops| + 1 && |x.clock| == |x.ops|
    && x.tables[0] == EMPTY
    && forall k | 0 <= k < |x.ops| :: Next(cfg, self, x.tables[k], x.ops[k], x.clock[k], x.tables[k + 1])
  }

  ghost predicate BoundedSteps(cfg: Config, tables: seq<Table>) {
    forall k | 0 <= k < |tables| - 1 :: Bounded(cfg, tables[k]) ==> Bounded(cfg, tables[k + 1])
  }

  lemma HistorySteps(cfg: Config, self: Option<string>, x: History)
    requires IsHistory(cfg, self, x)
    ensures BoundedSteps(cfg, x.tables)
  {
    forall k | 0 <= k < |x.tables| - 1 && Bounded(cfg, x.tables[k]) ensures Bounded(cfg, x.tables[k + 1]) {
      StepKeepsBounded(cfg, self, x.tables[k], x.ops[k], x.clock[k], x.tables[k + 1]);
    }
  }

  lemma {:induction false} BoundedThroughout(cfg: Config, tables: seq<Table>, k: nat)
    requires k < |tables| && Bounded(cfg, tables[0]) && BoundedSteps(cfg, tables)
    ensures Bounded(cfg, tables[k])
    decreases k
  {
    if k > 0 {
      BoundedThroughout(cfg, tables, k - 1);
      assert Bounded(cfg, tables[k - 1]) ==> Bounded(cfg, tables[k - 1 + 1]);
    }
  }

  /** Main result. In every reachable state the verified table is within its limit and the two tables
      together are within the sum of the limits. */
  lemma AlwaysBounded(cfg: Config, self: Option<string>, x: History, k: nat)
    requires IsHistory(cfg, self, x) && k < |x.tables|
    ensures |x.tables[k].verified| <= cfg.maxVerified
    ensures |x.tables[k].verified| + |x.tables[k].unverified| <= cfg.maxUnverified + cfg.maxVerified
  {
    HistorySteps(cfg, self, x);
    BoundedThroughout(cfg, x.tables, k);
  }

  // ---- the bound on the unverified table alone -----------------------------------------------------

  ghost predicate Within(cfg: Config, s: Table) {
    |s.unverified| <= cfg.maxUnverified
  }

  /** The URLs that a demotion of stale peers adds to the unverified table. */
  function NewlyUnverified(cfg: Config, s: Table, now: int): set<string> {
    set u | u in s.verified && !Fresh(cfg, s.verified[u], now) && u !in s.unverified
  }

  /** One more failure of `url` demotes it. */
  predicate Demotes(s: Table, url: string) {
    url !in s.unverified && url in s.verified && s.verified[url].syncFailures + 1 >= SYNC_FAILURES_BEFORE_DEMOTE
  }

  /** There is room in the unverified table for what the call demotes. */
  predicate RoomFor(cfg: Config, s: Table, op: Op, now: int) {
    match op
    case DemoteExpired => |s.unverified| + |NewlyUnverified(cfg, s, now)| <= cfg.maxUnverified
    case SyncFailure(url) => Demotes(s, url) ==> |s.unverified| < cfg.maxUnverified
    case _ => true
  }

  lemma DisjointSize(a: set<string>, b: set<string>)
    requires a !! b
    ensures |a + b| == |a| + |b|
  {
  }

  /** How large a demotion of stale peers leaves the unverified table. */
  lemma SizeAfterDemotion(cfg: Config, s: Table, now: int)
    ensures |AfterDemotion(cfg, s, now).unverified| == |s.unverified| + |NewlyUnverified(cfg, s, now)|
  {
    var after := AfterDemotion(cfg, s, now).unverified;
    assert after.Keys == s.unverified.Keys + NewlyUnverified(cfg, s, now);
    DisjointSize(s.unverified.Keys, NewlyUnverified(cfg, s, now));
    assert |after| == |after.Keys| && |s.unverified| == |s.unverified.Keys|;
  }

  /** How large a sync failure leaves it. */
  lemma SizeAfterFailure(s: Table, url: string, now: int)
    ensures |AfterFailure(s, url, now).unverified| == |s.unverified| + (if Demotes(s, url) then 1 else 0)
  {
    if url in s.unverified {
      UpdateSize(s.unverified, url, s.unverified[url].(lastSeen := now));
    } else if Demotes(s, url) {
      UpdateSize(s.unverified, url, s.verified[url].(lastSeen := now, added := now, syncFailures := 0));
    }
  }

  lemma AnnounceStaysWithin(cfg: Config, self: Option<string>, s: Table, url: string, ip: Ip, caps: nat,
                             now: int, s': Table)
    requires Within(cfg, s) && Announces(cfg, self, s, url, ip, caps, now, s')
    ensures Within(cfg, s')
  {
  }

  lemma AliveStaysWithin(cfg: Config, s: Table, url: string, now: int, s': Table)
    requires Within(cfg, s) && MarksAlive(cfg, s, url, now, s')
    ensures Within(cfg, s')
  {
    RemoveSize(s.unverified, url);
  }

  lemma SyncedStaysWithin(cfg: Config, s: Table, url: string, now: int, s': Table)
    requires Within(cfg, s) && MarksSynced(cfg, s, url, now, s')
    ensures Within(cfg, s')
  {
    var mid :| MarksAlive(cfg, s, url, now, mid) && s' == ClearFailures(mid, url);
    AliveStaysWithin(cfg, s, url, now, mid);
  }

  /** Every other call keeps the table within its limit. */
  lemma OthersStayWithin(cfg: Config, self: Option<string>, s: Table, op: Op, now: int, s': Table)
    requires Within(cfg, s) && Next(cfg, self, s, op, now, s')
    requires !op.DemoteExpired? && !op.SyncFailure?
    ensures Within(cfg, s')
  {
    match op
    case Announce(url, ip, caps) => AnnounceStaysWithin(cfg, self, s, url, ip, caps, now, s');
    case MarkAlive(url) => AliveStaysWithin(cfg, s, url, now, s');
    case MarkSynced(url) => SyncedStaysWithin(cfg, s, url, now, s');
    case EnsureSeed(url) =>
    case ExpireUnverified => SubsetSize(s'.unverified.Keys, s.unverified.Keys);
    case Remove(url) => RemoveSize(s.unverified, url);
  }

  lemma StepWithinIffRoom(cfg: Config, self: Option<string>, s: Table, op: Op, now: int, s': Table)
    requires Within(cfg, s) && Next(cfg, self, s, op, now, s')
    ensures Within(cfg, s') <==> RoomFor(cfg, s, op, now)
  {
    match op
    case DemoteExpired => SizeAfterDemotion(cfg, s, now);
    case SyncFailure(url) => SizeAfterFailure(s, url, now);
    case _ => OthersStayWithin(cfg, self, s, op, now, s');
  }

  lemma HistoryStep(cfg: Config, self: Option<string>, x: History, k: nat)
    requires IsHistory(cfg, self, x) && k < |x.ops| && Within(cfg, x.tables[k])
    ensures Within(cfg, x.tables[k + 1]) <==> RoomFor(cfg, x.tables[k], x.ops[k], x.clock[k])
  {
    StepWithinIffRoom(cfg, self, x.tables[k], x.ops[k], x.clock[k], x.tables[k + 1]);
  }

  lemma {:induction false} RoomSuffices(cfg: Config, self: Option<string>, x: History, k: nat)
    requires IsHistory(cfg, self, x) && k < |x.tables|
    requires forall j | 0 <= j < |x.ops| :: RoomFor(cfg, x.tables[j], x.ops[j], x.clock[j])
    ensures Within(cfg, x.tables[k])
    decreases k
  {
    if k > 0 {
      RoomSuffices(cfg, self, x, k - 1);
      HistoryStep(cfg, self, x, k - 1);
    }
  }

  /** Main result. Over any history the unverified table stays within its own limit if and only if each
      demotion, of stale peers or for a third failure, found room for what it demoted. Nothing else can
      take it past its limit. */
  lemma WithinIffRoom(cfg: Config, self: Option<string>, x: History)
    requires IsHistory(cfg, self, x)
    ensures (forall k | 0 <= k < |x.tables| :: Within(cfg, x.tables[k])) <==>
      (forall k | 0 <= k < |x.ops| :: RoomFor(cfg, x.tables[k], x.ops[k], x.clock[k]))
  {
    if forall k | 0 <= k < |x.tables| :: Within(cfg, x.tables[k]) {
      forall k | 0 <= k < |x.ops| ensures RoomFor(cfg, x.tables[k], x.ops[k], x.clock[k]) {
        assert Within(cfg, x.tables[k]) && Within(cfg, x.tables[k + 1]);
        HistoryStep(cfg, self, x, k);
      }
    }
    if forall k | 0 <= k < |x.ops| :: RoomFor(cfg, x.tables[k], x.ops[k], x.clock[k]) {
      forall k | 0 <= k < |x.tables| ensures Within(cfg, x.tables[k]) {
        RoomSuffices(cfg, self, x, k);
      }
    }
  }

  // A history of four calls, with room for one entry in each table, that goes past the limit.
  const TIGHT: Config := Config(1, 1, 10, 1000)

  function Crowd(k: nat): Table {
    var entry := PeerEntry(Unspecified, 0, 0, 0, 0);
    match k
    case 0 => EMPTY
    case 1 => Table(map[], map["a" := entry], map[])
    case 2 => Table(map[], map[], map["a" := entry])
    case 3 => Table(map[], map["b" := entry], map["a" := entry])
    case _ => Table(map[], map["a" := entry.(added := 10), "b" := entry], map[])
  }

  function Crowding(k: nat): Op {
    match k
    case 0 => Announce("a", Unspecified, 0)
    case 1 => MarkAlive("a")
    case 2 => Announce("b", Unspecified, 0)
    case _ => DemoteExpired
  }

  lemma NothingEvicted(m: Entries, cap: nat)
    requires |m| <= cap
    ensures Evicts(m, cap, m)
  {
  }

  lemma CrowdGrows(k: nat)
    requires k < 3
    ensures Next(TIGHT, None, Crowd(k), Crowding(k), 0, Crowd(k + 1))
  {
    NothingEvicted(Crowd(k + 1).unverified, 1);
    NothingEvicted(Crowd(k + 1).verified, 1);
    if k == 1 {
      assert Crowd(1).unverified - {"a"} == map[];
    }
  }

  lemma CrowdOverflows()
    ensures Next(TIGHT, None, Crowd(3), Crowding(3), 10, Crowd(4))
    ensures |Crowd(4).unverified| == 2
  {
    assert Crowd(3).verified - {"a"} == map[];
    assert Crowd(4).unverified.Keys == {"a", "b"};
  }

  /** The table can go past its limit: one demotion is enough. */
  lemma UnverifiedCanOverflow() returns (x: History)
    ensures IsHistory(TIGHT, None, x) && |x.ops| == 4
    ensures !Within(TIGHT, x.tables[4])
  {
    x := History(seq(5, k requires 0 <= k => Crowd(k)), seq(4, k requires 0 <= k => Crowding(k)), [0, 0, 0, 10]);
    forall k | 0 <= k < 4 ensures Next(TIGHT, None, x.tables[k], x.ops[k], x.clock[k], x.tables[k + 1]) {
      if k < 3 { CrowdGrows(k); } else { CrowdOverflows(); }
    }
    CrowdOverflows();
  }

  /** The sync failures charged to `u` in the first `k` calls since it was last promoted or last synced.
      This reads the calls and who was in which table; it does not look at any stored counter. A
      failure is charged while `u` is verified and not also unverified. */
  ghost function FailuresSince(x: History, k: nat, u: string): nat
    requires k <= |x.ops| < |x.tables|
  {
    if k == 0 then 0
    else
      var before := x.tables[k - 1];
      if x.ops[k - 1] == MarkSynced(u) || u !in before.verified then 0
      else if x.ops[k - 1] == SyncFailure(u) && u !in before.unverified then FailuresSince(x, k - 1, u) + 1
      else FailuresSince(x, k - 1, u)
  }

  ghost predicate CountersMean(x: History, k: nat)
    requires k <= |x.ops| < |x.tables|
  {
    && (forall u | u in x.tables[k].verified ::
          x.tables[k].verified[u].syncFailures == FailuresSince(x, k, u) < SYNC_FAILURES_BEFORE_DEMOTE)
    && forall u | u in x.tables[k].unverified :: x.tables[k].unverified[u].syncFailures == 0
  }

  lemma AnnounceCounters(cfg: Config, self: Option<string>, s: Table, url: string, ip: Ip, caps: nat,
                             now: int, s': Table)
    requires Announces(cfg, self, s, url, ip, caps, now, s')
    ensures s'.verified.Keys == s.verified.Keys
    ensures forall u | u in s'.verified :: s'.verified[u].syncFailures == s.verified[u].syncFailures
    ensures forall u | u in s'.unverified ::
      s'.unverified[u].syncFailures == if u in s.unverified then s.unverified[u].syncFailures else 0
  {
  }

  lemma AliveCounters(cfg: Config, s: Table, url: string, now: int, s': Table)
    requires MarksAlive(cfg, s, url, now, s')
    ensures forall u | u in s'.verified ::
      s'.verified[u].syncFailures == if u in s.verified then s.verified[u].syncFailures else 0
    ensures forall u | u in s'.unverified :: u in s.unverified && s'.unverified[u] == s.unverified[u]
  {
  }

  lemma SyncedCounters(cfg: Config, s: Table, url: string, now: int, s': Table)
    requires MarksSynced(cfg, s, url, now, s')
    ensures forall u | u in s'.verified ::
      s'.verified[u].syncFailures == if u in s.verified && u != url then s.verified[u].syncFailures else 0
    ensures forall u | u in s'.unverified :: u in s.unverified && s'.unverified[u] == s.unverified[u]
  {
    var mid :| MarksAlive(cfg, s, url, now, mid) && s' == ClearFailures(mid, url);
    AliveCounters(cfg, s, url, now, mid);
    AliveHoldsUrl(cfg, s, url, now, mid);
    ClearedCounters(mid, url);
  }

  lemma ClearedCounters(s: Table, url: string)
    ensures ClearFailures(s, url).unverified == s.unverified
    ensures ClearFailures(s, url).verified.Keys == s.verified.Keys
    ensures forall u | u in s.verified ::
      ClearFailures(s, url).verified[u].syncFailures == if u == url then 0 else s.verified[u].syncFailures
  {
  }

  /** Only the URL itself can enter the verified table. */
  lemma AliveHoldsUrl(cfg: Config, s: Table, url: string, now: int, s': Table)
    requires MarksAlive(cfg, s, url, now, s')
    ensures forall u | u in s'.verified && u !in s.verified :: u == url
  {
  }

  lemma SeedCounters(cfg: Config, self: Option<string>, s: Table, url: string, now: int, s': Table)
    requires EnsuresSeed(cfg, self, s, url, now, s')
    ensures s'.verified == s.verified
    ensures forall u | u in s'.unverified ::
      s'.unverified[u].syncFailures == if u in s.unverified then s.unverified[u].syncFailures else 0
  {
  }

  lemma FailureCounters(s: Table, url: string, now: int)
    requires forall v | v in s.verified :: s.verified[v].syncFailures < SYNC_FAILURES_BEFORE_DEMOTE
    ensures forall u | u in AfterFailure(s, url, now).verified ::
      && u in s.verified
      && AfterFailure(s, url, now).verified[u].syncFailures < SYNC_FAILURES_BEFORE_DEMOTE
      && AfterFailure(s, url, now).verified[u].syncFailures
           == s.verified[u].syncFailures + (if u == url && u !in s.unverified then 1 else 0)
  {
  }

  lemma MaintenanceCounters(cfg: Config, s: Table, url: string, now: int)
    ensures forall u | u in AfterExpiry(cfg, s, now).verified ::
      u in s.verified && AfterExpiry(cfg, s, now).verified[u] == s.verified[u]
    ensures forall u | u in AfterDemotion(cfg, s, now).verified ::
      u in s.verified && AfterDemotion(cfg, s, now).verified[u] == s.verified[u]
    ensures forall u | u in AfterRemoval(s, url).verified ::
      u in s.verified && AfterRemoval(s, url).verified[u] == s.verified[u]
  {
  }

  /** What one call does to the counter of a URL that is verified afterwards. */
  lemma CounterStep(cfg: Config, self: Option<string>, s: Table, op: Op, now: int, s': Table, u: string)
    requires Next(cfg, self, s, op, now, s')
    requires forall v | v in s.verified :: s.verified[v].syncFailures < SYNC_FAILURES_BEFORE_DEMOTE
    requires u in s'.verified
    ensures s'.verified[u].syncFailures ==
      if op == MarkSynced(u) || u !in s.verified then 0
      else if op == SyncFailure(u) && u !in s.unverified then s.verified[u].syncFailures + 1
      else s.verified[u].syncFailures
    ensures s'.verified[u].syncFailures < SYNC_FAILURES_BEFORE_DEMOTE
  {
    match op
    case Announce(url, ip, caps) => AnnounceCounters(cfg, self, s, url, ip, caps, now, s');
    case MarkAlive(url) => AliveCounters(cfg, s, url, now, s');
    case MarkSynced(url) => SyncedCounters(cfg, s, url, now, s');
    case EnsureSeed(url) => SeedCounters(cfg, self, s, url, now, s');
    case SyncFailure(url) => FailureCounters(s, url, now);
    case ExpireUnverified => MaintenanceCounters(cfg, s, "", now);
    case DemoteExpired => MaintenanceCounters(cfg, s, "", now);
    case Remove(url) => MaintenanceCounters(cfg, s, url, now);
  }

  lemma UnverifiedStep(cfg: Config, self: Option<string>, s: Table, op: Op, now: int, s': Table, u: string)
    requires Next(cfg, self, s, op, now, s')
    requires forall v | v in s.unverified :: s.unverified[v].syncFailures == 0
    requires u in s'.unverified
    ensures s'.unverified[u].syncFailures == 0
  {
    match op
    case Announce(url, ip, caps) => AnnounceCounters(cfg, self, s, url, ip, caps, now, s');
    case MarkAlive(url) => AliveCounters(cfg, s, url, now, s');
    case MarkSynced(url) => SyncedCounters(cfg, s, url, now, s');
    case EnsureSeed(url) => SeedCounters(cfg, self, s, url, now, s');
    case SyncFailure(url) =>
    case ExpireUnverified =>
    case DemoteExpired =>
    case Remove(url) =>
  }

  /** Main result. A verified entry's counter is always the number of failures charged to it since its
      last promotion or successful sync, and below the demotion threshold; an unverified entry's is
      zero. */
  lemma {:induction false} CounterMeaning(cfg: Config, self: Option<string>, x: History, k: nat)
    requires IsHistory(cfg, self, x) && k < |x.tables|
    ensures CountersMean(x, k)
    decreases k
  {
    if k > 0 {
      CounterMeaning(cfg, self, x, k - 1);
      forall u | u in x.tables[k].verified
        ensures x.tables[k].verified[u].syncFailures == FailuresSince(x, k, u) < SYNC_FAILURES_BEFORE_DEMOTE
      {
        CounterStep(cfg, self, x.tables[k - 1], x.ops[k - 1], x.clock[k - 1], x.tables[k], u);
      }
      forall u | u in x.tables[k].unverified ensures x.tables[k].unverified[u].syncFailures == 0 {
        UnverifiedStep(cfg, self, x.tables[k - 1], x.ops[k - 1], x.clock[k - 1], x.tables[k], u);
      }
    }
  }

  /** Main result. A failure of a peer that is verified and not also unverified demotes it exactly when
      it is the third one charged, however many announcements and health checks came in between. */
  lemma ThirdFailureDemotes(cfg: Config, self: Option<string>, x: History, k: nat, u: string)
    requires IsHistory(cfg, self, x) && k < |x.ops|
    requires x.ops[k] == SyncFailure(u)
    requires u in x.tables[k].verified && u !in x.tables[k].unverified
    ensures FailuresSince(x, k, u) == 2 <==> u !in x.tables[k + 1].verified
    ensures u in x.tables[k + 1].verified <==> u !in x.tables[k + 1].unverified
  {
    CounterMeaning(cfg, self, x, k);
    assert Next(cfg, self, x.tables[k], x.ops[k], x.clock[k], x.tables[k + 1]);
  }

  /** No call but a successful sync lowers the stored count of a peer that stays verified: announcements and
      health checks do not clear it. */
  lemma RefreshesDoNotReset(cfg: Config, self: Option<string>, x: History, k: nat, u: string)
    requires IsHistory(cfg, self, x) && k < |x.ops|
    requires u in x.tables[k].verified && u in x.tables[k + 1].verified
    requires x.ops[k] != MarkSynced(u)
    ensures x.tables[k + 1].verified[u].syncFailures >= x.tables[k].verified[u].syncFailures
  {
    CounterMeaning(cfg, self, x, k);
    CounterMeaning(cfg, self, x, k + 1);
  }

  // ---- the table itself ----------------------------------------------------------------------------

  predicate IsOldest(m: Entries, u: string) {
    u in m && forall v | v in m :: m[u].lastSeen <= m[v].lastSeen
  }

  lemma OldestExists(m: Entries)
    requires m != map[]
    ensures exists u :: IsOldest(m, u)
  {
    var seen := map u | u in m :: m[u].lastSeen;
    LeastExists(m.Keys, seen);
    var u :| u in m.Keys && forall v | v in m.Keys :: seen[u] <= seen[v];
    assert IsOldest(m, u);
  }

  /** Eviction in progress: some least-recently-seen entries are gone, and none too many. */
  ghost predicate Evicting(before: Entries, cap: nat, now: Entries) {
    && now.Keys <= before.Keys
    && (forall u | u in now :: now[u] == before[u])
    && |now| <= |before| && (|now| == |before| || |now| >= cap)
    && forall u, v | u in before && u !in now && v in now :: before[u].lastSeen <= before[v].lastSeen
  }

  lemma EvictOne(before: Entries, cap: nat, m: Entries, u: string)
    requires Evicting(before, cap, m) && |m| > cap && IsOldest(m, u)
    ensures Evicting(before, cap, m - {u})
  {
    RemoveSize(m, u);
  }

  lemma SlotsWithoutMore(slots: map<Ip, string>, gone: set<string>, u: string)
    ensures SlotsWithout(SlotsWithout(slots, gone), {u}) == SlotsWithout(slots, gone + {u})
  {
  }

  ghost predicate EvictingTable(cfg: Config, s: Table, t: Table) {
    && t.verified == s.verified
    && Evicting(s.unverified, cfg.maxUnverified, t.unverified)
    && t.ipSlots == SlotsWithout(s.ipSlots, s.unverified.Keys - t.unverified.Keys)
  }

  function WithoutPeer(t: Table, u: string): Table {
    Table(SlotsWithout(t.ipSlots, {u}), t.unverified - {u}, t.verified)
  }

  lemma EvictOneEntry(cfg: Config, s: Table, t: Table, u: string)
    requires EvictingTable(cfg, s, t) && |t.unverified| > cfg.maxUnverified && IsOldest(t.unverified, u)
    ensures EvictingTable(cfg, s, WithoutPeer(t, u))
    ensures |WithoutPeer(t, u).unverified| < |t.unverified|
  {
    EvictOne(s.unverified, cfg.maxUnverified, t.unverified, u);
    RemoveSize(t.unverified, u);
    var gone := s.unverified.Keys - t.unverified.Keys;
    SlotsWithoutMore(s.ipSlots, gone, u);
    assert s.unverified.Keys - (t.unverified - {u}).Keys == gone + {u};
  }

  lemma EvictNothingYet(cfg: Config, s: Table)
    ensures EvictingTable(cfg, s, s)
  {
    assert s.ipSlots == SlotsWithout(s.ipSlots, s.unverified.Keys - s.unverified.Keys);
  }

  lemma MoveOne(table: Entries, moved: Entries, urls: set<string>, now: int, u: string)
    requires u in moved && u !in urls
    ensures MovedInto(table, moved, urls + {u}, now) ==
      var t := MovedInto(table, moved, urls, now);
      if u in t then t else t[u := moved[u].(added := now, syncFailures := 0)]
  {
  }

  class PeerTable {
    /** IP to announced URL, one slot per IP. */
    var ipSlots: map<Ip, string>
    var unverified: Entries
    var verified: Entries
    const config: Config
    /** Our own URL, never added to a table. */
    var selfUrl: Option<string>

    constructor (config: Config)
      ensures View() == EMPTY && this.config == config && selfUrl == None
    {
      this.config := config;
      ipSlots, unverified, verified, selfUrl := map[], map[], map[], None;
    }

    ghost function View(): Table
      reads this
    {
      Table(ipSlots, unverified, verified)
    }

    /** Called when an insertion may have taken the unverified table over its limit. */
    method EvictUnverified()
      modifies this`unverified, this`ipSlots
      ensures EvictsUnverified(config, old(View()), View())
    {
      EvictNothingYet(config, View());
      while |unverified| > config.maxUnverified
        invariant EvictingTable(config, old(View()), View())
        decreases |unverified|
      {
        OldestExists(unverified);
        var oldest :| IsOldest(unverified, oldest);
        EvictOneEntry(config, old(View()), View(), oldest);
        ghost var next := WithoutPeer(View(), oldest);
        unverified := unverified - {oldest};
        ipSlots := map ip | ip in ipSlots && ipSlots[ip] != oldest :: ipSlots[ip];
        assert ipSlots == next.ipSlots;
      }
    }

    method EvictVerified()
      modifies this`verified
      ensures Evicts(old(verified), config.maxVerified, verified)
    {
      while |verified| > config.maxVerified
        invariant Evicting(old(verified), config.maxVerified, verified)
        decreases |verified|
      {
        OldestExists(verified);
        var oldest :| IsOldest(verified, oldest);
        EvictOne(old(verified), config.maxVerified, verified, oldest);
        RemoveSize(verified, oldest);
        verified := verified - {oldest};
      }
    }

    /** One slot per IP, deduplicated by URL. The result is whether the peer is already verified. */
    method AnnouncePeer(url: string, sourceIp: Ip, capabilities: nat, now: int) returns (alreadyVerified: bool)
      modifies this
      ensures Next(config, selfUrl, old(View()), Announce(url, sourceIp, capabilities), now, View())
      ensures selfUrl == old(selfUrl)
      ensures alreadyVerified <==>
        (selfUrl == Some(url) || (url in old(verified) && now - old(verified)[url].lastSeen < config.verifiedTtl))
    {
      if selfUrl == Some(url) {
        return true;
      }
      if url in verified && Fresh(config, verified[url], now) {
        verified := verified[url := verified[url].(lastSeen := now, capabilities := capabilities)];
        return true;
      }
      if sourceIp.Unspecified? {
        if url !in unverified && |unverified| >= config.maxUnverified {
          return false;
        }
      } else {
        if sourceIp in ipSlots && ipSlots[sourceIp] != url {
          var oldUrl := ipSlots[sourceIp];
          if !(exists ip | ip in ipSlots :: ip != sourceIp && ipSlots[ip] == oldUrl) {
            unverified := unverified - {oldUrl};
          }
        }
        ipSlots := ipSlots[sourceIp := url];
      }
      assert View() == if sourceIp.Unspecified? then old(View()) else TakeSlot(old(View()), url, sourceIp);
      var entry := if url in unverified
        then unverified[url].(lastSeen := now, added := now, capabilities := capabilities)
        else PeerEntry(sourceIp, capabilities, now, now, 0);
      unverified := unverified[url := entry];
      EvictUnverified();
      return false;
    }

    method MarkPeerAlive(url: string, now: int)
      modifies this
      ensures MarksAlive(config, old(View()), url, now, View())
      ensures Next(config, selfUrl, old(View()), MarkAlive(url), now, View())
      ensures selfUrl == old(selfUrl)
    {
      if url in verified {
        verified := verified[url := verified[url].(lastSeen := now)];
        return;
      }
      if url !in unverified {
        return;
      }
      var entry := unverified[url];
      unverified := unverified - {url};
      ipSlots := map ip | ip in ipSlots && ipSlots[ip] != url :: ipSlots[ip];
      assert ipSlots == SlotsWithout(old(ipSlots), {url});
      verified := verified[url := PeerEntry(entry.sourceIp, entry.capabilities, now, now, 0)];
      EvictVerified();
    }

    method MarkPeerSynced(url: string, now: int)
      modifies this
      ensures Next(config, selfUrl, old(View()), MarkSynced(url), now, View())
      ensures selfUrl == old(selfUrl)
    {
      MarkPeerAlive(url, now);
      ghost var mid := View();
      if url in verified {
        verified := verified[url := verified[url].(syncFailures := 0)];
      }
      assert View() == ClearFailures(mid, url);
    }

    method EnsureSeedPeer(url: string, now: int)
      modifies this
      ensures Next(config, selfUrl, old(View()), EnsureSeed(url), now, View())
      ensures selfUrl == old(selfUrl)
    {
      if selfUrl == Some(url) || url in verified {
        return;
      }
      if url !in unverified {
        unverified := unverified[url := PeerEntry(Unspecified, 0, now, now, 0)];
      }
      EvictUnverified();
    }

    method RecordSyncFailure(url: string, now: int)
      modifies this
      ensures Next(config, selfUrl, old(View()), SyncFailure(url), now, View())
      ensures selfUrl == old(selfUrl)
    {
      if url in unverified {
        unverified := unverified[url := unverified[url].(lastSeen := now)];
        return;
      }
      if url !in verified {
        return;
      }
      var entry := verified[url].(syncFailures := verified[url].syncFailures + 1);
      verified := verified[url := entry];
      if entry.syncFailures >= SYNC_FAILURES_BEFORE_DEMOTE {
        verified := verified - {url};
        unverified := unverified[url := entry.(lastSeen := now, added := now, syncFailures := 0)];
        assert verified == old(verified) - {url};
      }
    }

    method Expire(now: int)
      modifies this
      ensures Next(config, selfUrl, old(View()), ExpireUnverified, now, View())
      ensures selfUrl == old(selfUrl)
    {
      unverified := map u | u in unverified && now - unverified[u].added < config.unverifiedTtl :: unverified[u];
      ipSlots := map ip | ip in ipSlots && (ipSlots[ip] in unverified || ipSlots[ip] in verified) :: ipSlots[ip];
    }

    method MoveExpired(expired: Entries, now: int)
      modifies this`unverified
      ensures unverified == MovedInto(old(unverified), expired, expired.Keys, now)
    {
      var pending := expired.Keys;
      ghost var done: set<string> := {};
      assert MovedInto(unverified, expired, {}, now) == unverified;
      while pending != {}
        invariant done !! pending && done + pending == expired.Keys
        invariant unverified == MovedInto(old(unverified), expired, done, now)
        decreases pending
      {
        var url :| url in pending;
        MoveOne(old(unverified), expired, done, now, url);
        if url !in unverified {
          unverified := unverified[url := expired[url].(added := now, syncFailures := 0)];
        }
        pending, done := pending - {url}, done + {url};
      }
      assert done == expired.Keys;
    }

    method DemoteStale(now: int)
      modifies this
      ensures Next(config, selfUrl, old(View()), DemoteExpired, now, View())
      ensures selfUrl == old(selfUrl)
    {
      var expired := map u | u in verified && !Fresh(config, verified[u], now) :: verified[u];
      ghost var stale := set u | u in verified && !Fresh(config, verified[u], now);
      assert expired.Keys == stale;
      assert MovedInto(unverified, expired, stale, now) == MovedInto(unverified, verified, stale, now);
      verified := verified - expired.Keys;
      MoveExpired(expired, now);
    }

    method RemovePeer(url: string)
      modifies this
      ensures forall now :: Next(config, selfUrl, old(View()), Remove(url), now, View())
      ensures selfUrl == old(selfUrl)
    {
      unverified := unverified - {url};
      verified := verified - {url};
      ipSlots := map ip | ip in ipSlots && ipSlots[ip] != url :: ipSlots[ip];
    }
  }
}
