/** The entries of the peer table, column by column: what each call writes into an entry, which entries leave
    their table and for what reason, and what an entry's two dates mean over whole histories of calls. */
module PeerEntries {
  import opened Names
  import opened Sets
  import opened Peers

  /** The call announces `u`, which is not our own URL and not a verified peer seen lately. */
  predicate Offers(cfg: Config, self: Option<string>, s: Table, op: Op, now: int, u: string) {
    && op.Announce? && op.url == u && self != Some(u)
    && !(u in s.verified && now - s.verified[u].lastSeen < cfg.verifiedTtl)
  }

  /** The call shows that the verified peer `u` is alive. */
  predicate Refreshes(cfg: Config, self: Option<string>, s: Table, op: Op, now: int, u: string) {
    || op == MarkAlive(u) || op == MarkSynced(u)
    || (op.Announce? && op.url == u && self != Some(u)
        && u in s.verified && now - s.verified[u].lastSeen < cfg.verifiedTtl)
  }

  // ---- what one call does to one entry -------------------------------------------------------------

  /** An entry of the verified table keeps the address it came from and the time it was promoted; it is dated
      and given new capabilities by the calls that show the peer alive. It gets in by one of these only, out
      of the unverified table, as seen and added now. */
  predicate VerifiedTold(cfg: Config, self: Option<string>, s: Table, op: Op, now: int, s': Table, u: string) {
    u in s'.verified ==>
      if u in s.verified then
        && s'.verified[u].sourceIp == s.verified[u].sourceIp && s'.verified[u].added == s.verified[u].added
        && s'.verified[u].lastSeen == (if Refreshes(cfg, self, s, op, now, u) then now else s.verified[u].lastSeen)
        && s'.verified[u].capabilities
             == (if Refreshes(cfg, self, s, op, now, u) && op.Announce? then op.capabilities
                 else s.verified[u].capabilities)
      else
        && (op == MarkAlive(u) || op == MarkSynced(u)) && u in s.unverified
        && s'.verified[u] == PeerEntry(s.unverified[u].sourceIp, s.unverified[u].capabilities, now, now, 0)
  }

  /** An entry of the unverified table is dated anew by an announcement, which also sets its capabilities and
      starts its time to live again, and by a failed sync, which does not. It gets in by an announcement, as a
      seed, or by a demotion, which starts its time to live but only for failures dates it as seen. */
  predicate UnverifiedTold(cfg: Config, self: Option<string>, s: Table, op: Op, now: int, s': Table, u: string) {
    u in s'.unverified ==>
      var offered := Offers(cfg, self, s, op, now, u);
      if u in s.unverified then
        && s'.unverified[u].sourceIp == s.unverified[u].sourceIp
        && s'.unverified[u].lastSeen == (if offered || op == SyncFailure(u) then now else s.unverified[u].lastSeen)
        && s'.unverified[u].added == (if offered then now else s.unverified[u].added)
        && s'.unverified[u].capabilities == (if offered then op.capabilities else s.unverified[u].capabilities)
      else
        || (offered && s'.unverified[u] == PeerEntry(op.sourceIp, op.capabilities, now, now, 0))
        || (op == EnsureSeed(u) && u !in s.verified && s'.unverified[u] == PeerEntry(Unspecified, 0, now, now, 0))
        || (op == SyncFailure(u) && u in s.verified && s.verified[u].syncFailures >= 2
            && s'.unverified[u] == s.verified[u].(lastSeen := now, added := now, syncFailures := 0))
        || (op == DemoteExpired && u in s.verified && now - s.verified[u].lastSeen >= cfg.verifiedTtl
            && s'.unverified[u] == s.verified[u].(added := now, syncFailures := 0))
  }

  /** The unverified table is full of entries seen no earlier than `seen`. */
  predicate FullOfLater(cfg: Config, s': Table, seen: int) {
    |s'.unverified| == cfg.maxUnverified && forall w | w in s'.unverified :: seen <= s'.unverified[w].lastSeen
  }

  /** The announcement of `url` takes the IP slot that `u` held, and no other slot holds it. */
  predicate Displaces(s: Table, url: string, ip: Ip, u: string) {
    && ip.Address? && ip in s.ipSlots && s.ipSlots[ip] == u && u != url
    && forall other | other in s.ipSlots && other != ip :: s.ipSlots[other] != u
  }

  /** `url` was promoted into a full table, whose peers were all seen no earlier than `u`. */
  predicate Crowded(cfg: Config, s: Table, url: string, s': Table, u: string) {
    && url !in s.verified && url in s.unverified && u in s.verified
    && |s'.verified| == cfg.maxVerified
    && forall w | w in s'.verified :: s.verified[u].lastSeen <= s'.verified[w].lastSeen
  }

  /** An entry leaves the unverified table when its peer is promoted or removed, when its time to live is over,
      when its IP announces another URL, or when the table is full of entries seen no earlier; and the first
      three always make it leave. */
  predicate LeavesUnverified(cfg: Config, s: Table, op: Op, now: int, s': Table, u: string) {
    u in s.unverified ==>
      match op
      case Announce(url, ip, _) =>
        u !in s'.unverified ==>
          Displaces(s, url, ip, u) || FullOfLater(cfg, s', if u == url then now else s.unverified[u].lastSeen)
      case EnsureSeed(_) => u !in s'.unverified ==> FullOfLater(cfg, s', s.unverified[u].lastSeen)
      case MarkAlive(url) => u !in s'.unverified <==> url == u && u !in s.verified
      case MarkSynced(url) => u !in s'.unverified <==> url == u && u !in s.verified
      case Remove(url) => u !in s'.unverified <==> url == u
      case ExpireUnverified => u !in s'.unverified <==> now - s.unverified[u].added >= cfg.unverifiedTtl
      case SyncFailure(_) => u in s'.unverified
      case DemoteExpired => u in s'.unverified
  }

  /** An entry leaves the verified table when its peer is removed, at the third failure, when the peer was not
      seen for its time to live, or when a promotion finds the table full of peers seen no earlier. A peer that
      failed or went unseen is unverified afterwards. */
  predicate LeavesVerified(cfg: Config, s: Table, op: Op, now: int, s': Table, u: string) {
    u in s.verified ==>
      match op
      case MarkAlive(url) => u !in s'.verified ==> Crowded(cfg, s, url, s', u)
      case MarkSynced(url) => u !in s'.verified ==> Crowded(cfg, s, url, s', u)
      case Remove(url) => u !in s'.verified <==> url == u
      case SyncFailure(url) =>
        && (u !in s'.verified <==> url == u && u !in s.unverified && s.verified[u].syncFailures >= 2)
        && (u !in s'.verified ==> u in s'.unverified)
      case DemoteExpired =>
        && (u !in s'.verified <==> now - s.verified[u].lastSeen >= cfg.verifiedTtl)
        && (u !in s'.verified ==> u in s'.unverified)
      case Announce(_, _, _) => u in s'.verified
      case EnsureSeed(_) => u in s'.verified
      case ExpireUnverified => u in s'.verified
  }

  /** A slot is only ever taken by an announcement from its IP, and only given up together with the URL it
      holds: when that is promoted, removed, evicted, or in neither table any more at an expiry. */
  predicate SlotTold(cfg: Config, self: Option<string>, s: Table, op: Op, now: int, s': Table, ip: Ip) {
    && (ip in s'.ipSlots ==>
          || (ip in s.ipSlots && s'.ipSlots[ip] == s.ipSlots[ip])
          || (op.Announce? && ip == op.sourceIp && ip.Address? && s'.ipSlots[ip] == op.url
              && Offers(cfg, self, s, op, now, op.url)))
    && (op.Announce? && op.sourceIp == ip && ip.Address? && Offers(cfg, self, s, op, now, op.url)
        && op.url in s'.unverified ==>
          ip in s'.ipSlots && s'.ipSlots[ip] == op.url)
    && (ip in s.ipSlots && ip !in s'.ipSlots ==>
          var u := s.ipSlots[ip];
          match op
          case MarkAlive(url) => url == u && u !in s'.unverified
          case MarkSynced(url) => url == u && u !in s'.unverified
          case Remove(url) => url == u
          case ExpireUnverified => u !in s'.unverified && u !in s'.verified
          case Announce(url, from, _) =>
            if ip == from && ip.Address? then url !in s'.unverified
            else (u in s.unverified || u == url) && u !in s'.unverified
          case EnsureSeed(url) => (u in s.unverified || u == url) && u !in s'.unverified
          case _ => false)
  }

  ghost predicate Told(cfg: Config, self: Option<string>, s: Table, op: Op, now: int, s': Table, u: string, ip: Ip) {
    && VerifiedTold(cfg, self, s, op, now, s', u) && UnverifiedTold(cfg, self, s, op, now, s', u)
    && LeavesVerified(cfg, s, op, now, s', u) && LeavesUnverified(cfg, s, op, now, s', u)
    && SlotTold(cfg, self, s, op, now, s', ip)
  }

  /** What is evicted was seen no later than what stays, and what stays fills the table. */
  lemma EvictedIsOldest(before: Entries, cap: nat, after: Entries, u: string)
    requires Evicts(before, cap, after) && u in before && u !in after
    ensures |after| == cap && forall w | w in after :: w in before && before[u].lastSeen <= after[w].lastSeen
  {
    SubsetSize(after.Keys, before.Keys);
    assert |after| == |after.Keys| && |before| == |before.Keys|;
  }

  /** What an eviction leaves of an entry and of a slot. */
  predicate Spared(cfg: Config, full: Table, s': Table, u: string, ip: Ip) {
    && s'.verified == full.verified
    && (u in s'.unverified ==> u in full.unverified && s'.unverified[u] == full.unverified[u])
    && (u in full.unverified && u !in s'.unverified ==> FullOfLater(cfg, s', full.unverified[u].lastSeen))
    && (ip in s'.ipSlots <==>
          ip in full.ipSlots && !(full.ipSlots[ip] in full.unverified && full.ipSlots[ip] !in s'.unverified))
    && (ip in s'.ipSlots ==> s'.ipSlots[ip] == full.ipSlots[ip])
  }

  lemma EvictionSpares(cfg: Config, full: Table, s': Table, u: string, ip: Ip)
    requires EvictsUnverified(cfg, full, s')
    ensures Spared(cfg, full, s', u, ip)
  {
    if u in full.unverified && u !in s'.unverified {
      EvictedIsOldest(full.unverified, cfg.maxUnverified, s'.unverified, u);
    }
  }

  /** The announced entry, and the slot taken for it, before anything is evicted. */
  predicate Offered(s: Table, url: string, from: Ip, caps: nat, now: int, full: Table, u: string) {
    && (u in full.unverified <==> u == url || (u in s.unverified && !Displaces(s, url, from, u)))
    && (u in full.unverified && u != url ==> full.unverified[u] == s.unverified[u])
    && (u == url ==>
          full.unverified[u] == if u in s.unverified
                                then s.unverified[u].(lastSeen := now, added := now, capabilities := caps)
                                else PeerEntry(from, caps, now, now, 0))
    && full.verified == s.verified
    && full.ipSlots == if from.Unspecified? then s.ipSlots else s.ipSlots[from := url]
  }

  lemma UpsertOffers(s: Table, url: string, from: Ip, caps: nat, now: int, full: Table, u: string)
    requires full == Upsert(if from.Unspecified? then s else TakeSlot(s, url, from), url, from, caps, now)
    ensures Offered(s, url, from, caps, now, full, u)
  {
  }

  lemma OfferTold(cfg: Config, self: Option<string>, s: Table, url: string, from: Ip, caps: nat, now: int,
                  full: Table, s': Table, u: string, ip: Ip)
    requires Offers(cfg, self, s, Announce(url, from, caps), now, url)
    requires Offered(s, url, from, caps, now, full, u) && Offered(s, url, from, caps, now, full, url)
    requires ip in s.ipSlots ==> Offered(s, url, from, caps, now, full, s.ipSlots[ip])
    requires Spared(cfg, full, s', u, ip)
    ensures Told(cfg, self, s, Announce(url, from, caps), now, s', u, ip)
  {
  }

  /** An announcement of our own URL, of a fresh verified peer, or without a source into a full table. */
  lemma NoOfferTold(cfg: Config, self: Option<string>, s: Table, url: string, from: Ip, caps: nat, now: int,
                    s': Table, u: string, ip: Ip)
    requires !Offers(cfg, self, s, Announce(url, from, caps), now, url)
             || (from.Unspecified? && url !in s.unverified && |s.unverified| >= cfg.maxUnverified)
    requires Announces(cfg, self, s, url, from, caps, now, s')
    ensures Told(cfg, self, s, Announce(url, from, caps), now, s', u, ip)
  {
  }

  lemma AnnounceTold(cfg: Config, self: Option<string>, s: Table, url: string, from: Ip, caps: nat, now: int,
                     s': Table, u: string, ip: Ip)
    requires Announces(cfg, self, s, url, from, caps, now, s')
    ensures Told(cfg, self, s, Announce(url, from, caps), now, s', u, ip)
  {
    if !Offers(cfg, self, s, Announce(url, from, caps), now, url)
       || (from.Unspecified? && url !in s.unverified && |s.unverified| >= cfg.maxUnverified) {
      NoOfferTold(cfg, self, s, url, from, caps, now, s', u, ip);
    } else {
      var full := Upsert(if from.Unspecified? then s else TakeSlot(s, url, from), url, from, caps, now);
      UpsertOffers(s, url, from, caps, now, full, u);
      UpsertOffers(s, url, from, caps, now, full, url);
      if ip in s.ipSlots {
        UpsertOffers(s, url, from, caps, now, full, s.ipSlots[ip]);
      }
      EvictionSpares(cfg, full, s', u, ip);
      OfferTold(cfg, self, s, url, from, caps, now, full, s', u, ip);
    }
  }

  lemma SeedTold(cfg: Config, self: Option<string>, s: Table, url: string, now: int, s': Table, u: string, ip: Ip)
    requires EnsuresSeed(cfg, self, s, url, now, s')
    ensures Told(cfg, self, s, EnsureSeed(url), now, s', u, ip)
  {
    if self != Some(url) && url !in s.verified {
      var full := if url in s.unverified then s
        else s.(unverified := s.unverified[url := PeerEntry(Unspecified, 0, now, now, 0)]);
      EvictionSpares(cfg, full, s', u, ip);
      SeedEntered(cfg, self, s, url, now, full, s', u, ip);
    }
  }

  lemma SeedEntered(cfg: Config, self: Option<string>, s: Table, url: string, now: int, full: Table, s': Table,
                    u: string, ip: Ip)
    requires url !in s.verified && full == if url in s.unverified then s
      else s.(unverified := s.unverified[url := PeerEntry(Unspecified, 0, now, now, 0)])
    requires Spared(cfg, full, s', u, ip)
    ensures Told(cfg, self, s, EnsureSeed(url), now, s', u, ip)
  {
  }

  lemma AliveTold(cfg: Config, self: Option<string>, s: Table, url: string, now: int, s': Table, u: string, ip: Ip)
    requires MarksAlive(cfg, s, url, now, s')
    ensures Told(cfg, self, s, MarkAlive(url), now, s', u, ip)
  {
    if u in s.verified && u !in s'.verified {
      var e := s.unverified[url];
      var full := s.verified[url := PeerEntry(e.sourceIp, e.capabilities, now, now, 0)];
      EvictedIsOldest(full, cfg.maxVerified, s'.verified, u);
    }
  }

  /** A successful sync does to every entry what a sign of life does, the counter of failures aside. */
  lemma SyncedTold(cfg: Config, self: Option<string>, s: Table, url: string, now: int, s': Table, u: string, ip: Ip)
    requires MarksSynced(cfg, s, url, now, s')
    ensures Told(cfg, self, s, MarkSynced(url), now, s', u, ip)
  {
    var mid :| MarksAlive(cfg, s, url, now, mid) && s' == ClearFailures(mid, url);
    AliveTold(cfg, self, s, url, now, mid, u, ip);
    ClearedTold(mid, url, s', u);
    AliveHoldsUrl(cfg, s, url, now, mid);
    AliveCounters(cfg, s, url, now, mid);
    SyncedAsAlive(cfg, self, s, url, now, mid, s', u, ip);
  }

  lemma ClearedTold(s: Table, url: string, s': Table, u: string)
    requires s' == ClearFailures(s, url)
    ensures s'.unverified == s.unverified && s'.ipSlots == s.ipSlots
    ensures s'.verified.Keys == s.verified.Keys && |s'.verified| == |s.verified|
    ensures forall w | w in s.verified ::
      s'.verified[w] == if w == url then s.verified[w].(syncFailures := 0) else s.verified[w]
  {
    assert |s.verified| == |s.verified.Keys| && |s'.verified| == |s'.verified.Keys|;
  }

  lemma SyncedAsAlive(cfg: Config, self: Option<string>, s: Table, url: string, now: int, mid: Table, s': Table,
                      u: string, ip: Ip)
    requires Told(cfg, self, s, MarkAlive(url), now, mid, u, ip)
    requires s'.unverified == mid.unverified && s'.ipSlots == mid.ipSlots
    requires s'.verified.Keys == mid.verified.Keys && |s'.verified| == |mid.verified|
    requires forall w | w in mid.verified ::
      s'.verified[w] == if w == url then mid.verified[w].(syncFailures := 0) else mid.verified[w]
    ensures Told(cfg, self, s, MarkSynced(url), now, s', u, ip)
  {
  }

  lemma FailureTold(cfg: Config, self: Option<string>, s: Table, url: string, now: int, u: string, ip: Ip)
    ensures Told(cfg, self, s, SyncFailure(url), now, AfterFailure(s, url, now), u, ip)
  {
  }

  lemma ExpiryTold(cfg: Config, self: Option<string>, s: Table, now: int, u: string, ip: Ip)
    ensures Told(cfg, self, s, ExpireUnverified, now, AfterExpiry(cfg, s, now), u, ip)
  {
  }

  lemma DemotionTold(cfg: Config, self: Option<string>, s: Table, now: int, u: string, ip: Ip)
    ensures Told(cfg, self, s, DemoteExpired, now, AfterDemotion(cfg, s, now), u, ip)
  {
  }

  lemma RemovalTold(cfg: Config, self: Option<string>, s: Table, url: string, now: int, u: string, ip: Ip)
    ensures Told(cfg, self, s, Remove(url), now, AfterRemoval(s, url), u, ip)
  {
  }

  /** Main result. Every call does to each entry and each IP slot exactly what the five statements above tell. */
  lemma EachCallTold(cfg: Config, self: Option<string>, s: Table, op: Op, now: int, s': Table, u: string, ip: Ip)
    requires Next(cfg, self, s, op, now, s')
    ensures VerifiedTold(cfg, self, s, op, now, s', u) && UnverifiedTold(cfg, self, s, op, now, s', u)
    ensures LeavesVerified(cfg, s, op, now, s', u) && LeavesUnverified(cfg, s, op, now, s', u)
    ensures SlotTold(cfg, self, s, op, now, s', ip)
  {
    match op
    case Announce(url, from, caps) => AnnounceTold(cfg, self, s, url, from, caps, now, s', u, ip);
    case MarkAlive(url) => AliveTold(cfg, self, s, url, now, s', u, ip);
    case MarkSynced(url) => SyncedTold(cfg, self, s, url, now, s', u, ip);
    case EnsureSeed(url) => SeedTold(cfg, self, s, url, now, s', u, ip);
    case SyncFailure(url) => FailureTold(cfg, self, s, url, now, u, ip);
    case ExpireUnverified => ExpiryTold(cfg, self, s, now, u, ip);
    case DemoteExpired => DemotionTold(cfg, self, s, now, u, ip);
    case Remove(url) => RemovalTold(cfg, self, s, url, now, u, ip);
  }

  // ---- what the dates mean -------------------------------------------------------------------------

  /** When `u`, now verified, was last seen, read off the calls: when it was promoted, or the last call after
      that which showed it alive. */
  ghost function SeenAt(cfg: Config, self: Option<string>, x: History, k: nat, u: string): int
    requires |x.tables| == |x.ops| + 1 && |x.clock| == |x.ops| && k <= |x.ops|
  {
    if k == 0 then 0
    else
      var op, now, before := x.ops[k - 1], x.clock[k - 1], SeenAt(cfg, self, x, k - 1, u);
      if u !in x.tables[k - 1].verified || op == MarkAlive(u) || op == MarkSynced(u) then now
      else if op.Announce? && op.url == u && self != Some(u) && now - before < cfg.verifiedTtl then now
      else before
  }

  /** When `u`, now unverified, was last announced or came into the table, read off the calls. */
  ghost function OfferedAt(cfg: Config, self: Option<string>, x: History, k: nat, u: string): int
    requires |x.tables| == |x.ops| + 1 && |x.clock| == |x.ops| && k <= |x.ops|
  {
    if k == 0 then 0
    else
      var op, now, s := x.ops[k - 1], x.clock[k - 1], x.tables[k - 1];
      if u !in s.unverified then now
      else if op.Announce? && op.url == u && self != Some(u)
              && !(u in s.verified && now - SeenAt(cfg, self, x, k - 1, u) < cfg.verifiedTtl) then now
      else OfferedAt(cfg, self, x, k - 1, u)
  }

  lemma {:induction false} SeenIsDated(cfg: Config, self: Option<string>, x: History, k: nat, u: string)
    requires IsHistory(cfg, self, x) && k < |x.tables| && u in x.tables[k].verified
    ensures x.tables[k].verified[u].lastSeen == SeenAt(cfg, self, x, k, u)
    decreases k
  {
    if k > 0 {
      EachCallTold(cfg, self, x.tables[k - 1], x.ops[k - 1], x.clock[k - 1], x.tables[k], u, Unspecified);
      if u in x.tables[k - 1].verified {
        SeenIsDated(cfg, self, x, k - 1, u);
      }
    }
  }

  lemma {:induction false} OfferIsDated(cfg: Config, self: Option<string>, x: History, k: nat, u: string)
    requires IsHistory(cfg, self, x) && k < |x.tables| && u in x.tables[k].unverified
    ensures x.tables[k].unverified[u].added == OfferedAt(cfg, self, x, k, u)
    decreases k
  {
    if k > 0 {
      var s := x.tables[k - 1];
      EachCallTold(cfg, self, s, x.ops[k - 1], x.clock[k - 1], x.tables[k], u, Unspecified);
      if u in s.verified {
        SeenIsDated(cfg, self, x, k - 1, u);
      }
      if u in s.unverified {
        OfferIsDated(cfg, self, x, k - 1, u);
      }
    }
  }

  /** Main result. Over any history of calls a demotion of stale peers demotes a verified peer if and only if
      the last call that showed it alive, or promoted it, was at least the time to live ago. */
  lemma DemotionIsExact(cfg: Config, self: Option<string>, x: History, k: nat, u: string)
    requires IsHistory(cfg, self, x) && k < |x.ops| && x.ops[k] == DemoteExpired
    requires u in x.tables[k].verified
    ensures u !in x.tables[k + 1].verified <==> x.clock[k] - SeenAt(cfg, self, x, k, u) >= cfg.verifiedTtl
    ensures u !in x.tables[k + 1].verified ==> u in x.tables[k + 1].unverified
  {
    SeenIsDated(cfg, self, x, k, u);
    EachCallTold(cfg, self, x.tables[k], x.ops[k], x.clock[k], x.tables[k + 1], u, Unspecified);
  }

  /** Main result. Over any history an expiry drops an unverified peer if and only if it was last announced, or
      came into the table, at least the time to live ago: failed syncs and health checks do not keep it. */
  lemma ExpiryIsExact(cfg: Config, self: Option<string>, x: History, k: nat, u: string)
    requires IsHistory(cfg, self, x) && k < |x.ops| && x.ops[k] == ExpireUnverified
    requires u in x.tables[k].unverified
    ensures u !in x.tables[k + 1].unverified <==> x.clock[k] - OfferedAt(cfg, self, x, k, u) >= cfg.unverifiedTtl
  {
    OfferIsDated(cfg, self, x, k, u);
    EachCallTold(cfg, self, x.tables[k], x.ops[k], x.clock[k], x.tables[k + 1], u, Unspecified);
  }
}
