/** Ingesting one page of pulled records (`ingest_sync_records`): exact duplicates are dropped, the rest
    is grouped by space, and each space is gated, given up for want of a root, or proved and verified,
    until the failed-space budget is spent. Decoding, proving and verifying are parameters. */
module Ingest {
  import opened Names
  import opened Tables
  import opened Totals
  import opened Sets
  import opened Pages
  import opened Puller
  import R = Replication

  /** The stored metadata that the duplicate filter compares with. */
  datatype Hint = Hint(epochHeight: nat, offchainSeq: nat, delegateSeq: nat, zoneHash: Blob)

  /** What a record's certificate says, once certificate and zone decode. */
  datatype Decoded = Decoded(subject: string, space: Option<string>)

  /** `Infra`: proving or the verification task broke down. `Rejected`: the message was refused. */
  datatype Verdict = Infra | Rejected | Verified(stored: nat)

  /** Everything outside this function. Each space is visited at most once, so what the store and the
      verifier answer while it is visited is a function of the space. */
  datatype Env = Env(
    hash: Blob -> Blob,
    decode: SyncRecord -> Option<Decoded>,
    gated: string -> bool,
    rootHeld: string -> bool,
    verdict: string -> Verdict)

  /** One batch: its records and the hints the store held for them when the batch began. */
  datatype Batch = Batch(records: seq<SyncRecord>, existing: map<string, Hint>)

  predicate IsDuplicate(env: Env, existing: map<string, Hint>, r: SyncRecord) {
    && r.handle in existing
    && existing[r.handle] == Hint(r.epochHeight, r.offchainSeq, r.delegateSeq, env.hash(r.zone))
  }

  predicate IsGarbage(env: Env, r: SyncRecord) {
    env.decode(r).None? || env.decode(r).value.subject != r.handle
  }

  function Duplicates(env: Env, b: Batch): set<nat> {
    set i: nat | i < |b.records| && IsDuplicate(env, b.existing, b.records[i])
  }

  predicate Survives(env: Env, b: Batch, i: nat) {
    i < |b.records| && !IsDuplicate(env, b.existing, b.records[i])
  }

  predicate Garbage(env: Env, b: Batch) {
    exists i: nat | i < |b.records| :: Survives(env, b, i) && IsGarbage(env, b.records[i])
  }

  function SpaceOf(env: Env, r: SyncRecord): Option<string> {
    match env.decode(r)
    case Some(d) => d.space
    case None => None
  }

  function Group(env: Env, b: Batch, space: string): set<nat> {
    set i: nat | i < |b.records| && Survives(env, b, i) && SpaceOf(env, b.records[i]) == Some(space)
  }

  function Spaces(env: Env, b: Batch): set<string> {
    set i: nat | i < |b.records| && Survives(env, b, i) && SpaceOf(env, b.records[i]).Some?
      :: SpaceOf(env, b.records[i]).value
  }

  /** Under the admission gate only records of handles already stored stay in the group. */
  predicate Retained(env: Env, b: Batch, space: string, i: nat) {
    i < |b.records| && (env.gated(space) ==> b.records[i].handle in b.existing)
  }

  function Kept(env: Env, b: Batch, space: string): set<nat> {
    set i | i in Group(env, b, space) && Retained(env, b, space, i)
  }

  predicate HasRoot(env: Env, b: Batch, space: string) {
    (exists i | i in Kept(env, b, space) :: b.records[i].handle == space) || env.rootHeld(space)
  }

  /** The space reaches proving and verification. */
  predicate Attempts(env: Env, b: Batch, space: string) {
    Kept(env, b, space) != {} && HasRoot(env, b, space)
  }

  predicate Fails(env: Env, b: Batch, space: string) {
    && Kept(env, b, space) != {}
    && (!HasRoot(env, b, space) || env.verdict(space) == Rejected)
  }

  // ---- what one batch comes to, given the spaces that were reached ---------------------------------

  ghost function FailedIn(env: Env, b: Batch, reached: set<string>): set<string> {
    set s | s in reached && Fails(env, b, s)
  }

  ghost function GatedOf(env: Env, b: Batch, space: string): int {
    |Group(env, b, space)| - |Kept(env, b, space)|
  }

  /** The records dropped by the gate, and those stored, space by space. */
  ghost function GatedBy(env: Env, b: Batch, reached: set<string>): int {
    Total(map s | s in reached :: GatedOf(env, b, s))
  }

  ghost function StoredOf(env: Env, b: Batch, space: string): int {
    if Attempts(env, b, space) && env.verdict(space).Verified? then env.verdict(space).stored else 0
  }

  ghost function StoredBy(env: Env, b: Batch, reached: set<string>): int {
    Total(map s | s in reached :: StoredOf(env, b, s))
  }

  ghost predicate Accounts(env: Env, b: Batch, reached: set<string>, out: SyncIngest) {
    && out.prefiltered == |Duplicates(env, b)|
    && out.failedSpaces == |FailedIn(env, b, reached)|
    && out.gated == GatedBy(env, b, reached)
    && out.stored == StoredBy(env, b, reached)
  }

  lemma GroupNotEmpty(env: Env, b: Batch, space: string)
    ensures space in Spaces(env, b) <==> Group(env, b, space) != {}
  {
    if space in Spaces(env, b) {
      var i: nat :| i < |b.records| && Survives(env, b, i) && SpaceOf(env, b.records[i]) == Some(space);
      assert i in Group(env, b, space);
    }
  }

  lemma ReachFailed(env: Env, b: Batch, reached: set<string>, space: string)
    requires space !in reached
    ensures |FailedIn(env, b, reached + {space})|
         == |FailedIn(env, b, reached)| + (if Fails(env, b, space) then 1 else 0)
  {
    if Fails(env, b, space) {
      assert FailedIn(env, b, reached + {space}) == FailedIn(env, b, reached) + {space};
    } else {
      assert FailedIn(env, b, reached + {space}) == FailedIn(env, b, reached);
    }
  }

  ghost predicate Visited(env: Env, b: Batch, space: string, before: SyncIngest, after: SyncIngest) {
    && after.prefiltered == before.prefiltered && after.incomplete == before.incomplete
    && after.failedSpaces == before.failedSpaces + (if Fails(env, b, space) then 1 else 0)
    && after.gated == before.gated + GatedOf(env, b, space)
    && after.stored == before.stored + StoredOf(env, b, space)
  }

  lemma ReachGated(env: Env, b: Batch, reached: set<string>, space: string)
    requires space !in reached
    ensures GatedBy(env, b, reached + {space})
         == GatedBy(env, b, reached) + GatedOf(env, b, space)
  {
    var m := map s | s in reached :: GatedOf(env, b, s);
    var more := reached + {space};
    PutIn(m, space, GatedOf(env, b, space));
    assert m[space := GatedOf(env, b, space)] == map s | s in more :: GatedOf(env, b, s);
  }

  lemma ReachStored(env: Env, b: Batch, reached: set<string>, space: string)
    requires space !in reached
    ensures StoredBy(env, b, reached + {space}) == StoredBy(env, b, reached) + StoredOf(env, b, space)
  {
    var m := map s | s in reached :: StoredOf(env, b, s);
    var more := reached + {space};
    PutIn(m, space, StoredOf(env, b, space));
    assert m[space := StoredOf(env, b, space)] == map s | s in more :: StoredOf(env, b, s);
  }

  lemma ReachOne(env: Env, b: Batch, reached: set<string>, space: string, before: SyncIngest, after: SyncIngest)
    requires space !in reached
    requires Accounts(env, b, reached, before) && Visited(env, b, space, before, after)
    ensures Accounts(env, b, reached + {space}, after)
  {
    ReachFailed(env, b, reached, space);
    ReachGated(env, b, reached, space);
    ReachStored(env, b, reached, space);
  }

  ghost function DuplicatesUpTo(env: Env, b: Batch, i: nat): set<nat> {
    set k | k in Duplicates(env, b) && k < i
  }

  lemma OneMoreMember(s: set<nat>, i: nat)
    ensures |set k | k in s && k < i + 1| == |set k | k in s && k < i| + if i in s then 1 else 0
  {
    var less, more := set k | k in s && k < i, set k | k in s && k < i + 1;
    assert more == if i in s then less + {i} else less;
  }

  lemma OneMoreDuplicate(env: Env, b: Batch, i: nat)
    requires i < |b.records|
    ensures |DuplicatesUpTo(env, b, i + 1)|
         == |DuplicatesUpTo(env, b, i)| + if IsDuplicate(env, b.existing, b.records[i]) then 1 else 0
  {
    OneMoreMember(Duplicates(env, b), i);
  }

  /** Pre-filter: drop exact duplicates of our own rows. */
  method Prefilter(env: Env, b: Batch) returns (survivors: set<nat>, duplicates: nat)
    ensures duplicates == |Duplicates(env, b)|
    ensures survivors == set i: nat | i < |b.records| && Survives(env, b, i)
    ensures forall i | 0 <= i < |b.records| :: var r := b.records[i];
      i !in survivors <==>
        && r.handle in b.existing
        && b.existing[r.handle].epochHeight == r.epochHeight && b.existing[r.handle].offchainSeq == r.offchainSeq
        && b.existing[r.handle].delegateSeq == r.delegateSeq && b.existing[r.handle].zoneHash == env.hash(r.zone)
  {
    survivors, duplicates := {}, 0;
    assert DuplicatesUpTo(env, b, 0) == {};
    for i := 0 to |b.records|
      invariant duplicates == |DuplicatesUpTo(env, b, i)|
      invariant survivors == set k: nat | k < i && Survives(env, b, k)
    {
      OneMoreDuplicate(env, b, i);
      if IsDuplicate(env, b.existing, b.records[i]) {
        duplicates := duplicates + 1;
      } else {
        survivors := survivors + {i};
      }
    }
    assert DuplicatesUpTo(env, b, |b.records|) == Duplicates(env, b);
  }

  /** Decode the survivors and group them by space. Garbage fails the whole batch. */
  method GroupBySpace(env: Env, b: Batch, survivors: set<nat>) returns (ok: bool, bySpace: map<string, set<nat>>)
    requires survivors == set i: nat | i < |b.records| && Survives(env, b, i)
    ensures ok <==> !Garbage(env, b)
    ensures ok ==> bySpace.Keys == Spaces(env, b)
    ensures ok ==> forall s | s in bySpace :: bySpace[s] == Group(env, b, s)
  {
    ok, bySpace := true, map[];
    for i := 0 to |b.records|
      invariant forall k: nat | k < i && Survives(env, b, k) :: !IsGarbage(env, b.records[k])
      invariant forall k: nat | k < i && Survives(env, b, k) && SpaceOf(env, b.records[k]).Some? ::
                  SpaceOf(env, b.records[k]).value in bySpace
      invariant forall s | s in bySpace :: bySpace[s] != {} && bySpace[s] == set k | k in Group(env, b, s) && k < i
    {
      if i in survivors {
        if IsGarbage(env, b.records[i]) {
          assert Survives(env, b, i);
          ok := false;
          return;
        }
        var d := env.decode(b.records[i]).value;
        if d.space.Some? {
          var s := d.space.value;
          bySpace := bySpace[s := (if s in bySpace then bySpace[s] else {}) + {i}];
        }
      }
    }
    forall s | s in bySpace ensures s in Spaces(env, b) && bySpace[s] == Group(env, b, s) {
      assert bySpace[s] == Group(env, b, s);
      GroupNotEmpty(env, b, s);
    }
  }

  lemma KeptMembers(env: Env, b: Batch, space: string)
    ensures Kept(env, b, space) <= Group(env, b, space)
    ensures !env.gated(space) ==> Kept(env, b, space) == Group(env, b, space)
    ensures env.gated(space) ==> Kept(env, b, space) == Known(b, Group(env, b, space))
  {
    assert forall i | i in Group(env, b, space) :: i < |b.records|;
  }

  /** The records of handles already stored. */
  function Known(b: Batch, group: set<nat>): set<nat> {
    set i | i in group && i < |b.records| && b.records[i].handle in b.existing
  }

  /** The admission gate over one group: which records stay, and how many go. */
  method ApplyGate(env: Env, b: Batch, space: string, group: set<nat>) returns (kept: set<nat>, gated: nat)
    requires group == Group(env, b, space)
    ensures kept == Kept(env, b, space) && gated == GatedOf(env, b, space)
  {
    KeptMembers(env, b, space);
    SubsetSize(Kept(env, b, space), group);
    kept, gated := group, 0;
    if env.gated(space) {
      kept := Known(b, group);
      gated := |group| - |kept|;
    }
  }

  /** One space of the batch. `ok` is false on an infrastructure failure. */
  method Visit(env: Env, b: Batch, space: string, group: set<nat>, before: SyncIngest)
    returns (ok: bool, out: SyncIngest)
    requires group == Group(env, b, space)
    ensures ok <==> !(Attempts(env, b, space) && env.verdict(space) == Infra)
    ensures ok ==> Visited(env, b, space, before, out)
  {
    ok := true;
    var kept, gated := ApplyGate(env, b, space, group);
    out := before.(gated := before.gated + gated);
    if kept == {} {
      return;
    }
    if !(exists i | i in kept :: b.records[i].handle == space) && !env.rootHeld(space) {
      out := out.(failedSpaces := out.failedSpaces + 1);
      return;
    }
    match env.verdict(space)
    case Infra => ok := false;
    case Rejected => out := out.(failedSpaces := out.failedSpaces + 1);
    case Verified(n) => out := out.(stored := out.stored + n);
  }

  ghost predicate InfraFree(env: Env, b: Batch, reached: set<string>) {
    forall s | s in reached && Attempts(env, b, s) :: env.verdict(s) != Infra
  }

  lemma CutShort(env: Env, b: Batch, reached: set<string>, out: SyncIngest)
    requires Accounts(env, b, reached, out)
    ensures Accounts(env, b, reached, out.(incomplete := true))
  {
  }

  /** The loop over the spaces, which are visited in no particular order until the budget runs out. */
  method VisitAll(env: Env, b: Batch, bySpace: map<string, set<nat>>, start: SyncIngest, maxFailed: nat)
    returns (ok: bool, out: SyncIngest, reached: set<string>)
    requires forall s | s in bySpace :: bySpace[s] == Group(env, b, s)
    requires Accounts(env, b, {}, start) && start.failedSpaces == 0 && !start.incomplete
    ensures reached <= bySpace.Keys
    ensures ok ==>
      && Accounts(env, b, reached, out) && InfraFree(env, b, reached)
      && out.failedSpaces <= maxFailed
      && (out.incomplete <==> reached != bySpace.Keys)
      && (out.incomplete ==> out.failedSpaces == maxFailed)
    ensures !ok ==> exists s :: s in bySpace && Attempts(env, b, s) && env.verdict(s) == Infra
  {
    ok, out, reached := true, start, {};
    var pending := bySpace.Keys;
    while pending != {}
      invariant reached <= bySpace.Keys && pending == bySpace.Keys - reached
      invariant Accounts(env, b, reached, out) && !out.incomplete
      invariant InfraFree(env, b, reached)
      invariant out.failedSpaces <= maxFailed
      decreases pending
    {
      if out.failedSpaces >= maxFailed {
        CutShort(env, b, reached, out);
        out := out.(incomplete := true);
        return;
      }
      var space :| space in pending;
      var after;
      ok, after := Visit(env, b, space, bySpace[space], out);
      if !ok {
        return;
      }
      ReachOne(env, b, reached, space, out, after);
      out, reached := after, reached + {space};
      pending := pending - {space};
    }
  }

  /** What an ingest returns, given the spaces it reached. */
  ghost predicate IngestOutcome(env: Env, b: Batch, maxFailed: nat, reached: set<string>, r: IngestResult) {
    match r
    case Aborted =>
      Garbage(env, b) || exists s :: s in Spaces(env, b) && Attempts(env, b, s) && env.verdict(s) == Infra
    case Ingested(out) =>
      && !Garbage(env, b)
      && reached <= Spaces(env, b)
      && Accounts(env, b, reached, out) && InfraFree(env, b, reached)
      && out.failedSpaces <= maxFailed
      && (out.incomplete <==> reached != Spaces(env, b))
      && (out.incomplete ==> out.failedSpaces == maxFailed)
  }

  /** The whole ingest. Its statistics are determined by the spaces it reached, and it reached them all
      unless the failure budget was spent. */
  method IngestRecords(env: Env, b: Batch, maxFailed: nat) returns (r: IngestResult, reached: set<string>)
    ensures IngestOutcome(env, b, maxFailed, reached, r)
  {
    var survivors, duplicates := Prefilter(env, b);
    var ok, bySpace := GroupBySpace(env, b, survivors);
    if !ok {
      return Aborted, {};
    }
    var out := SyncIngest(0, duplicates, 0, 0, false);
    EmptyAccounts(env, b, out);
    ok, out, reached := VisitAll(env, b, bySpace, out, maxFailed);
    r := if ok then Ingested(out) else Aborted;
  }

  lemma EmptyAccounts(env: Env, b: Batch, out: SyncIngest)
    requires out == SyncIngest(0, |Duplicates(env, b)|, 0, 0, false)
    ensures Accounts(env, b, {}, out)
  {
    assert FailedIn(env, b, {}) == {};
  }

  // ---- what a finished ingest means for each record ------------------------------------------------

  datatype Fate = Prefiltered | NoSpace | Gated | RootMissing | Attempted | Unattempted

  /** What became of record `i`. */
  ghost function FateOf(env: Env, b: Batch, reached: set<string>, i: nat): Fate
    requires i < |b.records|
  {
    if !Survives(env, b, i) then Prefiltered
    else
      match SpaceOf(env, b.records[i])
      case None => NoSpace
      case Some(space) =>
        if space !in reached then Unattempted
        else if !Retained(env, b, space, i) then Gated
        else if !HasRoot(env, b, space) then RootMissing
        else Attempted
  }

  /** Main result. What decides each record's fate, in the record's own fields: it is dropped as a duplicate if
      and only if a row with its epoch, its two numbers and the hash of its zone is stored under its handle;
      what is left is gated only if its space is and its handle is new, and is given up for want of a root
      only if neither the store nor the batch, as far as the gate lets it through, has the root. */
  lemma FateMeans(env: Env, b: Batch, reached: set<string>, i: nat)
    requires i < |b.records|
    ensures var r, fate := b.records[i], FateOf(env, b, reached, i);
      && (fate == Prefiltered <==>
            && r.handle in b.existing
            && b.existing[r.handle].epochHeight == r.epochHeight
            && b.existing[r.handle].offchainSeq == r.offchainSeq
            && b.existing[r.handle].delegateSeq == r.delegateSeq
            && b.existing[r.handle].zoneHash == env.hash(r.zone))
      && (fate == NoSpace ==> env.decode(r).None? || env.decode(r).value.space == None)
      && (fate !in {Prefiltered, NoSpace} ==> env.decode(r).Some? && env.decode(r).value.space.Some?)
      && (fate in {Gated, RootMissing, Attempted} ==> env.decode(r).value.space.value in reached)
      && (fate == Unattempted ==> env.decode(r).value.space.value !in reached)
      && (fate == Gated ==> env.gated(env.decode(r).value.space.value) && r.handle !in b.existing)
      && (fate in {RootMissing, Attempted} ==> !env.gated(env.decode(r).value.space.value) || r.handle in b.existing)
  {
  }

  /** A record of the batch that brings the root of `space` and is put to use: it is no duplicate, and the gate
      lets it through. */
  ghost predicate BringsRoot(env: Env, b: Batch, space: string, j: nat) {
    && j < |b.records| && b.records[j].handle == space
    && env.decode(b.records[j]).Some? && env.decode(b.records[j]).value.space == Some(space)
    && (env.gated(space) ==> space in b.existing)
    && (space in b.existing ==>
          b.existing[space] != Hint(b.records[j].epochHeight, b.records[j].offchainSeq, b.records[j].delegateSeq,
                                    env.hash(b.records[j].zone)))
  }

  /** A space counts as failed, once reached, exactly when some record of it is neither a duplicate nor gated
      and its root is nowhere to be found, or verification refuses the space. */
  lemma FailsMeans(env: Env, b: Batch, reached: set<string>, i: nat)
    requires i < |b.records| && FateOf(env, b, reached, i) in {RootMissing, Attempted}
    ensures SpaceOf(env, b.records[i]).Some? && SpaceOf(env, b.records[i]).value in reached
    ensures var space := SpaceOf(env, b.records[i]).value;
      && (FateOf(env, b, reached, i) == RootMissing <==>
            !env.rootHeld(space) && forall j: nat :: !BringsRoot(env, b, space, j))
      && (space in FailedIn(env, b, reached) <==>
            FateOf(env, b, reached, i) == RootMissing || env.verdict(space) == Rejected)
  {
    var space := SpaceOf(env, b.records[i]).value;
    assert i in Group(env, b, space) && i in Kept(env, b, space);
    forall j: nat ensures BringsRoot(env, b, space, j) <==> j in Kept(env, b, space) && b.records[j].handle == space {
      assert BringsRoot(env, b, space, j) ==> j in Group(env, b, space);
    }
  }

  /** The records of one fate. */
  ghost function FatedTo(env: Env, b: Batch, reached: set<string>, fate: Fate): set<nat> {
    set i: nat | i < |b.records| && FateOf(env, b, reached, i) == fate
  }

  /** Some record of the space came to this end. */
  ghost predicate HasFate(env: Env, b: Batch, reached: set<string>, space: string, fate: Fate) {
    exists i: nat | i < |b.records| :: FateOf(env, b, reached, i) == fate && SpaceOf(env, b.records[i]) == Some(space)
  }

  lemma SpaceFates(env: Env, b: Batch, reached: set<string>, space: string)
    requires space in reached
    ensures Attempts(env, b, space) <==> HasFate(env, b, reached, space, Attempted)
    ensures Kept(env, b, space) != {} && !HasRoot(env, b, space) <==> HasFate(env, b, reached, space, RootMissing)
  {
    if i :| i in Kept(env, b, space) {
      assert FateOf(env, b, reached, i) == if HasRoot(env, b, space) then Attempted else RootMissing;
    }
    forall i: nat | i < |b.records| && SpaceOf(env, b.records[i]) == Some(space)
      ensures FateOf(env, b, reached, i) in {Attempted, RootMissing} ==> i in Kept(env, b, space)
    {
    }
  }

  /** The spaces an ingest counts as failed, and what it counts as stored, by what became of their records. */
  lemma SpacesAreCounted(env: Env, b: Batch, reached: set<string>)
    ensures FailedIn(env, b, reached) == set s | s in reached && (HasFate(env, b, reached, s, RootMissing)
                                           || (HasFate(env, b, reached, s, Attempted) && env.verdict(s) == Rejected))
    ensures StoredBy(env, b, reached) == Total(map s | s in reached ::
      if HasFate(env, b, reached, s, Attempted) && env.verdict(s).Verified? then env.verdict(s).stored else 0)
  {
    forall s | s in reached
      ensures Attempts(env, b, s) <==> HasFate(env, b, reached, s, Attempted)
      ensures Kept(env, b, s) != {} && !HasRoot(env, b, s) <==> HasFate(env, b, reached, s, RootMissing)
    {
      SpaceFates(env, b, reached, s);
    }
    assert (map s | s in reached :: StoredOf(env, b, s)) == map s | s in reached ::
      if HasFate(env, b, reached, s, Attempted) && env.verdict(s).Verified? then env.verdict(s).stored else 0;
  }

  lemma GatedGroup(env: Env, b: Batch, space: string)
    ensures Group(env, b, space) - Kept(env, b, space) <= Group(env, b, space)
    ensures GatedOf(env, b, space) == |Group(env, b, space) - Kept(env, b, space)|
  {
    var group, kept := Group(env, b, space), Kept(env, b, space);
    assert group == kept + (group - kept);
  }

  lemma GatedAfter(env: Env, b: Batch, reached: set<string>, space: string)
    requires space !in reached
    ensures FatedTo(env, b, reached + {space}, Gated)
         == FatedTo(env, b, reached, Gated) + (Group(env, b, space) - Kept(env, b, space))
    ensures FatedTo(env, b, reached, Gated) !! (Group(env, b, space) - Kept(env, b, space))
  {
  }

  lemma {:induction false} GatedAreCounted(env: Env, b: Batch, reached: set<string>)
    ensures GatedBy(env, b, reached) == |FatedTo(env, b, reached, Gated)|
    decreases |reached|
  {
    if reached == {} {
      assert FatedTo(env, b, {}, Gated) == {};
    } else {
      var space :| space in reached;
      var rest := reached - {space};
      assert reached == rest + {space};
      GatedAreCounted(env, b, rest);
      ReachGated(env, b, rest, space);
      GatedGroup(env, b, space);
      GatedAfter(env, b, rest, space);
    }
  }

  /** The counters of an ingest are the numbers of records of each fate: a record is counted once, however the
      spaces are walked. */
  lemma FatesAreCounted(env: Env, b: Batch, reached: set<string>)
    requires reached <= Spaces(env, b)
    ensures |Duplicates(env, b)| == |FatedTo(env, b, reached, Prefiltered)|
    ensures GatedBy(env, b, reached) == |FatedTo(env, b, reached, Gated)|
    ensures reached == Spaces(env, b) <==> FatedTo(env, b, reached, Unattempted) == {}
  {
    assert Duplicates(env, b) == FatedTo(env, b, reached, Prefiltered);
    GatedAreCounted(env, b, reached);
    if reached != Spaces(env, b) {
      IncompleteMeansUnattempted(env, b, reached);
      var i: nat :| i < |b.records| && FateOf(env, b, reached, i) == Unattempted;
      assert i in FatedTo(env, b, reached, Unattempted);
    } else {
      forall i: nat | i < |b.records| ensures FateOf(env, b, reached, i) != Unattempted {
        FateIsAccounted(env, b, reached, i);
      }
    }
  }

  /** Main result. What an ingest returns, in its records: how many it dropped as duplicates, how many the gate
      kept out, which of the spaces reached count as failed and what the others stored; it is cut short exactly
      when it left a record unattempted, and no infrastructure failure was met on the way. */
  lemma OutcomeCounts(env: Env, b: Batch, maxFailed: nat, reached: set<string>, out: SyncIngest)
    requires IngestOutcome(env, b, maxFailed, reached, Ingested(out))
    ensures out.prefiltered == |FatedTo(env, b, reached, Prefiltered)|
    ensures out.gated == |FatedTo(env, b, reached, Gated)|
    ensures !out.incomplete <==> FatedTo(env, b, reached, Unattempted) == {}
    ensures out.failedSpaces == |set s | s in reached && (HasFate(env, b, reached, s, RootMissing)
                                   || (HasFate(env, b, reached, s, Attempted) && env.verdict(s) == Rejected))|
    ensures out.failedSpaces <= maxFailed && (out.incomplete ==> out.failedSpaces == maxFailed)
    ensures out.stored == Total(map s | s in reached ::
      if HasFate(env, b, reached, s, Attempted) && env.verdict(s).Verified? then env.verdict(s).stored else 0)
    ensures forall s | s in reached && HasFate(env, b, reached, s, Attempted) :: env.verdict(s) != Infra
    ensures forall i | 0 <= i < |b.records| && FateOf(env, b, reached, i) != Prefiltered ::
      env.decode(b.records[i]).Some? && env.decode(b.records[i]).value.subject == b.records[i].handle
  {
    FatesAreCounted(env, b, reached);
    SpacesAreCounted(env, b, reached);
    forall s | s in reached && HasFate(env, b, reached, s, Attempted) ensures env.verdict(s) != Infra {
      SpaceFates(env, b, reached, s);
    }
  }

  /** And it is aborted only for a record that is no duplicate and does not decode or names another subject, or
      for a space that reaches verification and meets an infrastructure failure there. */
  lemma AbortMeans(env: Env, b: Batch, maxFailed: nat, reached: set<string>)
    requires IngestOutcome(env, b, maxFailed, reached, Aborted)
    ensures
      || (exists i: nat | i < |b.records| :: FateOf(env, b, {}, i) != Prefiltered
            && (env.decode(b.records[i]).None? || env.decode(b.records[i]).value.subject != b.records[i].handle))
      || exists s :: HasFate(env, b, {s}, s, Attempted) && env.verdict(s) == Infra
  {
    if !Garbage(env, b) {
      var s :| s in Spaces(env, b) && Attempts(env, b, s) && env.verdict(s) == Infra;
      SpaceFates(env, b, {s}, s);
    } else {
      var i: nat :| i < |b.records| && Survives(env, b, i) && IsGarbage(env, b.records[i]);
      assert FateOf(env, b, {}, i) != Prefiltered;
    }
  }

  // ---- the failed-space budget ---------------------------------------------------------------------

  /** What a batch costs: the spaces that fail when visited, and the others. */
  ghost function CostOf(env: Env, b: Batch): Cost {
    Cost(|FailedIn(env, b, Spaces(env, b))|, |Spaces(env, b) - FailedIn(env, b, Spaces(env, b))|)
  }

  lemma CostIsSpaces(env: Env, b: Batch)
    ensures CostOf(env, b).failing + CostOf(env, b).others == |Spaces(env, b)|
  {
    var failed := FailedIn(env, b, Spaces(env, b));
    assert Spaces(env, b) == failed + (Spaces(env, b) - failed);
  }

  /** Main result. How an ingest ends is decided by its budget and by how many of the batch's spaces fail:
      with fewer failing spaces than the budget allows it is complete, with more it is incomplete and has
      spent the budget, whatever order the spaces are visited in. */
  lemma BudgetDecides(env: Env, b: Batch, budget: nat, reached: set<string>, r: IngestResult)
    requires IngestOutcome(env, b, budget, reached, r) && r.Ingested?
    ensures IngestMay(CostOf(env, b), budget, r)
  {
    CostIsSpaces(env, b);
    SubsetSize(FailedIn(env, b, reached), FailedIn(env, b, Spaces(env, b)));
    SubsetSize(FailedIn(env, b, reached), reached);
    SubsetSize(reached, Spaces(env, b));
  }

  lemma {:induction false} PartOf(s: set<string>, n: nat) returns (part: set<string>)
    requires n <= |s|
    ensures part <= s && |part| == n
    decreases n
  {
    part := {};
    if n > 0 {
      var x :| x in s;
      var rest := PartOf(s - {x}, n - 1);
      part := rest + {x};
    }
  }

  lemma TalliesAreNatural(env: Env, b: Batch, reached: set<string>)
    ensures GatedBy(env, b, reached) >= 0 && StoredBy(env, b, reached) >= 0
  {
    forall s ensures GatedOf(env, b, s) >= 0 {
      SubsetSize(Kept(env, b, s), Group(env, b, s));
    }
    NonNegative(map s | s in reached :: GatedOf(env, b, s));
    NonNegative(map s | s in reached :: StoredOf(env, b, s));
  }

  lemma PartOfFailed(env: Env, b: Batch, all: set<string>, part: set<string>)
    requires part <= FailedIn(env, b, all)
    ensures FailedIn(env, b, part) == part && part <= all
    ensures InfraFree(env, b, all) ==> InfraFree(env, b, part)
  {
  }

  /** And a batch whose failing spaces can spend the budget, with a space to spare, may be cut short: it is
      when its failing spaces come first. */
  lemma CutIsPossible(env: Env, b: Batch, budget: nat) returns (reached: set<string>, out: SyncIngest)
    requires !Garbage(env, b) && InfraFree(env, b, Spaces(env, b))
    requires CostOf(env, b).failing >= budget && CostOf(env, b).failing + CostOf(env, b).others > budget
    ensures IngestOutcome(env, b, budget, reached, Ingested(out)) && out.incomplete
  {
    CostIsSpaces(env, b);
    reached := PartOf(FailedIn(env, b, Spaces(env, b)), budget);
    PartOfFailed(env, b, Spaces(env, b), reached);
    TalliesAreNatural(env, b, reached);
    out := SyncIngest(StoredBy(env, b, reached), |Duplicates(env, b)|, budget, GatedBy(env, b, reached), true);
  }

  /** Replies whose ingests are ingests of some batch keep the budget, so a round's failures are bounded
      whatever a peer serves. */
  lemma IngestsKeepBudget(replies: nat -> Reply)
    requires forall k, budget | replies(k).Body? && replies(k).ingest(budget).Ingested? ::
      exists env, b, reached :: IngestOutcome(env, b, budget, reached, replies(k).ingest(budget))
    ensures KeepsBudget(replies)
    ensures forall mark, advertised, maxPages ::
      SyncRound(mark, advertised, replies, maxPages).totals.failedSpaces <= MAX_FAILED_SPACES_PER_ROUND + 1
  {
    assert KeepsBudget(replies);
    forall mark, advertised, maxPages
      ensures SyncRound(mark, advertised, replies, maxPages).totals.failedSpaces <= MAX_FAILED_SPACES_PER_ROUND + 1
    {
      BoundedFailures(mark, advertised, replies, maxPages);
    }
  }

  /** Main result. An ingest that was not cut short left no record unattempted: every record that
      names a space was dropped as an exact duplicate, gated, put through verification, or given up
      for want of a root, and the last of these counts as a failed space. It is sure not to be cut short
      when fewer of the batch's spaces fail than the budget allows. */
  lemma CompleteMeansHandled(env: Env, b: Batch, budget: nat, reached: set<string>, out: SyncIngest, i: nat)
    requires IngestOutcome(env, b, budget, reached, Ingested(out))
    requires i < |b.records|
    ensures !out.incomplete || CostOf(env, b).failing < budget ==> FateOf(env, b, reached, i) != Unattempted
    ensures FateOf(env, b, reached, i) == RootMissing ==>
      SpaceOf(env, b.records[i]).value in FailedIn(env, b, reached)
    ensures FateOf(env, b, reached, i) == Attempted ==> Attempts(env, b, SpaceOf(env, b.records[i]).value)
  {
    BudgetDecides(env, b, budget, reached, Ingested(out));
    FateIsAccounted(env, b, reached, i);
  }

  lemma FateIsAccounted(env: Env, b: Batch, reached: set<string>, i: nat)
    requires i < |b.records|
    ensures reached == Spaces(env, b) ==> FateOf(env, b, reached, i) != Unattempted
    ensures FateOf(env, b, reached, i) == RootMissing ==>
      SpaceOf(env, b.records[i]).value in FailedIn(env, b, reached)
    ensures FateOf(env, b, reached, i) == Attempted ==> Attempts(env, b, SpaceOf(env, b.records[i]).value)
  {
    if Survives(env, b, i) && SpaceOf(env, b.records[i]).Some? {
      var space := SpaceOf(env, b.records[i]).value;
      assert space in Spaces(env, b);
      if Retained(env, b, space, i) {
        assert i in Kept(env, b, space);
      }
    }
  }

  /** An incomplete batch has an unattempted record. */
  lemma IncompleteMeansUnattempted(env: Env, b: Batch, reached: set<string>)
    requires reached < Spaces(env, b)
    ensures exists i: nat | i < |b.records| :: FateOf(env, b, reached, i) == Unattempted
  {
    var space :| space in Spaces(env, b) && space !in reached;
    var i: nat :| i < |b.records| && Survives(env, b, i) && SpaceOf(env, b.records[i]) == Some(space);
    assert FateOf(env, b, reached, i) == Unattempted;
  }

  // ---- roots ---------------------------------------------------------------------------------------

  /** The certificates name the handle they are served under and the space in its name. */
  ghost predicate NamesAgree(env: Env, b: Batch) {
    forall i: nat | i < |b.records| :: SpaceOf(env, b.records[i]) == Some(SpaceName(b.records[i].handle))
  }

  /** A root that is already stored stays stored while the batch is ingested. */
  ghost predicate StoredRootsStay(env: Env, b: Batch) {
    forall h | h in b.existing && IsRoot(h) :: env.rootHeld(h)
  }

  lemma RootRecordIsKept(env: Env, b: Batch, space: string, j: nat)
    requires NamesAgree(env, b) && IsRoot(space)
    requires j < |b.records| && b.records[j].handle == space
    requires space !in b.existing && !env.gated(space)
    ensures j in Kept(env, b, space)
  {
    assert Survives(env, b, j);
    assert j in Group(env, b, space);
  }

  /** Main result. If each sub-handle of the page finds its root on the page or at the puller, and the
      admission gate only ever closes on a space whose root is held, then no space of the batch is
      given up for want of a root. */
  lemma RootedBatchFindsRoots(env: Env, b: Batch, page: SyncPage, roots: set<string>, space: string)
    requires b.records == page.records && R.PageRooted(page, roots)
    requires NamesAgree(env, b) && StoredRootsStay(env, b)
    requires forall s | s in roots :: env.rootHeld(s)
    requires forall s :: env.gated(s) ==> env.rootHeld(s)
    requires Kept(env, b, space) != {}
    ensures HasRoot(env, b, space)
  {
    var i :| i in Kept(env, b, space);
    var r := b.records[i];
    SpaceNameIsRoot(r.handle);
    if r.handle != space && !env.rootHeld(space) {
      assert R.FindsRoot(page, roots, r);
      var root :| root in page.records && root.handle == space;
      var j :| 0 <= j < |b.records| && b.records[j] == root;
      RootRecordIsKept(env, b, space, j);
    }
  }

  /** Main result. Over any run against a peer that holds the root of what it stores, with every delivered
      root accepted: when a fetched page is ingested into a store that holds the puller's roots, no space
      of the page is given up for want of a root. */
  lemma FetchedPageFindsRoots(ws: seq<R.World>, steps: seq<R.Step>, k: nat, i: nat, env: Env, b: Batch, space: string)
    requires R.IsRun(ws, steps) && k < |ws|
    requires forall j | 0 <= j < |ws| :: R.RootClosed(ws[j].rows) && R.RootsAccepted(ws[j])
    requires i < |ws[k].rounds| && ws[k].rounds[i].Fetched? && b.records == ws[k].rounds[i].page.records
    requires forall s | s in ws[k].roots :: env.rootHeld(s)
    requires NamesAgree(env, b) && StoredRootsStay(env, b)
    requires forall s :: env.gated(s) ==> env.rootHeld(s)
    ensures Kept(env, b, space) != {} ==> HasRoot(env, b, space)
    ensures Fails(env, b, space) ==> env.verdict(space) == Rejected
  {
    R.NoOrphans(ws, steps, k);
    assert R.PageRooted(ws[k].rounds[i].page, ws[k].roots);
    if Kept(env, b, space) != {} {
      RootedBatchFindsRoots(env, b, ws[k].rounds[i].page, ws[k].roots, space);
    }
  }

  // ---- what the watermark means for each record ----------------------------------------------------

  /** The hints the store holds for the handles of a page. */
  function HintsOf(t: Table, records: seq<SyncRecord>): map<string, Hint> {
    map r | r in records && r.handle in t ::
      r.handle := Hint(t[r.handle].epochHeight, t[r.handle].offchainSeq, t[r.handle].delegateSeq, t[r.handle].zoneHash)
  }

  /** The hash column describes the stored zones, and no other bytes have the hash of one of them. */
  ghost predicate HashTells(env: Env, t: Table) {
    forall h | h in t ::
      && t[h].zoneHash == env.hash(t[h].zone)
      && forall z: Blob :: env.hash(z) == env.hash(t[h].zone) ==> z == t[h].zone
  }

  /** Main result. Where the hints were read from a table whose hashes tell its zones apart from other bytes, a
      record is dropped as a duplicate if and only if the table holds its very zone and its numbers. */
  lemma PrefilteredIffStored(env: Env, t: Table, b: Batch, reached: set<string>, i: nat)
    requires i < |b.records| && b.existing == HintsOf(t, b.records) && HashTells(env, t)
    ensures var r := b.records[i];
      FateOf(env, b, reached, i) == Prefiltered <==>
        r.handle in t && t[r.handle].zone == r.zone && t[r.handle].epochHeight == r.epochHeight
        && t[r.handle].offchainSeq == r.offchainSeq && t[r.handle].delegateSeq == r.delegateSeq
  {
    var r := b.records[i];
    assert r in b.records;
    assert r.handle in b.existing <==> r.handle in t;
  }

  /** An ingest that ran to its end: the puller's table when it began, its batch, the spaces it reached and
      its statistics. */
  datatype Completed = Completed(
    env: Env, table: Table, batch: Batch, budget: nat, reached: set<string>, stats: SyncIngest)

  /** Step `j` of a run completes this ingest, of the page its round had fetched. */
  ghost predicate Completes(ws: seq<R.World>, steps: seq<R.Step>, j: nat, c: Completed)
    requires R.IsRun(ws, steps) && j < |steps| && steps[j].CompleteIngest?
  {
    && R.InRound(ws[j], steps[j].i) && ws[j].rounds[steps[j].i].Fetched?
    && c.batch == Batch(ws[j].rounds[steps[j].i].page.records,
                        HintsOf(c.table, ws[j].rounds[steps[j].i].page.records))
    && IngestOutcome(c.env, c.batch, c.budget, c.reached, Ingested(c.stats)) && !c.stats.incomplete
  }

  /** What is delivered came with some completed ingest. */
  lemma {:induction false} DeliveredByIngest(ws: seq<R.World>, steps: seq<R.Step>, k: nat, x: SyncRecord)
    returns (j: nat)
    requires R.IsRun(ws, steps) && k < |ws| && x in ws[k].delivered
    ensures j < k && steps[j].CompleteIngest?
    ensures R.InRound(ws[j], steps[j].i) && ws[j].rounds[steps[j].i].Fetched?
    ensures x in ws[j].rounds[steps[j].i].page.records
    decreases k
  {
    StepDelivers(ws, steps, k - 1, x);
    if x in ws[k - 1].delivered {
      j := DeliveredByIngest(ws, steps, k - 1, x);
    } else {
      j := k - 1;
    }
  }

  lemma StepDelivers(ws: seq<R.World>, steps: seq<R.Step>, k: int, x: SyncRecord)
    requires R.IsRun(ws, steps) && -1 <= k < |steps| && x in ws[k + 1].delivered
    ensures k >= 0
    ensures x in ws[k].delivered
         || (steps[k].CompleteIngest? && R.InRound(ws[k], steps[k].i) && ws[k].rounds[steps[k].i].Fetched?
             && x in ws[k].rounds[steps[k].i].page.records)
  {
    if k >= 0 {
      assert R.Next(ws[k], steps[k], ws[k + 1]);
    }
  }

  /** Main result. Over any run in which every ingest that is taken as completed is one that was not cut
      short: every row now on the peer at or below the watermark was, with the zone and the numbers it has
      now, already stored by the puller, or without a space, gated, put through verification, or in a space
      counted as failed for want of its root. None was left unattempted. */
  lemma WatermarkMeansHandled(ws: seq<R.World>, steps: seq<R.Step>, ingests: nat -> Completed, k: nat, h: string)
    returns (j: nat, i: nat)
    requires R.IsRun(ws, steps) && k < |ws|
    requires forall n | 0 <= n < |steps| && steps[n].CompleteIngest? ::
      Completes(ws, steps, n, ingests(n)) && HashTells(ingests(n).env, ingests(n).table)
    requires h in ws[k].rows && ws[k].rows[h].syncSeq <= ws[k].watermark.GetOr(0)
    ensures j < k && steps[j].CompleteIngest?
    ensures i < |ingests(j).batch.records| && ingests(j).batch.records[i] == ToRecord(h, ws[k].rows[h])
    ensures var c, row := ingests(j), ws[k].rows[h];
      && FateOf(c.env, c.batch, c.reached, i) != Unattempted
      && (FateOf(c.env, c.batch, c.reached, i) == Prefiltered ==>
            h in c.table && c.table[h].zone == row.zone && c.table[h].epochHeight == row.epochHeight
            && c.table[h].offchainSeq == row.offchainSeq && c.table[h].delegateSeq == row.delegateSeq)
      && (FateOf(c.env, c.batch, c.reached, i) == RootMissing ==>
            SpaceOf(c.env, c.batch.records[i]).value in FailedIn(c.env, c.batch, c.reached))
      && (FateOf(c.env, c.batch, c.reached, i) == Attempted ==>
            Attempts(c.env, c.batch, SpaceOf(c.env, c.batch.records[i]).value))
  {
    var x := ToRecord(h, ws[k].rows[h]);
    R.WatermarkSafety(ws, steps, k, h);
    j := DeliveredByIngest(ws, steps, k, x);
    var c := ingests(j);
    assert Completes(ws, steps, j, c);
    i :| 0 <= i < |c.batch.records| && c.batch.records[i] == x;
    CompleteMeansHandled(c.env, c.batch, c.budget, c.reached, c.stats, i);
    PrefilteredIffStored(c.env, c.table, c.batch, c.reached, i);
  }
}
