/** The replication protocol between one honest peer and one puller, as interleaved steps. The peer
    may write between any two steps of the puller, and any number of the puller's rounds against this
    peer may be in progress at once (the interval loop and the poke loop run on their own). */
module Replication {
  import opened Names
  import opened Tables
  import opened Pages
  import opened StoreRuns
  import A = Accounting
  import U = UpdateRule
  import P = Puller

  /** Where one round stands. `Done` is a completed ingest whose watermark is still to be stored. */
  datatype Phase =
    | Idle
    | Started(mark: Option<nat>)
    | Paging(cursor: Option<nat>, latest: nat)
    | Fetched(cursor: Option<nat>, latest: nat, page: SyncPage)
    | Done(latest: nat, next: nat)

  /** `rows` and `counter` are the peer's; the rest is the puller's. `delivered` collects the records
      of all completed ingests, `roots` the spaces whose root row the puller holds. */
  datatype World = World(
    rows: Table,
    counter: nat,
    watermark: Option<nat>,
    rounds: seq<Phase>,
    delivered: set<SyncRecord>,
    roots: set<string>)

  datatype Step =
    | PeerWrites(rows: Table, counter: nat)
    | PullerGains(roots: set<string>)
    | ReadMark(i: nat)
    | ReadSummary(i: nat)
    | FetchPage(i: nat, limit: nat, maxBytes: nat, page: SyncPage)
    | EndOnEmptyPage(i: nat)
    | CompleteIngest(i: nat, gained: set<string>)
    | StoreMark(i: nat)
    | GiveUp(i: nat)

  /** `sync_summary`: the counter, once anything was ever written. */
  function Advertised(counter: nat): Option<nat> {
    if counter > 0 then Some(counter) else None
  }

  ghost predicate InRound(w: World, i: nat) {
    i < |w.rounds|
  }

  function Put(w: World, i: nat, p: Phase): World
    requires i < |w.rounds|
  {
    w.(rounds := w.rounds[i := p])
  }

  ghost predicate Next(w: World, s: Step, w': World) {
    match s
    case PeerWrites(rows, counter) =>
      && Writes(w.rows, w.counter, rows, counter) && SpacesAgree(rows)
      && w' == w.(rows := rows, counter := counter)
    case PullerGains(more) =>
      w' == w.(roots := w.roots + more)
    case ReadMark(i) =>
      && InRound(w, i) && w.rounds[i].Idle?
      && w' == Put(w, i, Started(w.watermark))
    case ReadSummary(i) =>
      && InRound(w, i) && w.rounds[i].Started?
      && w' == (match P.OnSummary(w.rounds[i].mark, Advertised(w.counter))
                case NothingNew => Put(w, i, Idle)
                case Reset => Put(w, i, Idle).(watermark := Some(0))
                case Pull(latest) => Put(w, i, Paging(w.rounds[i].mark, latest)))
    case FetchPage(i, limit, maxBytes, page) =>
      && InRound(w, i) && w.rounds[i].Paging? && limit >= 1
      && IsPage(w.rows, w.rounds[i].cursor.GetOr(0), limit, maxBytes, page)
      && w' == Put(w, i, Fetched(w.rounds[i].cursor, w.rounds[i].latest, page))
    case EndOnEmptyPage(i) =>
      && InRound(w, i) && w.rounds[i].Fetched?
      && var r := w.rounds[i];
         var d := P.OnPage(r.cursor, r.latest, r.page);
         && d.CatchUp?
         && w' == Put(w, i, Idle).(watermark := if d.move then Some(r.latest) else w.watermark)
    case CompleteIngest(i, gained) =>
      && InRound(w, i) && w.rounds[i].Fetched?
      && var r := w.rounds[i];
         var d := P.OnPage(r.cursor, r.latest, r.page);
         && d.Process?
         && w' == Put(w, i, Done(r.latest, d.next)).(
              delivered := w.delivered + (set x | x in r.page.records),
              roots := w.roots + gained)
    case StoreMark(i) =>
      && InRound(w, i) && w.rounds[i].Done?
      && var r := w.rounds[i];
         w' == Put(w, i, if r.next >= r.latest then Idle else Paging(Some(r.next), r.latest)).(
              watermark := Some(P.Clamp(r.next, r.latest)))
    case GiveUp(i) =>
      // a transport error, a refused page, a spent budget, an aborted or incomplete ingest
      InRound(w, i) && w' == Put(w, i, Idle)
  }

  ghost predicate Start(w: World) {
    && Sequenced(w.rows, w.counter) && SpacesAgree(w.rows)
    && w.watermark == None
    && (forall i | 0 <= i < |w.rounds| :: w.rounds[i].Idle?)
    && w.delivered == {}
  }

  /** Steps that lead from each world to the next. */
  ghost predicate Path(ws: seq<World>, steps: seq<Step>) {
    && |ws| == |steps| + 1
    && forall k | 0 <= k < |steps| :: Next(ws[k], steps[k], ws[k + 1])
  }

  ghost predicate IsRun(ws: seq<World>, steps: seq<Step>) {
    Path(ws, steps) && Start(ws[0])
  }

  // ---- nothing below the watermark is missed -------------------------------------------------------

  /** Every row now on the peer at or below `c` was delivered, in exactly that version. */
  ghost predicate Covered(w: World, c: nat) {
    forall h | h in w.rows && w.rows[h].syncSeq <= c :: ToRecord(h, w.rows[h]) in w.delivered
  }

  ghost predicate PhaseOk(w: World, p: Phase) {
    match p
    case Idle => true
    case Started(mark) => mark.GetOr(0) <= w.counter && Covered(w, mark.GetOr(0))
    case Paging(cursor, latest) => cursor.GetOr(0) <= w.counter && latest <= w.counter && Covered(w, cursor.GetOr(0))
    case Fetched(cursor, latest, page) =>
      && cursor.GetOr(0) <= w.counter && latest <= w.counter && Covered(w, cursor.GetOr(0))
      && (page.records == [] ==> Covered(w, latest))
      && (page.records != [] && page.nextCursor.Some? ==>
            && page.nextCursor.value <= w.counter
            && forall h | h in w.rows && cursor.GetOr(0) < w.rows[h].syncSeq <= page.nextCursor.value ::
                 ToRecord(h, w.rows[h]) in page.records)
    case Done(latest, next) => next <= w.counter && latest <= w.counter && Covered(w, next)
  }

  ghost predicate Safe(w: World) {
    && Sequenced(w.rows, w.counter) && SpacesAgree(w.rows)
    && w.watermark.GetOr(0) <= w.counter
    && Covered(w, w.watermark.GetOr(0))
    && forall i | 0 <= i < |w.rounds| :: PhaseOk(w, w.rounds[i])
  }

  lemma CoveredStays(w: World, w': World, c: nat)
    requires Covered(w, c) && c <= w.counter
    requires w.delivered <= w'.delivered
    requires (w'.rows == w.rows && w'.counter == w.counter) || Writes(w.rows, w.counter, w'.rows, w'.counter)
    ensures Covered(w', c)
  {
  }

  lemma PhaseStays(w: World, w': World, p: Phase)
    requires PhaseOk(w, p)
    requires w.delivered <= w'.delivered
    requires (w'.rows == w.rows && w'.counter == w.counter) || Writes(w.rows, w.counter, w'.rows, w'.counter)
    requires Sequenced(w.rows, w.counter)
    ensures PhaseOk(w', p)
  {
    match p
    case Idle =>
    case Started(mark) => CoveredStays(w, w', mark.GetOr(0));
    case Paging(cursor, latest) => CoveredStays(w, w', cursor.GetOr(0));
    case Fetched(cursor, latest, page) =>
      CoveredStays(w, w', cursor.GetOr(0));
      if page.records == [] {
        CoveredStays(w, w', latest);
      }
    case Done(latest, next) => CoveredStays(w, w', next);
  }

  /** The rounds other than `i` are as well off after a step that leaves them alone. */
  lemma OthersStay(w: World, w': World, i: nat)
    requires Safe(w) && |w'.rounds| == |w.rounds|
    requires forall j | 0 <= j < |w.rounds| && j != i :: w'.rounds[j] == w.rounds[j]
    requires w.delivered <= w'.delivered
    requires (w'.rows == w.rows && w'.counter == w.counter) || Writes(w.rows, w.counter, w'.rows, w'.counter)
    ensures forall j | 0 <= j < |w'.rounds| && j != i :: PhaseOk(w', w'.rounds[j])
  {
    forall j | 0 <= j < |w'.rounds| && j != i ensures PhaseOk(w', w'.rounds[j]) {
      PhaseStays(w, w', w.rounds[j]);
    }
  }

  lemma FetchedOk(w: World, cursor: Option<nat>, latest: nat, limit: nat, maxBytes: nat, page: SyncPage)
    requires Sequenced(w.rows, w.counter)
    requires PhaseOk(w, Paging(cursor, latest)) && limit >= 1
    requires IsPage(w.rows, cursor.GetOr(0), limit, maxBytes, page)
    ensures PhaseOk(w, Fetched(cursor, latest, page))
  {
    var c := cursor.GetOr(0);
    PageMakesProgress(w.rows, c, limit, maxBytes, page);
    if page.records != [] {
      forall h | h in w.rows && c < w.rows[h].syncSeq <= page.nextCursor.value
        ensures ToRecord(h, w.rows[h]) in page.records
      {
        PageCoversItsRange(w.rows, c, limit, maxBytes, page, h);
      }
    }
  }

  lemma SummaryKeepsSafe(w: World, i: nat, w': World)
    requires Safe(w) && Next(w, ReadSummary(i), w')
    ensures Safe(w')
  {
    OthersStay(w, w', i);
  }

  lemma FetchKeepsSafe(w: World, i: nat, limit: nat, maxBytes: nat, page: SyncPage, w': World)
    requires Safe(w) && Next(w, FetchPage(i, limit, maxBytes, page), w')
    ensures Safe(w')
  {
    OthersStay(w, w', i);
    FetchedOk(w, w.rounds[i].cursor, w.rounds[i].latest, limit, maxBytes, page);
    PhaseStays(w, w', Fetched(w.rounds[i].cursor, w.rounds[i].latest, page));
  }

  lemma IngestKeepsSafe(w: World, i: nat, gained: set<string>, w': World)
    requires Safe(w) && Next(w, CompleteIngest(i, gained), w')
    ensures Safe(w')
  {
    OthersStay(w, w', i);
    var r := w.rounds[i];
    assert PhaseOk(w, r);
    assert forall x | x in r.page.records :: x in w'.delivered;
    assert Covered(w', r.cursor.GetOr(0));
    assert Covered(w', r.page.nextCursor.value);
  }

  lemma ReadMarkKeepsSafe(w: World, i: nat, w': World)
    requires Safe(w) && Next(w, ReadMark(i), w')
    ensures Safe(w')
  {
    OthersStay(w, w', i);
  }

  lemma WritesKeepSafe(w: World, rows: Table, counter: nat, w': World)
    requires Safe(w) && Next(w, PeerWrites(rows, counter), w')
    ensures Safe(w')
  {
    OthersStay(w, w', |w.rounds|);
    CoveredStays(w, w', w.watermark.GetOr(0));
  }

  lemma GainsKeepSafe(w: World, more: set<string>, w': World)
    requires Safe(w) && Next(w, PullerGains(more), w')
    ensures Safe(w')
  {
    OthersStay(w, w', |w.rounds|);
  }

  lemma EmptyPageKeepsSafe(w: World, i: nat, w': World)
    requires Safe(w) && Next(w, EndOnEmptyPage(i), w')
    ensures Safe(w')
  {
    OthersStay(w, w', i);
    assert PhaseOk(w, w.rounds[i]);
  }

  lemma StoreMarkKeepsSafe(w: World, i: nat, w': World)
    requires Safe(w) && Next(w, StoreMark(i), w')
    ensures Safe(w')
  {
    OthersStay(w, w', i);
    assert PhaseOk(w, w.rounds[i]);
  }

  lemma GiveUpKeepsSafe(w: World, i: nat, w': World)
    requires Safe(w) && Next(w, GiveUp(i), w')
    ensures Safe(w')
  {
    OthersStay(w, w', i);
  }

  lemma StepKeepsSafe(w: World, s: Step, w': World)
    requires Safe(w) && Next(w, s, w')
    ensures Safe(w')
  {
    match s
    case PeerWrites(rows, counter) => WritesKeepSafe(w, rows, counter, w');
    case PullerGains(more) => GainsKeepSafe(w, more, w');
    case ReadMark(i) => ReadMarkKeepsSafe(w, i, w');
    case ReadSummary(i) => SummaryKeepsSafe(w, i, w');
    case FetchPage(i, limit, maxBytes, page) => FetchKeepsSafe(w, i, limit, maxBytes, page, w');
    case EndOnEmptyPage(i) => EmptyPageKeepsSafe(w, i, w');
    case CompleteIngest(i, gained) => IngestKeepsSafe(w, i, gained, w');
    case StoreMark(i) => StoreMarkKeepsSafe(w, i, w');
    case GiveUp(i) => GiveUpKeepsSafe(w, i, w');
  }

  ghost predicate SafeSteps(ws: seq<World>) {
    forall k | 0 <= k < |ws| - 1 :: Safe(ws[k]) ==> Safe(ws[k + 1])
  }

  lemma RunSafeSteps(ws: seq<World>, steps: seq<Step>)
    requires IsRun(ws, steps)
    ensures SafeSteps(ws)
  {
    forall k | 0 <= k < |ws| - 1 && Safe(ws[k]) ensures Safe(ws[k + 1]) {
      StepKeepsSafe(ws[k], steps[k], ws[k + 1]);
    }
  }

  lemma {:induction false} SafeThroughout(ws: seq<World>, k: nat)
    requires k < |ws| && Safe(ws[0]) && SafeSteps(ws)
    ensures Safe(ws[k])
    decreases k
  {
    if k > 0 {
      SafeThroughout(ws, k - 1);
      assert Safe(ws[k - 1]) ==> Safe(ws[k - 1 + 1]);
    }
  }

  lemma RunIsSafe(ws: seq<World>, steps: seq<Step>, k: nat)
    requires IsRun(ws, steps) && k < |ws|
    ensures Safe(ws[k])
  {
    RunSafeSteps(ws, steps);
    SafeThroughout(ws, k);
  }

  /** Main result. In every state of every run, whatever the peer writes or deletes in between and
      however many rounds overlap: every row now on the peer at or below the stored watermark was
      delivered to a completed ingest with exactly the certificate, zone and numbers it has now. */
  lemma WatermarkSafety(ws: seq<World>, steps: seq<Step>, k: nat, h: string)
    requires IsRun(ws, steps) && k < |ws|
    requires h in ws[k].rows && ws[k].rows[h].syncSeq <= ws[k].watermark.GetOr(0)
    ensures ToRecord(h, ws[k].rows[h]) in ws[k].delivered
    ensures var row := ws[k].rows[h];
      exists x :: x in ws[k].delivered && x.handle == h && x.cert == row.cert && x.zone == row.zone
        && x.epochHeight == row.epochHeight && x.offchainSeq == row.offchainSeq && x.delegateSeq == row.delegateSeq
  {
    RunIsSafe(ws, steps, k);
    assert ToRecord(h, ws[k].rows[h]) in ws[k].delivered;
  }

  lemma NothingServed(limit: nat, maxBytes: nat)
    ensures IsPage(map[], 0, limit, maxBytes, SyncPage([], None))
  {
    ServedAlways(map[], 0);
    assert After(map[], 0) == [];
    assert Main(map[], 0, limit, maxBytes) == [];
    assert IsPageWith(map[], 0, limit, maxBytes, SyncPage([], None), []);
  }

  // Two overlapping rounds against a peer whose rows are all gone, ten worlds in all.
  const EMPTY_PAGE: SyncPage := SyncPage([], None)

  function Overlap(k: nat): World {
    var at := (counter: nat, mark: Option<nat>, a: Phase, b: Phase) => World(map[], counter, mark, [a, b], {}, {});
    match k
    case 0 => at(5, None, Idle, Idle)
    case 1 => at(5, None, Started(None), Idle)
    case 2 => at(5, None, Paging(None, 5), Idle)
    case 3 => at(6, None, Paging(None, 5), Idle)
    case 4 => at(6, None, Paging(None, 5), Started(None))
    case 5 => at(6, None, Paging(None, 5), Paging(None, 6))
    case 6 => at(6, None, Paging(None, 5), Fetched(None, 6, EMPTY_PAGE))
    case 7 => at(6, Some(6), Paging(None, 5), Idle)
    case 8 => at(6, Some(6), Fetched(None, 5, EMPTY_PAGE), Idle)
    case _ => at(6, Some(5), Idle, Idle)
  }

  function OverlapStep(k: nat): Step {
    match k
    case 0 => ReadMark(0)
    case 1 => ReadSummary(0)
    case 2 => PeerWrites(map[], 6)
    case 3 => ReadMark(1)
    case 4 => ReadSummary(1)
    case 5 => FetchPage(1, 1, 0, EMPTY_PAGE)
    case 6 => EndOnEmptyPage(1)
    case 7 => FetchPage(0, 1, 0, EMPTY_PAGE)
    case _ => EndOnEmptyPage(0)
  }

  lemma OverlapBegins(k: nat)
    requires k < 5
    ensures Next(Overlap(k), OverlapStep(k), Overlap(k + 1))
  {
  }

  lemma FetchIsStep(w: World, i: nat, page: SyncPage)
    requires i < |w.rounds| && w.rounds[i].Paging?
    requires IsPage(w.rows, w.rounds[i].cursor.GetOr(0), 1, 0, page)
    ensures Next(w, FetchPage(i, 1, 0, page), Put(w, i, Fetched(w.rounds[i].cursor, w.rounds[i].latest, page)))
  {
  }

  lemma OverlapFetches(k: nat)
    requires k == 5 || k == 7
    ensures Next(Overlap(k), OverlapStep(k), Overlap(k + 1))
  {
    var i := if k == 5 then 1 else 0;
    NothingServed(1, 0);
    FetchIsStep(Overlap(k), i, EMPTY_PAGE);
  }

  lemma OverlapEnds(k: nat)
    requires k == 6 || k == 8
    ensures Next(Overlap(k), OverlapStep(k), Overlap(k + 1))
  {
  }

  /** Idle rounds beside it do not change what a step does. */
  function Beside(w: World, idle: nat): World {
    w.(rounds := w.rounds + seq(idle, _ => Idle))
  }

  lemma PutBeside(w: World, i: nat, p: Phase, idle: nat)
    requires i < |w.rounds|
    ensures Put(Beside(w, idle), i, p) == Beside(Put(w, i, p), idle)
  {
    assert (w.rounds + seq(idle, _ => Idle))[i := p] == w.rounds[i := p] + seq(idle, _ => Idle);
  }

  lemma OverlapBeside(k: nat, idle: nat)
    requires k < 9
    ensures Next(Beside(Overlap(k), idle), OverlapStep(k), Beside(Overlap(k + 1), idle))
  {
    var i := if k == 3 || k == 4 || k == 5 || k == 6 then 1 else 0;
    if k < 5 { OverlapBegins(k); } else if k == 5 || k == 7 { OverlapFetches(k); } else { OverlapEnds(k); }
    PutBeside(Overlap(k), i, Overlap(k + 1).rounds[i], idle);
  }

  lemma MarkFallsBeside(idle: nat) returns (ws: seq<World>, steps: seq<Step>)
    ensures IsRun(ws, steps) && |ws[0].rounds| == 2 + idle
    ensures !MarkRises(ws)
  {
    ws, steps := seq(10, k requires 0 <= k => Beside(Overlap(k), idle)), seq(9, k requires 0 <= k => OverlapStep(k));
    forall k | 0 <= k < 9 ensures Next(ws[k], steps[k], ws[k + 1]) {
      OverlapBeside(k, idle);
    }
    assert ws[7].watermark == Some(6) && ws[9].watermark == Some(5);
  }

  // ---- when the watermark only goes up -------------------------------------------------------------

  ghost predicate MarkRises(ws: seq<World>) {
    forall j, k | 0 <= j < k < |ws| :: ws[j].watermark.GetOr(0) <= ws[k].watermark.GetOr(0)
  }

  /** What a round that is alone knows of the watermark. */
  predicate Alone(mark: Option<nat>, p: Phase) {
    match p
    case Idle => true
    case Started(m) => m == mark
    case Paging(cursor, latest) => cursor == mark && cursor.GetOr(0) < latest
    case Fetched(cursor, latest, _) => cursor == mark && cursor.GetOr(0) < latest
    case Done(latest, next) => mark.GetOr(0) < latest && mark.GetOr(0) <= next
  }

  ghost predicate AtMostOne(w: World) {
    |w.rounds| <= 1 && forall i | 0 <= i < |w.rounds| :: Alone(w.watermark, w.rounds[i])
  }

  lemma AloneStep(w: World, s: Step, w': World)
    requires Safe(w) && AtMostOne(w) && Next(w, s, w')
    ensures AtMostOne(w') && w.watermark.GetOr(0) <= w'.watermark.GetOr(0)
  {
    if s.ReadSummary? {
      assert PhaseOk(w, w.rounds[s.i]);
    }
  }

  lemma AloneSteps(ws: seq<World>, steps: seq<Step>, k: nat)
    requires IsRun(ws, steps) && k < |steps| && AtMostOne(ws[k])
    ensures AtMostOne(ws[k + 1]) && ws[k].watermark.GetOr(0) <= ws[k + 1].watermark.GetOr(0)
  {
    RunIsSafe(ws, steps, k);
    AloneStep(ws[k], steps[k], ws[k + 1]);
  }

  lemma {:induction false} AloneThroughout(ws: seq<World>, steps: seq<Step>, j: nat, k: nat)
    requires IsRun(ws, steps) && j <= k < |ws| && |ws[0].rounds| <= 1
    ensures AtMostOne(ws[k]) && ws[j].watermark.GetOr(0) <= ws[k].watermark.GetOr(0)
    decreases k
  {
    if j < k {
      AloneThroughout(ws, steps, j, k - 1);
      AloneSteps(ws, steps, k - 1);
    } else if k > 0 {
      AloneThroughout(ws, steps, k - 1, k - 1);
      AloneSteps(ws, steps, k - 1);
    }
  }

  /** The watermark goes up in every run with this many rounds against the peer. */
  ghost predicate AlwaysRises(n: nat) {
    forall ws: seq<World>, steps: seq<Step> | IsRun(ws, steps) && |ws[0].rounds| == n :: MarkRises(ws)
  }

  /** Main result. The watermark never goes down, in any run, if and only if at most one round at a time
      runs against the peer. With two, the one that read the older summary may store its watermark last;
      safety does not depend on it. */
  lemma RisesIffOneRound(n: nat)
    ensures AlwaysRises(n) <==> n <= 1
  {
    if n <= 1 {
      forall ws: seq<World>, steps: seq<Step> | IsRun(ws, steps) && |ws[0].rounds| == n ensures MarkRises(ws) {
        forall j, k | 0 <= j < k < |ws| ensures ws[j].watermark.GetOr(0) <= ws[k].watermark.GetOr(0) {
          AloneThroughout(ws, steps, j, k);
        }
      }
    } else {
      var ws, steps := MarkFallsBeside(n - 2);
    }
  }

  /** Against an honest peer a round never takes its cursor space for reset: the watermark it started
      from is never above what the peer advertises later. */
  lemma HonestPeerNeverResets(ws: seq<World>, steps: seq<Step>, k: nat, i: nat)
    requires IsRun(ws, steps) && k < |ws|
    requires i < |ws[k].rounds| && ws[k].rounds[i].Started?
    ensures P.OnSummary(ws[k].rounds[i].mark, Advertised(ws[k].counter)) != P.Reset
  {
    RunIsSafe(ws, steps, k);
    assert PhaseOk(ws[k], ws[k].rounds[i]);
  }

  // ---- no sub-handle arrives without its root ------------------------------------------------------

  /** The peer holds the root of everything it stores. */
  ghost predicate RootClosed(t: Table) {
    forall h | h in t :: SpaceName(h) in t
  }

  /** The puller accepted, or already held, every root delivered to a completed ingest. */
  ghost predicate RootsAccepted(w: World) {
    forall x | x in w.delivered && IsRoot(x.handle) :: x.handle in w.roots
  }

  /** Each sub-handle of the page has its root on the page or at the puller. */
  ghost predicate PageRooted(page: SyncPage, roots: set<string>) {
    forall x | x in page.records && !IsRoot(x.handle) :: FindsRoot(page, roots, x)
  }

  /** `x` finds its root in `roots` or on the page. */
  ghost predicate FindsRoot(page: SyncPage, roots: set<string>, x: SyncRecord) {
    SpaceName(x.handle) in roots || exists r :: r in page.records && r.handle == SpaceName(x.handle)
  }

  lemma SubFindsRoot(w: World, c: nat, limit: nat, maxBytes: nat, page: SyncPage, x: SyncRecord)
    requires IsPage(w.rows, c, limit, maxBytes, page)
    requires Covered(w, c) && RootClosed(w.rows) && RootsAccepted(w)
    requires x in page.records && !IsRoot(x.handle)
    ensures FindsRoot(page, w.roots, x)
  {
    PageHasNoRepeats(w.rows, c, limit, maxBytes, page);
    var root := SpaceName(x.handle);
    SpaceNameIsRoot(x.handle);
    assert root in w.rows;
    var r := ToRecord(root, w.rows[root]);
    if w.rows[root].syncSeq > c {
      PageIsRootClosed(w.rows, c, limit, maxBytes, page, x);
    } else {
      assert r in w.delivered && r.handle == root;
    }
  }

  lemma FetchedIsRooted(w: World, c: nat, limit: nat, maxBytes: nat, page: SyncPage)
    requires IsPage(w.rows, c, limit, maxBytes, page)
    requires Covered(w, c) && RootClosed(w.rows) && RootsAccepted(w)
    ensures PageRooted(page, w.roots)
  {
    forall x | x in page.records && !IsRoot(x.handle) ensures FindsRoot(page, w.roots, x) {
      SubFindsRoot(w, c, limit, maxBytes, page, x);
    }
  }

  ghost predicate AllRooted(w: World) {
    forall i | 0 <= i < |w.rounds| && w.rounds[i].Fetched? :: PageRooted(w.rounds[i].page, w.roots)
  }

  lemma FetchServes(w: World, i: nat, limit: nat, maxBytes: nat, page: SyncPage, w': World)
    requires Safe(w) && Next(w, FetchPage(i, limit, maxBytes, page), w')
    ensures InRound(w, i) && w.rounds[i].Paging?
    ensures IsPage(w.rows, w.rounds[i].cursor.GetOr(0), limit, maxBytes, page)
    ensures Covered(w, w.rounds[i].cursor.GetOr(0))
  {
    assert PhaseOk(w, w.rounds[i]);
  }

  lemma FetchIsRooted(w: World, i: nat, limit: nat, maxBytes: nat, page: SyncPage, w': World)
    requires Safe(w) && Next(w, FetchPage(i, limit, maxBytes, page), w')
    requires RootClosed(w.rows) && RootsAccepted(w)
    ensures PageRooted(page, w.roots)
  {
    FetchServes(w, i, limit, maxBytes, page, w');
    FetchedIsRooted(w, w.rounds[i].cursor.GetOr(0), limit, maxBytes, page);
  }

  /** What a page finds, it still finds when the puller holds more roots. */
  lemma RootedStays(page: SyncPage, roots: set<string>, more: set<string>)
    requires PageRooted(page, roots) && roots <= more
    ensures PageRooted(page, more)
  {
    forall x | x in page.records && !IsRoot(x.handle) ensures FindsRoot(page, more, x) {
      assert FindsRoot(page, roots, x);
    }
  }

  lemma StepKeepsRounds(w: World, s: Step, w': World)
    requires Next(w, s, w')
    ensures w.roots <= w'.roots
    ensures forall i | 0 <= i < |w'.rounds| && w'.rounds[i].Fetched? ::
      i < |w.rounds| && (w'.rounds[i] == w.rounds[i] || (s.FetchPage? && s.page == w'.rounds[i].page))
  {
  }

  lemma StepKeepsRooted(w: World, s: Step, w': World)
    requires Safe(w) && AllRooted(w) && Next(w, s, w')
    requires RootClosed(w.rows) && RootsAccepted(w)
    ensures AllRooted(w')
  {
    if s.FetchPage? {
      FetchIsRooted(w, s.i, s.limit, s.maxBytes, s.page, w');
    }
    StepKeepsRounds(w, s, w');
    forall i | 0 <= i < |w'.rounds| && w'.rounds[i].Fetched? ensures PageRooted(w'.rounds[i].page, w'.roots) {
      RootedStays(w'.rounds[i].page, w.roots, w'.roots);
    }
  }

  ghost predicate RootedSteps(ws: seq<World>) {
    forall k | 0 <= k < |ws| - 1 :: AllRooted(ws[k]) ==> AllRooted(ws[k + 1])
  }

  lemma RunRootedSteps(ws: seq<World>, steps: seq<Step>)
    requires IsRun(ws, steps)
    requires forall j | 0 <= j < |ws| :: RootClosed(ws[j].rows) && RootsAccepted(ws[j])
    ensures RootedSteps(ws)
  {
    forall k | 0 <= k < |ws| - 1 && AllRooted(ws[k]) ensures AllRooted(ws[k + 1]) {
      RunIsSafe(ws, steps, k);
      StepKeepsRooted(ws[k], steps[k], ws[k + 1]);
    }
  }

  lemma {:induction false} RootedThroughout(ws: seq<World>, k: nat)
    requires k < |ws| && AllRooted(ws[0]) && RootedSteps(ws)
    ensures AllRooted(ws[k])
    decreases k
  {
    if k > 0 {
      RootedThroughout(ws, k - 1);
      assert AllRooted(ws[k - 1]) ==> AllRooted(ws[k - 1 + 1]);
    }
  }

  /** Main result. If the peer always holds the root of what it stores (roots may be republished at
      any time) and the puller accepts every root it completes an ingest of, then whenever a page is
      about to be ingested, in any run, each of its sub-handles finds its root on the page or in the
      puller's own store. `Ingest.RootedBatchFindsRoots` turns this into: the branch that gives up on
      a space for want of a root is not taken. */
  lemma NoOrphans(ws: seq<World>, steps: seq<Step>, k: nat)
    requires IsRun(ws, steps) && k < |ws|
    requires forall j | 0 <= j < |ws| :: RootClosed(ws[j].rows) && RootsAccepted(ws[j])
    ensures AllRooted(ws[k])
  {
    RunRootedSteps(ws, steps);
    RootedThroughout(ws, k);
  }

  // ---- the store's operations are the peer's steps -------------------------------------------------

  /** Any run of bulk updates and evictions of a store is a step the peer may take, so the results
      above hold of a peer whose table changes only through these operations. */
  lemma StoreRunsArePeerWrites(codec: U.Codec, db: A.Db, ops: seq<Op>)
    requires U.Faithful(codec) && ColumnsAgree(codec, db.rows) && AllDerived(ops)
    requires Sequenced(db.rows, db.counter)
    ensures Writes(db.rows, db.counter, Run(codec, db, ops).rows, Run(codec, db, ops).counter)
    ensures SpacesAgree(Run(codec, db, ops).rows)
  {
    SequenceDiscipline(codec, db, ops);
    ColumnsAgreeOverRuns(codec, db, ops);
  }
}
