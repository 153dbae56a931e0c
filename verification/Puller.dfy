/** The decisions of one sync round (`sync_with_peer`), and the round as a whole against an arbitrary
    peer: what the peer answers and how each ingest ends are parameters. */
module Puller {
  import opened Names
  import opened Tables
  import opened Pages

  /** `SyncIngest`. */
  datatype SyncIngest = SyncIngest(
    stored: nat, prefiltered: nat, failedSpaces: nat, gated: nat, incomplete: bool)

  /** `Aborted` is the error return: undecodable records or an infrastructure failure. */
  datatype IngestResult = Aborted | Ingested(stats: SyncIngest)

  /** What a page costs an ingest: how many of its spaces fail, and how many do not. */
  datatype Cost = Cost(failing: nat, others: nat)

  /** What an ingest of a page of this cost may return under a failed-space budget. The spaces are visited
      in no particular order, and a space that fails is only counted once it is visited. */
  ghost predicate IngestMay(cost: Cost, budget: nat, r: IngestResult) {
    && r.Ingested?
    && r.stats.failedSpaces == (if cost.failing < budget then cost.failing else budget)
    && (r.stats.incomplete ==> cost.failing >= budget && cost.failing + cost.others > budget)
    && (!r.stats.incomplete ==> cost.failing <= budget)
  }

  datatype SummaryStep = NothingNew | Reset | Pull(latest: nat)

  /** What a round does with the advertised cursor. */
  function OnSummary(mark: Option<nat>, advertised: Option<nat>): SummaryStep {
    match (mark, advertised)
    case (_, None) => NothingNew
    case (Some(m), Some(latest)) =>
      if latest < m then Reset else if latest == m then NothingNew else Pull(latest)
    case (None, Some(latest)) => Pull(latest)
  }

  datatype PageStep = CatchUp(move: bool) | Refuse | Process(next: nat)

  /** What a round does with a page. A missing, unreadable or non-advancing cursor is refused. */
  function OnPage(cursor: Option<nat>, latest: nat, page: SyncPage): PageStep {
    if page.records == [] then CatchUp(cursor.GetOr(0) < latest)
    else
      match page.nextCursor
      case None => Refuse
      case Some(next) => if cursor.Some? && next <= cursor.value then Refuse else Process(next)
  }

  /** `next_cursor.min(latest)`. */
  function Clamp(next: nat, latest: nat): nat {
    if next < latest then next else latest
  }

  const MAX_FAILED_SPACES_PER_ROUND: nat := 32

  /** The failed-space budget of the next page. */
  function Remaining(failed: nat): (budget: nat)
    ensures failed <= MAX_FAILED_SPACES_PER_ROUND ==> failed + budget == MAX_FAILED_SPACES_PER_ROUND + 1
  {
    (if failed <= MAX_FAILED_SPACES_PER_ROUND then MAX_FAILED_SPACES_PER_ROUND - failed else 0) + 1
  }

  /** The answer to one page request: no usable body, or a page and the way its ingest ends under a
      given failed-space budget. */
  datatype Reply = NoBody | Body(page: SyncPage, ingest: nat -> IngestResult)

  datatype RoundTotals = RoundTotals(stored: nat, prefiltered: nat, failedSpaces: nat)

  function Add(t: RoundTotals, s: SyncIngest): RoundTotals {
    RoundTotals(t.stored + s.stored, t.prefiltered + s.prefiltered, t.failedSpaces + s.failedSpaces)
  }

  /** How a round ends: the watermark it leaves, what it counted, and whether it ended in an error. */
  datatype Outcome = Outcome(mark: Option<nat>, totals: RoundTotals, ok: bool)

  /** The page loop from page `k` on. `mark` is the watermark stored so far. */
  function PullPages(replies: nat -> Reply, k: nat, maxPages: nat, cursor: Option<nat>, latest: nat,
                     mark: Option<nat>, totals: RoundTotals): Outcome
    decreases maxPages - k
  {
    if k >= maxPages then Outcome(mark, totals, true)
    else
      match replies(k)
      case NoBody => Outcome(mark, totals, false)
      case Body(page, ingest) =>
        match OnPage(cursor, latest, page)
        case CatchUp(move) => Outcome(if move then Some(latest) else mark, totals, true)
        case Refuse => Outcome(mark, totals, false)
        case Process(next) =>
          match ingest(Remaining(totals.failedSpaces))
          case Aborted => Outcome(mark, totals, false)
          case Ingested(stats) =>
            var sum := Add(totals, stats);
            if stats.incomplete then Outcome(mark, sum, false)
            else
              var moved := Some(Clamp(next, latest));
              if next >= latest || sum.failedSpaces > MAX_FAILED_SPACES_PER_ROUND
              then Outcome(moved, sum, true)
              else PullPages(replies, k + 1, maxPages, Some(next), latest, moved, sum)
  }

  function SyncRound(mark: Option<nat>, advertised: Option<nat>, replies: nat -> Reply, maxPages: nat): Outcome {
    match OnSummary(mark, advertised)
    case NothingNew => Outcome(mark, RoundTotals(0, 0, 0), true)
    case Reset => Outcome(Some(0), RoundTotals(0, 0, 0), true)
    case Pull(latest) => PullPages(replies, 0, maxPages, mark, latest, mark, RoundTotals(0, 0, 0))
  }

  /** The records of the pages that the page loop, from page `k` on, ingests to the end. */
  function Taken(replies: nat -> Reply, k: nat, maxPages: nat, cursor: Option<nat>, latest: nat, totals: RoundTotals)
    : set<SyncRecord>
    decreases maxPages - k
  {
    if k >= maxPages || replies(k).NoBody? then {}
    else
      match OnPage(cursor, latest, replies(k).page)
      case CatchUp(_) => {}
      case Refuse => {}
      case Process(next) =>
        match replies(k).ingest(Remaining(totals.failedSpaces))
        case Aborted => {}
        case Ingested(stats) =>
          var sum := Add(totals, stats);
          if stats.incomplete then {}
          else
            (set x | x in replies(k).page.records)
              + if next >= latest || sum.failedSpaces > MAX_FAILED_SPACES_PER_ROUND then {}
                else Taken(replies, k + 1, maxPages, Some(next), latest, sum)
  }

  /** The records of the pages that a round ingests to the end. */
  function TakenInRound(mark: Option<nat>, advertised: Option<nat>, replies: nat -> Reply, maxPages: nat)
    : set<SyncRecord>
  {
    match OnSummary(mark, advertised)
    case NothingNew => {}
    case Reset => {}
    case Pull(latest) => Taken(replies, 0, maxPages, mark, latest, RoundTotals(0, 0, 0))
  }

  // ---- against an arbitrary peer -------------------------------------------------------------------

  /** What `ingest_sync_records` promises about its budget. */
  ghost predicate KeepsBudget(replies: nat -> Reply) {
    forall k, budget | replies(k).Body? && replies(k).ingest(budget).Ingested? ::
      replies(k).ingest(budget).stats.failedSpaces <= budget
  }

  lemma {:induction false} BoundedPages(replies: nat -> Reply, k: nat, maxPages: nat, cursor: Option<nat>,
                                        latest: nat, mark: Option<nat>, totals: RoundTotals)
    requires KeepsBudget(replies) && totals.failedSpaces <= MAX_FAILED_SPACES_PER_ROUND
    ensures PullPages(replies, k, maxPages, cursor, latest, mark, totals).totals.failedSpaces
         <= MAX_FAILED_SPACES_PER_ROUND + 1
    decreases maxPages - k
  {
    if k < maxPages && replies(k).Body? && OnPage(cursor, latest, replies(k).page).Process? {
      var next := OnPage(cursor, latest, replies(k).page).next;
      var result := replies(k).ingest(Remaining(totals.failedSpaces));
      if result.Ingested? {
        var sum := Add(totals, result.stats);
        if !result.stats.incomplete && sum.failedSpaces <= MAX_FAILED_SPACES_PER_ROUND {
          BoundedPages(replies, k + 1, maxPages, Some(next), latest, Some(Clamp(next, latest)), sum);
        }
      }
    }
  }

  /** Main result. Whatever a peer serves, one round pays for at most one failed space more than the
      round's budget. */
  lemma BoundedFailures(mark: Option<nat>, advertised: Option<nat>, replies: nat -> Reply, maxPages: nat)
    requires KeepsBudget(replies)
    ensures SyncRound(mark, advertised, replies, maxPages).totals.failedSpaces <= MAX_FAILED_SPACES_PER_ROUND + 1
  {
    match OnSummary(mark, advertised)
    case Pull(latest) => BoundedPages(replies, 0, maxPages, mark, latest, mark, RoundTotals(0, 0, 0));
    case _ =>
  }

  /** Page `i` was fetched at a cursor it advances, and its ingest under `budget` was complete. */
  ghost predicate FullyProcessed(replies: nat -> Reply, i: nat, cursor: Option<nat>, next: nat, budget: nat) {
    && replies(i).Body?
    && replies(i).page.records != [] && replies(i).page.nextCursor == Some(next)
    && (cursor.Some? ==> cursor.value < next)
    && replies(i).ingest(budget).Ingested? && !replies(i).ingest(budget).stats.incomplete
  }

  /** `cursors[i]` is where page `k + i` was requested. Every page but the last was fully processed, under
      the failed-space budget that the failures counted before it left, and led to the next cursor. */
  ghost predicate Processed(replies: nat -> Reply, k: nat, cursors: seq<Option<nat>>, totals: RoundTotals)
    decreases |cursors|
  {
    && |cursors| >= 1
    && (|cursors| > 1 ==>
          && cursors[1].Some?
          && FullyProcessed(replies, k, cursors[0], cursors[1].value, Remaining(totals.failedSpaces))
          && Processed(replies, k + 1, cursors[1..],
                       Add(totals, replies(k).ingest(Remaining(totals.failedSpaces)).stats)))
  }

  /** The watermark `mark'` is accounted for by these cursors: it is the old one and no page was
      completed, or it is the clamped cursor that the last completed page led to, or an empty page
      showed that nothing is left below the advertised cursor. */
  ghost predicate Justified(replies: nat -> Reply, k: nat, cursors: seq<Option<nat>>, totals: RoundTotals, latest: nat,
                            mark: Option<nat>, mark': Option<nat>) {
    && Processed(replies, k, cursors, totals)
    && var last := cursors[|cursors| - 1];
       || (|cursors| == 1 && mark' == mark)
       || (|cursors| > 1 && last.Some? && mark' == Some(Clamp(last.value, latest)))
       || (mark' == Some(latest) && last.GetOr(0) < latest
           && replies(k + |cursors| - 1).Body? && replies(k + |cursors| - 1).page.records == [])
  }

  lemma JustifiedCons(replies: nat -> Reply, k: nat, cursor: Option<nat>, next: nat, rest: seq<Option<nat>>,
                      totals: RoundTotals, latest: nat, mark: Option<nat>, mark': Option<nat>)
    requires FullyProcessed(replies, k, cursor, next, Remaining(totals.failedSpaces))
    requires |rest| >= 1 && rest[0] == Some(next)
    requires Justified(replies, k + 1, rest, Add(totals, replies(k).ingest(Remaining(totals.failedSpaces)).stats),
                       latest, Some(Clamp(next, latest)), mark')
    ensures Justified(replies, k, [cursor] + rest, totals, latest, mark, mark')
  {
    assert ([cursor] + rest)[1..] == rest;
  }

  lemma {:induction false} PagesJustified(replies: nat -> Reply, k: nat, maxPages: nat, cursor: Option<nat>,
                                          latest: nat, mark: Option<nat>, totals: RoundTotals)
    returns (cursors: seq<Option<nat>>)
    ensures |cursors| >= 1 && cursors[0] == cursor
    ensures Justified(replies, k, cursors, totals, latest, mark,
                      PullPages(replies, k, maxPages, cursor, latest, mark, totals).mark)
    decreases maxPages - k
  {
    cursors := [cursor];
    if k < maxPages && replies(k).Body? && OnPage(cursor, latest, replies(k).page).Process? {
      var next := OnPage(cursor, latest, replies(k).page).next;
      var result := replies(k).ingest(Remaining(totals.failedSpaces));
      if result.Ingested? && !result.stats.incomplete {
        var sum := Add(totals, result.stats);
        var moved := Some(Clamp(next, latest));
        var rest := [Some(next)];
        if next < latest && sum.failedSpaces <= MAX_FAILED_SPACES_PER_ROUND {
          rest := PagesJustified(replies, k + 1, maxPages, Some(next), latest, moved, sum);
        } else {
          assert Justified(replies, k + 1, rest, sum, latest, moved, moved);
        }
        JustifiedCons(replies, k, cursor, next, rest, totals, latest, mark,
                      PullPages(replies, k, maxPages, cursor, latest, mark, totals).mark);
        cursors := [cursor] + rest;
      }
    }
  }

  /** Main result. Whatever a peer serves, a page whose ingest was aborted or incomplete never moves
      the watermark: where the round leaves it is accounted for by an unbroken run of fully processed
      pages from the cursor the round began with, and is never past the advertised cursor. */
  lemma WatermarkJustified(mark: Option<nat>, latest: nat, replies: nat -> Reply, maxPages: nat)
    returns (cursors: seq<Option<nat>>)
    requires OnSummary(mark, Some(latest)) == Pull(latest)
    ensures |cursors| >= 1 && cursors[0] == mark
    ensures Justified(replies, 0, cursors, RoundTotals(0, 0, 0), latest, mark,
                      SyncRound(mark, Some(latest), replies, maxPages).mark)
    ensures SyncRound(mark, Some(latest), replies, maxPages).mark.GetOr(0) <= latest
  {
    cursors := PagesJustified(replies, 0, maxPages, mark, latest, mark, RoundTotals(0, 0, 0));
  }

  /** Whatever a round takes was on one of the pages it may request, and that page was ingested to the end
      under a budget of one to 33 failed spaces. */
  lemma {:induction false} TakenIsIngested(replies: nat -> Reply, k: nat, maxPages: nat, cursor: Option<nat>,
                                           latest: nat, totals: RoundTotals, x: SyncRecord)
    returns (j: nat, budget: nat)
    requires x in Taken(replies, k, maxPages, cursor, latest, totals)
    ensures k <= j < maxPages && replies(j).Body? && x in replies(j).page.records
    ensures 1 <= budget <= 33
    ensures replies(j).ingest(budget).Ingested? && !replies(j).ingest(budget).stats.incomplete
    decreases maxPages - k
  {
    j, budget := k, Remaining(totals.failedSpaces);
    if x !in replies(k).page.records {
      var next := OnPage(cursor, latest, replies(k).page).next;
      var sum := Add(totals, replies(k).ingest(Remaining(totals.failedSpaces)).stats);
      j, budget := TakenIsIngested(replies, k + 1, maxPages, Some(next), latest, sum, x);
    }
  }
}
