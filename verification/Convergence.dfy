/** Repeated rounds against a peer that does not change: whether they reach the cursor it advertises, and
    what following its pages delivers. */
module Convergence {
  import opened Names
  import opened Sets
  import opened Tables
  import opened Pages
  import opened Puller

  // ---- the pages of an unchanging peer -------------------------------------------------------------

  /** The cursor a page leads to; `None` when nothing lies past `c`. */
  ghost function NextOf(t: Table, c: nat, limit: nat, maxBytes: nat): Option<nat>
    requires Served(t, c)
  {
    var main := Main(t, c, limit, maxBytes);
    if main == [] then None else Some(LastSeq(t, main, c))
  }

  ghost function ListOf(s: set<string>): (list: seq<string>)
    ensures Lists(list, s)
  {
    if s == {} then []
    else
      var h :| h in s;
      ListOf(s - {h}) + [h]
  }

  /** An answer to any request exists. */
  ghost function PageOf(t: Table, c: nat, limit: nat, maxBytes: nat): (page: SyncPage)
    requires Distinct(t) && SpacesAgree(t)
    ensures IsPage(t, c, limit, maxBytes, page)
  {
    ServedAlways(t, c);
    var main := Main(t, c, limit, maxBytes);
    Members(After(t, c), main);
    var extra := ListOf(LateRoots(t, main, c));
    var page := SyncPage(Records(t, main + extra), NextOf(t, c, limit, maxBytes));
    assert IsPageWith(t, c, limit, maxBytes, page, extra);
    page
  }

  lemma BeyondShrinks(t: Table, c: nat, h: string)
    requires h in Beyond(t, c)
    ensures |Beyond(t, t[h].syncSeq)| < |Beyond(t, c)|
  {
    assert h !in Beyond(t, t[h].syncSeq);
    SubsetSize(Beyond(t, t[h].syncSeq), Beyond(t, c));
  }

  /** A page is empty only when nothing lies ahead, and otherwise leads to a row. */
  lemma PageLeads(t: Table, c: nat, limit: nat, maxBytes: nat, page: SyncPage)
    requires IsPage(t, c, limit, maxBytes, page) && limit >= 1
    ensures page.nextCursor == NextOf(t, c, limit, maxBytes)
    ensures page.records == [] <==> Beyond(t, c) == {}
    ensures page.nextCursor.Some? <==> Beyond(t, c) != {}
    ensures page.nextCursor.Some? ==>
      c < page.nextCursor.value && |Beyond(t, page.nextCursor.value)| < |Beyond(t, c)|
  {
    PageMakesProgress(t, c, limit, maxBytes, page);
    if page.records != [] {
      var h :| h in t && t[h].syncSeq == page.nextCursor.value > c;
      BeyondShrinks(t, c, h);
    } else {
      assert forall h | h in t :: h !in Beyond(t, c);
    }
  }

  lemma NextShrinks(t: Table, c: nat, limit: nat, maxBytes: nat)
    requires Distinct(t) && SpacesAgree(t) && limit >= 1
    ensures Served(t, c)
    ensures NextOf(t, c, limit, maxBytes).Some? ==>
      var next := NextOf(t, c, limit, maxBytes).value;
      c < next && |Beyond(t, next)| < |Beyond(t, c)|
  {
    PageLeads(t, c, limit, maxBytes, PageOf(t, c, limit, maxBytes));
  }

  // ---- one round -----------------------------------------------------------------------------------

  /** The budget of the first page of a round. */
  const FRESH: nat := MAX_FAILED_SPACES_PER_ROUND + 1

  /** A page that no ingest with a fresh budget can leave incomplete: too few of its spaces fail, or it has
      too few spaces. */
  predicate Gentle(cost: Cost) {
    cost.failing < 33 || cost.failing + cost.others <= 33
  }

  /** `reply` serves the page at `c`, and its ingest ends as a page of this cost may. */
  ghost predicate Gets(t: Table, c: nat, limit: nat, maxBytes: nat, cost: Cost, reply: Reply) {
    && reply.Body?
    && IsPage(t, c, limit, maxBytes, reply.page)
    && forall b :: IngestMay(cost, b, reply.ingest(b))
  }

  ghost predicate GetsGently(t: Table, c: nat, limit: nat, maxBytes: nat, reply: Reply) {
    exists cost :: Gets(t, c, limit, maxBytes, cost, reply) && (reply.page.records == [] || Gentle(cost))
  }

  /** The replies of a round, from page `k` on, to which the peer serves its pages and nothing breaks
      down: no page on the way is one that a fresh budget can leave incomplete. The cost of a page may
      differ from round to round. */
  ghost predicate Honest(t: Table, replies: nat -> Reply, k: nat, maxPages: nat, cursor: Option<nat>,
                         latest: nat, limit: nat, maxBytes: nat)
    decreases maxPages - k
  {
    k < maxPages && cursor.GetOr(0) < latest ==>
      && GetsGently(t, cursor.GetOr(0), limit, maxBytes, replies(k))
      && (replies(k).page.nextCursor.Some? ==>
            Honest(t, replies, k + 1, maxPages, replies(k).page.nextCursor, latest, limit, maxBytes))
  }

  /** The same with the cost of the page at each cursor given. With `cut`, a page that a fresh budget can
      leave incomplete is left incomplete by it. */
  ghost predicate Follows(t: Table, costs: nat -> Cost, cut: bool, replies: nat -> Reply, k: nat, maxPages: nat,
                          cursor: Option<nat>, latest: nat, limit: nat, maxBytes: nat)
    decreases maxPages - k
  {
    var c := cursor.GetOr(0);
    k < maxPages && c < latest ==>
      && Gets(t, c, limit, maxBytes, costs(c), replies(k))
      && (cut && !Gentle(costs(c)) ==> replies(k).ingest(FRESH).stats.incomplete)
      && (replies(k).page.nextCursor.Some? ==>
            Follows(t, costs, cut, replies, k + 1, maxPages, replies(k).page.nextCursor, latest, limit, maxBytes))
  }

  lemma PageIsProcessed(t: Table, cursor: Option<nat>, latest: nat, limit: nat, maxBytes: nat, page: SyncPage)
    requires IsPage(t, cursor.GetOr(0), limit, maxBytes, page) && limit >= 1 && cursor.GetOr(0) < latest
    ensures OnPage(cursor, latest, page) ==
      match page.nextCursor
      case None => CatchUp(true)
      case Some(next) => Process(next)
  {
    PageLeads(t, cursor.GetOr(0), limit, maxBytes, page);
  }

  /** What ingesting one page does to the page loop. */
  lemma ProcessStep(replies: nat -> Reply, k: nat, maxPages: nat, cursor: Option<nat>, latest: nat,
                    totals: RoundTotals, next: nat, cost: Cost)
    requires k < maxPages && replies(k).Body? && OnPage(cursor, latest, replies(k).page) == Process(next)
    requires totals.failedSpaces <= MAX_FAILED_SPACES_PER_ROUND
    requires IngestMay(cost, Remaining(totals.failedSpaces), replies(k).ingest(Remaining(totals.failedSpaces)))
    ensures var round := PullPages(replies, k, maxPages, cursor, latest, cursor, totals);
      var stats := replies(k).ingest(Remaining(totals.failedSpaces)).stats;
      var sum := Add(totals, stats);
      && sum.failedSpaces <= FRESH
      && if stats.incomplete then round == Outcome(cursor, sum, false) && sum.failedSpaces == FRESH
         else if next >= latest then round == Outcome(Some(latest), sum, true)
         else if sum.failedSpaces == FRESH then round == Outcome(Some(next), sum, true)
         else round == PullPages(replies, k + 1, maxPages, Some(next), latest, Some(next), sum)
  {
  }

  /** What one page does to the page loop. */
  lemma PageEffect(t: Table, replies: nat -> Reply, k: nat, maxPages: nat, cursor: Option<nat>, latest: nat,
                 totals: RoundTotals, limit: nat, maxBytes: nat, cost: Cost)
    requires Gets(t, cursor.GetOr(0), limit, maxBytes, cost, replies(k)) && limit >= 1 && k < maxPages
    requires cursor.GetOr(0) < latest && totals.failedSpaces <= MAX_FAILED_SPACES_PER_ROUND
    ensures IngestMay(cost, Remaining(totals.failedSpaces), replies(k).ingest(Remaining(totals.failedSpaces)))
    ensures var round := PullPages(replies, k, maxPages, cursor, latest, cursor, totals);
      var stats := replies(k).ingest(Remaining(totals.failedSpaces)).stats;
      var sum := Add(totals, stats);
      match replies(k).page.nextCursor
      case None => round == Outcome(Some(latest), totals, true)
      case Some(next) =>
        && sum.failedSpaces <= FRESH
        && if stats.incomplete then round == Outcome(cursor, sum, false) && sum.failedSpaces == FRESH
           else if next >= latest then round == Outcome(Some(latest), sum, true)
           else if sum.failedSpaces == FRESH then round == Outcome(Some(next), sum, true)
           else round == PullPages(replies, k + 1, maxPages, Some(next), latest, Some(next), sum)
  {
    PageIsProcessed(t, cursor, latest, limit, maxBytes, replies(k).page);
    var budget := Remaining(totals.failedSpaces);
    assert IngestMay(cost, budget, replies(k).ingest(budget));
    if replies(k).page.nextCursor.Some? {
      ProcessStep(replies, k, maxPages, cursor, latest, totals, replies(k).page.nextCursor.value, cost);
    }
  }

  // ---- reaching the advertised cursor --------------------------------------------------------------

  /** What is left to do for a puller at `mark`: the rows still ahead, and one catch-up at the end. A mark
      above the advertised cursor has to be reset first, and then everything is ahead. */
  ghost function Ahead(t: Table, latest: nat, mark: Option<nat>): nat {
    if mark.GetOr(0) > latest then |Beyond(t, 0)| + 2
    else if mark.GetOr(0) == latest then 0
    else |Beyond(t, mark.GetOr(0))| + 1
  }

  /** A gentle page is complete under a fresh budget. */
  lemma FreshIsComplete(cost: Cost, totals: RoundTotals, stats: SyncIngest, reply: Reply)
    requires reply.Body?
    requires IngestMay(cost, Remaining(totals.failedSpaces), reply.ingest(Remaining(totals.failedSpaces)))
    requires Gentle(cost) && stats == reply.ingest(Remaining(totals.failedSpaces)).stats
    ensures totals.failedSpaces == 0 ==> !stats.incomplete
  {
  }

  /** What one page of an honest round does to the page loop. */
  lemma HonestEffect(t: Table, replies: nat -> Reply, k: nat, maxPages: nat, cursor: Option<nat>, latest: nat,
                     totals: RoundTotals, limit: nat, maxBytes: nat)
    requires Honest(t, replies, k, maxPages, cursor, latest, limit, maxBytes) && limit >= 1 && k < maxPages
    requires cursor.GetOr(0) < latest && totals.failedSpaces <= MAX_FAILED_SPACES_PER_ROUND
    ensures replies(k).Body? && replies(k).ingest(Remaining(totals.failedSpaces)).Ingested?
    ensures var round := PullPages(replies, k, maxPages, cursor, latest, cursor, totals);
      var stats := replies(k).ingest(Remaining(totals.failedSpaces)).stats;
      var sum := Add(totals, stats);
      match replies(k).page.nextCursor
      case None => round == Outcome(Some(latest), totals, true)
      case Some(next) =>
        && cursor.GetOr(0) < next && |Beyond(t, next)| < |Beyond(t, cursor.GetOr(0))|
        && Honest(t, replies, k + 1, maxPages, Some(next), latest, limit, maxBytes)
        && (totals.failedSpaces == 0 ==> !stats.incomplete)
        && sum.failedSpaces <= FRESH
        && if stats.incomplete then round == Outcome(cursor, sum, false) && sum.failedSpaces == FRESH
           else if next >= latest then round == Outcome(Some(latest), sum, true)
           else if sum.failedSpaces == FRESH then round == Outcome(Some(next), sum, true)
           else round == PullPages(replies, k + 1, maxPages, Some(next), latest, Some(next), sum)
  {
    var cost :| Gets(t, cursor.GetOr(0), limit, maxBytes, cost, replies(k))
      && (replies(k).page.records == [] || Gentle(cost));
    PageEffect(t, replies, k, maxPages, cursor, latest, totals, limit, maxBytes, cost);
    PageLeads(t, cursor.GetOr(0), limit, maxBytes, replies(k).page);
    if replies(k).page.nextCursor.Some? {
      FreshIsComplete(cost, totals, replies(k).ingest(Remaining(totals.failedSpaces)).stats, replies(k));
    }
  }

  lemma {:induction false} HonestPagesAdvance(
      t: Table, replies: nat -> Reply, k: nat, maxPages: nat, cursor: Option<nat>,
      latest: nat, totals: RoundTotals, limit: nat, maxBytes: nat)
    requires Honest(t, replies, k, maxPages, cursor, latest, limit, maxBytes) && limit >= 1
    requires totals.failedSpaces <= MAX_FAILED_SPACES_PER_ROUND && cursor.GetOr(0) < latest
    ensures var round := PullPages(replies, k, maxPages, cursor, latest, cursor, totals);
      && (!round.ok ==> round.totals.failedSpaces == FRESH)
      && round.mark.GetOr(0) <= latest
      && Ahead(t, latest, round.mark) <= Ahead(t, latest, cursor)
      && (k < maxPages && totals.failedSpaces == 0 ==> Ahead(t, latest, round.mark) < Ahead(t, latest, cursor))
    decreases maxPages - k
  {
    if k < maxPages {
      HonestEffect(t, replies, k, maxPages, cursor, latest, totals, limit, maxBytes);
      var stats := replies(k).ingest(Remaining(totals.failedSpaces)).stats;
      if replies(k).page.nextCursor.Some? && !stats.incomplete {
        var next, sum := replies(k).page.nextCursor.value, Add(totals, stats);
        if next < latest && sum.failedSpaces < FRESH {
          HonestPagesAdvance(t, replies, k + 1, maxPages, Some(next), latest, sum, limit, maxBytes);
        }
      }
    }
  }

  /** Against a store that does not change, and as long as no page on the way can exhaust a fresh failure
      budget, every round with a budget of at least one page brings the puller strictly closer to the
      advertised cursor, in a measure that is at most the number of rows plus two, however many
      spaces it rejects on the way. A puller with nothing ahead is exactly at that cursor and stays there.
      A round ends in an error only when its failure budget is spent. */
  lemma RoundsAdvance(t: Table, replies: nat -> Reply, mark: Option<nat>, latest: nat, maxPages: nat,
                      limit: nat, maxBytes: nat)
    requires latest > 0 && maxPages >= 1 && limit >= 1
    requires Honest(t, replies, 0, maxPages, mark, latest, limit, maxBytes)
    ensures var round := SyncRound(mark, Some(latest), replies, maxPages);
      && (!round.ok ==> round.totals.failedSpaces == 33)
      && round.mark.GetOr(0) <= latest
      && if mark == Some(latest) then round.mark == mark
         else Ahead(t, latest, round.mark) < Ahead(t, latest, mark) <= |t| + 2
  {
    if mark.GetOr(0) < latest {
      HonestPagesAdvance(t, replies, 0, maxPages, mark, latest, RoundTotals(0, 0, 0), limit, maxBytes);
    }
    SubsetSize(Beyond(t, if mark.GetOr(0) > latest then 0 else mark.GetOr(0)), t.Keys);
  }

  /** The watermark after several rounds. */
  function MarkAfter(rounds: seq<nat -> Reply>, mark: Option<nat>, latest: nat, maxPages: nat): Option<nat>
    decreases |rounds|
  {
    if |rounds| == 0 then mark
    else MarkAfter(rounds[1..], SyncRound(mark, Some(latest), rounds[0], maxPages).mark, latest, maxPages)
  }

  /** The records of the pages that several rounds ingest to the end. */
  function TakenAfter(rounds: seq<nat -> Reply>, mark: Option<nat>, latest: nat, maxPages: nat): set<SyncRecord>
    decreases |rounds|
  {
    if |rounds| == 0 then {}
    else
      TakenInRound(mark, Some(latest), rounds[0], maxPages)
        + TakenAfter(rounds[1..], SyncRound(mark, Some(latest), rounds[0], maxPages).mark, latest, maxPages)
  }

  /** What several rounds take was on a page of one of them that was ingested to the end. */
  lemma {:induction false} TakenWasServed(rounds: seq<nat -> Reply>, mark: Option<nat>, latest: nat, maxPages: nat,
                                          x: SyncRecord)
    returns (r: nat, k: nat, budget: nat)
    requires x in TakenAfter(rounds, mark, latest, maxPages)
    ensures r < |rounds| && k < maxPages && rounds[r](k).Body? && x in rounds[r](k).page.records
    ensures rounds[r](k).ingest(budget).Ingested? && !rounds[r](k).ingest(budget).stats.incomplete
    decreases |rounds|
  {
    r := 0;
    if x in TakenInRound(mark, Some(latest), rounds[0], maxPages) {
      k, budget := TakenIsIngested(rounds[0], 0, maxPages, mark, latest, RoundTotals(0, 0, 0), x);
    } else {
      var mark' := SyncRound(mark, Some(latest), rounds[0], maxPages).mark;
      r, k, budget := TakenWasServed(rounds[1..], mark', latest, maxPages, x);
      r := r + 1;
    }
  }

  /** A row ahead of the cursor is on the page served there, or past the cursor that page leads to. */
  lemma PageHoldsOrPasses(t: Table, cursor: Option<nat>, latest: nat, limit: nat, maxBytes: nat, page: SyncPage,
                          h: string)
    requires IsPage(t, cursor.GetOr(0), limit, maxBytes, page) && limit >= 1 && cursor.GetOr(0) < latest
    requires h in t && cursor.GetOr(0) < t[h].syncSeq
    ensures page.nextCursor.Some? && OnPage(cursor, latest, page) == Process(page.nextCursor.value)
    ensures t[h].syncSeq <= page.nextCursor.value ==> ToRecord(h, t[h]) in page.records
  {
    PageLeads(t, cursor.GetOr(0), limit, maxBytes, page);
    PageIsProcessed(t, cursor, latest, limit, maxBytes, page);
    assert h in Beyond(t, cursor.GetOr(0));
    if t[h].syncSeq <= page.nextCursor.value {
      PageCoversItsRange(t, cursor.GetOr(0), limit, maxBytes, page, h);
    }
  }

  lemma HonestIsServed(t: Table, replies: nat -> Reply, k: nat, maxPages: nat, cursor: Option<nat>, latest: nat,
                       limit: nat, maxBytes: nat)
    requires Honest(t, replies, k, maxPages, cursor, latest, limit, maxBytes) && k < maxPages
    requires cursor.GetOr(0) < latest
    ensures replies(k).Body? && IsPage(t, cursor.GetOr(0), limit, maxBytes, replies(k).page)
  {
    assert GetsGently(t, cursor.GetOr(0), limit, maxBytes, replies(k));
  }

  lemma TakenUnfolds(replies: nat -> Reply, k: nat, maxPages: nat, cursor: Option<nat>, latest: nat,
                     totals: RoundTotals, next: nat)
    requires k < maxPages && replies(k).Body? && OnPage(cursor, latest, replies(k).page) == Process(next)
    requires replies(k).ingest(Remaining(totals.failedSpaces)).Ingested?
    requires !replies(k).ingest(Remaining(totals.failedSpaces)).stats.incomplete
    ensures var sum := Add(totals, replies(k).ingest(Remaining(totals.failedSpaces)).stats);
      var taken := Taken(replies, k, maxPages, cursor, latest, totals);
      && (forall x | x in replies(k).page.records :: x in taken)
      && (next < latest && sum.failedSpaces <= MAX_FAILED_SPACES_PER_ROUND ==>
            Taken(replies, k + 1, maxPages, Some(next), latest, sum) <= taken)
  {
  }

  /** One page of it: the row is taken with the page, or the loop goes on to where the row still lies ahead. */
  lemma HonestPageTakes(
      t: Table, replies: nat -> Reply, k: nat, maxPages: nat, cursor: Option<nat>, latest: nat,
      totals: RoundTotals, limit: nat, maxBytes: nat, h: string) returns (next: nat, sum: RoundTotals)
    requires Honest(t, replies, k, maxPages, cursor, latest, limit, maxBytes) && limit >= 1
    requires totals.failedSpaces <= MAX_FAILED_SPACES_PER_ROUND && cursor.GetOr(0) < latest
    requires h in t && cursor.GetOr(0) < t[h].syncSeq <= latest
    requires t[h].syncSeq <= PullPages(replies, k, maxPages, cursor, latest, cursor, totals).mark.GetOr(0)
    ensures k < maxPages
    ensures t[h].syncSeq <= next ==> ToRecord(h, t[h]) in Taken(replies, k, maxPages, cursor, latest, totals)
    ensures next < t[h].syncSeq ==>
      && Honest(t, replies, k + 1, maxPages, Some(next), latest, limit, maxBytes)
      && sum.failedSpaces <= MAX_FAILED_SPACES_PER_ROUND
      && t[h].syncSeq <= PullPages(replies, k + 1, maxPages, Some(next), latest, Some(next), sum).mark.GetOr(0)
      && Taken(replies, k + 1, maxPages, Some(next), latest, sum)
           <= Taken(replies, k, maxPages, cursor, latest, totals)
  {
    assert k < maxPages;
    HonestIsServed(t, replies, k, maxPages, cursor, latest, limit, maxBytes);
    PageHoldsOrPasses(t, cursor, latest, limit, maxBytes, replies(k).page, h);
    HonestEffect(t, replies, k, maxPages, cursor, latest, totals, limit, maxBytes);
    next, sum := replies(k).page.nextCursor.value,
                 Add(totals, replies(k).ingest(Remaining(totals.failedSpaces)).stats);
    TakenUnfolds(replies, k, maxPages, cursor, latest, totals, next);
  }

  /** Each row that the page loop moves the watermark past is on a page that it ingests to the end. */
  lemma {:induction false} HonestPagesTake(
      t: Table, replies: nat -> Reply, k: nat, maxPages: nat, cursor: Option<nat>, latest: nat,
      totals: RoundTotals, limit: nat, maxBytes: nat, h: string)
    requires Honest(t, replies, k, maxPages, cursor, latest, limit, maxBytes) && limit >= 1
    requires totals.failedSpaces <= MAX_FAILED_SPACES_PER_ROUND && cursor.GetOr(0) < latest
    requires h in t && cursor.GetOr(0) < t[h].syncSeq <= latest
    requires t[h].syncSeq <= PullPages(replies, k, maxPages, cursor, latest, cursor, totals).mark.GetOr(0)
    ensures ToRecord(h, t[h]) in Taken(replies, k, maxPages, cursor, latest, totals)
    decreases maxPages - k
  {
    var next, sum := HonestPageTakes(t, replies, k, maxPages, cursor, latest, totals, limit, maxBytes, h);
    if next < t[h].syncSeq {
      HonestPagesTake(t, replies, k + 1, maxPages, Some(next), latest, sum, limit, maxBytes, h);
    }
  }

  lemma {:induction false} RoundsTake(t: Table, rounds: seq<nat -> Reply>, mark: Option<nat>, latest: nat,
                                      maxPages: nat, limit: nat, maxBytes: nat, h: string)
    requires latest > 0 && maxPages >= 1 && limit >= 1
    requires HonestRounds(t, rounds, mark, latest, maxPages, limit, maxBytes)
    requires MarkAfter(rounds, mark, latest, maxPages) == Some(latest)
    requires h in t && 0 < t[h].syncSeq <= latest && (mark.GetOr(0) > latest || mark.GetOr(0) < t[h].syncSeq)
    ensures ToRecord(h, t[h]) in TakenAfter(rounds, mark, latest, maxPages)
    decreases |rounds|
  {
    if mark != Some(latest) {
      var round := SyncRound(mark, Some(latest), rounds[0], maxPages);
      RoundsAdvance(t, rounds[0], mark, latest, maxPages, limit, maxBytes);
      if mark.GetOr(0) < latest && t[h].syncSeq <= round.mark.GetOr(0) {
        HonestPagesTake(t, rounds[0], 0, maxPages, mark, latest, RoundTotals(0, 0, 0), limit, maxBytes, h);
      } else {
        RoundsTake(t, rounds[1..], round.mark, latest, maxPages, limit, maxBytes, h);
      }
    }
  }

  ghost predicate HonestRounds(t: Table, rounds: seq<nat -> Reply>, mark: Option<nat>, latest: nat,
                               maxPages: nat, limit: nat, maxBytes: nat)
    decreases |rounds|
  {
    |rounds| > 0 ==>
      && Honest(t, rounds[0], 0, maxPages, mark, latest, limit, maxBytes)
      && HonestRounds(t, rounds[1..], SyncRound(mark, Some(latest), rounds[0], maxPages).mark, latest,
                      maxPages, limit, maxBytes)
  }

  lemma {:induction false} RoundsReach(t: Table, rounds: seq<nat -> Reply>, mark: Option<nat>, latest: nat,
                                       maxPages: nat, limit: nat, maxBytes: nat)
    requires latest > 0 && maxPages >= 1 && limit >= 1
    requires HonestRounds(t, rounds, mark, latest, maxPages, limit, maxBytes)
    requires |rounds| >= Ahead(t, latest, mark)
    ensures MarkAfter(rounds, mark, latest, maxPages) == Some(latest)
    decreases |rounds|
  {
    if |rounds| > 0 {
      RoundsAdvance(t, rounds[0], mark, latest, maxPages, limit, maxBytes);
      RoundsReach(t, rounds[1..], SyncRound(mark, Some(latest), rounds[0], maxPages).mark, latest,
                  maxPages, limit, maxBytes);
    } else {
      assert mark == Some(latest);
    }
  }

  /** Main result. As many rounds as there are rows ahead, plus one, always reach the advertised cursor: from
      any watermark, where one above that cursor costs one more round and puts all rows ahead, however small
      the page budget, however many spaces are rejected on pages a fresh budget can complete, and even when
      the rows with the highest numbers were deleted from the peer. On the way each row that was ahead came,
      with its certificate, zone and numbers, on a page that was ingested to the end: after a reset, every
      row of the peer up to that cursor. */
  lemma RoundsConverge(t: Table, rounds: seq<nat -> Reply>, mark: Option<nat>, latest: nat,
                       maxPages: nat, limit: nat, maxBytes: nat)
    requires latest > 0 && maxPages >= 1 && limit >= 1
    requires HonestRounds(t, rounds, mark, latest, maxPages, limit, maxBytes)
    requires |rounds| >=
      if mark.GetOr(0) > latest then |Beyond(t, 0)| + 2
      else if mark.GetOr(0) == latest then 0 else |Beyond(t, mark.GetOr(0))| + 1
    ensures MarkAfter(rounds, mark, latest, maxPages) == Some(latest)
    ensures forall h |
      h in t && 0 < t[h].syncSeq <= latest && (mark.GetOr(0) > latest || mark.GetOr(0) < t[h].syncSeq) ::
      exists x :: x in TakenAfter(rounds, mark, latest, maxPages)
        && x.handle == h && x.cert == t[h].cert && x.zone == t[h].zone && x.epochHeight == t[h].epochHeight
        && x.offchainSeq == t[h].offchainSeq && x.delegateSeq == t[h].delegateSeq
  {
    RoundsReach(t, rounds, mark, latest, maxPages, limit, maxBytes);
    forall h | h in t && 0 < t[h].syncSeq <= latest && (mark.GetOr(0) > latest || mark.GetOr(0) < t[h].syncSeq)
      ensures ToRecord(h, t[h]) in TakenAfter(rounds, mark, latest, maxPages)
    {
      RoundsTake(t, rounds, mark, latest, maxPages, limit, maxBytes, h);
    }
  }

  // ---- exactly when they do ------------------------------------------------------------------------

  /** No page from `c` on, up to the advertised cursor, is one that a fresh budget can leave incomplete. */
  ghost predicate AllGentle(t: Table, costs: nat -> Cost, c: nat, latest: nat, limit: nat, maxBytes: nat)
    requires Distinct(t) && SpacesAgree(t) && limit >= 1
    decreases |Beyond(t, c)|
  {
    NextShrinks(t, c, limit, maxBytes);
    c < latest ==>
      match NextOf(t, c, limit, maxBytes)
      case None => true
      case Some(next) => Gentle(costs(c)) && AllGentle(t, costs, next, latest, limit, maxBytes)
  }

  /** Following the pages from `c` comes to a page requested at `at`. */
  ghost predicate OnWay(t: Table, c: nat, at: nat, limit: nat, maxBytes: nat)
    requires Distinct(t) && SpacesAgree(t) && limit >= 1
    decreases |Beyond(t, c)|
  {
    NextShrinks(t, c, limit, maxBytes);
    c == at ||
      match NextOf(t, c, limit, maxBytes)
      case None => false
      case Some(next) => OnWay(t, next, at, limit, maxBytes)
  }

  lemma {:induction false} WayGoesUp(t: Table, c: nat, at: nat, limit: nat, maxBytes: nat)
    requires Distinct(t) && SpacesAgree(t) && limit >= 1 && OnWay(t, c, at, limit, maxBytes)
    ensures c <= at
    decreases |Beyond(t, c)|
  {
    NextShrinks(t, c, limit, maxBytes);
    if c != at {
      WayGoesUp(t, NextOf(t, c, limit, maxBytes).value, at, limit, maxBytes);
    }
  }

  /** A page of this cost is incomplete under a fresh budget: because too many of its spaces fail, or because
      every ingest that can be cut short is. */
  predicate Stops(cost: Cost, cut: bool) {
    cost.failing > 33 || (cut && !Gentle(cost))
  }

  /** The page at `at` is ahead and stops the puller. */
  ghost predicate StopsAt(t: Table, costs: nat -> Cost, cut: bool, c: nat, at: nat, latest: nat,
                          limit: nat, maxBytes: nat)
    requires Distinct(t) && SpacesAgree(t) && limit >= 1
  {
    OnWay(t, c, at, limit, maxBytes) && at < latest && Beyond(t, at) != {} && Stops(costs(at), cut)
  }

  lemma WayNext(t: Table, c: nat, at: nat, limit: nat, maxBytes: nat, page: SyncPage)
    requires Distinct(t) && SpacesAgree(t) && limit >= 1 && IsPage(t, c, limit, maxBytes, page)
    requires OnWay(t, c, at, limit, maxBytes) && c != at
    ensures page.nextCursor.Some? && c < page.nextCursor.value <= at
    ensures OnWay(t, page.nextCursor.value, at, limit, maxBytes)
  {
    PageLeads(t, c, limit, maxBytes, page);
    WayGoesUp(t, page.nextCursor.value, at, limit, maxBytes);
  }

  /** A page that stops the puller is incomplete under whatever is left of a round's budget. */
  lemma StopsHere(cost: Cost, cut: bool, totals: RoundTotals, reply: Reply)
    requires Stops(cost, cut) && reply.Body? && (forall b :: IngestMay(cost, b, reply.ingest(b)))
    requires reply.ingest(FRESH).Ingested?
    requires cut && !Gentle(cost) ==> reply.ingest(FRESH).stats.incomplete
    requires totals.failedSpaces <= MAX_FAILED_SPACES_PER_ROUND
    ensures reply.ingest(Remaining(totals.failedSpaces)).Ingested?
    ensures reply.ingest(Remaining(totals.failedSpaces)).stats.incomplete
  {
    assert IngestMay(cost, Remaining(totals.failedSpaces), reply.ingest(Remaining(totals.failedSpaces)));
    assert totals.failedSpaces == 0 ==> Remaining(totals.failedSpaces) == FRESH;
  }

  /** Where a round leaves the watermark, the page that stops it is still ahead. */
  lemma {:induction false} PagesStop(
      t: Table, costs: nat -> Cost, cut: bool, replies: nat -> Reply, k: nat, maxPages: nat,
      cursor: Option<nat>, at: nat, latest: nat, totals: RoundTotals, limit: nat, maxBytes: nat)
    requires Distinct(t) && SpacesAgree(t) && limit >= 1
    requires Follows(t, costs, cut, replies, k, maxPages, cursor, latest, limit, maxBytes)
    requires StopsAt(t, costs, cut, cursor.GetOr(0), at, latest, limit, maxBytes)
    requires totals.failedSpaces <= MAX_FAILED_SPACES_PER_ROUND && cursor.GetOr(0) < latest
    ensures var mark := PullPages(replies, k, maxPages, cursor, latest, cursor, totals).mark;
      StopsAt(t, costs, cut, mark.GetOr(0), at, latest, limit, maxBytes)
    decreases maxPages - k
  {
    if k < maxPages {
      var c := cursor.GetOr(0);
      PageEffect(t, replies, k, maxPages, cursor, latest, totals, limit, maxBytes, costs(c));
      PageLeads(t, c, limit, maxBytes, replies(k).page);
      var stats := replies(k).ingest(Remaining(totals.failedSpaces)).stats;
      if c == at {
        StopsHere(costs(c), cut, totals, replies(k));
      } else if !stats.incomplete {
        WayNext(t, c, at, limit, maxBytes, replies(k).page);
        var next, sum := replies(k).page.nextCursor.value, Add(totals, stats);
        if sum.failedSpaces < FRESH {
          PagesStop(t, costs, cut, replies, k + 1, maxPages, Some(next), at, latest, sum, limit, maxBytes);
        }
      }
    }
  }

  lemma {:induction false} FollowingIsHonest(
      t: Table, costs: nat -> Cost, cut: bool, replies: nat -> Reply, k: nat, maxPages: nat,
      cursor: Option<nat>, latest: nat, limit: nat, maxBytes: nat)
    requires Distinct(t) && SpacesAgree(t) && limit >= 1
    requires Follows(t, costs, cut, replies, k, maxPages, cursor, latest, limit, maxBytes)
    requires AllGentle(t, costs, cursor.GetOr(0), latest, limit, maxBytes)
    ensures Honest(t, replies, k, maxPages, cursor, latest, limit, maxBytes)
    decreases maxPages - k
  {
    var c := cursor.GetOr(0);
    if k < maxPages && c < latest {
      PageLeads(t, c, limit, maxBytes, replies(k).page);
      if replies(k).page.nextCursor.Some? {
        FollowingIsHonest(t, costs, cut, replies, k + 1, maxPages, replies(k).page.nextCursor, latest, limit, maxBytes);
      }
      assert Gets(t, c, limit, maxBytes, costs(c), replies(k));
    }
  }

  ghost predicate FollowRounds(t: Table, costs: nat -> Cost, cut: bool, rounds: seq<nat -> Reply>, mark: Option<nat>,
                               latest: nat, maxPages: nat, limit: nat, maxBytes: nat)
    decreases |rounds|
  {
    |rounds| > 0 ==>
      && Follows(t, costs, cut, rounds[0], 0, maxPages, mark, latest, limit, maxBytes)
      && FollowRounds(t, costs, cut, rounds[1..], SyncRound(mark, Some(latest), rounds[0], maxPages).mark, latest,
                      maxPages, limit, maxBytes)
  }

  lemma {:induction false} MarkWithinLatest(replies: nat -> Reply, k: nat, maxPages: nat, cursor: Option<nat>,
                                            latest: nat, mark: Option<nat>, totals: RoundTotals)
    requires mark.GetOr(0) <= latest
    ensures PullPages(replies, k, maxPages, cursor, latest, mark, totals).mark.GetOr(0) <= latest
    decreases maxPages - k
  {
    if k < maxPages && replies(k).Body? && OnPage(cursor, latest, replies(k).page).Process? {
      var next := OnPage(cursor, latest, replies(k).page).next;
      var result := replies(k).ingest(Remaining(totals.failedSpaces));
      if result.Ingested? && !result.stats.incomplete && next < latest {
        MarkWithinLatest(replies, k + 1, maxPages, Some(next), latest, Some(next), Add(totals, result.stats));
      }
    }
  }

  lemma RoundStops(t: Table, costs: nat -> Cost, cut: bool, replies: nat -> Reply, mark: Option<nat>, at: nat,
                   latest: nat, maxPages: nat, limit: nat, maxBytes: nat)
    requires Distinct(t) && SpacesAgree(t) && limit >= 1
    requires Follows(t, costs, cut, replies, 0, maxPages, mark, latest, limit, maxBytes)
    requires StopsAt(t, costs, cut, mark.GetOr(0), at, latest, limit, maxBytes)
    ensures var mark' := SyncRound(mark, Some(latest), replies, maxPages).mark;
      StopsAt(t, costs, cut, mark'.GetOr(0), at, latest, limit, maxBytes)
  {
    WayGoesUp(t, mark.GetOr(0), at, limit, maxBytes);
    PagesStop(t, costs, cut, replies, 0, maxPages, mark, at, latest, RoundTotals(0, 0, 0), limit, maxBytes);
  }

  /** Main result. A page of which more than 33 spaces fail stops the puller for good: no number of rounds
      moves the watermark past the cursor at which it is requested, in whatever order spaces are visited and
      whatever the other pages cost. The same holds of a page that is not gentle if every ingest that can be
      cut short is. */
  lemma {:induction false} RoundsStick(t: Table, costs: nat -> Cost, cut: bool, rounds: seq<nat -> Reply>,
                                       mark: Option<nat>, at: nat, latest: nat, maxPages: nat,
                                       limit: nat, maxBytes: nat)
    requires Distinct(t) && SpacesAgree(t) && limit >= 1
    requires FollowRounds(t, costs, cut, rounds, mark, latest, maxPages, limit, maxBytes)
    requires StopsAt(t, costs, cut, mark.GetOr(0), at, latest, limit, maxBytes)
    ensures MarkAfter(rounds, mark, latest, maxPages).GetOr(0) <= at
    decreases |rounds|
  {
    WayGoesUp(t, mark.GetOr(0), at, limit, maxBytes);
    if |rounds| > 0 {
      RoundStops(t, costs, cut, rounds[0], mark, at, latest, maxPages, limit, maxBytes);
      RoundsStick(t, costs, cut, rounds[1..], SyncRound(mark, Some(latest), rounds[0], maxPages).mark, at, latest,
                  maxPages, limit, maxBytes);
    }
  }

  /** A round leaves the watermark where it was, at a cursor on the way, or at the end. */
  lemma {:induction false} PagesStayGentle(
      t: Table, costs: nat -> Cost, cut: bool, replies: nat -> Reply, k: nat, maxPages: nat,
      cursor: Option<nat>, latest: nat, totals: RoundTotals, limit: nat, maxBytes: nat)
    requires Distinct(t) && SpacesAgree(t) && limit >= 1
    requires Follows(t, costs, cut, replies, k, maxPages, cursor, latest, limit, maxBytes)
    requires AllGentle(t, costs, cursor.GetOr(0), latest, limit, maxBytes)
    requires totals.failedSpaces <= MAX_FAILED_SPACES_PER_ROUND && cursor.GetOr(0) < latest
    ensures var mark := PullPages(replies, k, maxPages, cursor, latest, cursor, totals).mark;
      AllGentle(t, costs, mark.GetOr(0), latest, limit, maxBytes)
    decreases maxPages - k
  {
    if k < maxPages {
      var c := cursor.GetOr(0);
      PageEffect(t, replies, k, maxPages, cursor, latest, totals, limit, maxBytes, costs(c));
      PageLeads(t, c, limit, maxBytes, replies(k).page);
      var stats := replies(k).ingest(Remaining(totals.failedSpaces)).stats;
      if replies(k).page.nextCursor.Some? && !stats.incomplete {
        var next, sum := replies(k).page.nextCursor.value, Add(totals, stats);
        if next < latest && sum.failedSpaces < FRESH {
          PagesStayGentle(t, costs, cut, replies, k + 1, maxPages, Some(next), latest, sum, limit, maxBytes);
        }
      }
    }
  }

  /** Where the next pages are requested from: a watermark above the advertised cursor is reset first. */
  function Resumes(mark: Option<nat>, latest: nat): nat {
    if mark.GetOr(0) > latest then 0 else mark.GetOr(0)
  }

  lemma RoundIsPages(replies: nat -> Reply, mark: Option<nat>, latest: nat, maxPages: nat)
    requires mark.GetOr(0) < latest
    ensures var round := SyncRound(mark, Some(latest), replies, maxPages);
      && round == PullPages(replies, 0, maxPages, mark, latest, mark, RoundTotals(0, 0, 0))
      && Resumes(round.mark, latest) == round.mark.GetOr(0)
  {
    MarkWithinLatest(replies, 0, maxPages, mark, latest, mark, RoundTotals(0, 0, 0));
  }

  lemma RoundStaysGentle(t: Table, costs: nat -> Cost, cut: bool, replies: nat -> Reply, mark: Option<nat>,
                         latest: nat, maxPages: nat, limit: nat, maxBytes: nat)
    requires Distinct(t) && SpacesAgree(t) && limit >= 1
    requires Follows(t, costs, cut, replies, 0, maxPages, mark, latest, limit, maxBytes)
    requires mark.GetOr(0) < latest && AllGentle(t, costs, mark.GetOr(0), latest, limit, maxBytes)
    ensures Honest(t, replies, 0, maxPages, mark, latest, limit, maxBytes)
    ensures AllGentle(t, costs, Resumes(SyncRound(mark, Some(latest), replies, maxPages).mark, latest), latest,
                      limit, maxBytes)
  {
    RoundIsPages(replies, mark, latest, maxPages);
    FollowingIsHonest(t, costs, cut, replies, 0, maxPages, mark, latest, limit, maxBytes);
    PagesStayGentle(t, costs, cut, replies, 0, maxPages, mark, latest, RoundTotals(0, 0, 0), limit, maxBytes);
  }

  lemma {:induction false} FollowingRoundsAreHonest(
      t: Table, costs: nat -> Cost, cut: bool, rounds: seq<nat -> Reply>, mark: Option<nat>,
      latest: nat, maxPages: nat, limit: nat, maxBytes: nat)
    requires Distinct(t) && SpacesAgree(t) && limit >= 1 && latest > 0
    requires FollowRounds(t, costs, cut, rounds, mark, latest, maxPages, limit, maxBytes)
    requires AllGentle(t, costs, Resumes(mark, latest), latest, limit, maxBytes)
    ensures HonestRounds(t, rounds, mark, latest, maxPages, limit, maxBytes)
    decreases |rounds|
  {
    if |rounds| > 0 {
      if mark.GetOr(0) < latest {
        RoundStaysGentle(t, costs, cut, rounds[0], mark, latest, maxPages, limit, maxBytes);
      }
      FollowingRoundsAreHonest(t, costs, cut, rounds[1..], SyncRound(mark, Some(latest), rounds[0], maxPages).mark,
                               latest, maxPages, limit, maxBytes);
    }
  }

  // ---- the rounds in which every ingest is as slow as it may be ------------------------------------

  function SlowIngest(cost: Cost): nat -> IngestResult {
    (b: nat) => Ingested(SyncIngest(0, 0, if cost.failing < b then cost.failing else b, 0,
                                    cost.failing >= b && cost.failing + cost.others > b))
  }

  ghost function CursorAt(t: Table, c: nat, k: nat, limit: nat, maxBytes: nat): nat
    requires Distinct(t) && SpacesAgree(t)
  {
    if k == 0 then c
    else
      var before := CursorAt(t, c, k - 1, limit, maxBytes);
      ServedAlways(t, before);
      NextOf(t, before, limit, maxBytes).GetOr(before)
  }

  ghost function SlowReplies(t: Table, costs: nat -> Cost, c: nat, limit: nat, maxBytes: nat): nat -> Reply
    requires Distinct(t) && SpacesAgree(t)
  {
    (k: nat) => Body(PageOf(t, CursorAt(t, c, k, limit, maxBytes), limit, maxBytes),
                     SlowIngest(costs(CursorAt(t, c, k, limit, maxBytes))))
  }

  lemma SlowIngestMay(cost: Cost)
    ensures forall b :: IngestMay(cost, b, SlowIngest(cost)(b))
    ensures !Gentle(cost) ==> SlowIngest(cost)(FRESH).stats.incomplete
  {
  }

  lemma SlowReplyGets(t: Table, costs: nat -> Cost, c: nat, limit: nat, maxBytes: nat, reply: Reply)
    requires Distinct(t) && SpacesAgree(t)
    requires reply == Body(PageOf(t, c, limit, maxBytes), SlowIngest(costs(c)))
    ensures Gets(t, c, limit, maxBytes, costs(c), reply)
    ensures !Gentle(costs(c)) ==> reply.ingest(FRESH).stats.incomplete
  {
    SlowIngestMay(costs(c));
  }

  lemma NextAt(t: Table, c: nat, k: nat, limit: nat, maxBytes: nat, page: SyncPage)
    requires Distinct(t) && SpacesAgree(t) && limit >= 1
    requires IsPage(t, CursorAt(t, c, k, limit, maxBytes), limit, maxBytes, page)
    ensures page.nextCursor.Some? ==> page.nextCursor.value == CursorAt(t, c, k + 1, limit, maxBytes)
  {
    PageLeads(t, CursorAt(t, c, k, limit, maxBytes), limit, maxBytes, page);
  }

  lemma {:induction false} SlowRepliesFollow(t: Table, costs: nat -> Cost, c: nat, k: nat, maxPages: nat,
                                             cursor: Option<nat>, latest: nat, limit: nat, maxBytes: nat)
    requires Distinct(t) && SpacesAgree(t) && limit >= 1
    requires cursor.GetOr(0) == CursorAt(t, c, k, limit, maxBytes)
    ensures Follows(t, costs, true, SlowReplies(t, costs, c, limit, maxBytes), k, maxPages, cursor, latest,
                    limit, maxBytes)
    decreases maxPages - k
  {
    if k < maxPages && cursor.GetOr(0) < latest {
      var reply := SlowReplies(t, costs, c, limit, maxBytes)(k);
      SlowReplyGets(t, costs, cursor.GetOr(0), limit, maxBytes, reply);
      NextAt(t, c, k, limit, maxBytes, reply.page);
      if reply.page.nextCursor.Some? {
        SlowRepliesFollow(t, costs, c, k + 1, maxPages, reply.page.nextCursor, latest, limit, maxBytes);
      }
    }
  }

  lemma {:induction false} SlowRounds(t: Table, costs: nat -> Cost, n: nat, mark: Option<nat>, latest: nat,
                                      maxPages: nat, limit: nat, maxBytes: nat)
    returns (rounds: seq<nat -> Reply>)
    requires Distinct(t) && SpacesAgree(t) && limit >= 1
    ensures |rounds| == n
    ensures FollowRounds(t, costs, true, rounds, mark, latest, maxPages, limit, maxBytes)
    decreases n
  {
    rounds := [];
    if n > 0 {
      var first := SlowReplies(t, costs, mark.GetOr(0), limit, maxBytes);
      SlowRepliesFollow(t, costs, mark.GetOr(0), 0, maxPages, mark, latest, limit, maxBytes);
      var rest := SlowRounds(t, costs, n - 1, SyncRound(mark, Some(latest), first, maxPages).mark, latest,
                             maxPages, limit, maxBytes);
      rounds := [first] + rest;
      assert rounds[1..] == rest;
    }
  }

  /** Whatever the order in which ingests visit the spaces of their pages, enough rounds reach the
      advertised cursor. */
  ghost predicate SureToCatchUp(t: Table, costs: nat -> Cost, mark: Option<nat>, latest: nat, maxPages: nat,
                                limit: nat, maxBytes: nat)
  {
    forall rounds, cut |
      |rounds| >= Ahead(t, latest, mark)
      && FollowRounds(t, costs, cut, rounds, mark, latest, maxPages, limit, maxBytes) ::
      MarkAfter(rounds, mark, latest, maxPages) == Some(latest)
  }

  lemma GentleSuffices(t: Table, costs: nat -> Cost, mark: Option<nat>, latest: nat, maxPages: nat,
                       limit: nat, maxBytes: nat)
    requires Distinct(t) && SpacesAgree(t) && limit >= 1 && maxPages >= 1
    requires latest > 0
    requires AllGentle(t, costs, Resumes(mark, latest), latest, limit, maxBytes)
    ensures SureToCatchUp(t, costs, mark, latest, maxPages, limit, maxBytes)
  {
    forall rounds, cut |
      |rounds| >= Ahead(t, latest, mark)
      && FollowRounds(t, costs, cut, rounds, mark, latest, maxPages, limit, maxBytes)
      ensures MarkAfter(rounds, mark, latest, maxPages) == Some(latest)
    {
      FollowingRoundsAreHonest(t, costs, cut, rounds, mark, latest, maxPages, limit, maxBytes);
      RoundsReach(t, rounds, mark, latest, maxPages, limit, maxBytes);
    }
  }

  /** The first page on the way that is not gentle. */
  lemma {:induction false} FirstRough(t: Table, costs: nat -> Cost, c: nat, latest: nat, limit: nat, maxBytes: nat)
    returns (at: nat)
    requires Distinct(t) && SpacesAgree(t) && limit >= 1
    requires !AllGentle(t, costs, c, latest, limit, maxBytes)
    ensures StopsAt(t, costs, true, c, at, latest, limit, maxBytes)
    decreases |Beyond(t, c)|
  {
    NextShrinks(t, c, limit, maxBytes);
    PageLeads(t, c, limit, maxBytes, PageOf(t, c, limit, maxBytes));
    at := c;
    if Gentle(costs(c)) {
      at := FirstRough(t, costs, NextOf(t, c, limit, maxBytes).value, latest, limit, maxBytes);
    }
  }

  /** With a page on the way that is not gentle there are rounds, any number of them, none of which gets past it. */
  lemma RoughStops(t: Table, costs: nat -> Cost, n: nat, mark: Option<nat>, latest: nat, maxPages: nat,
                   limit: nat, maxBytes: nat)
    returns (at: nat, rounds: seq<nat -> Reply>)
    requires Distinct(t) && SpacesAgree(t) && limit >= 1
    requires !AllGentle(t, costs, Resumes(mark, latest), latest, limit, maxBytes)
    requires n >= 1
    ensures at < latest && OnWay(t, Resumes(mark, latest), at, limit, maxBytes) && !Gentle(costs(at))
    ensures |rounds| == n && FollowRounds(t, costs, true, rounds, mark, latest, maxPages, limit, maxBytes)
    ensures MarkAfter(rounds, mark, latest, maxPages).GetOr(0) <= at
  {
    at := FirstRough(t, costs, Resumes(mark, latest), latest, limit, maxBytes);
    rounds := SlowRounds(t, costs, n, mark, latest, maxPages, limit, maxBytes);
    if mark.GetOr(0) > latest {
      RoundsStick(t, costs, true, rounds[1..], Some(0), at, latest, maxPages, limit, maxBytes);
    } else {
      RoundsStick(t, costs, true, rounds, mark, at, latest, maxPages, limit, maxBytes);
    }
  }

  lemma GentleIsNeeded(t: Table, costs: nat -> Cost, mark: Option<nat>, latest: nat, maxPages: nat,
                       limit: nat, maxBytes: nat)
    requires Distinct(t) && SpacesAgree(t) && limit >= 1
    requires !AllGentle(t, costs, Resumes(mark, latest), latest, limit, maxBytes)
    ensures !SureToCatchUp(t, costs, mark, latest, maxPages, limit, maxBytes)
  {
    var at, rounds := RoughStops(t, costs, Ahead(t, latest, mark) + 1, mark, latest, maxPages, limit, maxBytes);
  }

  /** Main result. Exactly when a puller is sure to catch up, from any watermark: if and only if each page on
      the way has fewer than 33 spaces that fail, or at most 33 spaces in all. */
  lemma ConvergesIffGentle(t: Table, costs: nat -> Cost, mark: Option<nat>, latest: nat, maxPages: nat,
                           limit: nat, maxBytes: nat)
    requires Distinct(t) && SpacesAgree(t) && limit >= 1 && maxPages >= 1
    requires latest > 0
    ensures SureToCatchUp(t, costs, mark, latest, maxPages, limit, maxBytes)
        <==> AllGentle(t, costs, Resumes(mark, latest), latest, limit, maxBytes)
  {
    if AllGentle(t, costs, Resumes(mark, latest), latest, limit, maxBytes) {
      GentleSuffices(t, costs, mark, latest, maxPages, limit, maxBytes);
    } else {
      GentleIsNeeded(t, costs, mark, latest, maxPages, limit, maxBytes);
    }
  }

  // ---- following the pages -------------------------------------------------------------------------

  /** A chain of pages that follows `next_cursor` from `c` to the empty page. */
  ghost predicate Chain(t: Table, c: nat, limit: nat, maxBytes: nat, pages: seq<SyncPage>)
    decreases |pages|
  {
    && |pages| >= 1
    && IsPage(t, c, limit, maxBytes, pages[0])
    && match pages[0].nextCursor
       case None => |pages| == 1
       case Some(next) => Chain(t, next, limit, maxBytes, pages[1..])
  }

  /** The main selections of the pages of a chain, one after the other. */
  ghost function MainRows(t: Table, c: nat, limit: nat, maxBytes: nat, pages: seq<SyncPage>): seq<string>
    requires Chain(t, c, limit, maxBytes, pages)
    decreases |pages|
  {
    match pages[0].nextCursor
    case None => []
    case Some(next) => Main(t, c, limit, maxBytes) + MainRows(t, next, limit, maxBytes, pages[1..])
  }

  lemma SplitAfterMain(t: Table, c: nat, main: seq<string>)
    requires Distinct(t) && main != [] && main <= After(t, c)
    ensures main[|main| - 1] in t
    ensures After(t, c) == main + After(t, t[main[|main| - 1]].syncSeq)
  {
    var order := After(t, c);
    AfterResumes(t, c, |main|);
    assert main[|main| - 1] == order[|main| - 1];
    assert order == order[..|main|] + order[|main|..];
  }

  lemma FirstOfChain(t: Table, c: nat, limit: nat, maxBytes: nat, page: SyncPage)
    requires IsPage(t, c, limit, maxBytes, page) && limit >= 1
    ensures page.nextCursor == None ==> After(t, c) == []
    ensures page.nextCursor.Some? ==>
      After(t, c) == Main(t, c, limit, maxBytes) + After(t, page.nextCursor.value)
  {
    var main, extra := Shipped(t, c, limit, maxBytes, page);
    if main != [] {
      SplitAfterMain(t, c, main);
    }
  }

  /** Main result. Following `next_cursor` over an unchanging store delivers, as main rows, every row
      past the starting cursor exactly once and in write order, for any row limit of at least one and
      any byte limit. */
  lemma {:induction false} PaginationCovers(t: Table, c: nat, limit: nat, maxBytes: nat, pages: seq<SyncPage>)
    requires Chain(t, c, limit, maxBytes, pages) && limit >= 1
    ensures MainRows(t, c, limit, maxBytes, pages) == After(t, c)
    decreases |pages|
  {
    FirstOfChain(t, c, limit, maxBytes, pages[0]);
    if pages[0].nextCursor.Some? {
      PaginationCovers(t, pages[0].nextCursor.value, limit, maxBytes, pages[1..]);
    }
  }

  /** Main result. From any cursor there is such a chain, and none has more pages than there are rows past
      the cursor plus one: a reader who follows `next_cursor` always comes to the empty page. */
  lemma {:induction false} ChainEnds(t: Table, c: nat, limit: nat, maxBytes: nat) returns (pages: seq<SyncPage>)
    requires Distinct(t) && SpacesAgree(t) && limit >= 1
    ensures Chain(t, c, limit, maxBytes, pages)
    ensures |pages| <= |Beyond(t, c)| + 1
    decreases |Beyond(t, c)|
  {
    var page := PageOf(t, c, limit, maxBytes);
    PageLeads(t, c, limit, maxBytes, page);
    pages := [page];
    if page.nextCursor.Some? {
      var rest := ChainEnds(t, page.nextCursor.value, limit, maxBytes);
      pages := [page] + rest;
      assert pages[1..] == rest;
    }
  }

  lemma {:induction false} ChainsAreShort(t: Table, c: nat, limit: nat, maxBytes: nat, pages: seq<SyncPage>)
    requires Chain(t, c, limit, maxBytes, pages) && limit >= 1
    ensures |pages| <= |Beyond(t, c)| + 1
    decreases |pages|
  {
    PageLeads(t, c, limit, maxBytes, pages[0]);
    if pages[0].nextCursor.Some? {
      ChainsAreShort(t, pages[0].nextCursor.value, limit, maxBytes, pages[1..]);
    }
  }
}
