/** A sync round as the page loop runs it is a run of the protocol: the steps of `Replication`, one after the
    other, take the world where `Puller.SyncRound` says. */
module Refinement {
  import opened Names
  import opened Tables
  import opened Pages
  import opened Puller
  import R = Replication

  /** Every page that comes is the peer's answer at the cursor where the loop requests it. */
  ghost predicate Answers(t: Table, replies: nat -> Reply, k: nat, maxPages: nat, cursor: Option<nat>,
                          limit: nat, maxBytes: nat)
    decreases maxPages - k
  {
    k < maxPages && replies(k).Body? ==>
      && IsPage(t, cursor.GetOr(0), limit, maxBytes, replies(k).page)
      && (replies(k).page.nextCursor.Some? ==>
            Answers(t, replies, k + 1, maxPages, replies(k).page.nextCursor, limit, maxBytes))
  }

  lemma OneStep(w: R.World, s: R.Step, w': R.World)
    requires R.Next(w, s, w')
    ensures R.Path([w, w'], [s])
  {
  }

  lemma Prepend(w: R.World, s: R.Step, ws: seq<R.World>, steps: seq<R.Step>)
    requires R.Path(ws, steps) && R.Next(w, s, ws[0])
    ensures R.Path([w] + ws, [s] + steps)
  {
    var ws', steps' := [w] + ws, [s] + steps;
    forall k | 0 <= k < |steps'| ensures R.Next(ws'[k], steps'[k], ws'[k + 1]) {
      if k > 0 {
        assert R.Next(ws[k - 1], steps[k - 1], ws[k]);
      }
    }
  }

  /** The world when a round is over: idle again, with this watermark and these records delivered. */
  function Over(w: R.World, i: nat, mark: Option<nat>, taken: set<SyncRecord>): R.World
    requires i < |w.rounds|
  {
    R.Put(w, i, R.Idle).(watermark := mark, delivered := w.delivered + taken)
  }

  lemma GivesUp(w: R.World, i: nat) returns (ws: seq<R.World>, steps: seq<R.Step>)
    requires R.InRound(w, i)
    ensures R.Path(ws, steps) && ws[0] == w && ws[|steps|] == Over(w, i, w.watermark, {})
  {
    ws, steps := [w, Over(w, i, w.watermark, {})], [R.GiveUp(i)];
    assert w.delivered + {} == w.delivered;
    OneStep(w, R.GiveUp(i), ws[1]);
  }

  /** From a fetched page on, when the page does not lead to a complete ingest. */
  lemma FetchedEnds(w: R.World, i: nat, move: bool) returns (ws: seq<R.World>, steps: seq<R.Step>)
    requires R.InRound(w, i) && w.rounds[i].Fetched?
    requires OnPage(w.rounds[i].cursor, w.rounds[i].latest, w.rounds[i].page) == CatchUp(move)
    ensures R.Path(ws, steps) && ws[0] == w
    ensures ws[|steps|] == Over(w, i, if move then Some(w.rounds[i].latest) else w.watermark, {})
  {
    var after := Over(w, i, if move then Some(w.rounds[i].latest) else w.watermark, {});
    assert w.delivered + {} == w.delivered;
    ws, steps := [w, after], [R.EndOnEmptyPage(i)];
    OneStep(w, R.EndOnEmptyPage(i), after);
  }

  /** The world after a completed ingest and the store of its watermark. */
  function AfterIngest(w: R.World, i: nat, page: SyncPage, next: nat, latest: nat): R.World
    requires i < |w.rounds|
  {
    R.Put(w, i, if next >= latest then R.Idle else R.Paging(Some(next), latest)).(
      watermark := Some(Clamp(next, latest)), delivered := w.delivered + set x | x in page.records)
  }

  lemma IngestSteps(w: R.World, i: nat, next: nat) returns (mid: R.World)
    requires R.InRound(w, i) && w.rounds[i].Fetched?
    requires OnPage(w.rounds[i].cursor, w.rounds[i].latest, w.rounds[i].page) == Process(next)
    ensures R.Next(w, R.CompleteIngest(i, {}), mid)
    ensures R.Next(mid, R.StoreMark(i), AfterIngest(w, i, w.rounds[i].page, next, w.rounds[i].latest))
  {
    var r := w.rounds[i];
    mid := R.Put(w, i, R.Done(r.latest, next)).(delivered := w.delivered + set x | x in r.page.records);
    assert w.roots + {} == w.roots;
  }

  lemma PrependIngest(w: R.World, i: nat, next: nat, ws: seq<R.World>, steps: seq<R.Step>)
    returns (ws': seq<R.World>, steps': seq<R.Step>)
    requires R.InRound(w, i) && w.rounds[i].Fetched?
    requires OnPage(w.rounds[i].cursor, w.rounds[i].latest, w.rounds[i].page) == Process(next)
    requires R.Path(ws, steps) && ws[0] == AfterIngest(w, i, w.rounds[i].page, next, w.rounds[i].latest)
    ensures R.Path(ws', steps') && ws'[0] == w && ws'[|steps'|] == ws[|steps|]
  {
    var mid := IngestSteps(w, i, next);
    Prepend(mid, R.StoreMark(i), ws, steps);
    Prepend(w, R.CompleteIngest(i, {}), [mid] + ws, [R.StoreMark(i)] + steps);
    ws', steps' := [w] + ([mid] + ws), [R.CompleteIngest(i, {})] + ([R.StoreMark(i)] + steps);
  }

  /** The rest of the round from a page that is to be ingested. */
  lemma {:induction false} PageIsSteps(
      w: R.World, i: nat, replies: nat -> Reply, k: nat, maxPages: nat, totals: RoundTotals, limit: nat, maxBytes: nat,
      next: nat)
    returns (ws: seq<R.World>, steps: seq<R.Step>)
    requires R.InRound(w, i) && w.rounds[i].Fetched? && limit >= 1
    requires k < maxPages && replies(k).Body? && replies(k).page == w.rounds[i].page
    requires Answers(w.rows, replies, k, maxPages, w.rounds[i].cursor, limit, maxBytes)
    requires OnPage(w.rounds[i].cursor, w.rounds[i].latest, w.rounds[i].page) == Process(next)
    ensures R.Path(ws, steps) && ws[0] == w
    ensures ws[|steps|] == Over(
      w, i, PullPages(replies, k, maxPages, w.rounds[i].cursor, w.rounds[i].latest, w.watermark, totals).mark,
      Taken(replies, k, maxPages, w.rounds[i].cursor, w.rounds[i].latest, totals))
    decreases maxPages - k, 0
  {
    var cursor, latest, page := w.rounds[i].cursor, w.rounds[i].latest, w.rounds[i].page;
    var r := replies(k).ingest(Remaining(totals.failedSpaces));
    if r.Aborted? || r.stats.incomplete {
      ws, steps := GivesUp(w, i);
    } else {
      var after := AfterIngest(w, i, page, next, latest);
      var sum := Add(totals, r.stats);
      ws, steps := [after], [];
      if next < latest {
        if sum.failedSpaces > MAX_FAILED_SPACES_PER_ROUND {
          ws, steps := GivesUp(after, i);
        } else {
          ws, steps := PagesAreSteps(after, i, replies, k + 1, maxPages, sum, limit, maxBytes);
        }
      }
      AfterIsOver(w, i, replies, k, maxPages, totals, next, ws[|steps|]);
      ws, steps := PrependIngest(w, i, next, ws, steps);
    }
  }

  /** Where the rest of the round ends is where the whole of it does. */
  lemma AfterIsOver(w: R.World, i: nat, replies: nat -> Reply, k: nat, maxPages: nat, totals: RoundTotals,
                    next: nat, last: R.World)
    requires R.InRound(w, i) && w.rounds[i].Fetched? && k < maxPages && replies(k).Body?
    requires OnPage(w.rounds[i].cursor, w.rounds[i].latest, replies(k).page) == Process(next)
    requires replies(k).ingest(Remaining(totals.failedSpaces)).Ingested?
    requires !replies(k).ingest(Remaining(totals.failedSpaces)).stats.incomplete
    requires var after := AfterIngest(w, i, replies(k).page, next, w.rounds[i].latest);
      var sum := Add(totals, replies(k).ingest(Remaining(totals.failedSpaces)).stats);
      last == if next >= w.rounds[i].latest then after
              else if sum.failedSpaces > MAX_FAILED_SPACES_PER_ROUND then Over(after, i, after.watermark, {})
              else Over(after, i,
                        PullPages(replies, k + 1, maxPages, Some(next), w.rounds[i].latest, after.watermark, sum).mark,
                        Taken(replies, k + 1, maxPages, Some(next), w.rounds[i].latest, sum))
    ensures last == Over(
      w, i, PullPages(replies, k, maxPages, w.rounds[i].cursor, w.rounds[i].latest, w.watermark, totals).mark,
      Taken(replies, k, maxPages, w.rounds[i].cursor, w.rounds[i].latest, totals))
  {
  }

  /** The rest of the round from a fetched page. */
  lemma {:induction false} FetchedIsSteps(
      w: R.World, i: nat, replies: nat -> Reply, k: nat, maxPages: nat, totals: RoundTotals, limit: nat, maxBytes: nat)
    returns (ws: seq<R.World>, steps: seq<R.Step>)
    requires R.InRound(w, i) && w.rounds[i].Fetched? && limit >= 1
    requires k < maxPages && replies(k).Body? && replies(k).page == w.rounds[i].page
    requires Answers(w.rows, replies, k, maxPages, w.rounds[i].cursor, limit, maxBytes)
    ensures R.Path(ws, steps) && ws[0] == w
    ensures ws[|steps|] == Over(
      w, i, PullPages(replies, k, maxPages, w.rounds[i].cursor, w.rounds[i].latest, w.watermark, totals).mark,
      Taken(replies, k, maxPages, w.rounds[i].cursor, w.rounds[i].latest, totals))
    decreases maxPages - k, 1
  {
    match OnPage(w.rounds[i].cursor, w.rounds[i].latest, w.rounds[i].page)
    case CatchUp(move) => ws, steps := FetchedEnds(w, i, move);
    case Refuse => ws, steps := GivesUp(w, i);
    case Process(next) => ws, steps := PageIsSteps(w, i, replies, k, maxPages, totals, limit, maxBytes, next);
  }

  /** The rest of the round from page `k` on. */
  lemma {:induction false} PagesAreSteps(
      w: R.World, i: nat, replies: nat -> Reply, k: nat, maxPages: nat, totals: RoundTotals, limit: nat, maxBytes: nat)
    returns (ws: seq<R.World>, steps: seq<R.Step>)
    requires R.InRound(w, i) && w.rounds[i].Paging? && limit >= 1
    requires Answers(w.rows, replies, k, maxPages, w.rounds[i].cursor, limit, maxBytes)
    ensures R.Path(ws, steps) && ws[0] == w
    ensures ws[|steps|] == Over(
      w, i, PullPages(replies, k, maxPages, w.rounds[i].cursor, w.rounds[i].latest, w.watermark, totals).mark,
      Taken(replies, k, maxPages, w.rounds[i].cursor, w.rounds[i].latest, totals))
    decreases maxPages - k, 2
  {
    if k >= maxPages || replies(k).NoBody? {
      ws, steps := GivesUp(w, i);
    } else {
      var fetched := R.Put(w, i, R.Fetched(w.rounds[i].cursor, w.rounds[i].latest, replies(k).page));
      ws, steps := FetchedIsSteps(fetched, i, replies, k, maxPages, totals, limit, maxBytes);
      Prepend(w, R.FetchPage(i, limit, maxBytes, replies(k).page), ws, steps);
      OverTwice(w, fetched, i);
      ws, steps := [w] + ws, [R.FetchPage(i, limit, maxBytes, replies(k).page)] + steps;
    }
  }

  lemma OverTwice(w: R.World, w': R.World, i: nat)
    requires R.InRound(w, i) && exists p :: w' == R.Put(w, i, p)
    ensures R.InRound(w', i) && forall mark, taken :: Over(w', i, mark, taken) == Over(w, i, mark, taken)
  {
  }

  /** Main result. Against a peer that answers each request from its store, whatever pages fail to come and
      however ingests end, a whole round is a run of the protocol's steps: it leaves the watermark where
      `SyncRound` says, a reset included, and delivers what `TakenInRound` says. So what is proved of all runs
      holds of the rounds that the page loop really makes. */
  lemma RoundIsRun(w: R.World, i: nat, replies: nat -> Reply, maxPages: nat, limit: nat, maxBytes: nat)
    returns (ws: seq<R.World>, steps: seq<R.Step>)
    requires R.InRound(w, i) && w.rounds[i].Idle? && limit >= 1
    requires Answers(w.rows, replies, 0, maxPages, w.watermark, limit, maxBytes)
    ensures R.Path(ws, steps) && ws[0] == w
    ensures ws[|steps|] == w.(
      watermark := SyncRound(w.watermark, if w.counter > 0 then Some(w.counter) else None, replies, maxPages).mark,
      delivered := w.delivered
        + TakenInRound(w.watermark, if w.counter > 0 then Some(w.counter) else None, replies, maxPages))
  {
    var started := R.Put(w, i, R.Started(w.watermark));
    assert w.rounds[i := R.Idle] == w.rounds;
    assert w.delivered + {} == w.delivered;
    match OnSummary(w.watermark, R.Advertised(w.counter)) {
      case NothingNew =>
        OneStep(started, R.ReadSummary(i), w);
        ws, steps := [started, w], [R.ReadSummary(i)];
      case Reset =>
        var reset := w.(watermark := Some(0));
        OneStep(started, R.ReadSummary(i), reset);
        ws, steps := [started, reset], [R.ReadSummary(i)];
      case Pull(latest) =>
        var paging := R.Put(w, i, R.Paging(w.watermark, latest));
        ws, steps := PagesAreSteps(paging, i, replies, 0, maxPages, RoundTotals(0, 0, 0), limit, maxBytes);
        Prepend(started, R.ReadSummary(i), ws, steps);
        ws, steps := [started] + ws, [R.ReadSummary(i)] + steps;
    }
    Prepend(w, R.ReadMark(i), ws, steps);
    ws, steps := [w] + ws, [R.ReadMark(i)] + steps;
  }

  lemma RunGoesOn(ws: seq<R.World>, steps: seq<R.Step>, more: seq<R.World>, moreSteps: seq<R.Step>)
    requires R.IsRun(ws, steps) && R.Path(more, moreSteps) && more[0] == ws[|steps|]
    ensures R.IsRun(ws + more[1..], steps + moreSteps)
    ensures (ws + more[1..])[|steps| + |moreSteps|] == more[|moreSteps|]
  {
    var all, allSteps := ws + more[1..], steps + moreSteps;
    forall k | 0 <= k < |allSteps| ensures R.Next(all[k], allSteps[k], all[k + 1]) {
      if k < |steps| {
        assert R.Next(ws[k], steps[k], ws[k + 1]);
      } else {
        assert R.Next(more[k - |steps|], moreSteps[k - |steps|], more[k - |steps| + 1]);
      }
    }
  }

  /** Main result. After any run, and with the peer's other rounds standing wherever they are, a round of the
      page loop ends with nothing missed: each row of the peer at or below the watermark it leaves was
      delivered before with its certificate, zone and numbers, or came so on a page of this round that was
      ingested to the end. */
  lemma RoundMissesNothing(ws: seq<R.World>, steps: seq<R.Step>, i: nat, replies: nat -> Reply, maxPages: nat,
                           limit: nat, maxBytes: nat, h: string)
    requires R.IsRun(ws, steps) && limit >= 1
    requires var w := ws[|steps|]; R.InRound(w, i) && w.rounds[i].Idle?
    requires Answers(ws[|steps|].rows, replies, 0, maxPages, ws[|steps|].watermark, limit, maxBytes)
    requires var w := ws[|steps|];
      && h in w.rows
      && w.rows[h].syncSeq <= SyncRound(w.watermark, R.Advertised(w.counter), replies, maxPages).mark.GetOr(0)
    ensures var w := ws[|steps|]; var row := w.rows[h];
      exists x :: x in w.delivered + TakenInRound(w.watermark, R.Advertised(w.counter), replies, maxPages)
        && x.handle == h && x.cert == row.cert && x.zone == row.zone
        && x.epochHeight == row.epochHeight && x.offchainSeq == row.offchainSeq && x.delegateSeq == row.delegateSeq
  {
    var more, moreSteps := RoundIsRun(ws[|steps|], i, replies, maxPages, limit, maxBytes);
    RunGoesOn(ws, steps, more, moreSteps);
    R.WatermarkSafety(ws + more[1..], steps + moreSteps, |steps| + |moreSteps|, h);
  }
}
