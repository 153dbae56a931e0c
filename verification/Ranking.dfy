/** When the freshness order of hint responses can be relied on to sort them
    (fabric/rust/src/client.rs sorts relays by it). It is not transitive: `Hints.RankingCycles`. */
module Ranking {
  import opened Names
  import opened Totals
  import opened Hints

  // ---- responses that can be compared component by component ---------------------------------------

  ghost predicate Comparable(x: HintsResponse, y: HintsResponse) {
    AtLeastAsFresh(x, y) || AtLeastAsFresh(y, x)
  }

  lemma AtLeastTransitive(x: HintsResponse, y: HintsResponse, z: HintsResponse)
    requires AtLeastAsFresh(x, y) && AtLeastAsFresh(y, z)
    ensures AtLeastAsFresh(x, z)
  {
    forall n | Find(z.hints, n).Some?
      ensures Find(x.hints, n).Some? && PairAtLeast(Find(x.hints, n).value, Find(z.hints, n).value)
    {
      assert Find(y.hints, n).Some?;
    }
  }

  /** Between comparable responses the order is componentwise freshness, with the tips on a tie. */
  lemma ComparableOrder(x: HintsResponse, y: HintsResponse)
    requires DistinctNames(x.hints) && DistinctNames(y.hints) && Comparable(x, y)
    ensures Cmp(x, y) != Less <==> AtLeastAsFresh(x, y) && (AtLeastAsFresh(y, x) ==> x.anchorTip >= y.anchorTip)
  {
    CmpReverses(x, y);
    if AtLeastAsFresh(x, y) {
      FresherRanksHigher(x, y);
    } else {
      FresherRanksHigher(y, x);
    }
  }

  /** Main result. Among responses that are pairwise comparable, and name no space twice, the order is
      transitive. */
  lemma ComparableTransitive(x: HintsResponse, y: HintsResponse, z: HintsResponse)
    requires DistinctNames(x.hints) && DistinctNames(y.hints) && DistinctNames(z.hints)
    requires Comparable(x, y) && Comparable(y, z) && Comparable(x, z)
    ensures Cmp(x, y) != Less && Cmp(y, z) != Less ==> Cmp(x, z) != Less
  {
    ComparableOrder(x, y);
    ComparableOrder(y, z);
    ComparableOrder(x, z);
    if Cmp(x, y) != Less && Cmp(y, z) != Less {
      AtLeastTransitive(x, y, z);
      if AtLeastAsFresh(z, x) {
        AtLeastTransitive(y, z, x);
        AtLeastTransitive(z, x, y);
      }
    }
  }

  ghost predicate OneStoresAtLeast(t: T.Table, t': T.Table, asked: set<string>) {
    StoresAtLeast(t, t', asked) || StoresAtLeast(t', t, asked)
  }

  lemma AnswersComparable(t: T.Table, t': T.Table, asked: set<string>, tip: nat, tip': nat,
                          r: HintsResponse, r': HintsResponse)
    requires IsAnswer(t, asked, tip, r) && IsAnswer(t', asked, tip', r')
    requires OneStoresAtLeast(t, t', asked)
    ensures Comparable(r, r')
  {
    if StoresAtLeast(t, t', asked) {
      AnswersAtLeast(t, t', asked, tip, tip', r, r');
    } else {
      AnswersAtLeast(t', t, asked, tip', tip, r', r);
    }
  }

  /** Main result. So the answers of relays of which, pairwise, one stores at least what the other does are
      ranked transitively: sorting them is well defined. */
  lemma RelaysRankTransitively(t: T.Table, u: T.Table, v: T.Table, asked: set<string>, i: nat, j: nat, k: nat,
                               x: HintsResponse, y: HintsResponse, z: HintsResponse)
    requires IsAnswer(t, asked, i, x) && IsAnswer(u, asked, j, y) && IsAnswer(v, asked, k, z)
    requires OneStoresAtLeast(t, u, asked) && OneStoresAtLeast(u, v, asked) && OneStoresAtLeast(t, v, asked)
    ensures Cmp(x, y) != Less && Cmp(y, z) != Less ==> Cmp(x, z) != Less
  {
    AnswersComparable(t, u, asked, i, j, x, y);
    AnswersComparable(u, v, asked, j, k, y, z);
    AnswersComparable(t, v, asked, i, k, x, z);
    ComparableTransitive(x, y, z);
  }

  // ---- votes over a larger set of names ------------------------------------------------------------

  lemma HandlesOver(m: Seqs, n: Seqs, all: set<string>)
    requires m.Keys + n.Keys <= all
    ensures Total(HandleVotes(m, n, all)) == Total(HandleVotes(m, n, m.Keys + n.Keys))
  {
    ZerosAddNothing(HandleVotes(m, n, all), HandleVotes(m, n, m.Keys + n.Keys));
  }

  lemma ScoreOver(x: HintsResponse, y: HintsResponse, all: set<string>)
    requires DistinctNames(x.hints) && DistinctNames(y.hints)
    requires NamesOf(x.hints) + NamesOf(y.hints) <= all
    ensures Score(x, y) == Total(SpaceVotes(x.hints, y.hints, all))
  {
    ScoreByName(x, y);
    forall n ensures n !in NamesOf(x.hints) + NamesOf(y.hints) ==> SpaceVote(x.hints, y.hints, n) == 0 {
      FoundIsNamed(x.hints, n);
      FoundIsNamed(y.hints, n);
    }
    ZerosAddNothing(SpaceVotes(x.hints, y.hints, all),
                    SpaceVotes(x.hints, y.hints, NamesOf(x.hints) + NamesOf(y.hints)));
  }

  // ---- fresher throughout is enough ----------------------------------------------------------------

  /** `x` and `y` name the same spaces, and `x` is at least as fresh in everything, the tip included. */
  ghost predicate FresherThroughout(x: HintsResponse, y: HintsResponse) {
    NamesOf(x.hints) == NamesOf(y.hints) && AtLeastAsFresh(x, y) && x.anchorTip >= y.anchorTip
  }

  lemma HandlesMonotone(m: Seqs, n: Seqs, r: Seqs)
    requires HandlesAtLeast(m, n)
    ensures Total(HandleVotes(n, r, n.Keys + r.Keys)) <= Total(HandleVotes(m, r, m.Keys + r.Keys))
  {
    var all := m.Keys + r.Keys;
    assert n.Keys <= m.Keys;
    HandlesOver(n, r, all);
    NoGreater(HandleVotes(n, r, all), HandleVotes(m, r, all));
  }

  lemma PairMonotone(s: SpaceHint, o: SpaceHint, r: SpaceHint)
    requires PairAtLeast(s, o)
    ensures PairVotes(o, r) <= PairVotes(s, r)
  {
    HandlesMonotone(Flattened(s), Flattened(o), Flattened(r));
  }

  lemma SpaceMonotone(x: HintsResponse, y: HintsResponse, z: HintsResponse, n: string)
    requires FresherThroughout(x, y)
    ensures SpaceVote(y.hints, z.hints, n) <= SpaceVote(x.hints, z.hints, n)
  {
    FoundIsNamed(x.hints, n);
    FoundIsNamed(y.hints, n);
    if Find(y.hints, n).Some? && Find(z.hints, n).Some? {
      PairMonotone(Find(x.hints, n).value, Find(y.hints, n).value, Find(z.hints, n).value);
    }
  }

  lemma FresherScoresHigher(x: HintsResponse, y: HintsResponse, z: HintsResponse)
    requires DistinctNames(x.hints) && DistinctNames(y.hints) && DistinctNames(z.hints)
    requires FresherThroughout(x, y)
    ensures Score(y, z) <= Score(x, z)
    ensures Cmp(y, z) != Less ==> Cmp(x, z) != Less
  {
    var all := NamesOf(x.hints) + NamesOf(z.hints);
    ScoreOver(x, z, all);
    ScoreOver(y, z, all);
    forall n | n in all ensures SpaceVote(y.hints, z.hints, n) <= SpaceVote(x.hints, z.hints, n) {
      SpaceMonotone(x, y, z, n);
    }
    NoGreater(SpaceVotes(y.hints, z.hints, all), SpaceVotes(x.hints, z.hints, all));
  }

  /** The same response with more spaces. */
  function Padded(x: HintsResponse, more: seq<SpaceHint>): HintsResponse {
    HintsResponse(x.anchorTip, x.hints + more)
  }

  lemma {:induction false} FindIn(a: seq<SpaceHint>, b: seq<SpaceHint>, n: string)
    ensures Find(a + b, n) == if Find(a, n).Some? then Find(a, n) else Find(b, n)
    decreases |a|
  {
    if a == [] {
      assert a + b == b;
    } else {
      assert (a + b)[1..] == a[1..] + b;
      FindIn(a[1..], b, n);
    }
  }

  lemma PaddedIsFresher(x: HintsResponse, y: HintsResponse, more: seq<SpaceHint>)
    requires FresherThroughout(x, y)
    ensures FresherThroughout(Padded(x, more), Padded(y, more))
  {
    assert forall s :: s in x.hints + more <==> s in x.hints || s in more;
    assert forall s :: s in y.hints + more <==> s in y.hints || s in more;
    assert NamesOf(x.hints + more) == NamesOf(x.hints) + NamesOf(more);
    assert NamesOf(y.hints + more) == NamesOf(y.hints) + NamesOf(more);
    forall n | Find(y.hints + more, n).Some?
      ensures Find(x.hints + more, n).Some?
           && PairAtLeast(Find(x.hints + more, n).value, Find(y.hints + more, n).value)
    {
      FindIn(x.hints, more, n);
      FindIn(y.hints, more, n);
      FoundIsNamed(x.hints, n);
      FoundIsNamed(y.hints, n);
    }
  }

  // ---- and nothing less is -------------------------------------------------------------------------

  /** A number above `a`, and no further above it than `b` if `b` is. */
  function Over(a: nat, b: nat): nat {
    if b > a then b else a + 1
  }

  function SeqOr(m: Seqs, k: string): nat {
    if k in m then m[k] else 0
  }

  function RivalSeqs(m: Seqs, n: Seqs): Seqs {
    map k | k in m.Keys + n.Keys :: Over(SeqOr(m, k), SeqOr(n, k))
  }

  ghost function HintList(m: Seqs): (list: seq<HandleHint>)
    ensures forall h :: h in list <==> h.name in m && h.seqNo == m[h.name]
  {
    if m == map[] then []
    else
      var k :| k in m;
      HintList(m - {k}) + [HandleHint(m[k], k)]
  }

  /** A hint that is fresher than `s` in everything, and fresher than `o` only where `o` is not already
      fresher than `s`. */
  ghost function Rival(s: SpaceHint, o: SpaceHint): SpaceHint {
    SpaceHint(Over(s.epochTip, o.epochTip), s.name, Over(s.seqNo, o.seqNo), Over(s.delegateSeq, o.delegateSeq),
              [EpochResult(0, HintList(RivalSeqs(Flattened(s), Flattened(o))))])
  }

  lemma ListFolds(m: Seqs, list: seq<HandleHint>)
    requires forall k | k in m :: m[k] > 0
    requires forall h :: h in list <==> h.name in m && h.seqNo == m[h.name]
    ensures Folded(list) == m
  {
    FoldedKeepsHighest(list);
    forall k | k in m ensures k in Folded(list) && Folded(list)[k] == m[k] {
      assert HandleHint(m[k], k) in list;
      assert HandleHint(Folded(list)[k], k) in list;
    }
  }

  lemma OneEpoch(list: seq<HandleHint>)
    ensures HintsIn([EpochResult(0, list)]) == list
  {
    var epochs := [EpochResult(0, list)];
    assert epochs[..0] == [];
    assert HintsIn(epochs) == HintsIn(epochs[..0]) + list;
  }

  lemma RivalFlattens(s: SpaceHint, o: SpaceHint)
    ensures Flattened(Rival(s, o)) == RivalSeqs(Flattened(s), Flattened(o))
  {
    var r := RivalSeqs(Flattened(s), Flattened(o));
    OneEpoch(HintList(r));
    ListFolds(r, HintList(r));
  }

  lemma RivalHandles(m: Seqs, n: Seqs)
    requires forall k | k in n :: n[k] > 0
    ensures var r := RivalSeqs(m, n);
      var mine, theirs := Total(HandleVotes(m, r, m.Keys + r.Keys)), Total(HandleVotes(n, r, n.Keys + r.Keys));
      mine <= theirs && mine <= 0 && (!HandlesAtLeast(m, n) ==> mine < theirs)
  {
    var r := RivalSeqs(m, n);
    var all := r.Keys;
    assert m.Keys + r.Keys == all && n.Keys + r.Keys == all;
    var mine, theirs := HandleVotes(m, r, all), HandleVotes(n, r, all);
    assert forall k | k in all :: mine[k] == -1;
    NoGreater(mine, theirs);
    NoGreater(mine, map k | k in all :: 0);
    ZerosAddNothing(map k | k in all :: 0, map[]);
    if !HandlesAtLeast(m, n) {
      var k :| k in n && !(k in m && m[k] >= n[k]);
      assert mine[k] < theirs[k];
    }
  }

  lemma RivalVotes(s: SpaceHint, o: SpaceHint)
    ensures PairVotes(s, Rival(s, o)) <= PairVotes(o, Rival(s, o))
    ensures PairVotes(s, Rival(s, o)) <= -3
    ensures !PairAtLeast(s, o) ==> PairVotes(s, Rival(s, o)) < PairVotes(o, Rival(s, o))
  {
    RivalFlattens(s, o);
    forall k | k in Flattened(o) ensures Flattened(o)[k] > 0 {
      FoldedPositive(HintsIn(o.epochs), k);
    }
    RivalHandles(Flattened(s), Flattened(o));
  }

  function Blank(name: string): SpaceHint {
    SpaceHint(0, name, 0, 0, [])
  }

  ghost function RivalHints(a: seq<SpaceHint>, b: seq<SpaceHint>): seq<SpaceHint> {
    if a == [] then []
    else
      [Rival(a[0], Find(b, a[0].name).GetOr(Blank(a[0].name)))] + RivalHints(a[1..], b)
  }

  lemma {:induction false} RivalFound(a: seq<SpaceHint>, b: seq<SpaceHint>, n: string)
    ensures Find(RivalHints(a, b), n) ==
      match Find(a, n)
      case None => None
      case Some(s) => Some(Rival(s, Find(b, n).GetOr(Blank(n))))
    decreases |a|
  {
    if a != [] && a[0].name != n {
      assert RivalHints(a, b)[1..] == RivalHints(a[1..], b);
      RivalFound(a[1..], b, n);
    }
  }

  lemma {:induction false} RivalNames(a: seq<SpaceHint>, b: seq<SpaceHint>)
    ensures |RivalHints(a, b)| == |a|
    ensures forall i | 0 <= i < |a| :: RivalHints(a, b)[i].name == a[i].name
    decreases |a|
  {
    if a != [] {
      RivalNames(a[1..], b);
    }
  }

  lemma SameNames(a: seq<SpaceHint>, r: seq<SpaceHint>)
    requires |r| == |a| && forall i | 0 <= i < |a| :: r[i].name == a[i].name
    ensures NamesOf(r) == NamesOf(a)
    ensures DistinctNames(a) ==> DistinctNames(r)
  {
    forall n ensures n in NamesOf(r) <==> n in NamesOf(a) {
      if s :| s in r && s.name == n {
        var i :| 0 <= i < |r| && r[i] == s;
        assert a[i] in a;
      }
      if s :| s in a && s.name == n {
        var i :| 0 <= i < |a| && a[i] == s;
        assert r[i] in r;
      }
    }
  }

  lemma RivalSpaceVotes(a: seq<SpaceHint>, b: seq<SpaceHint>, n: string)
    ensures SpaceVote(a, RivalHints(a, b), n) <= SpaceVote(b, RivalHints(a, b), n)
    ensures Find(a, n).Some? != Find(b, n).Some? ==>
      SpaceVote(a, RivalHints(a, b), n) < SpaceVote(b, RivalHints(a, b), n)
    ensures Find(a, n).Some? && Find(b, n).Some? && !PairAtLeast(Find(a, n).value, Find(b, n).value) ==>
      SpaceVote(a, RivalHints(a, b), n) < SpaceVote(b, RivalHints(a, b), n)
  {
    RivalFound(a, b, n);
    if Find(a, n).Some? {
      RivalVotes(Find(a, n).value, Find(b, n).GetOr(Blank(n)));
    }
  }

  lemma RivalScores(x: HintsResponse, y: HintsResponse, tip: nat)
    requires DistinctNames(x.hints) && DistinctNames(y.hints)
    ensures var z := HintsResponse(tip, RivalHints(x.hints, y.hints));
      && DistinctNames(z.hints) && NamesOf(z.hints) == NamesOf(x.hints)
      && Score(x, z) <= Score(y, z)
      && (NamesOf(x.hints) != NamesOf(y.hints) || !AtLeastAsFresh(x, y) ==> Score(x, z) < Score(y, z))
  {
    var a, b := x.hints, y.hints;
    var z := HintsResponse(tip, RivalHints(a, b));
    RivalNames(a, b);
    SameNames(a, z.hints);
    var all := NamesOf(a) + NamesOf(b);
    ScoreOver(x, z, all);
    ScoreOver(y, z, all);
    forall n ensures SpaceVote(a, z.hints, n) <= SpaceVote(b, z.hints, n)
      ensures Find(a, n).Some? != Find(b, n).Some? ==> SpaceVote(a, z.hints, n) < SpaceVote(b, z.hints, n)
      ensures Find(a, n).Some? && Find(b, n).Some? && !PairAtLeast(Find(a, n).value, Find(b, n).value) ==>
        SpaceVote(a, z.hints, n) < SpaceVote(b, z.hints, n)
      ensures Find(a, n).Some? || Find(b, n).Some? ==> n in all
    {
      RivalSpaceVotes(a, b, n);
      FoundIsNamed(a, n);
      FoundIsNamed(b, n);
    }
    NoGreater(SpaceVotes(a, z.hints, all), SpaceVotes(b, z.hints, all));
    if NamesOf(a) != NamesOf(b) || !AtLeastAsFresh(x, y) {
      var n := Difference(x, y);
      assert SpaceVotes(a, z.hints, all)[n] < SpaceVotes(b, z.hints, all)[n];
    }
  }

  /** A space in which `x` is not what `FresherThroughout` asks of it. */
  lemma Difference(x: HintsResponse, y: HintsResponse) returns (n: string)
    requires NamesOf(x.hints) != NamesOf(y.hints) || !AtLeastAsFresh(x, y)
    ensures n in NamesOf(x.hints) + NamesOf(y.hints)
    ensures Find(x.hints, n).Some? != Find(y.hints, n).Some?
         || (Find(x.hints, n).Some? && Find(y.hints, n).Some?
             && !PairAtLeast(Find(x.hints, n).value, Find(y.hints, n).value))
  {
    if NamesOf(x.hints) != NamesOf(y.hints) {
      n :| n in NamesOf(x.hints) + NamesOf(y.hints) && ((n in NamesOf(x.hints)) != (n in NamesOf(y.hints)));
    } else {
      n :| Find(y.hints, n).Some?
        && !(Find(x.hints, n).Some? && PairAtLeast(Find(x.hints, n).value, Find(y.hints, n).value));
    }
    FoundIsNamed(x.hints, n);
    FoundIsNamed(y.hints, n);
  }

  // ---- spaces that one side alone names ------------------------------------------------------------

  ghost predicate NoneNamed(a: seq<SpaceHint>, b: seq<SpaceHint>) {
    NamesOf(a) !! NamesOf(b)
  }

  lemma NoneFound(a: seq<SpaceHint>, b: seq<SpaceHint>, s: SpaceHint)
    requires NoneNamed(a, b) && s in a
    ensures Find(b, s.name) == None
  {
    assert s.name in NamesOf(a);
    FoundIsNamed(b, s.name);
  }

  lemma {:induction false} ForAppended(a: seq<SpaceHint>, p: seq<SpaceHint>, b: seq<SpaceHint>)
    requires NoneNamed(p, b)
    ensures VotesFor(a + p, b) == VotesFor(a, b) + |p|
    decreases |p|
  {
    if p == [] {
      assert a + p == a;
    } else {
      var n := |p| - 1;
      NoneFound(p, b, p[n]);
      assert (a + p)[..|a| + n] == a + p[..n];
      ForAppended(a, p[..n], b);
    }
  }

  lemma {:induction false} AgainstAppended(b: seq<SpaceHint>, a: seq<SpaceHint>, p: seq<SpaceHint>)
    requires NoneNamed(p, b)
    ensures VotesAgainst(b, a + p) == VotesAgainst(b, a)
    decreases |b|
  {
    if b != [] {
      var last := b[|b| - 1];
      assert last in b && last.name in NamesOf(b);
      FoundIsNamed(p, last.name);
      FindIn(a, p, last.name);
      AgainstAppended(b[..|b| - 1], a, p);
    }
  }

  lemma {:induction false} ForUnchanged(a: seq<SpaceHint>, b: seq<SpaceHint>, e: seq<SpaceHint>)
    requires NoneNamed(e, a)
    ensures VotesFor(a, b + e) == VotesFor(a, b)
    decreases |a|
  {
    if a != [] {
      var last := a[|a| - 1];
      assert last in a && last.name in NamesOf(a);
      FoundIsNamed(e, last.name);
      FindIn(b, e, last.name);
      ForUnchanged(a[..|a| - 1], b, e);
    }
  }

  lemma {:induction false} AgainstMore(b: seq<SpaceHint>, e: seq<SpaceHint>, a: seq<SpaceHint>)
    requires NoneNamed(e, a)
    ensures VotesAgainst(b + e, a) == VotesAgainst(b, a) - |e|
    decreases |e|
  {
    if e == [] {
      assert b + e == b;
    } else {
      var n := |e| - 1;
      NoneFound(e, a, e[n]);
      assert (b + e)[..|b| + n] == b + e[..n];
      AgainstMore(b, e[..n], a);
    }
  }

  lemma PaddingWins(x: HintsResponse, more: seq<SpaceHint>, z: HintsResponse)
    requires NoneNamed(more, z.hints)
    ensures Score(Padded(x, more), z) == Score(x, z) + |more|
  {
    ForAppended(x.hints, more, z.hints);
    AgainstAppended(z.hints, x.hints, more);
  }

  lemma PaddingLoses(x: HintsResponse, z: HintsResponse, more: seq<SpaceHint>)
    requires NoneNamed(more, x.hints)
    ensures Score(x, Padded(z, more)) == Score(x, z) - |more|
  {
    ForUnchanged(x.hints, z.hints, more);
    AgainstMore(z.hints, more, x.hints);
  }

  lemma {:induction false} LongerThanAll(names: set<string>) returns (n: nat)
    ensures forall s | s in names :: |s| < n
    decreases |names|
  {
    n := 0;
    if names != {} {
      var s :| s in names;
      n := LongerThanAll(names - {s});
      n := if |s| < n then n else |s| + 1;
    }
  }

  function Spelled(length: nat): (name: string)
    ensures |name| == length
  {
    seq(length, _ => '@')
  }

  function Blanks(n: nat, k: nat): (more: seq<SpaceHint>)
    ensures |more| == k
    ensures forall i | 0 <= i < k :: |more[i].name| == n + i
  {
    if k == 0 then [] else Blanks(n, k - 1) + [Blank(Spelled(n + k - 1))]
  }

  /** Any number of hints for spaces that nobody names. */
  lemma NewSpaces(names: set<string>, k: nat) returns (more: seq<SpaceHint>)
    ensures |more| == k && DistinctNames(more) && NamesOf(more) !! names
  {
    var n := LongerThanAll(names);
    more := Blanks(n, k);
  }

  lemma DistinctTogether(a: seq<SpaceHint>, b: seq<SpaceHint>)
    requires DistinctNames(a) && DistinctNames(b) && NoneNamed(b, a)
    ensures DistinctNames(a + b)
  {
    forall i, j | 0 <= i < j < |a + b| ensures (a + b)[i].name != (a + b)[j].name {
      if i < |a| <= j {
        assert a[i] in a && b[j - |a|] in b;
        assert a[i].name in NamesOf(a) && b[j - |a|].name in NamesOf(b);
      }
    }
  }

  // ---- exactly when --------------------------------------------------------------------------------

  /** Nothing that `y` reaches is out of reach of `x`, in any company: whatever further spaces both name
      alike, and whatever third response they are compared with. */
  ghost predicate Consistent(x: HintsResponse, y: HintsResponse) {
    forall more: seq<SpaceHint>, z: HintsResponse |
      DistinctNames(x.hints + more) && DistinctNames(y.hints + more) && DistinctNames(z.hints)
      && Cmp(Padded(y, more), z) != Less ::
      Cmp(Padded(x, more), z) != Less
  }

  /** A counterexample to consistency, once the third response is at most as far ahead of `x` as of `y`. */
  lemma Breaks(x: HintsResponse, y: HintsResponse, more: seq<SpaceHint>, z: HintsResponse)
    requires DistinctNames(x.hints + more) && DistinctNames(y.hints + more) && DistinctNames(z.hints)
    requires z.anchorTip == y.anchorTip && Score(Padded(y, more), z) == 0
    requires Score(Padded(x, more), z) < 0 || (Score(Padded(x, more), z) == 0 && x.anchorTip < y.anchorTip)
    ensures !Consistent(x, y)
  {
    assert Cmp(Padded(y, more), z) == Equal;
    assert Cmp(Padded(x, more), z) == Less;
  }

  lemma OnlyFresherIsConsistent(x: HintsResponse, y: HintsResponse)
    requires DistinctNames(x.hints) && DistinctNames(y.hints) && !FresherThroughout(x, y)
    ensures !Consistent(x, y)
  {
    RivalScores(x, y, y.anchorTip);
    var z := HintsResponse(y.anchorTip, RivalHints(x.hints, y.hints));
    var v := Score(y, z);
    var names := NamesOf(x.hints) + NamesOf(y.hints);
    if v <= 0 {
      var more := NewSpaces(names, -v);
      DistinctTogether(x.hints, more);
      DistinctTogether(y.hints, more);
      PaddingWins(x, more, z);
      PaddingWins(y, more, z);
      Breaks(x, y, more, z);
    } else {
      var more := NewSpaces(names, v);
      DistinctTogether(z.hints, more);
      PaddingLoses(x, z, more);
      PaddingLoses(y, z, more);
      assert x.hints + [] == x.hints && y.hints + [] == y.hints;
      Breaks(x, y, [], Padded(z, more));
    }
  }

  /** Main result. How far transitivity goes. For a pair `x`, `y`, everything that `y` is ranked at least as
      high as is something that `x` is ranked at least as high as, in any company, if and only if both name
      the same spaces and `x` is at least as fresh in all of them, anchor tip included. Outranking `y`, or
      even naming more than `y` and being as fresh in all that `y` names, is not enough. */
  lemma ConsistentIffFresher(x: HintsResponse, y: HintsResponse)
    requires DistinctNames(x.hints) && DistinctNames(y.hints)
    ensures Consistent(x, y) <==> FresherThroughout(x, y)
  {
    if FresherThroughout(x, y) {
      forall more: seq<SpaceHint>, z: HintsResponse |
        DistinctNames(x.hints + more) && DistinctNames(y.hints + more) && DistinctNames(z.hints)
        && Cmp(Padded(y, more), z) != Less
        ensures Cmp(Padded(x, more), z) != Less
      {
        PaddedIsFresher(x, y, more);
        FresherScoresHigher(Padded(x, more), Padded(y, more), z);
      }
    } else {
      OnlyFresherIsConsistent(x, y);
    }
  }
}
