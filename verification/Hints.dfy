/** Freshness hints: what a relay answers about a set of handles (relay/src/handler.rs, `hints`), and how
    a client ranks two answers (fabric/rust/src/lib.rs, `Ord for HintsResponse`). */
module Hints {
  import opened Names
  import T = Tables
  import Pages
  import opened Totals

  datatype HandleHint = HandleHint(seqNo: nat, name: string)

  datatype EpochResult = EpochResult(epoch: nat, res: seq<HandleHint>)

  datatype SpaceHint = SpaceHint(epochTip: nat, name: string, seqNo: nat, delegateSeq: nat, epochs: seq<EpochResult>)

  datatype HintsResponse = HintsResponse(anchorTip: nat, hints: seq<SpaceHint>)

  datatype Order = Less | Equal | Greater {
    function Reverse(): Order {
      match this
      case Less => Greater
      case Equal => Equal
      case Greater => Less
    }
  }

  // ---- flattening the epochs of a space ------------------------------------------------------------

  type Seqs = map<string, nat>

  /** Every hint of a space, epoch by epoch. */
  function HintsIn(epochs: seq<EpochResult>): seq<HandleHint> {
    if epochs == [] then [] else HintsIn(epochs[..|epochs| - 1]) + epochs[|epochs| - 1].res
  }

  function Raised(m: Seqs, h: HandleHint): Seqs {
    if h.seqNo > (if h.name in m then m[h.name] else 0) then m[h.name := h.seqNo] else m
  }

  function Folded(hints: seq<HandleHint>): Seqs {
    if hints == [] then map[] else Raised(Folded(hints[..|hints| - 1]), hints[|hints| - 1])
  }

  /** `flatten_handles`. */
  function Flattened(space: SpaceHint): Seqs {
    Folded(HintsIn(space.epochs))
  }

  lemma {:induction false} FoldedIsListed(hints: seq<HandleHint>, n: string)
    requires n in Folded(hints)
    ensures HandleHint(Folded(hints)[n], n) in hints
    decreases |hints|
  {
    var front, last := hints[..|hints| - 1], hints[|hints| - 1];
    assert hints == front + [last];
    if n in Folded(front) {
      FoldedIsListed(front, n);
    }
  }

  lemma {:induction false} FoldedIsHighest(hints: seq<HandleHint>, h: HandleHint)
    requires h in hints && h.seqNo > 0
    ensures h.name in Folded(hints) && h.seqNo <= Folded(hints)[h.name]
    decreases |hints|
  {
    var front, last := hints[..|hints| - 1], hints[|hints| - 1];
    assert hints == front + [last];
    if h in front {
      FoldedIsHighest(front, h);
    }
  }

  /** What flattening keeps: the highest number of each handle, over all epochs; a handle whose numbers
      are all 0 is not there at all. */
  lemma {:induction false} FoldedKeepsHighest(hints: seq<HandleHint>)
    ensures forall n :: n in Folded(hints) <==> exists h :: h in hints && h.name == n && h.seqNo > 0
    ensures forall n | n in Folded(hints) :: HandleHint(Folded(hints)[n], n) in hints
    ensures forall h | h in hints && h.seqNo > 0 :: h.name in Folded(hints) && h.seqNo <= Folded(hints)[h.name]
  {
    forall h | h in hints && h.seqNo > 0 ensures h.name in Folded(hints) && h.seqNo <= Folded(hints)[h.name] {
      FoldedIsHighest(hints, h);
    }
    forall n | n in Folded(hints)
      ensures HandleHint(Folded(hints)[n], n) in hints
      ensures exists h :: h in hints && h.name == n && h.seqNo > 0
    {
      FoldedIsListed(hints, n);
      FoldedPositive(hints, n);
    }
  }

  lemma {:induction false} FoldedPositive(hints: seq<HandleHint>, n: string)
    requires n in Folded(hints)
    ensures Folded(hints)[n] > 0
    decreases |hints|
  {
    var front := hints[..|hints| - 1];
    if n in Folded(front) {
      FoldedPositive(front, n);
    }
  }

  /** Neither the order of the hints nor how they are grouped into epochs matters. */
  lemma FoldedIgnoresOrder(a: seq<HandleHint>, b: seq<HandleHint>)
    requires forall h :: h in a <==> h in b
    ensures Folded(a) == Folded(b)
  {
    FoldedKeepsHighest(a);
    FoldedKeepsHighest(b);
    forall n ensures n in Folded(a) <==> n in Folded(b) {}
    forall n | n in Folded(a) ensures Folded(a)[n] == Folded(b)[n] {
      FoldedPositive(a, n);
      FoldedPositive(b, n);
      assert HandleHint(Folded(a)[n], n) in b && HandleHint(Folded(b)[n], n) in a;
    }
  }

  /** One more hint after those of `front` and the first `k` of `res`. */
  lemma OneMoreHint(front: seq<HandleHint>, res: seq<HandleHint>, k: nat)
    requires k < |res|
    ensures Folded(front + res[..k + 1]) == Raised(Folded(front + res[..k]), res[k])
  {
    var more := front + res[..k + 1];
    assert more[..|more| - 1] == front + res[..k];
  }

  lemma OneMoreEpoch(epochs: seq<EpochResult>, e: nat)
    requires e < |epochs|
    ensures HintsIn(epochs[..e + 1]) == HintsIn(epochs[..e]) + epochs[e].res
  {
    assert epochs[..e + 1][..e] == epochs[..e];
  }

  method FlattenEpoch(m0: Seqs, res: seq<HandleHint>, ghost front: seq<HandleHint>) returns (m: Seqs)
    requires m0 == Folded(front)
    ensures m == Folded(front + res)
  {
    m := m0;
    assert front + res[..0] == front;
    for k := 0 to |res|
      invariant m == Folded(front + res[..k])
    {
      OneMoreHint(front, res, k);
      var existing := if res[k].name in m then m[res[k].name] else 0;
      if res[k].seqNo > existing {
        m := m[res[k].name := res[k].seqNo];
      }
    }
    assert res[..|res|] == res;
  }

  method Flatten(space: SpaceHint) returns (m: Seqs)
    ensures m == Flattened(space)
  {
    m := map[];
    for e := 0 to |space.epochs|
      invariant m == Folded(HintsIn(space.epochs[..e]))
    {
      OneMoreEpoch(space.epochs, e);
      m := FlattenEpoch(m, space.epochs[e].res, HintsIn(space.epochs[..e]));
    }
    assert space.epochs[..|space.epochs|] == space.epochs;
  }

  // ---- votes ---------------------------------------------------------------------------------------

  /** `cmp_score`. */
  function CmpScore(a: nat, b: nat): int {
    if a > b then 1 else if a < b then -1 else 0
  }

  function HandleVote(m: Seqs, n: Seqs, k: string): int {
    if k in m then if k in n then CmpScore(m[k], n[k]) else 1
    else if k in n then -1 else 0
  }

  ghost function HandleVotes(m: Seqs, n: Seqs, s: set<string>): map<string, int> {
    map k | k in s :: HandleVote(m, n, k)
  }

  /** Two hints for the same space: three counters and every handle either knows. */
  ghost function PairVotes(s: SpaceHint, o: SpaceHint): int {
    CmpScore(s.epochTip, o.epochTip) + CmpScore(s.seqNo, o.seqNo) + CmpScore(s.delegateSeq, o.delegateSeq)
      + Total(HandleVotes(Flattened(s), Flattened(o), Flattened(s).Keys + Flattened(o).Keys))
  }

  /** The first hint of a name. */
  function Find(hints: seq<SpaceHint>, name: string): (found: Option<SpaceHint>)
    ensures found.Some? ==> found.value in hints && found.value.name == name
    ensures found.None? ==> forall s | s in hints :: s.name != name
  {
    if hints == [] then None
    else if hints[0].name == name then Some(hints[0])
    else Find(hints[1..], name)
  }

  ghost function VotesFor(a: seq<SpaceHint>, b: seq<SpaceHint>): int {
    if a == [] then 0
    else
      var last := a[|a| - 1];
      VotesFor(a[..|a| - 1], b)
        + match Find(b, last.name) case None => 1 case Some(o) => PairVotes(last, o)
  }

  ghost function VotesAgainst(b: seq<SpaceHint>, a: seq<SpaceHint>): int {
    if b == [] then 0
    else VotesAgainst(b[..|b| - 1], a) - if Find(a, b[|b| - 1].name).None? then 1 else 0
  }

  ghost function Score(x: HintsResponse, y: HintsResponse): int {
    VotesFor(x.hints, y.hints) + VotesAgainst(y.hints, x.hints)
  }

  function Sign(n: int): Order {
    if n > 0 then Greater else if n < 0 then Less else Equal
  }

  /** `Ord::cmp`: the sum of the votes, and the anchor tips on a tie. */
  ghost function Cmp(x: HintsResponse, y: HintsResponse): Order {
    if Score(x, y) != 0 then Sign(Score(x, y)) else Sign(x.anchorTip - y.anchorTip)
  }

  lemma OneMoreHandle(m: Seqs, n: Seqs, s: set<string>, k: string)
    requires k !in s
    ensures Total(HandleVotes(m, n, s + {k})) == Total(HandleVotes(m, n, s)) + HandleVote(m, n, k)
  {
    PutIn(HandleVotes(m, n, s), k, HandleVote(m, n, k));
    assert HandleVotes(m, n, s + {k}) == HandleVotes(m, n, s)[k := HandleVote(m, n, k)];
  }

  /** The votes of the handles, walking both maps in whatever order they have. */
  method CountHandles(m: Seqs, n: Seqs) returns (score: int)
    ensures score == Total(HandleVotes(m, n, m.Keys + n.Keys))
  {
    score := 0;
    var pending := m.Keys;
    while pending != {}
      invariant pending <= m.Keys
      invariant score == Total(HandleVotes(m, n, m.Keys - pending))
      decreases pending
    {
      var k :| k in pending;
      OneMoreHandle(m, n, m.Keys - pending, k);
      assert m.Keys - pending + {k} == m.Keys - (pending - {k});
      score := score + if k in n then CmpScore(m[k], n[k]) else 1;
      pending := pending - {k};
    }
    assert m.Keys - {} == m.Keys + {};
    pending := n.Keys;
    ghost var counted: set<string> := {};
    while pending != {}
      invariant pending <= n.Keys && counted == n.Keys - pending
      invariant score == Total(HandleVotes(m, n, m.Keys + counted))
      decreases pending
    {
      var k :| k in pending;
      if k !in m {
        OneMoreHandle(m, n, m.Keys + counted, k);
        score := score - 1;
      }
      assert m.Keys + (counted + {k}) == if k in m then m.Keys + counted else m.Keys + counted + {k};
      counted := counted + {k};
      pending := pending - {k};
    }
    assert counted == n.Keys;
  }

  method CountPair(s: SpaceHint, o: SpaceHint) returns (score: int)
    ensures score == PairVotes(s, o)
  {
    var mine := Flatten(s);
    var theirs := Flatten(o);
    var handles := CountHandles(mine, theirs);
    score := CmpScore(s.epochTip, o.epochTip) + CmpScore(s.seqNo, o.seqNo) + CmpScore(s.delegateSeq, o.delegateSeq)
      + handles;
  }

  method Compare(x: HintsResponse, y: HintsResponse) returns (order: Order)
    ensures order == Cmp(x, y)
    ensures order == Greater <==> Score(x, y) > 0 || (Score(x, y) == 0 && x.anchorTip > y.anchorTip)
    ensures order == Less <==> Score(x, y) < 0 || (Score(x, y) == 0 && x.anchorTip < y.anchorTip)
  {
    var score := 0;
    for i := 0 to |x.hints|
      invariant score == VotesFor(x.hints[..i], y.hints)
    {
      assert x.hints[..i + 1][..i] == x.hints[..i];
      match Find(y.hints, x.hints[i].name)
      case None => score := score + 1;
      case Some(other) =>
        var votes := CountPair(x.hints[i], other);
        score := score + votes;
    }
    assert x.hints[..|x.hints|] == x.hints;
    ghost var votesFor := score;
    for j := 0 to |y.hints|
      invariant score == votesFor + VotesAgainst(y.hints[..j], x.hints)
    {
      assert y.hints[..j + 1][..j] == y.hints[..j];
      if Find(x.hints, y.hints[j].name).None? {
        score := score - 1;
      }
    }
    assert y.hints[..|y.hints|] == y.hints;
    order := if score != 0 then Sign(score) else Sign(x.anchorTip - y.anchorTip);
  }

  // ---- the votes by name ---------------------------------------------------------------------------

  ghost predicate DistinctNames(hints: seq<SpaceHint>) {
    forall i, j | 0 <= i < j < |hints| :: hints[i].name != hints[j].name
  }

  ghost function NamesOf(hints: seq<SpaceHint>): set<string> {
    set s | s in hints :: s.name
  }

  ghost function SpaceVote(a: seq<SpaceHint>, b: seq<SpaceHint>, name: string): int {
    match Find(a, name)
    case Some(s) => (match Find(b, name) case Some(o) => PairVotes(s, o) case None => 1)
    case None => if Find(b, name).Some? then -1 else 0
  }

  ghost function SpaceVotes(a: seq<SpaceHint>, b: seq<SpaceHint>, names: set<string>): map<string, int> {
    map n | n in names :: SpaceVote(a, b, n)
  }

  lemma OneMoreSpace(a: seq<SpaceHint>, b: seq<SpaceHint>, names: set<string>, n: string)
    requires n !in names
    ensures Total(SpaceVotes(a, b, names + {n})) == Total(SpaceVotes(a, b, names)) + SpaceVote(a, b, n)
  {
    PutIn(SpaceVotes(a, b, names), n, SpaceVote(a, b, n));
    assert SpaceVotes(a, b, names + {n}) == SpaceVotes(a, b, names)[n := SpaceVote(a, b, n)];
  }

  lemma OneMoreName(hints: seq<SpaceHint>, n: nat)
    requires n < |hints|
    ensures NamesOf(hints[..n + 1]) == NamesOf(hints[..n]) + {hints[n].name}
  {
    assert hints[..n + 1] == hints[..n] + [hints[n]];
  }

  lemma FindsItself(hints: seq<SpaceHint>, i: nat)
    requires DistinctNames(hints) && i < |hints|
    ensures Find(hints, hints[i].name) == Some(hints[i])
    ensures hints[i].name !in NamesOf(hints[..i])
  {
    assert hints[i] in hints;
    forall s | s in hints[..i] ensures s.name != hints[i].name {
      var k :| 0 <= k < i && hints[k] == s;
    }
  }

  lemma OneMoreFor(a: seq<SpaceHint>, b: seq<SpaceHint>, n: nat)
    requires DistinctNames(a) && n < |a|
    ensures VotesFor(a[..n + 1], b) == VotesFor(a[..n], b) + SpaceVote(a, b, a[n].name)
  {
    FindsItself(a, n);
    assert a[..n + 1][..n] == a[..n];
  }

  lemma ForStep(a: seq<SpaceHint>, b: seq<SpaceHint>, n: nat)
    requires DistinctNames(a) && n < |a|
    ensures Total(SpaceVotes(a, b, NamesOf(a[..n + 1])))
         == Total(SpaceVotes(a, b, NamesOf(a[..n]))) + SpaceVote(a, b, a[n].name)
  {
    FindsItself(a, n);
    OneMoreName(a, n);
    OneMoreSpace(a, b, NamesOf(a[..n]), a[n].name);
  }

  lemma {:induction false} ForByName(a: seq<SpaceHint>, b: seq<SpaceHint>, n: nat)
    requires DistinctNames(a) && n <= |a|
    ensures VotesFor(a[..n], b) == Total(SpaceVotes(a, b, NamesOf(a[..n])))
    decreases n
  {
    if n == 0 {
      assert SpaceVotes(a, b, NamesOf(a[..0])) == map[];
    } else {
      ForByName(a, b, n - 1);
      ForStep(a, b, n - 1);
      OneMoreFor(a, b, n - 1);
    }
  }

  /** The votes by name, over the spaces of `a` and the first `n` of `b`. */
  ghost function UpTo(a: seq<SpaceHint>, b: seq<SpaceHint>, n: nat): int
    requires n <= |b|
  {
    Total(SpaceVotes(a, b, NamesOf(a) + NamesOf(b[..n])))
  }

  lemma {:induction false} AgainstByName(a: seq<SpaceHint>, b: seq<SpaceHint>, n: nat)
    requires DistinctNames(a) && DistinctNames(b) && n <= |b|
    ensures UpTo(a, b, n) == UpTo(a, b, 0) + VotesAgainst(b[..n], a)
    decreases n
  {
    if n == 0 {
      assert VotesAgainst(b[..0], a) == 0;
    } else {
      AgainstByName(a, b, n - 1);
      AgainstStep(a, b, n - 1);
      OneMoreAgainst(b, a, n - 1);
    }
  }

  lemma OneMoreAgainst(b: seq<SpaceHint>, a: seq<SpaceHint>, n: nat)
    requires n < |b|
    ensures VotesAgainst(b[..n + 1], a) == VotesAgainst(b[..n], a) - if Find(a, b[n].name).None? then 1 else 0
  {
    assert b[..n + 1][..n] == b[..n];
  }

  lemma AgainstStep(a: seq<SpaceHint>, b: seq<SpaceHint>, n: nat)
    requires DistinctNames(b) && n < |b|
    ensures UpTo(a, b, n + 1) == UpTo(a, b, n) - if Find(a, b[n].name).None? then 1 else 0
  {
    FindsItself(b, n);
    OneMoreName(b, n);
    var names := NamesOf(a) + NamesOf(b[..n]);
    assert NamesOf(a) + (NamesOf(b[..n]) + {b[n].name}) == names + {b[n].name};
    if Find(a, b[n].name).None? {
      OneMoreSpace(a, b, names, b[n].name);
    } else {
      assert names + {b[n].name} == names;
    }
  }

  /** With no name twice, the score is one vote per space either side names. */
  lemma ScoreByName(x: HintsResponse, y: HintsResponse)
    requires DistinctNames(x.hints) && DistinctNames(y.hints)
    ensures Score(x, y) == Total(SpaceVotes(x.hints, y.hints, NamesOf(x.hints) + NamesOf(y.hints)))
  {
    var a, b := x.hints, y.hints;
    ForByName(a, b, |a|);
    AgainstByName(a, b, |b|);
    assert a[..|a|] == a && b[..|b|] == b;
    assert NamesOf(a) + NamesOf(b[..0]) == NamesOf(a);
  }

  // ---- what a vote is ------------------------------------------------------------------------------

  /** The handles on which `m` is ahead: known to it alone, or with a higher number. */
  function HandlesAhead(m: Seqs, n: Seqs): set<string> {
    set k | k in m && (k !in n || m[k] > n[k])
  }

  function OneIf(ahead: bool): nat {
    if ahead then 1 else 0
  }

  /** How many components of a space `s` is ahead on: its epoch, its two numbers and each handle. */
  function Leads(s: SpaceHint, o: SpaceHint): nat {
    OneIf(s.epochTip > o.epochTip) + OneIf(s.seqNo > o.seqNo) + OneIf(s.delegateSeq > o.delegateSeq)
      + |HandlesAhead(Flattened(s), Flattened(o))|
  }

  lemma OneMoreCommon(a: set<string>, s: set<string>, k: string)
    requires k !in s
    ensures |a * (s + {k})| == |a * s| + OneIf(k in a)
  {
    if k in a {
      assert a * (s + {k}) == a * s + {k};
    } else {
      assert a * (s + {k}) == a * s;
    }
  }

  lemma {:induction false} HandleVotesCount(m: Seqs, n: Seqs, s: set<string>)
    ensures Total(HandleVotes(m, n, s)) == |HandlesAhead(m, n) * s| - |HandlesAhead(n, m) * s|
    decreases |s|
  {
    if s == {} {
      assert HandleVotes(m, n, s) == map[];
      assert HandlesAhead(m, n) * s == {} && HandlesAhead(n, m) * s == {};
    } else {
      var k :| k in s;
      var rest := s - {k};
      assert s == rest + {k};
      HandleVotesCount(m, n, rest);
      OneMoreHandle(m, n, rest, k);
      OneMoreCommon(HandlesAhead(m, n), rest, k);
      OneMoreCommon(HandlesAhead(n, m), rest, k);
    }
  }

  /** One vote for each lead in a space that both name; one vote for a space that one alone names. */
  ghost function LeadIn(a: seq<SpaceHint>, b: seq<SpaceHint>, name: string): int {
    match (Find(a, name), Find(b, name))
    case (Some(s), Some(o)) => Leads(s, o) - Leads(o, s)
    case (Some(_), None) => 1
    case (None, Some(_)) => -1
    case (None, None) => 0
  }

  /** Main result. The score is a count: one for each component in which the first answer is ahead, less one for
      each in which the second is. The components of a space that both name are its epoch, its two numbers
      and its handles, each counted once; a space that one alone names counts one whatever is in it. */
  lemma ScoreCountsLeads(x: HintsResponse, y: HintsResponse)
    requires DistinctNames(x.hints) && DistinctNames(y.hints)
    ensures Score(x, y) == Total(map n | n in NamesOf(x.hints) + NamesOf(y.hints) :: LeadIn(x.hints, y.hints, n))
  {
    ScoreByName(x, y);
    var names := NamesOf(x.hints) + NamesOf(y.hints);
    forall n | n in names ensures SpaceVote(x.hints, y.hints, n) == LeadIn(x.hints, y.hints, n) {
      if Find(x.hints, n).Some? && Find(y.hints, n).Some? {
        PairCountsLeads(Find(x.hints, n).value, Find(y.hints, n).value);
      }
    }
    assert SpaceVotes(x.hints, y.hints, names) == map n | n in names :: LeadIn(x.hints, y.hints, n);
  }

  lemma PairCountsLeads(s: SpaceHint, o: SpaceHint)
    ensures PairVotes(s, o) == Leads(s, o) - Leads(o, s)
  {
    var m, n := Flattened(s), Flattened(o);
    HandleVotesCount(m, n, m.Keys + n.Keys);
    assert HandlesAhead(m, n) * (m.Keys + n.Keys) == HandlesAhead(m, n);
    assert HandlesAhead(n, m) * (m.Keys + n.Keys) == HandlesAhead(n, m);
  }

  // ---- comparing the other way round ---------------------------------------------------------------

  lemma PairReverses(s: SpaceHint, o: SpaceHint)
    ensures PairVotes(o, s) == -PairVotes(s, o)
  {
    var m, n := Flattened(s), Flattened(o);
    assert m.Keys + n.Keys == n.Keys + m.Keys;
    Negated(HandleVotes(m, n, m.Keys + n.Keys), HandleVotes(n, m, n.Keys + m.Keys));
  }

  lemma SpaceReverses(a: seq<SpaceHint>, b: seq<SpaceHint>, n: string)
    ensures SpaceVote(b, a, n) == -SpaceVote(a, b, n)
  {
    if Find(a, n).Some? && Find(b, n).Some? {
      PairReverses(Find(a, n).value, Find(b, n).value);
    }
  }

  /** Main result. For responses that name no space twice, comparing the other way round gives the
      reverse order, whatever order the maps were walked in. */
  lemma CmpReverses(x: HintsResponse, y: HintsResponse)
    requires DistinctNames(x.hints) && DistinctNames(y.hints)
    ensures Cmp(y, x) == Cmp(x, y).Reverse()
  {
    ScoreByName(x, y);
    ScoreByName(y, x);
    var names := NamesOf(x.hints) + NamesOf(y.hints);
    assert NamesOf(y.hints) + NamesOf(x.hints) == names;
    SpacesReverse(x.hints, y.hints, names);
  }

  lemma SpacesReverse(a: seq<SpaceHint>, b: seq<SpaceHint>, names: set<string>)
    ensures Total(SpaceVotes(b, a, names)) == -Total(SpaceVotes(a, b, names))
  {
    forall n | n in names ensures SpaceVote(b, a, n) == -SpaceVote(a, b, n) {
      SpaceReverses(a, b, n);
    }
    Negated(SpaceVotes(a, b, names), SpaceVotes(b, a, names));
  }

  // ---- dominance -----------------------------------------------------------------------------------

  ghost predicate HandlesAtLeast(m: Seqs, n: Seqs) {
    forall k | k in n :: k in m && m[k] >= n[k]
  }

  ghost predicate PairAtLeast(s: SpaceHint, o: SpaceHint) {
    && s.epochTip >= o.epochTip && s.seqNo >= o.seqNo && s.delegateSeq >= o.delegateSeq
    && HandlesAtLeast(Flattened(s), Flattened(o))
  }

  /** `x` names every space `y` does, and is at least as fresh in each component. */
  ghost predicate AtLeastAsFresh(x: HintsResponse, y: HintsResponse) {
    forall n | Find(y.hints, n).Some? ::
      Find(x.hints, n).Some? && PairAtLeast(Find(x.hints, n).value, Find(y.hints, n).value)
  }

  lemma {:induction false} ZeroMeansAllZero(m: map<string, int>)
    requires forall k | k in m :: m[k] >= 0
    ensures Total(m) >= 0
    ensures Total(m) == 0 <==> forall k | k in m :: m[k] == 0
    decreases |m|
  {
    if m != map[] {
      var k :| k in m;
      TakeOut(m, k);
      ZeroMeansAllZero(m - {k});
      assert forall j | j in m :: j == k || j in m - {k};
      assert forall j | j in m - {k} :: j in m && (m - {k})[j] == m[j];
    }
  }

  lemma HandlesDominate(m: Seqs, n: Seqs)
    requires HandlesAtLeast(m, n)
    ensures var total := Total(HandleVotes(m, n, m.Keys + n.Keys));
      total >= 0 && (total == 0 <==> HandlesAtLeast(n, m))
  {
    var votes := HandleVotes(m, n, m.Keys + n.Keys);
    ZeroMeansAllZero(votes);
    if forall k | k in votes :: votes[k] == 0 {
      forall k | k in m ensures k in n && n[k] >= m[k] {
        assert votes[k] == 0;
      }
    }
  }

  lemma PairDominates(s: SpaceHint, o: SpaceHint)
    requires PairAtLeast(s, o)
    ensures PairVotes(s, o) >= 0
    ensures PairVotes(s, o) == 0 <==> PairAtLeast(o, s)
  {
    HandlesDominate(Flattened(s), Flattened(o));
  }

  lemma SpaceDominates(x: HintsResponse, y: HintsResponse, n: string)
    requires AtLeastAsFresh(x, y)
    ensures SpaceVote(x.hints, y.hints, n) >= 0
    ensures SpaceVote(x.hints, y.hints, n) == 0 <==>
      (Find(x.hints, n).Some? ==>
         Find(y.hints, n).Some? && PairAtLeast(Find(y.hints, n).value, Find(x.hints, n).value))
  {
    if Find(y.hints, n).Some? {
      PairDominates(Find(x.hints, n).value, Find(y.hints, n).value);
    }
  }

  lemma FoundIsNamed(hints: seq<SpaceHint>, n: string)
    ensures Find(hints, n).Some? <==> n in NamesOf(hints)
  {
  }

  /** Main result. A response that is at least as fresh in every component never ranks lower, and ranks
      higher as soon as one component is strictly fresher; the anchor tip decides only between responses
      that agree in all of them. */
  lemma FresherRanksHigher(x: HintsResponse, y: HintsResponse)
    requires DistinctNames(x.hints) && DistinctNames(y.hints)
    requires AtLeastAsFresh(x, y)
    ensures Cmp(x, y) == if AtLeastAsFresh(y, x) then Sign(x.anchorTip - y.anchorTip) else Greater
  {
    ScoreByName(x, y);
    var names := NamesOf(x.hints) + NamesOf(y.hints);
    var votes := SpaceVotes(x.hints, y.hints, names);
    forall n ensures SpaceVote(x.hints, y.hints, n) >= 0
      ensures SpaceVote(x.hints, y.hints, n) == 0 <==>
        (Find(x.hints, n).Some? ==>
           Find(y.hints, n).Some? && PairAtLeast(Find(y.hints, n).value, Find(x.hints, n).value))
      ensures Find(x.hints, n).Some? ==> n in names
    {
      SpaceDominates(x, y, n);
      FoundIsNamed(x.hints, n);
    }
    ZeroMeansAllZero(votes);
    if forall n | n in votes :: votes[n] == 0 {
      forall n | Find(x.hints, n).Some?
        ensures Find(y.hints, n).Some? && PairAtLeast(Find(y.hints, n).value, Find(x.hints, n).value)
      {
        assert votes[n] == 0;
      }
    }
  }

  // ---- what the order is not -----------------------------------------------------------------------

  function Plain(epochTip: nat, seqNo: nat, delegateSeq: nat): SpaceHint {
    SpaceHint(epochTip, "@a", seqNo, delegateSeq, [])
  }

  lemma PlainVotes(s: SpaceHint, o: SpaceHint)
    requires s.epochs == [] && o.epochs == []
    ensures PairVotes(s, o)
         == CmpScore(s.epochTip, o.epochTip) + CmpScore(s.seqNo, o.seqNo) + CmpScore(s.delegateSeq, o.delegateSeq)
  {
    assert HandleVotes(Flattened(s), Flattened(o), Flattened(s).Keys + Flattened(o).Keys) == map[];
  }

  lemma SingleScore(s: SpaceHint, o: SpaceHint, t: nat)
    requires s.name == o.name
    ensures Score(HintsResponse(t, [s]), HintsResponse(t, [o])) == PairVotes(s, o)
  {
    assert [s][..0] == [] && [o][..0] == [];
    assert Find([o], s.name) == Some(o) && Find([s], o.name) == Some(s);
    assert VotesFor([s], [o]) == VotesFor([], [o]) + PairVotes(s, o);
    assert VotesAgainst([o], [s]) == VotesAgainst([], [s]);
  }

  /** The order is not transitive: three responses, each ranking above the next, in a circle. */
  lemma RankingCycles() returns (x: HintsResponse, y: HintsResponse, z: HintsResponse)
    ensures DistinctNames(x.hints) && DistinctNames(y.hints) && DistinctNames(z.hints)
    ensures Cmp(x, y) == Greater && Cmp(y, z) == Greater && Cmp(z, x) == Greater
  {
    var a, b, c := Plain(1, 2, 3), Plain(3, 1, 2), Plain(2, 3, 1);
    x, y, z := HintsResponse(0, [a]), HintsResponse(0, [b]), HintsResponse(0, [c]);
    PlainVotes(a, b);
    PlainVotes(b, c);
    PlainVotes(c, a);
    SingleScore(a, b, 0);
    SingleScore(b, c, 0);
    SingleScore(c, a, 0);
  }

  /** With a name twice in one response, both directions can rank above: the second hint counts one way
      only. */
  lemma RepeatedNameBreaksReversal() returns (x: HintsResponse, y: HintsResponse)
    ensures DistinctNames(y.hints)
    ensures Cmp(x, y) == Greater && Cmp(y, x) == Greater
  {
    var low, mid, high := Plain(0, 0, 0), Plain(1, 1, 1), Plain(2, 2, 2);
    x, y := HintsResponse(0, [low, high, high]), HintsResponse(0, [mid]);
    PlainVotes(low, mid);
    PlainVotes(high, mid);
    PlainVotes(mid, low);
    var three, two, one := [low, high, high], [low, high], [low];
    assert three[..2] == two && two[..1] == one && one[..0] == [];
    assert VotesFor(three, [mid]) == VotesFor(two, [mid]) + 3;
    assert VotesFor(two, [mid]) == VotesFor(one, [mid]) + 3;
    assert VotesFor(one, [mid]) == VotesFor([], [mid]) - 3;
    assert [mid][..0] == [];
    assert VotesAgainst([mid], three) == 0;
    assert VotesFor([mid], three) == 3;
    assert VotesAgainst(three, [mid]) == VotesAgainst(two, [mid]) == VotesAgainst(one, [mid]) == 0;
  }

  // ---- what a relay answers ------------------------------------------------------------------------

  predicate EndsWith(s: string, suffix: string) {
    |suffix| <= |s| && s[|s| - |suffix|..] == suffix
  }

  predicate IsSpace(handle: string) {
    handle != "" && IsMarker(handle[0])
  }

  predicate Under(handle: string, space: string) {
    EndsWith(handle, space) && handle != space
  }

  function HintOf(t: T.Table, h: string): HandleHint
    requires h in t
  {
    HandleHint(t[h].offchainSeq, h)
  }

  /** The hint of a space is its row. It lists exactly the requested rows under the space, by epoch, and
      flattening it gives back their numbers, but for those with number 0. */
  ghost predicate Describes(t: T.Table, asked: set<string>, hint: SpaceHint) {
    && hint.name in t
    && hint.epochTip == t[hint.name].epochHeight
    && hint.seqNo == t[hint.name].offchainSeq
    && hint.delegateSeq == t[hint.name].delegateSeq
    && Flattened(hint) ==
         (map h | h in asked && h in t && Under(h, hint.name) && t[h].offchainSeq > 0 :: t[h].offchainSeq)
    && (forall x :: x in HintsIn(hint.epochs) <==>
          x.name in asked && x.name in t && Under(x.name, hint.name) && x == HintOf(t, x.name))
    && ByEpoch(t, hint.epochs)
  }

  /** One group per epoch, each holding handles of its own epoch only. */
  ghost predicate ByEpoch(t: T.Table, epochs: seq<EpochResult>) {
    && (forall i, j | 0 <= i < j < |epochs| :: epochs[i].epoch != epochs[j].epoch)
    && forall i, h | 0 <= i < |epochs| && h in epochs[i].res ::
         h.name in t && t[h.name].epochHeight == epochs[i].epoch
  }

  ghost predicate IsAnswer(t: T.Table, asked: set<string>, tip: nat, r: HintsResponse) {
    && r.anchorTip == tip
    && DistinctNames(r.hints)
    && (forall n :: n in NamesOf(r.hints) <==> n in asked && n in t && IsSpace(n))
    && forall s | s in r.hints :: Describes(t, asked, s)
  }

  lemma {:induction false} InSomeEpoch(epochs: seq<EpochResult>, h: HandleHint)
    ensures h in HintsIn(epochs) <==> exists i :: 0 <= i < |epochs| && h in epochs[i].res
    decreases |epochs|
  {
    if epochs != [] {
      var front := epochs[..|epochs| - 1];
      InSomeEpoch(front, h);
      if i :| 0 <= i < |front| && h in front[i].res {
        assert h in epochs[i].res;
      }
      if i :| 0 <= i < |epochs| && h in epochs[i].res {
        assert i < |front| ==> h in front[i].res;
      }
    }
  }

  /** Put a row's hint into the group of its epoch, making the group if need be. */
  method File(epochs: seq<EpochResult>, epoch: nat, hint: HandleHint, ghost t: T.Table) returns (more: seq<EpochResult>)
    requires ByEpoch(t, epochs) && hint.name in t && t[hint.name].epochHeight == epoch
    ensures ByEpoch(t, more)
    ensures forall h :: h in HintsIn(more) <==> h in HintsIn(epochs) || h == hint
  {
    var i := 0;
    while i < |epochs| && epochs[i].epoch != epoch
      invariant i <= |epochs| && forall k | 0 <= k < i :: epochs[k].epoch != epoch
    {
      i := i + 1;
    }
    more := if i == |epochs| then epochs + [EpochResult(epoch, [])] else epochs;
    more := more[i := EpochResult(epoch, more[i].res + [hint])];
    forall h ensures h in HintsIn(more) <==> h in HintsIn(epochs) || h == hint {
      InSomeEpoch(epochs, h);
      InSomeEpoch(more, h);
      FiledMembers(epochs, more, i, hint, h);
    }
  }

  lemma FiledMembers(epochs: seq<EpochResult>, more: seq<EpochResult>, i: nat, hint: HandleHint, h: HandleHint)
    requires i <= |epochs| && |more| == if i == |epochs| then i + 1 else |epochs|
    requires forall k | 0 <= k < |epochs| && k != i :: more[k] == epochs[k]
    requires more[i].res == (if i < |epochs| then epochs[i].res else []) + [hint]
    ensures (exists k :: 0 <= k < |more| && h in more[k].res) <==>
      ((exists k :: 0 <= k < |epochs| && h in epochs[k].res) || h == hint)
  {
    if k :| 0 <= k < |epochs| && h in epochs[k].res {
      assert h in more[k].res;
    }
    if h == hint {
      assert h in more[i].res;
    }
    if k :| 0 <= k < |more| && h in more[k].res {
      assert k == i || h in epochs[k].res;
    }
  }

  lemma FlattensTo(t: T.Table, asked: set<string>, space: string, epochs: seq<EpochResult>)
    requires forall x :: x in HintsIn(epochs) <==>
      x.name in asked && x.name in t && Under(x.name, space) && x == HintOf(t, x.name)
    ensures Folded(HintsIn(epochs)) ==
      map h | h in asked && h in t && Under(h, space) && t[h].offchainSeq > 0 :: t[h].offchainSeq
  {
    FoldedKeepsHighest(HintsIn(epochs));
    var m := Folded(HintsIn(epochs));
    forall h | h in asked && h in t && Under(h, space) && t[h].offchainSeq > 0
      ensures h in m && m[h] == t[h].offchainSeq
    {
      assert HintOf(t, h) in HintsIn(epochs);
      assert HandleHint(m[h], h) in HintsIn(epochs);
    }
  }

  /** The hint of one space from the rows found. */
  method HintFor(t: T.Table, rows: seq<string>, space: string, ghost asked: set<string>) returns (hint: SpaceHint)
    requires space in t
    requires forall h :: h in rows <==> h in asked && h in t
    ensures hint.name == space && Describes(t, asked, hint)
  {
    var epochs := [];
    for i := 0 to |rows|
      invariant ByEpoch(t, epochs)
      invariant forall x :: x in HintsIn(epochs) <==>
        x.name in rows[..i] && Under(x.name, space) && x == HintOf(t, x.name)
    {
      var h := rows[i];
      assert rows[..i + 1] == rows[..i] + [h];
      if Under(h, space) {
        epochs := File(epochs, t[h].epochHeight, HintOf(t, h), t);
      }
    }
    assert rows[..|rows|] == rows;
    FlattensTo(t, asked, space, epochs);
    hint := SpaceHint(t[space].epochHeight, space, t[space].offchainSeq, t[space].delegateSeq, epochs);
  }

  /** The rows of the handles asked for. */
  method RowsFor(t: T.Table, handles: seq<string>) returns (rows: seq<string>)
    ensures forall h :: h in rows <==> h in handles && h in t
  {
    rows := [];
    for i := 0 to |handles|
      invariant forall h :: h in rows <==> h in handles[..i] && h in t
    {
      assert handles[..i + 1] == handles[..i] + [handles[i]];
      if handles[i] in t {
        rows := rows + [handles[i]];
      }
    }
    assert handles[..|handles|] == handles;
  }

  method HasRepeat(handles: seq<string>) returns (yes: bool)
    ensures yes <==> !Pages.NoRepeats(handles)
  {
    var seen := {};
    for i := 0 to |handles|
      invariant forall h :: h in seen <==> h in handles[..i]
      invariant Pages.NoRepeats(handles[..i])
    {
      if handles[i] in seen {
        var k :| 0 <= k < i && handles[k] == handles[i];
        return true;
      }
      seen := seen + {handles[i]};
    }
    assert handles[..|handles|] == handles;
    yes := false;
  }

  /** `hints`: refuses a request that asks for a handle twice; otherwise answers for every space that was
      asked for by name and is stored. So the answers of relays never name a space twice, and
      `CmpReverses` and `FresherRanksHigher` apply to them. */
  method Answer(t: T.Table, tip: nat, handles: seq<string>) returns (r: Result<HintsResponse>)
    ensures r.Success? <==> Pages.NoRepeats(handles)
    ensures r.Success? ==> IsAnswer(t, (set h | h in handles), tip, r.value)
  {
    var refused := HasRepeat(handles);
    if refused {
      return Failure("duplicate handle");
    }
    ghost var asked := set h | h in handles;
    var rows := RowsFor(t, handles);
    var hints := [];
    for i := 0 to |handles|
      invariant DistinctNames(hints)
      invariant forall n :: n in NamesOf(hints) <==> n in handles[..i] && n in t && IsSpace(n)
      invariant forall s | s in hints :: Describes(t, asked, s)
    {
      assert handles[..i + 1] == handles[..i] + [handles[i]];
      if IsSpace(handles[i]) && handles[i] in t {
        assert handles[i] !in handles[..i];
        var hint := HintFor(t, rows, handles[i], asked);
        NamesGrow(hints, hint);
        hints := hints + [hint];
      }
    }
    assert handles[..|handles|] == handles;
    r := Success(HintsResponse(tip, hints));
  }

  /** What an answer shows of one space: the space was asked for and is stored, and begins with a marker; its
      epoch and its two numbers are those of its row. */
  lemma AnswerShows(t: T.Table, asked: set<string>, tip: nat, r: HintsResponse, n: string)
    requires IsAnswer(t, asked, tip, r)
    ensures r.anchorTip == tip
    ensures (exists s :: s in r.hints && s.name == n) <==>
      n in asked && n in t && |n| > 0 && (n[0] == '@' || n[0] == '#')
    ensures forall s | s in r.hints && s.name == n ::
      n in t && s.epochTip == t[n].epochHeight && s.seqNo == t[n].offchainSeq && s.delegateSeq == t[n].delegateSeq
  {
    if s :| s in r.hints && s.name == n {
      var i :| 0 <= i < |r.hints| && r.hints[i] == s;
      assert n in NamesOf(r.hints);
    }
  }

  /** And below it: the handles asked for and stored whose names end in that of the space, with their numbers,
      each under its own epoch. */
  lemma AnswerLists(t: T.Table, asked: set<string>, tip: nat, r: HintsResponse, s: SpaceHint, x: HandleHint)
    requires IsAnswer(t, asked, tip, r) && s in r.hints
    ensures (exists e :: e in s.epochs && x in e.res) <==>
      && x.name in asked && x.name in t && x.seqNo == t[x.name].offchainSeq
      && |x.name| > |s.name| && x.name[|x.name| - |s.name|..] == s.name
    ensures forall e | e in s.epochs && x in e.res :: x.name in t && e.epoch == t[x.name].epochHeight
  {
    assert Describes(t, asked, s);
    InSomeEpoch(s.epochs, x);
    if e :| e in s.epochs && x in e.res {
      var i :| 0 <= i < |s.epochs| && s.epochs[i] == e;
    }
    if i :| 0 <= i < |s.epochs| && x in s.epochs[i].res {
      assert s.epochs[i] in s.epochs;
    }
    forall e | e in s.epochs && x in e.res ensures x.name in t && e.epoch == t[x.name].epochHeight {
      var i :| 0 <= i < |s.epochs| && s.epochs[i] == e;
    }
  }

  /** What `t'` stores of the handles asked for, `t` stores at least as fresh. */
  ghost predicate StoresAtLeast(t: T.Table, t': T.Table, asked: set<string>) {
    forall h | h in asked && h in t' ::
      && h in t && t[h].offchainSeq >= t'[h].offchainSeq
      && (IsSpace(h) ==> t[h].epochHeight >= t'[h].epochHeight && t[h].delegateSeq >= t'[h].delegateSeq)
  }

  /** So its answer is at least as fresh. */
  lemma AnswersAtLeast(t: T.Table, t': T.Table, asked: set<string>, tip: nat, tip': nat,
                       r: HintsResponse, r': HintsResponse)
    requires IsAnswer(t, asked, tip, r) && IsAnswer(t', asked, tip', r')
    requires StoresAtLeast(t, t', asked)
    ensures AtLeastAsFresh(r, r')
  {
    forall n | Find(r'.hints, n).Some?
      ensures Find(r.hints, n).Some? && PairAtLeast(Find(r.hints, n).value, Find(r'.hints, n).value)
    {
      FoundIsNamed(r'.hints, n);
      FoundIsNamed(r.hints, n);
      AnswerAtLeast(t, t', asked, Find(r.hints, n).value, Find(r'.hints, n).value);
    }
  }

  /** Main result. Of two relays asked the same thing, one that stores everything the other does and at
      least as fresh is never ranked below it, and is ranked above unless the other matches it in every
      component the answers show. */
  lemma FresherRelayRanksHigher(t: T.Table, t': T.Table, asked: set<string>, tip: nat, tip': nat,
                                r: HintsResponse, r': HintsResponse)
    requires IsAnswer(t, asked, tip, r) && IsAnswer(t', asked, tip', r')
    requires StoresAtLeast(t, t', asked)
    ensures Cmp(r, r') == if AtLeastAsFresh(r', r) then Sign(tip - tip') else Greater
  {
    AnswersAtLeast(t, t', asked, tip, tip', r, r');
    FresherRanksHigher(r, r');
  }

  lemma AnswerAtLeast(t: T.Table, t': T.Table, asked: set<string>, s: SpaceHint, o: SpaceHint)
    requires s.name == o.name && s.name in asked && IsSpace(s.name)
    requires Describes(t, asked, s) && Describes(t', asked, o)
    requires StoresAtLeast(t, t', asked)
    ensures PairAtLeast(s, o)
  {
  }

  lemma NamesGrow(hints: seq<SpaceHint>, hint: SpaceHint)
    ensures NamesOf(hints + [hint]) == NamesOf(hints) + {hint.name}
    ensures forall i | 0 <= i < |hints| :: hints[i].name in NamesOf(hints)
  {
  }
}
