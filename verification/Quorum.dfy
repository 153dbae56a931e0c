/** Votes on an anchor root: the pinned relays' quorum (`refresh_semi_trusted`) and the choice of the
    latest trust id (`fetch_latest_trust_id`), in the Rust client and in the JavaScript one. */
module Quorum {
  import opened Names
  import opened Sets
  import opened Tables

  /** A relay's signed anchor head. */
  datatype Head = Head(root: Blob, height: nat)

  /** What one relay of the pool contributed: nothing when it is down or its signature is bad. */
  datatype Ballot<+K> = Ballot(url: string, choice: Option<K>)

  datatype Quorum = All | AtLeast(n: nat) | Majority {
    function Required(total: nat): nat {
      match this
      case All => total
      case AtLeast(n) => n
      case Majority => total / 2 + 1
    }
  }

  /** The relays that voted for `k`, in the order of the pool. */
  function Voters<K(==)>(ballots: seq<Ballot<K>>, k: K): seq<string> {
    if ballots == [] then []
    else
      var last := ballots[|ballots| - 1];
      Voters(ballots[..|ballots| - 1], k) + if last.choice == Some(k) then [last.url] else []
  }

  function Verified<K>(ballots: seq<Ballot<K>>): nat {
    if ballots == [] then 0
    else Verified(ballots[..|ballots| - 1]) + if ballots[|ballots| - 1].choice.Some? then 1 else 0
  }

  function RootOf(b: Ballot<Head>): Ballot<Blob> {
    Ballot(b.url, match b.choice case None => None case Some(h) => Some(h.root))
  }

  function ByRoot(ballots: seq<Ballot<Head>>): (roots: seq<Ballot<Blob>>)
    ensures |roots| == |ballots|
  {
    seq(|ballots|, i requires 0 <= i < |ballots| => RootOf(ballots[i]))
  }

  // ---- counting ------------------------------------------------------------------------------------

  lemma {:induction false} VotersAreVerified<K>(ballots: seq<Ballot<K>>, k: K)
    ensures |Voters(ballots, k)| <= Verified(ballots) <= |ballots|
    decreases |ballots|
  {
    if ballots != [] {
      VotersAreVerified(ballots[..|ballots| - 1], k);
    }
  }

  lemma {:induction false} NobodyVotesTwice<K>(ballots: seq<Ballot<K>>, k: K, j: K)
    requires k != j
    ensures |Voters(ballots, k)| + |Voters(ballots, j)| <= Verified(ballots) <= |ballots|
    decreases |ballots|
  {
    if ballots != [] {
      NobodyVotesTwice(ballots[..|ballots| - 1], k, j);
    }
  }

  /** Enough relays of the pool agree on `k`. */
  predicate Agrees<K(==)>(ballots: seq<Ballot<K>>, required: nat, k: K) {
    Voters(ballots, k) != [] && |Voters(ballots, k)| >= required
  }

  /** Under a strict majority at most one root can meet quorum. */
  lemma MajorityIsUnique<K>(ballots: seq<Ballot<K>>, k: K, j: K)
    requires Agrees(ballots, Majority.Required(|ballots|), k) && Agrees(ballots, Majority.Required(|ballots|), j)
    ensures k == j
  {
    if k != j {
      NobodyVotesTwice(ballots, k, j);
    }
  }

  lemma {:induction false} AllAgree<K>(ballots: seq<Ballot<K>>, k: K)
    ensures |Voters(ballots, k)| == |ballots| <==> forall b | b in ballots :: b.choice == Some(k)
    decreases |ballots|
  {
    if ballots != [] {
      AllAgree(ballots[..|ballots| - 1], k);
      VotersAreVerified(ballots[..|ballots| - 1], k);
      assert ballots == ballots[..|ballots| - 1] + [ballots[|ballots| - 1]];
    }
  }

  /** Under `All` one relay that is down or disagrees blocks quorum, and nothing else does. */
  lemma AllMeansEveryRelay<K>(ballots: seq<Ballot<K>>, k: K)
    requires ballots != []
    ensures Agrees(ballots, All.Required(|ballots|), k) <==> forall b | b in ballots :: b.choice == Some(k)
  {
    AllAgree(ballots, k);
    VotersAreVerified(ballots, k);
  }

  function Unanimous<K>(n: nat, k: K): (ballots: seq<Ballot<K>>)
    ensures |ballots| == n
  {
    seq(n, i requires 0 <= i < n => Ballot("", Some(k)))
  }

  lemma {:induction false} VotersConcat<K>(a: seq<Ballot<K>>, b: seq<Ballot<K>>, k: K)
    ensures Voters(a + b, k) == Voters(a, k) + Voters(b, k)
    decreases |b|
  {
    if b == [] {
      assert a + b == a;
    } else {
      var n := |b| - 1;
      assert (a + b)[..|a| + n] == a + b[..n];
      VotersConcat(a, b[..n], k);
    }
  }

  function Least(required: nat): nat {
    if required == 0 then 1 else required
  }

  ghost predicate Unambiguous(total: nat, required: nat) {
    forall ballots: seq<Ballot<bool>>, k, j |
      |ballots| == total && Agrees(ballots, required, k) && Agrees(ballots, required, j) :: k == j
  }

  /** Main result. Which policies leave the winner unambiguous, for a pool of a given size: exactly those
      that ask for more than half of it. `Majority` and `All` do; `AtLeast` does from half the pool on. */
  lemma UnambiguousIffMajority(total: nat, required: nat)
    ensures Unambiguous(total, required) <==> 2 * Least(required) > total
  {
    if 2 * Least(required) > total {
      forall ballots: seq<Ballot<bool>>, k, j |
        |ballots| == total && Agrees(ballots, required, k) && Agrees(ballots, required, j)
        ensures k == j
      {
        if k != j {
          NobodyVotesTwice(ballots, k, j);
        }
      }
    } else {
      Split(total, required);
    }
  }

  lemma Split(total: nat, required: nat)
    requires 2 * Least(required) <= total
    ensures !Unambiguous(total, required)
  {
    var n := Least(required);
    var yes, no := Unanimous(n, true), Unanimous(total - n, false);
    AllAgree(yes, true);
    AllAgree(no, false);
    VotersConcat(yes, no, true);
    VotersConcat(yes, no, false);
    var ballots := yes + no;
    assert |ballots| == total && Agrees(ballots, required, true) && Agrees(ballots, required, false);
  }

  // ---- the tally -----------------------------------------------------------------------------------

  /** What the tally keeps for one root: the height its first voter signed, and its voters. */
  datatype Entry = Entry(height: nat, urls: seq<string>)

  /** `h` is the height the first voter for `root` signed. */
  ghost predicate FirstHeight(ballots: seq<Ballot<Head>>, root: Blob, h: nat) {
    exists i :: 0 <= i < |ballots| && ballots[i].choice == Some(Head(root, h))
      && forall j | 0 <= j < i :: RootOf(ballots[j]).choice != Some(root)
  }

  ghost predicate Tallied(ballots: seq<Ballot<Head>>, votes: map<Blob, Entry>) {
    && (forall r :: r in votes <==> Voters(ByRoot(ballots), r) != [])
    && forall r | r in votes ::
         votes[r].urls == Voters(ByRoot(ballots), r) && FirstHeight(ballots, r, votes[r].height)
  }

  lemma OneMoreBallot(ballots: seq<Ballot<Head>>, i: nat, r: Blob)
    requires i < |ballots|
    ensures Voters(ByRoot(ballots[..i + 1]), r)
         == Voters(ByRoot(ballots[..i]), r) + if RootOf(ballots[i]).choice == Some(r) then [ballots[i].url] else []
  {
    assert ByRoot(ballots[..i + 1])[..i] == ByRoot(ballots[..i]);
  }

  lemma {:induction false} NoVoters(ballots: seq<Ballot<Head>>, i: nat, r: Blob)
    requires i <= |ballots|
    ensures Voters(ByRoot(ballots[..i]), r) == [] <==> forall j | 0 <= j < i :: RootOf(ballots[j]).choice != Some(r)
    decreases i
  {
    if i > 0 {
      NoVoters(ballots, i - 1, r);
      OneMoreBallot(ballots, i - 1, r);
    }
  }

  lemma FirstHeightStays(ballots: seq<Ballot<Head>>, i: nat, r: Blob, h: nat)
    requires i < |ballots| && FirstHeight(ballots[..i], r, h)
    ensures FirstHeight(ballots[..i + 1], r, h)
  {
    var shorter, longer := ballots[..i], ballots[..i + 1];
    var k :| 0 <= k < |shorter| && shorter[k].choice == Some(Head(r, h))
      && forall j | 0 <= j < k :: RootOf(shorter[j]).choice != Some(r);
    assert longer[k] == shorter[k];
    assert forall j | 0 <= j < k :: longer[j] == shorter[j];
  }

  lemma FirstHeightStarts(ballots: seq<Ballot<Head>>, i: nat, r: Blob, h: nat)
    requires i < |ballots| && ballots[i].choice == Some(Head(r, h))
    requires Voters(ByRoot(ballots[..i]), r) == []
    ensures FirstHeight(ballots[..i + 1], r, h)
  {
    NoVoters(ballots, i, r);
    assert forall j | 0 <= j <= i :: ballots[..i + 1][j] == ballots[j];
  }

  /** One vote counted. */
  function Counted(votes: map<Blob, Entry>, head: Head, url: string): map<Blob, Entry> {
    var entry := if head.root in votes then votes[head.root] else Entry(head.height, []);
    votes[head.root := entry.(urls := entry.urls + [url])]
  }

  lemma CountedTallies(ballots: seq<Ballot<Head>>, i: nat, votes: map<Blob, Entry>)
    requires i < |ballots| && ballots[i].choice.Some? && Tallied(ballots[..i], votes)
    ensures Tallied(ballots[..i + 1], Counted(votes, ballots[i].choice.value, ballots[i].url))
  {
    var head := ballots[i].choice.value;
    var after := Counted(votes, head, ballots[i].url);
    forall r ensures r in after <==> Voters(ByRoot(ballots[..i + 1]), r) != [] {
      OneMoreBallot(ballots, i, r);
    }
    forall r | r in after
      ensures after[r].urls == Voters(ByRoot(ballots[..i + 1]), r)
      ensures FirstHeight(ballots[..i + 1], r, after[r].height)
    {
      OneMoreBallot(ballots, i, r);
      if r in votes {
        FirstHeightStays(ballots, i, r, votes[r].height);
      } else {
        FirstHeightStarts(ballots, i, r, head.height);
      }
    }
  }

  lemma SkippedTallies(ballots: seq<Ballot<Head>>, i: nat, votes: map<Blob, Entry>)
    requires i < |ballots| && ballots[i].choice.None? && Tallied(ballots[..i], votes)
    ensures Tallied(ballots[..i + 1], votes)
  {
    forall r ensures Voters(ByRoot(ballots[..i + 1]), r) == Voters(ByRoot(ballots[..i]), r) {
      OneMoreBallot(ballots, i, r);
    }
    forall r | r in votes ensures FirstHeight(ballots[..i + 1], r, votes[r].height) {
      FirstHeightStays(ballots, i, r, votes[r].height);
    }
  }

  method Tally(ballots: seq<Ballot<Head>>) returns (votes: map<Blob, Entry>, verified: nat)
    ensures Tallied(ballots, votes)
    ensures verified == Verified(ballots)
  {
    votes, verified := map[], 0;
    for i := 0 to |ballots|
      invariant Tallied(ballots[..i], votes)
      invariant verified == Verified(ballots[..i])
    {
      assert ballots[..i + 1][..i] == ballots[..i];
      match ballots[i].choice
      case None =>
        SkippedTallies(ballots, i, votes);
      case Some(head) =>
        CountedTallies(ballots, i, votes);
        verified := verified + 1;
        votes := Counted(votes, head, ballots[i].url);
    }
    assert ballots[..|ballots|] == ballots;
  }

  // ---- the winner ----------------------------------------------------------------------------------

  /** Fewer votes, or as many and a lower height. */
  predicate Loses(count: nat, height: nat, count': nat, height': nat) {
    count < count' || (count == count' && height < height')
  }

  /** No entry beats `w`. Among equals any may win: the tally has no order. */
  predicate IsWinner(votes: map<Blob, Entry>, w: Blob) {
    w in votes && forall r | r in votes :: !Loses(|votes[w].urls|, votes[w].height, |votes[r].urls|, votes[r].height)
  }

  method Winner(votes: map<Blob, Entry>) returns (winner: Option<Blob>)
    ensures if votes == map[] then winner == None else winner.Some? && IsWinner(votes, winner.value)
  {
    winner := None;
    var pending := votes.Keys;
    while pending != {}
      invariant pending <= votes.Keys
      invariant winner == None ==> pending == votes.Keys
      invariant winner.Some? ==> winner.value in votes
      invariant winner.Some? ==> forall r | r in votes && r !in pending ::
        !Loses(|votes[winner.value].urls|, votes[winner.value].height, |votes[r].urls|, votes[r].height)
      decreases pending
    {
      var r :| r in pending;
      pending := pending - {r};
      if winner == None
        || Loses(|votes[winner.value].urls|, votes[winner.value].height, |votes[r].urls|, votes[r].height)
      {
        winner := Some(r);
      }
    }
  }

  datatype SemiTrustResult = SemiTrustResult(
    trustId: Option<Blob>, height: Option<nat>, total: nat, verified: nat, agreed: nat, required: nat, quorumMet: bool)

  /** The most votes any root has. */
  ghost predicate MostVotes(ballots: seq<Ballot<Head>>, n: nat) {
    && (forall r :: |Voters(ByRoot(ballots), r)| <= n)
    && (n > 0 ==> exists r :: |Voters(ByRoot(ballots), r)| == n)
  }

  /** `w` won at height `h`: no root has more votes, and none with as many was first signed higher. */
  ghost predicate Won(ballots: seq<Ballot<Head>>, w: Blob, h: nat) {
    && Voters(ByRoot(ballots), w) != [] && FirstHeight(ballots, w, h)
    && forall r, g | Voters(ByRoot(ballots), r) != [] && FirstHeight(ballots, r, g) ::
         !Loses(|Voters(ByRoot(ballots), w)|, h, |Voters(ByRoot(ballots), r)|, g)
  }

  lemma FirstHeightUnique(ballots: seq<Ballot<Head>>, r: Blob, h: nat, g: nat)
    requires FirstHeight(ballots, r, h) && FirstHeight(ballots, r, g)
    ensures h == g
  {
    var i :| 0 <= i < |ballots| && ballots[i].choice == Some(Head(r, h))
      && forall j | 0 <= j < i :: RootOf(ballots[j]).choice != Some(r);
    var k :| 0 <= k < |ballots| && ballots[k].choice == Some(Head(r, g))
      && forall j | 0 <= j < k :: RootOf(ballots[j]).choice != Some(r);
    assert RootOf(ballots[i]).choice == Some(r) && RootOf(ballots[k]).choice == Some(r);
  }

  lemma WinnerWon(ballots: seq<Ballot<Head>>, votes: map<Blob, Entry>, w: Blob)
    requires Tallied(ballots, votes) && IsWinner(votes, w)
    ensures Won(ballots, w, votes[w].height)
    ensures MostVotes(ballots, |votes[w].urls|)
  {
    forall r, g | Voters(ByRoot(ballots), r) != [] && FirstHeight(ballots, r, g)
      ensures !Loses(|Voters(ByRoot(ballots), w)|, votes[w].height, |Voters(ByRoot(ballots), r)|, g)
    {
      FirstHeightUnique(ballots, r, votes[r].height, g);
    }
    forall r ensures |Voters(ByRoot(ballots), r)| <= |votes[w].urls| {
      if r in votes {
        assert !Loses(|votes[w].urls|, votes[w].height, |votes[r].urls|, votes[r].height);
      }
    }
  }

  lemma VerifiedByRoot(ballots: seq<Ballot<Head>>)
    ensures Verified(ByRoot(ballots)) == Verified(ballots)
  {
    VerifiedUpTo(ballots, |ballots|);
    assert ballots[..|ballots|] == ballots;
  }

  lemma {:induction false} VerifiedUpTo(ballots: seq<Ballot<Head>>, n: nat)
    requires n <= |ballots|
    ensures Verified(ByRoot(ballots[..n])) == Verified(ballots[..n])
    decreases n
  {
    if n > 0 {
      VerifiedUpTo(ballots, n - 1);
      assert ballots[..n][..n - 1] == ballots[..n - 1];
      assert ByRoot(ballots[..n])[..n - 1] == ByRoot(ballots[..n - 1]);
    }
  }

  ghost predicate QuorumExists(ballots: seq<Ballot<Head>>, required: nat) {
    exists r :: Agrees(ByRoot(ballots), required, r)
  }

  /** The winner meets quorum exactly when some root does. */
  lemma WinnerDecides(ballots: seq<Ballot<Head>>, required: nat, n: nat)
    requires MostVotes(ballots, n)
    ensures n > 0 && n >= required <==> QuorumExists(ballots, required)
    ensures n <= Verified(ballots) <= |ballots|
  {
    VerifiedByRoot(ballots);
    VotersAreVerified(ByRoot(ballots), []);
    if n > 0 {
      var r :| |Voters(ByRoot(ballots), r)| == n;
      VotersAreVerified(ByRoot(ballots), r);
      assert n >= required ==> Agrees(ByRoot(ballots), required, r);
    }
    if QuorumExists(ballots, required) {
      var r :| Agrees(ByRoot(ballots), required, r);
      assert |Voters(ByRoot(ballots), r)| <= n;
    }
  }

  /** The ballots for a root, counted one by one. */
  function VotesFor(ballots: seq<Ballot<Head>>, root: Blob): nat {
    |set i: nat | i < |ballots| && ballots[i].choice.Some? && ballots[i].choice.value.root == root|
  }

  /** The ballots with a choice at all. */
  function Choices(ballots: seq<Ballot<Head>>): nat {
    |set i: nat | i < |ballots| && ballots[i].choice.Some?|
  }

  lemma {:induction false} VotersOneByOne(ballots: seq<Ballot<Head>>, n: nat, root: Blob)
    requires n <= |ballots|
    ensures |Voters(ByRoot(ballots[..n]), root)| == |set i: nat | i < n && VotesAt(ballots, root)(i)|
    decreases n
  {
    if n > 0 {
      VotersOneByOne(ballots, n - 1, root);
      OneMoreBallot(ballots, n - 1, root);
      CountOneMore(VotesAt(ballots, root), n - 1);
    }
  }

  function VotesAt(ballots: seq<Ballot<Head>>, root: Blob): nat -> bool {
    (i: nat) => i < |ballots| && ballots[i].choice.Some? && ballots[i].choice.value.root == root
  }

  lemma {:induction false} VerifiedOneByOne(ballots: seq<Ballot<Head>>, n: nat)
    requires n <= |ballots|
    ensures Verified(ballots[..n]) == |set i: nat | i < n && ballots[i].choice.Some?|
    decreases n
  {
    if n > 0 {
      VerifiedOneByOne(ballots, n - 1);
      assert ballots[..n][..n - 1] == ballots[..n - 1];
      var chosen := (i: nat) => i < |ballots| && ballots[i].choice.Some?;
      CountOneMore(chosen, n - 1);
      assert (set i: nat | i < n && chosen(i)) == set i: nat | i < n && ballots[i].choice.Some?;
      assert (set i: nat | i < n - 1 && chosen(i)) == set i: nat | i < n - 1 && ballots[i].choice.Some?;
    }
  }

  /** The tally counts one by one. */
  lemma VotersAreCounted(ballots: seq<Ballot<Head>>)
    ensures forall root :: |Voters(ByRoot(ballots), root)| == VotesFor(ballots, root)
    ensures Verified(ballots) == Choices(ballots)
  {
    assert ballots[..|ballots|] == ballots;
    forall root ensures |Voters(ByRoot(ballots), root)| == VotesFor(ballots, root) {
      VotersOneByOne(ballots, |ballots|, root);
      assert (set i: nat | i < |ballots| && VotesAt(ballots, root)(i))
          == set i: nat | i < |ballots| && ballots[i].choice.Some? && ballots[i].choice.value.root == root;
    }
    VerifiedOneByOne(ballots, |ballots|);
  }

  lemma QuorumIsCounted(ballots: seq<Ballot<Head>>, required: nat)
    ensures forall root :: |Voters(ByRoot(ballots), root)| == VotesFor(ballots, root)
    ensures Verified(ballots) == Choices(ballots)
    ensures QuorumExists(ballots, required) <==>
      exists root :: VotesFor(ballots, root) >= 1 && VotesFor(ballots, root) >= required
  {
    VotersAreCounted(ballots);
    if root :| VotesFor(ballots, root) >= 1 && VotesFor(ballots, root) >= required {
      assert Agrees(ByRoot(ballots), required, root);
    }
    if QuorumExists(ballots, required) {
      var root :| Agrees(ByRoot(ballots), required, root);
      assert VotesFor(ballots, root) >= 1;
    }
  }

  /** Ballot `i` is the first for `root`. */
  predicate FirstFor(ballots: seq<Ballot<Head>>, root: Blob, i: nat) {
    && i < |ballots| && ballots[i].choice.Some? && ballots[i].choice.value.root == root
    && forall j: nat | j < i && ballots[j].choice.Some? :: ballots[j].choice.value.root != root
  }

  lemma FirstHeightMeans(ballots: seq<Ballot<Head>>, root: Blob, h: nat)
    ensures FirstHeight(ballots, root, h) <==>
      exists i: nat :: FirstFor(ballots, root, i) && ballots[i].choice.value.height == h
    ensures FirstHeight(ballots, root, h) ==> VotesFor(ballots, root) > 0
  {
    if i: nat :| FirstFor(ballots, root, i) && ballots[i].choice.value.height == h {
      assert forall j | 0 <= j < i :: RootOf(ballots[j]).choice != Some(root);
    }
    if FirstHeight(ballots, root, h) {
      var i :| 0 <= i < |ballots| && ballots[i].choice == Some(Head(root, h))
        && forall j | 0 <= j < i :: RootOf(ballots[j]).choice != Some(root);
      forall j: nat | j < i && ballots[j].choice.Some? ensures ballots[j].choice.value.root != root {
        assert RootOf(ballots[j]).choice != Some(root);
      }
      assert FirstFor(ballots, root, i);
      var voting := set k: nat | k < |ballots| && ballots[k].choice.Some? && ballots[k].choice.value.root == root;
      assert i in voting;
      assert VotesFor(ballots, root) == |voting|;
    }
  }

  /** What it takes to win: some ballots, the height of the first of them, and no root with more ballots, nor
      one with as many whose first ballot is higher. */
  lemma WonMeans(ballots: seq<Ballot<Head>>, w: Blob, h: nat)
    ensures Won(ballots, w, h) <==>
      && (exists i: nat :: FirstFor(ballots, w, i) && ballots[i].choice.value.height == h)
      && forall r, i: nat | FirstFor(ballots, r, i) ::
           || VotesFor(ballots, r) < VotesFor(ballots, w)
           || (VotesFor(ballots, r) == VotesFor(ballots, w) && ballots[i].choice.value.height <= h)
  {
    VotersAreCounted(ballots);
    forall r, g: nat
      ensures FirstHeight(ballots, r, g) <==>
        exists i: nat :: FirstFor(ballots, r, i) && ballots[i].choice.value.height == g
      ensures FirstHeight(ballots, r, g) ==> Voters(ByRoot(ballots), r) != []
    {
      FirstHeightMeans(ballots, r, g);
    }
    forall r, i: nat | FirstFor(ballots, r, i) ensures FirstHeight(ballots, r, ballots[i].choice.value.height) {
    }
  }

  /** The client's semi-trusted source. */
  class SemiTrust {
    const quorum: Quorum
    var semiTrusted: Option<Blob>

    constructor (quorum: Quorum)
      ensures this.quorum == quorum && semiTrusted == None
    {
      this.quorum, semiTrusted := quorum, None;
    }

    /** One refresh over the ballots of the whole pool. `serves` says whether the anchors of a root can
        be fetched. Quorum is reported exactly when enough relays agree on some root; then the root
        reported and pinned is a winner of the vote. In every other case nothing is unpinned. */
    method Refresh(ballots: seq<Ballot<Head>>, serves: Blob -> bool) returns (result: Result<SemiTrustResult>)
      modifies this`semiTrusted
      ensures result.Success? ==>
        var r := result.value;
        && r.total == |ballots| && r.verified == Verified(ballots) && r.required == quorum.Required(|ballots|)
        && MostVotes(ballots, r.agreed) && r.agreed <= r.verified <= r.total
        && (r.quorumMet <==> QuorumExists(ballots, r.required))
      ensures result.Success? && result.value.quorumMet ==>
        var r := result.value;
        && r.trustId.Some? && r.height.Some? && Won(ballots, r.trustId.value, r.height.value)
        && Agrees(ByRoot(ballots), r.required, r.trustId.value)
        && semiTrusted == r.trustId && serves(r.trustId.value)
      ensures result.Success? && !result.value.quorumMet ==>
        semiTrusted == old(semiTrusted) == result.value.trustId && result.value.height == None
      ensures result.Success? ==>
        var r := result.value;
        && r.verified == Choices(ballots)
        && r.required == (if quorum.All? then |ballots| else if quorum.AtLeast? then quorum.n else |ballots| / 2 + 1)
        && (r.quorumMet <==> exists root :: VotesFor(ballots, root) >= 1 && VotesFor(ballots, root) >= r.required)
        && (forall root :: VotesFor(ballots, root) <= r.agreed)
        && (r.quorumMet ==> VotesFor(ballots, r.trustId.value) == r.agreed)
      ensures result.Failure? ==> semiTrusted == old(semiTrusted)
      ensures result.Failure? ==>
        QuorumExists(ballots, quorum.Required(|ballots|))
        && (exists w, h :: Won(ballots, w, h) && !serves(w))
    {
      var votes, verified := Tally(ballots);
      var winner := Winner(votes);
      var required := quorum.Required(|ballots|);
      var agreed := match winner case None => 0 case Some(w) => |votes[w].urls|;
      if winner.Some? {
        WinnerWon(ballots, votes, winner.value);
      }
      WinnerDecides(ballots, required, agreed);
      QuorumIsCounted(ballots, required);
      if agreed > 0 && agreed >= required {
        if !serves(winner.value) {
          return Failure("anchors not served");
        }
        semiTrusted := winner;
        var height := Some(votes[winner.value].height);
        result := Success(SemiTrustResult(winner, height, |ballots|, verified, agreed, required, true));
      } else {
        result := Success(SemiTrustResult(semiTrusted, None, |ballots|, verified, agreed, required, false));
      }
    }
  }

  // ---- the latest trust id -------------------------------------------------------------------------

  /** Answers to `HEAD /anchors`, by (root, height). */
  type Answers = map<Head, seq<string>>

  /** The Rust client's choice: most relays, then the greater height. */
  predicate IsLatest(votes: Answers, best: Head) {
    best in votes && forall h | h in votes :: !Loses(|votes[best]|, best.height, |votes[h]|, h.height)
  }

  const MILLION: nat := 1_000_000

  function Score(count: nat, height: nat): nat {
    count * MILLION + height
  }

  /** The JavaScript client's choice: the highest score. */
  predicate HasBestScore(votes: Answers, best: Head) {
    best in votes && forall h | h in votes :: Score(|votes[h]|, h.height) <= Score(|votes[best]|, best.height)
  }

  /** `fetchLatestTrustId`: the first entry of the highest score, in the order the map is walked. */
  method LatestByScore(votes: Answers) returns (best: Option<Head>)
    ensures if votes == map[] then best == None else best.Some? && HasBestScore(votes, best.value)
    ensures best.Some? ==> forall h | h in votes ::
      |votes[h]| * 1_000_000 + h.height <= |votes[best.value]| * 1_000_000 + best.value.height
  {
    best := None;
    var bestScore: int := -1;
    var pending := votes.Keys;
    while pending != {}
      invariant pending <= votes.Keys
      invariant best == None ==> pending == votes.Keys && bestScore == -1
      invariant best.Some? ==> best.value in votes && bestScore == Score(|votes[best.value]|, best.value.height)
      invariant forall h | h in votes && h !in pending :: Score(|votes[h]|, h.height) <= bestScore
      decreases pending
    {
      var h :| h in pending;
      pending := pending - {h};
      var score := Score(|votes[h]|, h.height);
      if score > bestScore {
        best, bestScore := Some(h), score;
      }
    }
  }

  lemma ScoreIsOrder(count: nat, height: nat, count': nat, height': nat)
    requires height < MILLION && height' < MILLION
    ensures Score(count, height) < Score(count', height') <==> Loses(count, height, count', height')
  {
  }

  /** The score orders every pair of candidates of at most this height as the Rust client does. */
  ghost predicate ScoreFaithful(bound: nat) {
    forall c: nat, h: nat, c': nat, h': nat | h <= bound && h' <= bound ::
      Loses(c, h, c', h') <==> Score(c, h) < Score(c', h')
  }

  /** Main result. The two clients rank candidates alike exactly while block heights stay below one
      million: at height 1,000,000 a single relay already ties with two. */
  lemma ScoreFaithfulIff(bound: nat)
    ensures ScoreFaithful(bound) <==> bound < 1_000_000
  {
    if bound >= MILLION {
      assert Loses(1, MILLION, 2, 0) && !(Score(1, MILLION) < Score(2, 0));
    }
  }

  /** Below that height both clients accept exactly the same winners. */
  lemma ClientsAgree(votes: Answers, best: Head)
    requires forall h | h in votes :: h.height < MILLION
    ensures IsLatest(votes, best) <==> HasBestScore(votes, best)
    ensures IsLatest(votes, best) <==> best in votes && forall h | h in votes ::
      |votes[h]| < |votes[best]| || (|votes[h]| == |votes[best]| && h.height <= best.height)
  {
    if best in votes {
      forall h | h in votes
        ensures Score(|votes[best]|, best.height) < Score(|votes[h]|, h.height)
           <==> Loses(|votes[best]|, best.height, |votes[h]|, h.height)
      {
        ScoreIsOrder(|votes[best]|, best.height, |votes[h]|, h.height);
      }
    }
  }

  /** Past it they can disagree: two relays at height 0 against one at height 1,000,001. */
  lemma ClientsDisagree(low: Head, high: Head, a: string, b: string, c: string)
    requires low.height == 0 && high.height == MILLION + 1
    ensures var votes := map[low := [a, b], high := [c]];
      IsLatest(votes, low) && !HasBestScore(votes, low) && HasBestScore(votes, high)
  {
    var votes := map[low := [a, b], high := [c]];
    assert low in votes && high in votes && |votes[low]| == 2 && |votes[high]| == 1;
  }
}
