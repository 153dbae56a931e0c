/** Exactly when comparing two hint responses the other way round gives the reverse order
    (fabric/rust/src/lib.rs, `Ord for HintsResponse`). */
module Reversal {
  import opened Names
  import opened Hints
  import opened Ranking

  /** Compared with any response that names no space twice, `x` gives the reverse the other way round. */
  ghost predicate Reverses(x: HintsResponse) {
    forall y: HintsResponse | DistinctNames(y.hints) :: Cmp(y, x) == Cmp(x, y).Reverse()
  }

  /** A hint that nothing can be behind. */
  ghost predicate IsBlank(s: SpaceHint) {
    s.epochTip == 0 && s.seqNo == 0 && s.delegateSeq == 0 && Flattened(s) == map[]
  }

  /** All hints are blank and for one space. */
  ghost predicate OneBlankName(hints: seq<SpaceHint>) {
    forall i | 0 <= i < |hints| :: hints[i].name == hints[0].name && IsBlank(hints[i])
  }

  // ---- a response of one hint ----------------------------------------------------------------------

  /** The votes of the hints of `a` for the space of `o`, every repeat included. */
  ghost function RepeatVotes(a: seq<SpaceHint>, o: SpaceHint): int {
    if a == [] then 0
    else
      var last := a[|a| - 1];
      RepeatVotes(a[..|a| - 1], o) + if last.name == o.name then PairVotes(last, o) else 0
  }

  /** How many hints are for other spaces. */
  function Others(a: seq<SpaceHint>, name: string): nat {
    if a == [] then 0
    else Others(a[..|a| - 1], name) + if a[|a| - 1].name == name then 0 else 1
  }

  function Only(tip: nat, o: SpaceHint): HintsResponse {
    HintsResponse(tip, [o])
  }

  lemma OnlyFound(o: SpaceHint, name: string)
    ensures Find([o], name) == if o.name == name then Some(o) else None
  {
  }

  lemma {:induction false} ForAgainstOne(a: seq<SpaceHint>, o: SpaceHint)
    ensures VotesFor(a, [o]) == RepeatVotes(a, o) + Others(a, o.name)
    ensures VotesAgainst(a, [o]) == 0 - Others(a, o.name)
    decreases |a|
  {
    if a != [] {
      ForAgainstOne(a[..|a| - 1], o);
      OnlyFound(o, a[|a| - 1].name);
    }
  }

  /** The score of a response against a single hint, and of that hint against the response: of several
      hints for its space all count one way, and the first counts the other way. */
  lemma ScoresOfOne(x: HintsResponse, tip: nat, o: SpaceHint)
    requires Find(x.hints, o.name).Some?
    ensures Score(x, Only(tip, o)) == RepeatVotes(x.hints, o) + Others(x.hints, o.name)
    ensures Score(Only(tip, o), x) == PairVotes(o, Find(x.hints, o.name).value) - Others(x.hints, o.name)
  {
    ForAgainstOne(x.hints, o);
    assert [o][..0] == [];
    assert VotesFor([o], x.hints) == VotesFor([], x.hints) + PairVotes(o, Find(x.hints, o.name).value);
    assert VotesAgainst([o], x.hints) == VotesAgainst([], x.hints);
  }

  // ---- the votes of repeats ------------------------------------------------------------------------

  lemma {:induction false} RepeatsConcat(a: seq<SpaceHint>, b: seq<SpaceHint>, o: SpaceHint)
    ensures RepeatVotes(a + b, o) == RepeatVotes(a, o) + RepeatVotes(b, o)
    decreases |b|
  {
    if b == [] {
      assert a + b == a;
    } else {
      assert (a + b)[..|a| + |b| - 1] == a + b[..|b| - 1];
      RepeatsConcat(a, b[..|b| - 1], o);
    }
  }

  lemma {:induction false} NoRepeatVotes(a: seq<SpaceHint>, o: SpaceHint)
    requires forall i | 0 <= i < |a| :: a[i].name != o.name
    ensures RepeatVotes(a, o) == 0
    decreases |a|
  {
    if a != [] {
      NoRepeatVotes(a[..|a| - 1], o);
    }
  }

  ghost predicate NoneBehind(a: seq<SpaceHint>, o: SpaceHint) {
    forall i | 0 <= i < |a| && a[i].name == o.name :: PairVotes(a[i], o) >= 0
  }

  ghost predicate NoneAhead(a: seq<SpaceHint>, o: SpaceHint) {
    forall i | 0 <= i < |a| && a[i].name == o.name :: PairVotes(a[i], o) <= 0
  }

  lemma {:induction false} RepeatsAhead(a: seq<SpaceHint>, o: SpaceHint)
    requires NoneBehind(a, o)
    ensures RepeatVotes(a, o) >= 0
    ensures (exists i :: 0 <= i < |a| && a[i].name == o.name && PairVotes(a[i], o) > 0) ==> RepeatVotes(a, o) > 0
    decreases |a|
  {
    if a != [] {
      RepeatsAhead(a[..|a| - 1], o);
      assert forall i | 0 <= i < |a| - 1 :: a[..|a| - 1][i] == a[i];
    }
  }

  lemma {:induction false} RepeatsBehind(a: seq<SpaceHint>, o: SpaceHint)
    requires NoneAhead(a, o)
    ensures RepeatVotes(a, o) <= 0
    ensures (exists i :: 0 <= i < |a| && a[i].name == o.name && PairVotes(a[i], o) < 0) ==> RepeatVotes(a, o) < 0
    decreases |a|
  {
    if a != [] {
      RepeatsBehind(a[..|a| - 1], o);
      assert forall i | 0 <= i < |a| - 1 :: a[..|a| - 1][i] == a[i];
    }
  }

  /** Nothing is behind a blank hint, and only blank hints are level with it. */
  lemma BlankIsLast(s: SpaceHint, o: SpaceHint)
    requires IsBlank(o)
    ensures PairVotes(s, o) >= 0 && PairVotes(o, s) <= 0
    ensures PairVotes(s, o) == 0 <==> IsBlank(s)
    ensures PairVotes(o, s) == 0 <==> IsBlank(s)
  {
    PairDominates(s, o);
    PairReverses(s, o);
    assert HandlesAtLeast(map[], Flattened(s)) <==> Flattened(s) == map[] by {
      if Flattened(s) != map[] {
        var k :| k in Flattened(s);
      }
    }
  }

  /** Blank hints all get the same votes from any other. */
  lemma BlanksAlike(s: SpaceHint, b: SpaceHint, o: SpaceHint)
    requires IsBlank(s) && IsBlank(b)
    ensures PairVotes(s, o) == PairVotes(b, o)
  {
  }

  // ---- what is enough ------------------------------------------------------------------------------

  lemma {:induction false} OnlyFindsMatter(y: seq<SpaceHint>, a: seq<SpaceHint>, b: seq<SpaceHint>)
    requires forall n :: Find(a, n) == Find(b, n)
    ensures VotesFor(y, a) == VotesFor(y, b) && VotesAgainst(y, a) == VotesAgainst(y, b)
    decreases |y|
  {
    if y != [] {
      OnlyFindsMatter(y[..|y| - 1], a, b);
    }
  }

  lemma FirstCounts(a: seq<SpaceHint>)
    requires a != [] && forall i | 0 <= i < |a| :: a[i].name == a[0].name
    ensures forall n :: Find(a, n) == Find([a[0]], n)
  {
    forall n ensures Find(a, n) == Find([a[0]], n) {
      OnlyFound(a[0], n);
    }
  }

  /** The votes of blank hints for one space, against a response that does not name it. */
  lemma {:induction false} UnopposedBlanks(a: seq<SpaceHint>, name: string, y: seq<SpaceHint>)
    requires forall i | 0 <= i < |a| :: a[i].name == name
    requires Find(y, name) == None
    ensures VotesFor(a, y) == |a| && VotesAgainst(a, y) == 0 - |a|
    decreases |a|
  {
    if a != [] {
      UnopposedBlanks(a[..|a| - 1], name, y);
    }
  }

  /** And against one that does. */
  lemma {:induction false} OpposedBlanks(a: seq<SpaceHint>, name: string, y: seq<SpaceHint>, b: SpaceHint, o: SpaceHint)
    requires forall i | 0 <= i < |a| :: a[i].name == name && IsBlank(a[i])
    requires IsBlank(b) && Find(y, name) == Some(o)
    ensures VotesFor(a, y) <= 0 && VotesAgainst(a, y) == 0
    ensures VotesFor(a, y) == 0 <==> a == [] || PairVotes(b, o) == 0
    decreases |a|
  {
    if a != [] {
      OpposedBlanks(a[..|a| - 1], name, y, b, o);
      BlanksAlike(a[|a| - 1], b, o);
      BlankIsLast(o, b);
    }
  }

  /** The votes of a response without repeats for the space of a blank hint. */
  lemma VotesOverBlank(y: seq<SpaceHint>, b: SpaceHint)
    requires DistinctNames(y) && IsBlank(b)
    ensures RepeatVotes(y, b) >= 0
    ensures Find(y, b.name).Some? ==>
      (RepeatVotes(y, b) == 0 <==> PairVotes(b, Find(y, b.name).value) == 0)
    ensures Find(y, b.name).None? ==> RepeatVotes(y, b) == 0
  {
    forall i | 0 <= i < |y| ensures PairVotes(y[i], b) >= 0 {
      BlankIsLast(y[i], b);
    }
    RepeatsAhead(y, b);
    match Find(y, b.name)
    case None => NoRepeatVotes(y, b);
    case Some(o) =>
      BlankIsLast(o, b);
      var k :| 0 <= k < |y| && y[k] == o;
      if PairVotes(b, o) == 0 {
        assert NoneAhead(y, b);
        RepeatsBehind(y, b);
      }
  }

  lemma BlankReverses(x: HintsResponse, y: HintsResponse)
    requires OneBlankName(x.hints) && x.hints != [] && DistinctNames(y.hints)
    ensures Cmp(y, x) == Cmp(x, y).Reverse()
  {
    var b := x.hints[0];
    FirstCounts(x.hints);
    OnlyFindsMatter(y.hints, x.hints, [b]);
    ForAgainstOne(y.hints, b);
    VotesOverBlank(y.hints, b);
    match Find(y.hints, b.name)
    case None => UnopposedBlanks(x.hints, b.name, y.hints);
    case Some(o) => OpposedBlanks(x.hints, b.name, y.hints, b, o);
  }

  // ---- and nothing less is -------------------------------------------------------------------------

  /** A single hint that `x` does not reverse against, once spaces nobody names make the score of the hint 0:
      then only the votes of the repeats are left. */
  lemma RivalBreaks(x: HintsResponse, o: SpaceHint, first: SpaceHint)
    requires Find(x.hints, o.name) == Some(first)
    requires PairVotes(o, first) <= Others(x.hints, o.name)
    requires RepeatVotes(x.hints, o) + PairVotes(o, first) != 0
    ensures !Reverses(x)
  {
    var y := Only(x.anchorTip, o);
    ScoresOfOne(x, x.anchorTip, o);
    FoundIsNamed(x.hints, o.name);
    var more := NewSpaces(NamesOf(x.hints), Others(x.hints, o.name) - PairVotes(o, first));
    PaddingWins(y, more, x);
    PaddingLoses(x, y, more);
    DistinctTogether(y.hints, more);
    assert Cmp(Padded(y, more), x) == Equal;
    assert Cmp(x, Padded(y, more)) != Equal;
  }

  /** The first hint of a name that is repeated, and what comes before and after it. */
  lemma FirstOfRepeated(a: seq<SpaceHint>) returns (i: nat)
    requires !DistinctNames(a)
    ensures i < |a| && Find(a, a[i].name) == Some(a[i])
    ensures forall k | 0 <= k < i :: a[k].name != a[i].name
    ensures exists j :: i < j < |a| && a[j].name == a[i].name
  {
    var p, q :| 0 <= p < q < |a| && a[p].name == a[q].name;
    i := FirstNamed(a, p);
  }

  lemma {:induction false} FirstNamed(a: seq<SpaceHint>, p: nat) returns (i: nat)
    requires p < |a|
    ensures i <= p && a[i].name == a[p].name && Find(a, a[p].name) == Some(a[i])
    ensures forall k | 0 <= k < i :: a[k].name != a[i].name
    decreases p
  {
    if a[0].name == a[p].name {
      i := 0;
    } else {
      i := FirstNamed(a[1..], p - 1);
      i := i + 1;
    }
  }

  /** The votes of the repeats alone, without the first hint. */
  lemma RepeatsAfterFirst(a: seq<SpaceHint>, i: nat, o: SpaceHint)
    requires i < |a| && a[i].name == o.name && forall k | 0 <= k < i :: a[k].name != o.name
    ensures RepeatVotes(a, o) == PairVotes(a[i], o) + RepeatVotes(a[i + 1..], o)
  {
    assert a == a[..i] + ([a[i]] + a[i + 1..]);
    RepeatsConcat(a[..i], [a[i]] + a[i + 1..], o);
    RepeatsConcat([a[i]], a[i + 1..], o);
    NoRepeatVotes(a[..i], o);
    assert [a[i]][..0] == [];
    assert RepeatVotes([a[i]], o) == RepeatVotes([], o) + PairVotes(a[i], o);
  }

  lemma {:induction false} SomeOther(a: seq<SpaceHint>, name: string)
    requires exists i :: 0 <= i < |a| && a[i].name != name
    ensures Others(a, name) >= 1
    decreases |a|
  {
    var i :| 0 <= i < |a| && a[i].name != name;
    if i < |a| - 1 {
      assert a[..|a| - 1][i] == a[i];
      SomeOther(a[..|a| - 1], name);
    }
  }

  function Upped(name: string): SpaceHint {
    SpaceHint(1, name, 0, 0, [])
  }

  lemma UppedWins(s: SpaceHint, name: string)
    requires IsBlank(s)
    ensures PairVotes(Upped(name), s) == 1
  {
    assert HandleVotes(map[], map[], {}) == map[];
    assert Flattened(Upped(name)) == map[];
  }

  /** A repeat of `a[i]` that is not blank: a blank rival. */
  lemma BreaksByBlank(x: HintsResponse, i: nat, j: nat)
    requires i < j < |x.hints| && x.hints[j].name == x.hints[i].name && !IsBlank(x.hints[j])
    requires Find(x.hints, x.hints[i].name) == Some(x.hints[i])
    requires forall k | 0 <= k < i :: x.hints[k].name != x.hints[i].name
    ensures !Reverses(x)
  {
    var first := x.hints[i];
    var o := Blank(first.name);
    var rest := x.hints[i + 1..];
    BlankIsLast(first, o);
    PairReverses(o, first);
    forall k | 0 <= k < |rest| ensures PairVotes(rest[k], o) >= 0 {
      BlankIsLast(rest[k], o);
    }
    BlankIsLast(x.hints[j], o);
    assert rest[j - i - 1] == x.hints[j];
    RepeatsAhead(rest, o);
    RepeatsAfterFirst(x.hints, i, o);
    RivalBreaks(x, o, first);
  }

  /** All repeats of `a[i]` are blank: a rival that is ahead of them, and no further ahead of `a[i]` than
      there are other spaces to make up for it. */
  lemma BreaksAbove(x: HintsResponse, i: nat, j: nat, o: SpaceHint)
    requires i < j < |x.hints| && x.hints[j].name == x.hints[i].name == o.name
    requires Find(x.hints, o.name) == Some(x.hints[i])
    requires forall k | 0 <= k < i :: x.hints[k].name != o.name
    requires forall k | i < k < |x.hints| && x.hints[k].name == o.name :: IsBlank(x.hints[k])
    requires !IsBlank(o) && PairVotes(o, x.hints[i]) <= Others(x.hints, o.name)
    ensures !Reverses(x)
  {
    var first := x.hints[i];
    var rest := x.hints[i + 1..];
    PairReverses(o, first);
    forall k | 0 <= k < |rest| && rest[k].name == o.name ensures PairVotes(rest[k], o) < 0 {
      assert rest[k] == x.hints[i + 1 + k];
      BlankIsLast(o, rest[k]);
    }
    assert rest[j - i - 1] == x.hints[j];
    RepeatsBehind(rest, o);
    RepeatsAfterFirst(x.hints, i, o);
    RivalBreaks(x, o, first);
  }

  lemma OnlyTheseReverse(x: HintsResponse)
    requires !DistinctNames(x.hints) && !OneBlankName(x.hints)
    ensures !Reverses(x)
  {
    var i := FirstOfRepeated(x.hints);
    var first := x.hints[i];
    var j :| i < j < |x.hints| && x.hints[j].name == first.name;
    if k :| i < k < |x.hints| && x.hints[k].name == first.name && !IsBlank(x.hints[k]) {
      BreaksByBlank(x, i, k);
    } else if !IsBlank(first) {
      PairReverses(first, first);
      BreaksAbove(x, i, j, first);
    } else {
      var other :| 0 <= other < |x.hints| && !(x.hints[other].name == x.hints[0].name && IsBlank(x.hints[other]));
      OtherName(x.hints, i, other);
      SomeOther(x.hints, first.name);
      UppedWins(first, first.name);
      BreaksAbove(x, i, j, Upped(first.name));
    }
  }

  /** If the hints of one name are all blank, and not all hints are blank hints of one name, there is
      another name. */
  lemma OtherName(a: seq<SpaceHint>, i: nat, other: nat)
    requires i < |a| && other < |a| && !(a[other].name == a[0].name && IsBlank(a[other]))
    requires forall k | 0 <= k < |a| && a[k].name == a[i].name :: IsBlank(a[k])
    ensures exists k :: 0 <= k < |a| && a[k].name != a[i].name
  {
    assert a[0].name != a[i].name || a[other].name != a[i].name;
  }

  /** Main result. Comparing with `x` the other way round gives the reverse, for every response that names no
      space twice, if and only if `x` names none twice either, or all its hints are blank and for one space. */
  lemma ReversesIff(x: HintsResponse)
    ensures Reverses(x) <==> (DistinctNames(x.hints) || OneBlankName(x.hints))
  {
    if DistinctNames(x.hints) {
      forall y: HintsResponse | DistinctNames(y.hints) ensures Cmp(y, x) == Cmp(x, y).Reverse() {
        CmpReverses(x, y);
      }
    } else if OneBlankName(x.hints) {
      forall y: HintsResponse | DistinctNames(y.hints) ensures Cmp(y, x) == Cmp(x, y).Reverse() {
        BlankReverses(x, y);
      }
    } else {
      OnlyTheseReverse(x);
    }
  }
}
