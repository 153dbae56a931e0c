/** Merging the anchors of three trust sources into one list. The Rust client sorts and then drops
    neighbours of equal height (fabric/rust/src/client.rs, `AnchorPool::merged`); the JavaScript client
    drops repeats first and sorts afterwards (`rebuildVeritas`). Both meet `IsMerged`, which only one
    list can meet. */
module Anchors {
  import opened Names
  import opened Tables

  /** A root anchor: the height of its block, and everything else about it. */
  datatype Anchor = Anchor(height: nat, body: Blob)

  ghost function OfHeight(s: seq<Anchor>, h: nat): seq<Anchor> {
    if s == [] then []
    else OfHeight(s[..|s| - 1], h) + if s[|s| - 1].height == h then [s[|s| - 1]] else []
  }

  ghost predicate Descending(s: seq<Anchor>) {
    forall i, j | 0 <= i < j < |s| :: s[i].height >= s[j].height
  }

  ghost predicate StrictlyDescending(s: seq<Anchor>) {
    forall i, j | 0 <= i < j < |s| :: s[i].height > s[j].height
  }

  /** What a stable sort by descending height is: ordered, and every height keeps its own anchors in
      their own order. */
  ghost predicate IsStableSort(s: seq<Anchor>, r: seq<Anchor>) {
    Descending(r) && forall h :: OfHeight(r, h) == OfHeight(s, h)
  }

  /** `a` is the first of its height in `s`. */
  ghost predicate IsFirst(s: seq<Anchor>, a: Anchor) {
    exists i :: 0 <= i < |s| && s[i] == a && forall j | 0 <= j < i :: s[j].height != a.height
  }

  ghost predicate Has(s: seq<Anchor>, h: nat) {
    exists a :: a in s && a.height == h
  }

  /** The merge of a list, highest priority first: newest first, no height twice, no height missing, and
      each taken from where the list has it first. */
  ghost predicate IsMerged(all: seq<Anchor>, r: seq<Anchor>) {
    && StrictlyDescending(r)
    && (forall a | a in r :: IsFirst(all, a))
    && (forall a | a in all :: Has(r, a.height))
  }

  // ---- only one list is the merge ------------------------------------------------------------------

  lemma FirstUnique(s: seq<Anchor>, a: Anchor, b: Anchor)
    requires IsFirst(s, a) && IsFirst(s, b) && a.height == b.height
    ensures a == b
  {
  }

  lemma SameMembers(all: seq<Anchor>, r: seq<Anchor>, r': seq<Anchor>, a: Anchor)
    requires IsMerged(all, r) && IsMerged(all, r') && a in r
    ensures a in r'
  {
    assert IsFirst(all, a);
    var m :| m in r' && m.height == a.height;
    FirstUnique(all, a, m);
  }

  lemma Nonempty(s: seq<Anchor>)
    requires s != []
    ensures exists a :: a in s
  {
    assert s[0] in s;
  }

  ghost predicate SameAnchors(r: seq<Anchor>, r': seq<Anchor>) {
    forall a :: a in r <==> a in r'
  }

  lemma FirstIsHighest(r: seq<Anchor>, a: Anchor)
    requires StrictlyDescending(r) && a in r
    ensures a == r[0] || a.height < r[0].height
  {
  }

  lemma TailMembers(r: seq<Anchor>)
    requires StrictlyDescending(r) && r != []
    ensures forall a :: a in r[1..] <==> a in r && a != r[0]
  {
    assert r == [r[0]] + r[1..];
  }

  lemma {:induction false} OneOrder(r: seq<Anchor>, r': seq<Anchor>)
    requires StrictlyDescending(r) && StrictlyDescending(r')
    requires SameAnchors(r, r')
    ensures r == r'
    decreases |r|
  {
    if r == [] {
      if r' != [] {
        Nonempty(r');
      }
    } else {
      assert r[0] in r';
      assert r'[0] in r;
      FirstIsHighest(r, r'[0]);
      FirstIsHighest(r', r[0]);
      TailMembers(r);
      TailMembers(r');
      OneOrder(r[1..], r'[1..]);
      assert r == [r[0]] + r[1..] && r' == [r'[0]] + r'[1..];
    }
  }

  /** Main result. The two algorithms cannot disagree: any two merges of the same list are equal. */
  lemma MergeIsUnique(all: seq<Anchor>, r: seq<Anchor>, r': seq<Anchor>)
    requires IsMerged(all, r) && IsMerged(all, r')
    ensures r == r'
  {
    forall a ensures a in r <==> a in r' {
      if a in r { SameMembers(all, r, r', a); }
      if a in r' { SameMembers(all, r', r, a); }
    }
    OneOrder(r, r');
  }

  lemma FirstOfFirst(s: seq<Anchor>, rest: seq<Anchor>, a: Anchor)
    requires IsFirst(s + rest, a)
    ensures if Has(s, a.height) then IsFirst(s, a) else IsFirst(rest, a)
  {
    var all := s + rest;
    var i :| 0 <= i < |all| && all[i] == a && forall j | 0 <= j < i :: all[j].height != a.height;
    if i < |s| {
      assert s[i] == a && s[i] in s;
      assert forall j | 0 <= j < i :: s[j] == all[j];
    } else {
      assert forall j | 0 <= j < |s| :: s[j] == all[j];
      assert rest[i - |s|] == a;
      assert forall j | 0 <= j < i - |s| :: rest[j] == all[j + |s|];
    }
  }

  /** Each anchor of a merge comes from the trust source of the highest priority that has its height. */
  lemma PriorityHolds(trusted: seq<Anchor>, semi: seq<Anchor>, observed: seq<Anchor>, r: seq<Anchor>, a: Anchor)
    requires IsMerged(trusted + semi + observed, r) && a in r
    ensures if Has(trusted, a.height) then IsFirst(trusted, a)
            else if Has(semi, a.height) then IsFirst(semi, a)
            else IsFirst(observed, a)
  {
    FirstOfFirst(trusted + semi, observed, a);
    if Has(trusted + semi, a.height) {
      FirstOfFirst(trusted, semi, a);
    }
    assert forall x :: x in trusted + semi <==> x in trusted || x in semi;
  }

  /** `AnchorSet::tip_height`. */
  function TipHeight(entries: seq<Anchor>): nat {
    if entries == [] then 0 else entries[0].height
  }

  /** Reading the tip off the first entry is right for a merge: nothing in any source is newer, and the
      height is one a source has. */
  lemma TipIsNewest(all: seq<Anchor>, r: seq<Anchor>)
    requires IsMerged(all, r)
    ensures forall a | a in all :: a.height <= TipHeight(r)
    ensures if all == [] then TipHeight(r) == 0 else Has(all, TipHeight(r))
  {
    forall a | a in all ensures a.height <= TipHeight(r) {
      var m :| m in r && m.height == a.height;
    }
    if all != [] {
      assert all[0] in all;
      var m :| m in r && m.height == all[0].height;
      assert r[0] in r && IsFirst(all, r[0]);
    } else {
      assert r != [] ==> r[0] in r && IsFirst(all, r[0]);
    }
  }

  // ---- sorting -------------------------------------------------------------------------------------

  lemma {:induction false} OfHeightMembers(s: seq<Anchor>, h: nat)
    ensures forall a :: a in OfHeight(s, h) <==> a in s && a.height == h
    decreases |s|
  {
    if s != [] {
      OfHeightMembers(s[..|s| - 1], h);
      assert s == s[..|s| - 1] + [s[|s| - 1]];
    }
  }

  lemma {:induction false} OfHeightConcat(s: seq<Anchor>, t: seq<Anchor>, h: nat)
    ensures OfHeight(s + t, h) == OfHeight(s, h) + OfHeight(t, h)
    decreases |t|
  {
    if t == [] {
      assert s + t == s;
    } else {
      var n := |t| - 1;
      assert (s + t)[..|s| + n] == s + t[..n];
      OfHeightConcat(s, t[..n], h);
    }
  }

  /** Nothing of the height: nothing to keep in order. */
  lemma NoneOfHeight(s: seq<Anchor>, h: nat)
    requires forall a | a in s :: a.height != h
    ensures OfHeight(s, h) == []
  {
    OfHeightMembers(s, h);
    if OfHeight(s, h) != [] {
      assert OfHeight(s, h)[0] in OfHeight(s, h);
    }
  }

  /** Moving `a` in front of anchors of lower height keeps every height's order. */
  lemma MovedForward(head: seq<Anchor>, a: Anchor, tail: seq<Anchor>)
    requires forall b | b in tail :: b.height < a.height
    ensures forall h :: OfHeight(head + [a] + tail, h) == OfHeight(head + tail + [a], h)
  {
    forall h ensures OfHeight(head + [a] + tail, h) == OfHeight(head + tail + [a], h) {
      OfHeightConcat(head + [a], tail, h);
      OfHeightConcat(head, [a], h);
      OfHeightConcat(head + tail, [a], h);
      OfHeightConcat(head, tail, h);
      if h == a.height {
        NoneOfHeight(tail, h);
      } else {
        NoneOfHeight([a], h);
      }
    }
  }

  /** Where `a` goes in a descending list: behind its equals. */
  method Place(sorted: seq<Anchor>, a: Anchor) returns (at: nat)
    requires Descending(sorted)
    ensures at <= |sorted|
    ensures forall i | 0 <= i < at :: sorted[i].height >= a.height
    ensures forall i | at <= i < |sorted| :: sorted[i].height < a.height
  {
    at := |sorted|;
    while at > 0 && sorted[at - 1].height < a.height
      invariant at <= |sorted|
      invariant forall i | at <= i < |sorted| :: sorted[i].height < a.height
    {
      at := at - 1;
    }
  }

  lemma SortGrows(s: seq<Anchor>, sorted: seq<Anchor>, i: nat, at: nat)
    requires i < |s| && at <= |sorted| && IsStableSort(s[..i], sorted)
    requires forall k | 0 <= k < at :: sorted[k].height >= s[i].height
    requires forall k | at <= k < |sorted| :: sorted[k].height < s[i].height
    ensures IsStableSort(s[..i + 1], sorted[..at] + [s[i]] + sorted[at..])
  {
    var longer := sorted[..at] + [s[i]] + sorted[at..];
    MovedForward(sorted[..at], s[i], sorted[at..]);
    assert sorted[..at] + sorted[at..] == sorted;
    assert s[..i + 1] == s[..i] + [s[i]];
    forall h ensures OfHeight(longer, h) == OfHeight(s[..i + 1], h) {
      OfHeightConcat(sorted, [s[i]], h);
      OfHeightConcat(s[..i], [s[i]], h);
    }
  }

  /** A stable sort by descending height, as both languages' libraries promise it. */
  method SortByHeight(s: seq<Anchor>) returns (sorted: seq<Anchor>)
    ensures IsStableSort(s, sorted)
  {
    sorted := [];
    for i := 0 to |s|
      invariant IsStableSort(s[..i], sorted)
    {
      var at := Place(sorted, s[i]);
      SortGrows(s, sorted, i, at);
      sorted := sorted[..at] + [s[i]] + sorted[at..];
    }
    assert s[..|s|] == s;
  }

  // ---- what a stable sort keeps --------------------------------------------------------------------

  lemma SortKeepsMembers(s: seq<Anchor>, r: seq<Anchor>)
    requires IsStableSort(s, r)
    ensures forall a :: a in r <==> a in s
  {
    forall a ensures a in r <==> a in s {
      OfHeightMembers(r, a.height);
      OfHeightMembers(s, a.height);
    }
  }

  lemma NoneBefore(s: seq<Anchor>, h: nat)
    ensures OfHeight(s, h) == [] <==> forall j | 0 <= j < |s| :: s[j].height != h
  {
    OfHeightMembers(s, h);
    if j :| 0 <= j < |s| && s[j].height == h {
      assert s[j] in OfHeight(s, h);
    } else {
      NoneOfHeight(s, h);
    }
  }

  lemma OneMore(s: seq<Anchor>, n: nat, h: nat)
    requires n < |s|
    ensures OfHeight(s[..n + 1], h) == OfHeight(s[..n], h) + if s[n].height == h then [s[n]] else []
  {
    assert s[..n + 1][..n] == s[..n];
  }

  lemma FirstIsNew(s: seq<Anchor>, n: nat, a: Anchor)
    requires n < |s|
    ensures IsFirst(s[..n + 1], a) <==> (IsFirst(s[..n], a) || (a == s[n] && OfHeight(s[..n], a.height) == []))
  {
    FirstGrows(s, n);
    NoneBefore(s[..n], a.height);
    assert forall j | 0 <= j < n :: s[..n][j] == s[j];
  }

  lemma {:induction false} FirstUpTo(s: seq<Anchor>, n: nat, a: Anchor)
    requires n <= |s|
    ensures IsFirst(s[..n], a) <==> OfHeight(s[..n], a.height) != [] && OfHeight(s[..n], a.height)[0] == a
    decreases n
  {
    if n > 0 {
      FirstUpTo(s, n - 1, a);
      FirstIsNew(s, n - 1, a);
      OneMore(s, n - 1, a.height);
    }
  }

  lemma FirstOfHeight(s: seq<Anchor>, a: Anchor)
    ensures IsFirst(s, a) <==> OfHeight(s, a.height) != [] && OfHeight(s, a.height)[0] == a
  {
    FirstUpTo(s, |s|, a);
    assert s[..|s|] == s;
  }

  lemma SortKeepsFirst(s: seq<Anchor>, r: seq<Anchor>, a: Anchor)
    requires IsStableSort(s, r)
    ensures IsFirst(r, a) <==> IsFirst(s, a)
  {
    FirstOfHeight(s, a);
    FirstOfHeight(r, a);
  }

  // ---- Rust: sort, then drop neighbours ------------------------------------------------------------

  /** In a descending list a height is new exactly when it is not the one just before. */
  lemma NewHeight(s: seq<Anchor>, i: nat)
    requires Descending(s) && 0 < i < |s|
    ensures (forall j | 0 <= j < i :: s[j].height != s[i].height) <==> s[i - 1].height != s[i].height
  {
  }

  lemma AllHeights(s: seq<Anchor>, r: seq<Anchor>)
    requires forall a :: a in r <==> IsFirst(s, a)
    ensures forall a | a in s :: Has(r, a.height)
  {
    forall a | a in s ensures Has(r, a.height) {
      var i :| 0 <= i < |s| && s[i] == a;
      var m := EveryHeightHasAFirst(s, i);
      assert m in r;
    }
  }

  /** `r` is what dropping neighbours has made of the first `i` anchors. */
  ghost predicate DedupedTo(s: seq<Anchor>, i: nat, r: seq<Anchor>)
    requires i <= |s|
  {
    && StrictlyDescending(r)
    && (if i == 0 then r == [] else r != [] && r[|r| - 1].height == s[i - 1].height)
    && forall a :: a in r <==> IsFirst(s[..i], a)
  }

  lemma DedupKeeps(s: seq<Anchor>, i: nat, r: seq<Anchor>)
    requires Descending(s) && 0 < i < |s| && DedupedTo(s, i, r)
    requires s[i - 1].height == s[i].height
    ensures DedupedTo(s, i + 1, r)
  {
    FirstGrows(s, i);
  }

  lemma DedupAdds(s: seq<Anchor>, i: nat, r: seq<Anchor>)
    requires Descending(s) && i < |s| && DedupedTo(s, i, r)
    requires i > 0 ==> s[i - 1].height != s[i].height
    ensures DedupedTo(s, i + 1, r + [s[i]])
  {
    FirstGrows(s, i);
    if i > 0 {
      NewHeight(s, i);
      assert s[i - 1].height >= s[i].height;
    }
  }

  /** `dedup_by_key(height)`: keep an anchor unless it has the height of the one kept before it. */
  method DedupByHeight(s: seq<Anchor>) returns (r: seq<Anchor>)
    requires Descending(s)
    ensures IsMerged(s, r)
  {
    r := [];
    for i := 0 to |s|
      invariant DedupedTo(s, i, r)
    {
      if r == [] || r[|r| - 1].height != s[i].height {
        DedupAdds(s, i, r);
        r := r + [s[i]];
      } else {
        DedupKeeps(s, i, r);
      }
    }
    assert s[..|s|] == s;
    AllHeights(s, r);
  }

  /** The Rust client's anchors, per trust source. */
  class AnchorPool {
    var trusted: seq<Anchor>
    var semiTrusted: seq<Anchor>
    var observed: seq<Anchor>

    constructor ()
      ensures trusted == semiTrusted == observed == []
    {
      trusted, semiTrusted, observed := [], [], [];
    }

    method Merged() returns (r: seq<Anchor>)
      ensures IsMerged(trusted + semiTrusted + observed, r)
    {
      var all := trusted + semiTrusted + observed;
      var sorted := SortByHeight(all);
      SortKeepsMembers(all, sorted);
      r := DedupByHeight(sorted);
      forall a | a in r ensures IsFirst(all, a) {
        SortKeepsFirst(all, sorted, a);
      }
    }
  }

  // ---- JavaScript: drop repeats, then sort ---------------------------------------------------------

  /** Filtering so far: the heights of the first `i` anchors, and the first anchor of each. */
  ghost predicate Filtered(all: seq<Anchor>, i: nat, seen: set<nat>, deduped: seq<Anchor>)
    requires i <= |all|
  {
    && (forall h :: h in seen <==> exists j :: 0 <= j < i && all[j].height == h)
    && (forall a :: a in deduped <==> IsFirst(all[..i], a))
    && (forall a | a in deduped :: a.height in seen)
    && forall j, k | 0 <= j < k < |deduped| :: deduped[j].height != deduped[k].height
  }

  lemma FilterSkips(all: seq<Anchor>, i: nat, seen: set<nat>, deduped: seq<Anchor>)
    requires i < |all| && Filtered(all, i, seen, deduped) && all[i].height in seen
    ensures Filtered(all, i + 1, seen, deduped)
  {
    FirstGrows(all, i);
  }

  lemma FilterAdds(all: seq<Anchor>, i: nat, seen: set<nat>, deduped: seq<Anchor>)
    requires i < |all| && Filtered(all, i, seen, deduped) && all[i].height !in seen
    ensures Filtered(all, i + 1, seen + {all[i].height}, deduped + [all[i]])
  {
    FirstGrows(all, i);
    var more := seen + {all[i].height};
    forall h ensures h in more <==> exists j :: 0 <= j < i + 1 && all[j].height == h {
      assert h == all[i].height ==> 0 <= i < i + 1 && all[i].height == h;
    }
  }

  /** `filter` with the set of heights seen. */
  method FirstSeen(all: seq<Anchor>) returns (deduped: seq<Anchor>)
    ensures forall a :: a in deduped <==> IsFirst(all, a)
    ensures forall i, j | 0 <= i < j < |deduped| :: deduped[i].height != deduped[j].height
  {
    deduped := [];
    var seen := {};
    for i := 0 to |all|
      invariant Filtered(all, i, seen, deduped)
    {
      if all[i].height in seen {
        FilterSkips(all, i, seen, deduped);
      } else {
        FilterAdds(all, i, seen, deduped);
        seen := seen + {all[i].height};
        deduped := deduped + [all[i]];
      }
    }
    assert all[..|all|] == all;
  }

  lemma ShorterFirst(all: seq<Anchor>, i: nat, k: nat)
    requires k < i <= |all|
    requires forall j | 0 <= j < k :: all[j].height != all[k].height
    ensures IsFirst(all[..i], all[k])
  {
    var shorter := all[..i];
    assert shorter[k] == all[k] && forall j | 0 <= j < k :: shorter[j] == all[j];
  }

  /** One more element is a first of its height exactly when its height is new. */
  lemma FirstGrows(all: seq<Anchor>, i: nat)
    requires i < |all|
    ensures forall a :: IsFirst(all[..i + 1], a) <==>
      (IsFirst(all[..i], a) || (a == all[i] && forall j | 0 <= j < i :: all[j].height != a.height))
  {
    var shorter, longer := all[..i], all[..i + 1];
    forall a ensures IsFirst(longer, a) <==>
      (IsFirst(shorter, a) || (a == all[i] && forall j | 0 <= j < i :: all[j].height != a.height))
    {
      if IsFirst(longer, a) {
        var k :| 0 <= k < |longer| && longer[k] == a && forall j | 0 <= j < k :: longer[j].height != a.height;
        assert forall j | 0 <= j < k :: longer[j] == all[j];
        if k < i {
          ShorterFirst(all, i, k);
        }
      }
      if IsFirst(shorter, a) {
        var k :| 0 <= k < |shorter| && shorter[k] == a && forall j | 0 <= j < k :: shorter[j].height != a.height;
        assert forall j | 0 <= j < k :: shorter[j] == all[j];
        ShorterFirst(all, i + 1, k);
      }
      if a == all[i] && forall j | 0 <= j < i :: all[j].height != a.height {
        ShorterFirst(all, i + 1, i);
      }
    }
  }

  lemma {:induction false} EveryHeightHasAFirst(s: seq<Anchor>, i: nat) returns (a: Anchor)
    requires i < |s|
    ensures IsFirst(s, a) && a.height == s[i].height
    decreases i
  {
    if j :| 0 <= j < i && s[j].height == s[i].height {
      a := EveryHeightHasAFirst(s, j);
    } else {
      a := s[i];
    }
  }

  lemma {:induction false} NoHeightTwice(s: seq<Anchor>, h: nat)
    requires forall i, j | 0 <= i < j < |s| :: s[i].height != s[j].height
    ensures |OfHeight(s, h)| <= 1
    decreases |s|
  {
    if s != [] {
      NoHeightTwice(s[..|s| - 1], h);
      if s[|s| - 1].height == h {
        NoneOfHeight(s[..|s| - 1], h);
      }
    }
  }

  lemma TwiceIsTwo(s: seq<Anchor>, i: nat, j: nat)
    requires i < j < |s| && s[i].height == s[j].height
    ensures |OfHeight(s, s[i].height)| >= 2
  {
    var h := s[i].height;
    assert s == s[..j] + s[j..];
    OfHeightConcat(s[..j], s[j..], h);
    OfHeightMembers(s[..j], h);
    OfHeightMembers(s[j..], h);
    assert s[..j][i] in OfHeight(s[..j], h);
    assert s[j..][0] in OfHeight(s[j..], h);
  }

  /** Sorting a list without repeated heights leaves none. */
  lemma SortStaysStrict(s: seq<Anchor>, r: seq<Anchor>)
    requires IsStableSort(s, r)
    requires forall i, j | 0 <= i < j < |s| :: s[i].height != s[j].height
    ensures StrictlyDescending(r)
  {
    forall i, j | 0 <= i < j < |r| ensures r[i].height > r[j].height {
      if r[i].height == r[j].height {
        TwiceIsTwo(r, i, j);
        NoHeightTwice(s, r[i].height);
      }
    }
  }

  /** The JavaScript client's anchors, and what its verifier was last built from. */
  class Fabric {
    var trusted: Option<seq<Anchor>>
    var semiTrusted: Option<seq<Anchor>>
    var observed: Option<seq<Anchor>>
    var veritas: Option<seq<Anchor>>

    constructor ()
      ensures trusted == semiTrusted == observed == None && veritas == None
    {
      trusted, semiTrusted, observed, veritas := None, None, None, None;
    }

    function AllEntries(): seq<Anchor>
      reads this
    {
      trusted.GetOr([]) + semiTrusted.GetOr([]) + observed.GetOr([])
    }

    /** With nothing to build from, the verifier stays as it was; otherwise it gets the merge, in which the
        trusted anchors come before the semi-trusted ones, and these before the observed. */
    method RebuildVeritas()
      modifies this`veritas
      ensures var all :=
          (if trusted.Some? then trusted.value else []) + (if semiTrusted.Some? then semiTrusted.value else [])
          + (if observed.Some? then observed.value else []);
        if all == [] then veritas == old(veritas) else veritas.Some? && IsMerged(all, veritas.value)
    {
      var all := AllEntries();
      if all == [] {
        return;
      }
      var deduped := FirstSeen(all);
      var sorted := SortByHeight(deduped);
      SortKeepsMembers(deduped, sorted);
      SortStaysStrict(deduped, sorted);
      AllHeights(all, sorted);
      veritas := Some(sorted);
    }
  }
}
