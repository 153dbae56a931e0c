/** What one /sync page contains (`SqliteStore::sync_page`), and what every page guarantees the
    relay that pulls it: sub-handles travel with their roots, the payload is capped, nothing ships
    twice, and following the cursor covers the table.

    The page is specified without the trim-and-re-home loop: it is the longest prefix of the
    selected rows that fits the cap together with the roots its sub-handles need from further
    along. `Store.SqliteStore.SyncPage` proves that the loop computes exactly this. */
module Pages {
  import opened Names
  import opened Tables
  import opened Totals

  const USIZE_MAX: nat := 0xFFFF_FFFF_FFFF_FFFF

  /** `next_cursor` is the seq of the last row of the main selection, `None` on an empty page. */
  datatype SyncPage = SyncPage(records: seq<SyncRecord>, nextCursor: Option<nat>)

  /** `max_bytes.saturating_mul(2)`. */
  function HardCap(maxBytes: nat): (cap: nat)
    ensures cap <= 2 * maxBytes
  {
    if 2 * maxBytes > USIZE_MAX then USIZE_MAX else 2 * maxBytes
  }

  function Prefix(order: seq<string>, n: nat): seq<string> {
    if n < |order| then order[..n] else order
  }

  /** How many rows are read before the byte budget is exceeded; the row that exceeds it stays. */
  function SelectLen(t: Table, order: seq<string>, maxBytes: nat, used: nat): (n: nat)
    requires forall h | h in order :: h in t
    ensures n <= |order|
    ensures order != [] ==> n > 0
  {
    if order == [] then 0
    else
      var total := used + RowBytes(t[order[0]]);
      if total > maxBytes then 1 else 1 + SelectLen(t, order[1..], maxBytes, total)
  }

  /** The spaces whose root the sub-handles of `main` need. */
  function SubSpaces(main: seq<string>): set<string> {
    set h | h in main && !IsRoot(h) :: SpaceName(h)
  }

  /** `WHERE handle IN spaces AND handle = space AND sync_seq > c`. */
  function RootsPast(t: Table, spaces: set<string>, c: nat): set<string> {
    set s | s in spaces && s in t && t[s].space == s && t[s].syncSeq > c
  }

  function LastSeq(t: Table, main: seq<string>, after: nat): nat
    requires forall h | h in main :: h in t
  {
    if main == [] then after else t[main[|main| - 1]].syncSeq
  }

  /** The roots that `main` needs and that lie past its last row. */
  function LateRoots(t: Table, main: seq<string>, after: nat): set<string>
    requires forall h | h in main :: h in t
  {
    RootsPast(t, SubSpaces(main), LastSeq(t, main, after))
  }

  ghost function SeqBytes(t: Table, main: seq<string>): nat
    requires forall h | h in main :: h in t
  {
    if main == [] then 0
    else SeqBytes(t, main[..|main| - 1]) + RowBytes(t[main[|main| - 1]])
  }

  ghost function SetBytes(t: Table, s: set<string>): (n: int)
    requires s <= t.Keys
  {
    Total(map h | h in s :: RowBytes(t[h]))
  }

  ghost function Payload(t: Table, main: seq<string>, after: nat): int
    requires forall h | h in main :: h in t
  {
    SeqBytes(t, main) + SetBytes(t, LateRoots(t, main, after))
  }

  /** The largest count up to `k` whose rows and late roots fit the cap, but never below one row. */
  ghost function TrimTo(t: Table, order: seq<string>, k: nat, after: nat, cap: nat): (n: nat)
    requires k <= |order| && forall h | h in order :: h in t
    ensures n <= k
    ensures k > 0 ==> n > 0
    ensures n > 1 ==> Payload(t, order[..n], after) <= cap
    ensures forall m | n < m <= k :: Payload(t, order[..m], after) > cap
  {
    if k <= 1 || Payload(t, order[..k], after) <= cap then k else TrimTo(t, order, k - 1, after, cap)
  }

  /** `order` lists exactly the rows past the cursor, in write order. */
  ghost predicate Listing(t: Table, after: nat, order: seq<string>) {
    && SpacesAgree(t)
    && Ascending(t, order)
    && forall h :: h in order <==> (h in t && t[h].syncSeq > after)
  }

  lemma SelectStep(t: Table, order: seq<string>, i: nat, maxBytes: nat, used: nat)
    requires i < |order| && forall h | h in order :: h in t
    ensures var total := used + RowBytes(t[order[i]]);
      SelectLen(t, order[i..], maxBytes, used)
        == if total > maxBytes then 1 else 1 + SelectLen(t, order[i + 1..], maxBytes, total)
  {
    assert order[i..][1..] == order[i + 1..];
  }

  lemma TrimStep(t: Table, order: seq<string>, k: nat, after: nat, cap: nat)
    requires 1 < k <= |order| && forall h | h in order :: h in t
    requires Payload(t, order[..k], after) > cap
    ensures TrimTo(t, order, k, after, cap) == TrimTo(t, order, k - 1, after, cap)
  {
  }

  lemma TrimStop(t: Table, order: seq<string>, k: nat, after: nat, cap: nat)
    requires k <= |order| && forall h | h in order :: h in t
    requires k <= 1 || Payload(t, order[..k], after) <= cap
    ensures TrimTo(t, order, k, after, cap) == k
  {
  }

  ghost predicate Served(t: Table, after: nat) {
    Distinct(t) && Listing(t, after, After(t, after))
  }

  lemma ServedAlways(t: Table, after: nat)
    requires Distinct(t) && SpacesAgree(t)
    ensures Served(t, after)
  {
    AfterIsOrdered(t, after);
  }

  lemma Members(order: seq<string>, main: seq<string>)
    requires main <= order
    ensures forall h | h in main :: h in order
  {
    assert forall i | 0 <= i < |main| :: main[i] == order[i];
  }

  /** The rows read for a page, before any trimming. */
  ghost function Selected(t: Table, after: nat, limit: nat, maxBytes: nat): (selected: seq<string>)
    requires Served(t, after)
    ensures selected <= After(t, after)
    ensures limit >= 1 && After(t, after) != [] ==> selected != []
    ensures |selected| <= limit
  {
    var order := Prefix(After(t, after), limit);
    order[..SelectLen(t, order, maxBytes, 0)]
  }

  /** The main selection of a page. */
  ghost function Main(t: Table, after: nat, limit: nat, maxBytes: nat): (main: seq<string>)
    requires Served(t, after)
    ensures main <= After(t, after)
    ensures limit >= 1 && After(t, after) != [] ==> main != []
    ensures |main| <= limit
  {
    var selected := Selected(t, after, limit, maxBytes);
    Members(After(t, after), selected);
    selected[..TrimTo(t, selected, |selected|, after, HardCap(maxBytes))]
  }

  function Records(t: Table, handles: seq<string>): seq<SyncRecord>
    requires forall h | h in handles :: h in t
  {
    seq(|handles|, i requires 0 <= i < |handles| => ToRecord(handles[i], t[handles[i]]))
  }

  predicate NoRepeats(s: seq<string>) {
    forall i, j | 0 <= i < j < |s| :: s[i] != s[j]
  }

  /** `extra` lists a set of handles in some order: a hash map is walked in no particular one. */
  predicate Lists(extra: seq<string>, s: set<string>) {
    && NoRepeats(extra)
    && (forall h | h in extra :: h in s)
    && forall h | h in s :: h in extra
  }

  ghost predicate IsPageWith(t: Table, after: nat, limit: nat, maxBytes: nat, page: SyncPage, extra: seq<string>)
    requires Served(t, after)
  {
    var main := Main(t, after, limit, maxBytes);
    && Lists(extra, LateRoots(t, main, after))
    && page.records == Records(t, main + extra)
    && page.nextCursor == if main == [] then None else Some(LastSeq(t, main, after))
  }

  /** `page` is an answer to a request with these parameters. */
  ghost predicate IsPage(t: Table, after: nat, limit: nat, maxBytes: nat, page: SyncPage) {
    && Served(t, after)
    && exists extra: seq<string> :: IsPageWith(t, after, limit, maxBytes, page, extra)
  }

  /** The handles a page ships: its main rows, in order, then the appended roots. */
  ghost predicate Ships(t: Table, after: nat, page: SyncPage, main: seq<string>, extra: seq<string>) {
    && Served(t, after)
    && main <= After(t, after)
    && Lists(extra, LateRoots(t, main, after))
    && page.records == Records(t, main + extra)
    && page.nextCursor == if main == [] then None else Some(LastSeq(t, main, after))
  }

  lemma Shipped(t: Table, after: nat, limit: nat, maxBytes: nat, page: SyncPage)
    returns (main: seq<string>, extra: seq<string>)
    requires IsPage(t, after, limit, maxBytes, page)
    ensures Ships(t, after, page, main, extra)
    ensures main == Main(t, after, limit, maxBytes)
  {
    main := Main(t, after, limit, maxBytes);
    extra :| IsPageWith(t, after, limit, maxBytes, page, extra);
  }

  /** A row past the cursor is in the main selection as soon as the selection reaches its seq. */
  lemma MainReaches(t: Table, after: nat, order: seq<string>, main: seq<string>, h: string)
    requires Listing(t, after, order) && main <= order
    requires forall k | k in main :: k in t
    requires h in t && after < t[h].syncSeq <= LastSeq(t, main, after)
    ensures h in main
  {
    var i :| 0 <= i < |order| && order[i] == h;
    assert main != [] ==> main[|main| - 1] == order[|main| - 1];
    assert i < |main| ==> main[i] == h;
  }

  lemma ListsOfNothing(extra: seq<string>, s: set<string>)
    requires Lists(extra, s) && s == {}
    ensures extra == []
  {
    if extra != [] {
      HeadIn(extra);
      assert false;
    }
  }

  lemma HeadIn(s: seq<string>)
    requires s != []
    ensures s[0] in s
  {
  }

  lemma RecordsHold(t: Table, handles: seq<string>)
    requires forall h | h in handles :: h in t
    ensures forall h | h in handles :: ToRecord(h, t[h]) in Records(t, handles)
    ensures forall r | r in Records(t, handles) ::
      r.handle in handles && r.handle in t && r == ToRecord(r.handle, t[r.handle])
  {
    forall h | h in handles ensures ToRecord(h, t[h]) in Records(t, handles) {
      var i :| 0 <= i < |handles| && handles[i] == h;
      assert Records(t, handles)[i] == ToRecord(h, t[h]);
    }
  }

  lemma LateRootsAreRoots(t: Table, main: seq<string>, after: nat)
    requires forall h | h in main :: h in t
    ensures forall s | s in LateRoots(t, main, after) :: IsRoot(s)
  {
    forall s | s in LateRoots(t, main, after) ensures IsRoot(s) {
      var sub :| sub in main && SpaceName(sub) == s;
      SpaceNameIsRoot(sub);
    }
  }

  lemma RootIsShipped(t: Table, after: nat, order: seq<string>, main: seq<string>, extra: seq<string>, sub: string)
    requires Listing(t, after, order) && main <= order
    requires forall h | h in main :: h in t
    requires Lists(extra, LateRoots(t, main, after))
    requires sub in main + extra && !IsRoot(sub)
    requires SpaceName(sub) in t && t[SpaceName(sub)].syncSeq > after
    ensures SpaceName(sub) in main + extra
  {
    var root := SpaceName(sub);
    LateRootsAreRoots(t, main, after);
    assert sub in main;
    SpaceNameIsRoot(sub);
    if t[root].syncSeq <= LastSeq(t, main, after) {
      MainReaches(t, after, order, main, root);
    } else {
      assert root in SubSpaces(main);
      assert root in LateRoots(t, main, after);
    }
  }

  /** Main result 1. Every sub-handle on a page whose root lies past the requested cursor comes
      with that root, with the certificate, zone and numbers stored for it. */
  lemma PageIsRootClosed(t: Table, after: nat, limit: nat, maxBytes: nat, page: SyncPage, r: SyncRecord)
    requires IsPage(t, after, limit, maxBytes, page)
    requires r in page.records && !IsRoot(r.handle)
    requires SpaceName(r.handle) in t && t[SpaceName(r.handle)].syncSeq > after
    ensures ToRecord(SpaceName(r.handle), t[SpaceName(r.handle)]) in page.records
    ensures var root := t[SpaceName(r.handle)];
      exists x :: x in page.records && x.handle == SpaceName(r.handle) && x.cert == root.cert && x.zone == root.zone
        && x.epochHeight == root.epochHeight && x.offchainSeq == root.offchainSeq && x.delegateSeq == root.delegateSeq
  {
    var main, extra := Shipped(t, after, limit, maxBytes, page);
    RecordsHold(t, main + extra);
    RootIsShipped(t, after, After(t, after), main, extra, r.handle);
    assert ToRecord(SpaceName(r.handle), t[SpaceName(r.handle)]) in page.records;
  }

  lemma AscendingPrefix(t: Table, order: seq<string>, main: seq<string>)
    requires Ascending(t, order) && main <= order
    ensures Ascending(t, main)
  {
    assert forall i | 0 <= i < |main| :: main[i] == order[i];
  }

  lemma AscendingMembers(t: Table, main: seq<string>, after: nat)
    requires Ascending(t, main)
    ensures NoRepeats(main)
    ensures forall h | h in main :: h in t && t[h].syncSeq <= LastSeq(t, main, after)
  {
    forall h | h in main ensures t[h].syncSeq <= LastSeq(t, main, after) {
      var i :| 0 <= i < |main| && main[i] == h;
    }
  }

  lemma MainSeqs(t: Table, after: nat, order: seq<string>, main: seq<string>)
    requires Listing(t, after, order) && main <= order
    ensures NoRepeats(main)
    ensures forall h | h in main :: h in t && after < t[h].syncSeq <= LastSeq(t, main, after)
  {
    Members(order, main);
    AscendingPrefix(t, order, main);
    AscendingMembers(t, main, after);
  }

  lemma ShippedOnce(t: Table, after: nat, order: seq<string>, main: seq<string>, extra: seq<string>)
    requires Listing(t, after, order) && main <= order
    requires forall h | h in main :: h in t
    requires Lists(extra, LateRoots(t, main, after))
    ensures NoRepeats(main + extra)
    ensures forall h | h in main + extra :: h in t && t[h].syncSeq > after
  {
    MainSeqs(t, after, order, main);
    forall h | h in extra ensures h in t && t[h].syncSeq > LastSeq(t, main, after) {
      assert h in LateRoots(t, main, after);
    }
    assert main != [] ==> main[|main| - 1] in main;
    assert forall h | h in main :: h !in extra;
    forall i, j | 0 <= i < j < |main + extra| ensures (main + extra)[i] != (main + extra)[j] {
      if i < |main| <= j {
        assert main[i] in main && extra[j - |main|] in extra;
      }
    }
  }

  /** Main result 2. No handle appears twice on a page, and every record on it is that of a stored row past
      the cursor: its certificate, its zone and its numbers. */
  lemma PageHasNoRepeats(t: Table, after: nat, limit: nat, maxBytes: nat, page: SyncPage)
    requires IsPage(t, after, limit, maxBytes, page)
    ensures forall i, j | 0 <= i < j < |page.records| :: page.records[i].handle != page.records[j].handle
    ensures forall r | r in page.records ::
      && r.handle in t && t[r.handle].syncSeq > after
      && r.cert == t[r.handle].cert && r.zone == t[r.handle].zone
      && r.epochHeight == t[r.handle].epochHeight
      && r.offchainSeq == t[r.handle].offchainSeq && r.delegateSeq == t[r.handle].delegateSeq
  {
    var main, extra := Shipped(t, after, limit, maxBytes, page);
    ShippedOnce(t, after, After(t, after), main, extra);
    RecordsAreRowsPast(t, after, main + extra);
  }

  lemma RecordsAreRowsPast(t: Table, after: nat, handles: seq<string>)
    requires NoRepeats(handles)
    requires forall h | h in handles :: h in t && t[h].syncSeq > after
    ensures forall r | r in Records(t, handles) ::
      r.handle in t && r == ToRecord(r.handle, t[r.handle]) && t[r.handle].syncSeq > after
    ensures forall i, j | 0 <= i < j < |handles| :: Records(t, handles)[i].handle != Records(t, handles)[j].handle
  {
    RecordsHold(t, handles);
    assert forall i | 0 <= i < |handles| :: Records(t, handles)[i].handle == handles[i];
  }

  lemma {:induction false} SeqBytesConcat(t: Table, a: seq<string>, b: seq<string>)
    requires forall h | h in a + b :: h in t
    ensures forall h | h in a :: h in t
    ensures forall h | h in b :: h in t
    ensures SeqBytes(t, a + b) == SeqBytes(t, a) + SeqBytes(t, b)
    decreases |b|
  {
    assert forall h | h in a :: h in a + b;
    assert forall h | h in b :: h in a + b;
    if b == [] {
      assert a + b == a;
    } else {
      var b' := b[..|b| - 1];
      assert (a + b)[..|a + b| - 1] == a + b';
      assert forall h | h in a + b' :: h in a + b;
      SeqBytesConcat(t, a, b');
    }
  }

  lemma {:induction false} ListedBytes(t: Table, extra: seq<string>, s: set<string>)
    requires s <= t.Keys && Lists(extra, s)
    ensures SeqBytes(t, extra) == SetBytes(t, s)
    decreases |extra|
  {
    if extra == [] {
      assert s == {};
      assert SetBytes(t, {}) == 0;
    } else {
      var last := extra[|extra| - 1];
      var init := extra[..|extra| - 1];
      var m := map h | h in s :: RowBytes(t[h]);
      TakeOut(m, last);
      assert m - {last} == map h | h in s - {last} :: RowBytes(t[h]);
      assert forall h | h in s - {last} :: h in init by {
        forall h | h in s - {last} ensures h in init {
          var i :| 0 <= i < |extra| && extra[i] == h;
          assert init[i] == h;
        }
      }
      ListedBytes(t, init, s - {last});
    }
  }

  ghost function RecordsBytes(records: seq<SyncRecord>): nat {
    if records == [] then 0
    else RecordsBytes(records[..|records| - 1]) + RecordBytes(records[|records| - 1])
  }

  lemma {:induction false} RecordsWeigh(t: Table, handles: seq<string>)
    requires forall h | h in handles :: h in t
    ensures RecordsBytes(Records(t, handles)) == SeqBytes(t, handles)
    decreases |handles|
  {
    if handles != [] {
      var init := handles[..|handles| - 1];
      assert Records(t, handles)[..|handles| - 1] == Records(t, init);
      RecordsWeigh(t, init);
    }
  }

  lemma PayloadOfPage(t: Table, after: nat, page: SyncPage, main: seq<string>, extra: seq<string>)
    requires Ships(t, after, page, main, extra)
    ensures RecordsBytes(page.records) == Payload(t, main, after)
  {
    RecordsWeigh(t, main + extra);
    SeqBytesConcat(t, main, extra);
    ListedBytes(t, extra, LateRoots(t, main, after));
  }

  lemma OneRowPayload(t: Table, h: string, after: nat, maxBytes: nat)
    requires h in t
    requires forall k | k in t :: RowBytes(t[k]) <= maxBytes
    ensures Payload(t, [h], after) <= 2 * maxBytes
  {
    var roots := LateRoots(t, [h], after);
    var m := map k | k in roots :: RowBytes(t[k]);
    assert SeqBytes(t, [h]) == RowBytes(t[h]) by {
      assert [h][..0] == [];
    }
    if SpaceName(h) in roots {
      assert roots == {SpaceName(h)};
      TakeOut(m, SpaceName(h));
      assert m - {SpaceName(h)} == map[];
    } else {
      assert roots == {};
      assert m == map[];
    }
  }

  function Larger(a: nat, b: nat): nat {
    if a < b then b else a
  }

  /** Main result 3. The payload of a page is at most twice the byte limit, or twice the largest stored row
      if that is larger, whatever roots had to be appended; and it only passes twice the byte limit with a
      single main row. */
  lemma PageIsCapped(t: Table, after: nat, limit: nat, maxBytes: nat, largest: nat, page: SyncPage)
    requires IsPage(t, after, limit, maxBytes, page)
    requires forall k | k in t :: RowBytes(t[k]) <= largest
    ensures RecordsBytes(page.records) <= 2 * Larger(maxBytes, largest)
    ensures |Main(t, after, limit, maxBytes)| != 1 ==> RecordsBytes(page.records) <= 2 * maxBytes
  {
    var main, extra := Shipped(t, after, limit, maxBytes, page);
    PayloadOfPage(t, after, page, main, extra);
    if |main| == 0 {
      ListsOfNothing(extra, LateRoots(t, main, after));
      assert page.records == [];
    } else if |main| == 1 {
      assert main == [main[0]];
      OneRowPayload(t, main[0], after, largest);
    } else {
      assert main == Selected(t, after, limit, maxBytes)[..|main|];
    }
  }

  lemma NonEmptyPage(t: Table, after: nat, page: SyncPage, main: seq<string>, extra: seq<string>)
    requires Ships(t, after, page, main, extra) && main != []
    ensures page.records != [] && page.nextCursor.Some?
    ensures exists h :: h in t && t[h].syncSeq == page.nextCursor.value > after && ToRecord(h, t[h]) in page.records
  {
    var h := main[|main| - 1];
    assert h in main;
    MainSeqs(t, after, After(t, after), main);
    assert page.records[|main| - 1] == ToRecord(h, t[h]);
  }

  lemma EmptyPage(t: Table, after: nat, page: SyncPage, main: seq<string>, extra: seq<string>)
    requires Ships(t, after, page, main, extra) && main == []
    ensures page.records == [] && page.nextCursor == None
  {
    ListsOfNothing(extra, LateRoots(t, main, after));
  }

  /** Main result 4. With a row limit of at least one, a page is empty exactly when nothing lies
      past the cursor; otherwise its cursor moves forward onto a stored row, which the page holds. */
  lemma PageMakesProgress(t: Table, after: nat, limit: nat, maxBytes: nat, page: SyncPage)
    requires IsPage(t, after, limit, maxBytes, page) && limit >= 1
    ensures page.records == [] <==> forall h | h in t :: t[h].syncSeq <= after
    ensures page.records == [] <==> page.nextCursor == None
    ensures page.records != [] ==>
      exists h :: h in t && t[h].syncSeq == page.nextCursor.value > after && ToRecord(h, t[h]) in page.records
  {
    var main, extra := Shipped(t, after, limit, maxBytes, page);
    if main == [] {
      EmptyPage(t, after, page, main, extra);
    } else {
      NonEmptyPage(t, after, page, main, extra);
    }
  }

  /** With a row limit of zero every page is empty, whatever is stored: the progress of
      `PageMakesProgress` needs exactly the clamp that the HTTP handler applies. */
  lemma NoRowsNoProgress(t: Table, after: nat, maxBytes: nat, page: SyncPage)
    requires IsPage(t, after, 0, maxBytes, page)
    ensures page.records == [] && page.nextCursor == None
  {
    var main, extra := Shipped(t, after, 0, maxBytes, page);
    EmptyPage(t, after, page, main, extra);
  }

  /** Every stored row between the requested cursor and the next one is on the page, with its certificate,
      zone and numbers. */
  lemma PageCoversItsRange(t: Table, after: nat, limit: nat, maxBytes: nat, page: SyncPage, h: string)
    requires IsPage(t, after, limit, maxBytes, page)
    requires page.nextCursor.Some?
    requires h in t && after < t[h].syncSeq <= page.nextCursor.value
    ensures ToRecord(h, t[h]) in page.records
    ensures var row := t[h];
      exists x :: x in page.records && x.handle == h && x.cert == row.cert && x.zone == row.zone
        && x.epochHeight == row.epochHeight && x.offchainSeq == row.offchainSeq && x.delegateSeq == row.delegateSeq
  {
    var main, extra := Shipped(t, after, limit, maxBytes, page);
    MainReaches(t, after, After(t, after), main, h);
    var i :| 0 <= i < |main| && main[i] == h;
    assert page.records[i] == ToRecord(h, t[h]);
    assert ToRecord(h, t[h]) in page.records;
  }

  /** And nothing else is: what lies past the next cursor is a root that some sub-handle on the page needs. */
  lemma PageAddsOnlyRoots(t: Table, after: nat, limit: nat, maxBytes: nat, page: SyncPage, r: SyncRecord)
    requires IsPage(t, after, limit, maxBytes, page) && r in page.records
    ensures page.nextCursor.Some? && r.handle in t
    ensures t[r.handle].syncSeq > page.nextCursor.value ==>
      IsRoot(r.handle) && exists x :: x in page.records && x.handle != r.handle && SpaceName(x.handle) == r.handle
  {
    var main, extra := Shipped(t, after, limit, maxBytes, page);
    if main == [] {
      ListsOfNothing(extra, LateRoots(t, main, after));
      assert false;
    }
    RecordsHold(t, main + extra);
    MainSeqs(t, after, After(t, after), main);
    if t[r.handle].syncSeq > page.nextCursor.value {
      assert r.handle in LateRoots(t, main, after);
      LateRootsAreRoots(t, main, after);
      var sub :| sub in main && !IsRoot(sub) && SpaceName(sub) == r.handle;
      assert sub in main + extra && ToRecord(sub, t[sub]) in page.records;
    }
  }

  lemma OneMoreRow(t: Table, order: seq<string>, i: nat)
    requires i < |order| && forall h | h in order :: h in t
    ensures order[i] in t
    ensures SeqBytes(t, order[..i + 1]) == SeqBytes(t, order[..i]) + RowBytes(t[order[i]])
  {
    assert order[..i + 1][..i] == order[..i] && order[i] in order;
  }

  lemma {:induction false} SelectionStops(t: Table, order: seq<string>, i: nat, maxBytes: nat, used: nat)
    requires i <= |order| && (forall h | h in order :: h in t) && used == SeqBytes(t, order[..i])
    ensures var n := i + SelectLen(t, order[i..], maxBytes, used);
      && n <= |order|
      && (n < |order| ==> SeqBytes(t, order[..n]) > maxBytes)
      && (n > i && used <= maxBytes ==> SeqBytes(t, order[..n - 1]) <= maxBytes)
    decreases |order| - i
  {
    if i < |order| {
      SelectStep(t, order, i, maxBytes, used);
      OneMoreRow(t, order, i);
      var total := used + RowBytes(t[order[i]]);
      if total <= maxBytes {
        SelectionStops(t, order, i + 1, maxBytes, total);
      }
    }
  }

  lemma {:induction false} BytesOfPrefix(t: Table, order: seq<string>, n: nat, m: nat)
    requires n < m <= |order| && forall h | h in order :: h in t
    ensures n > 0 ==> SeqBytes(t, order[..n - 1]) <= SeqBytes(t, order[..m - 1])
    decreases m
  {
    if 0 < n < m - 1 {
      BytesOfPrefix(t, order, n, m - 1);
      OneMoreRow(t, order, m - 2);
    } else if n > 0 {
      OneMoreRow(t, order, n - 1);
    }
  }

  /** Of a listing, what is read for a page. */
  lemma SelectionIsFull(t: Table, order: seq<string>, limit: nat, maxBytes: nat) returns (n: nat)
    requires forall h | h in order :: h in t
    ensures forall h | h in Prefix(order, limit) :: h in t
    ensures n == SelectLen(t, Prefix(order, limit), maxBytes, 0) <= |order|
    ensures Prefix(order, limit)[..n] == order[..n]
    ensures n < limit && n < |order| ==> SeqBytes(t, order[..n]) > maxBytes
    ensures n > 0 ==> SeqBytes(t, order[..n - 1]) <= maxBytes
  {
    var part := Prefix(order, limit);
    Members(order, part);
    SelectionStops(t, part, 0, maxBytes, 0);
    assert part[0..] == part && part[..0] == [];
    n := SelectLen(t, part, maxBytes, 0);
    assert part[..n] == order[..n];
    assert n > 0 ==> part[..n - 1] == order[..n - 1];
  }

  lemma MainIsLongest(t: Table, after: nat, limit: nat, maxBytes: nat)
    requires Served(t, after)
    ensures var selected, n := Selected(t, after, limit, maxBytes), |Main(t, after, limit, maxBytes)|;
      && (forall h | h in selected :: h in t)
      && n <= |selected| && Main(t, after, limit, maxBytes) == selected[..n] && (selected != [] ==> n > 0)
      && (n < |selected| ==> Payload(t, selected[..n + 1], after) > HardCap(maxBytes))
  {
    Members(After(t, after), Selected(t, after, limit, maxBytes));
  }

  /** Main result 5. A page is as full as its limits allow. It stops short of the row limit, with rows left, only
      when its main rows are more than the byte limit, or when the next row, with the roots that the main rows
      would then need from further along, takes it past twice that limit (or the largest machine word); and
      the rows before its last are within the byte limit. */
  lemma PageIsFull(t: Table, after: nat, limit: nat, maxBytes: nat)
    requires Served(t, after)
    ensures var main, order := Main(t, after, limit, maxBytes), After(t, after);
      var n := |main|;
      && main == order[..n]
      && (n < limit && n < |order| ==>
            || SeqBytes(t, order[..n]) > maxBytes
            || Payload(t, order[..n + 1], after) > 2 * maxBytes
            || Payload(t, order[..n + 1], after) > 0xFFFF_FFFF_FFFF_FFFF)
      && (n > 0 ==> SeqBytes(t, order[..n - 1]) <= maxBytes)
  {
    var order := After(t, after);
    MainIsLongest(t, after, limit, maxBytes);
    var m := SelectionIsFull(t, order, limit, maxBytes);
    assert Selected(t, after, limit, maxBytes) == order[..m];
    FullFrom(t, order, |Main(t, after, limit, maxBytes)|, m, after);
  }

  lemma FullFrom(t: Table, order: seq<string>, n: nat, m: nat, after: nat)
    requires n <= m <= |order| && forall h | h in order :: h in t
    ensures order[..m][..n] == order[..n]
    ensures n < m ==> order[..m][..n + 1] == order[..n + 1]
    ensures 0 < n < m ==> SeqBytes(t, order[..n - 1]) <= SeqBytes(t, order[..m - 1])
  {
    if n < m {
      BytesOfPrefix(t, order, n, m);
    }
  }

  // ---- the trim loop -------------------------------------------------------------------------------

  /** What the `roots` collected by the serving loop satisfy while `main` is being trimmed: they are
      root rows past the last row of `main`, among them all that `main` needs. */
  ghost predicate RootsCollected(t: Table, main: seq<string>, after: nat, roots: set<string>)
    requires forall h | h in main :: h in t
  {
    && (forall r | r in roots :: r in t && t[r].space == r && t[r].syncSeq > LastSeq(t, main, after))
    && LateRoots(t, main, after) <= roots
  }

  lemma CollectedAreLate(t: Table, main: seq<string>, after: nat, roots: set<string>)
    requires forall h | h in main :: h in t
    requires RootsCollected(t, main, after, roots)
    ensures (set r | r in roots && r in SubSpaces(main)) == LateRoots(t, main, after)
  {
  }

  lemma PoppedIsLater(t: Table, after: nat, order: seq<string>, main: seq<string>)
    requires Listing(t, after, order) && main <= order && |main| >= 2
    ensures main[|main| - 1] in t && main[|main| - 2] in t
    ensures t[main[|main| - 2]].syncSeq < t[main[|main| - 1]].syncSeq
  {
    assert main[|main| - 1] == order[|main| - 1] && main[|main| - 2] == order[|main| - 2];
  }

  lemma SubSpacesGrow(rest: seq<string>, main: seq<string>)
    requires rest <= main
    ensures SubSpaces(rest) <= SubSpaces(main)
  {
    Members(main, rest);
  }

  lemma LastOne(main: seq<string>, r: string)
    requires main != [] && r in main && r !in main[..|main| - 1]
    ensures r == main[|main| - 1]
  {
    assert main == main[..|main| - 1] + [main[|main| - 1]];
  }

  lemma LateAfterPop(t: Table, after: nat, order: seq<string>, main: seq<string>, r: string)
    requires Listing(t, after, order) && main <= order && |main| >= 2
    requires forall h | h in main :: h in t
    requires r in LateRoots(t, main[..|main| - 1], after)
    ensures r in LateRoots(t, main, after) || (r == main[|main| - 1] && IsRoot(r))
  {
    var rest := main[..|main| - 1];
    LateRootsAreRoots(t, rest, after);
    SubSpacesGrow(rest, main);
    if t[r].syncSeq <= LastSeq(t, main, after) {
      MainSeqs(t, after, order, rest);
      MainReaches(t, after, order, main, r);
      assert r !in rest;
      LastOne(main, r);
    }
  }

  /** The root re-homed by a pop is exactly the one that may have become late. */
  lemma PopRehomes(t: Table, after: nat, order: seq<string>, main: seq<string>, roots: set<string>, more: set<string>)
    requires Listing(t, after, order) && main <= order && |main| >= 2
    requires forall h | h in main :: h in t
    requires RootsCollected(t, main, after, roots)
    requires more == if IsRoot(main[|main| - 1]) then roots + {main[|main| - 1]} else roots
    ensures RootsCollected(t, main[..|main| - 1], after, more)
  {
    var popped := main[|main| - 1];
    var rest := main[..|main| - 1];
    PoppedIsLater(t, after, order, main);
    assert LastSeq(t, rest, after) < LastSeq(t, main, after);
    forall r | r in LateRoots(t, rest, after) ensures r in more {
      LateAfterPop(t, after, order, main, r);
    }
  }
}
