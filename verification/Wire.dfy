/** The size of a page as it travels: `GET /sync` answers with the borsh encoding of a page, and a puller
    refuses a body above its limit (relay/src/http.rs, `handle_sync`; relay/src/sync.rs, `SyncConfig`). */
module Wire {
  import opened Names
  import opened Tables
  import opened Sets
  import opened Totals
  import opened Pages
  import opened Convergence

  const MAX_SYNC_PAGE_ROWS: nat := 1000
  const MAX_SYNC_PAGE_BYTES: nat := 2 * 1024 * 1024

  const U64_MAX: nat := 0xFFFF_FFFF_FFFF_FFFF

  /** Three length prefixes of 4 bytes, a u32, two u64s, and the bytes of the handle and the blobs. */
  function RecordSize(r: SyncRecord): nat {
    3 * 4 + 4 + 2 * 8 + |r.handle| + RecordBytes(r)
  }

  ghost function RecordsSize(records: seq<SyncRecord>): nat {
    if records == [] then 0
    else RecordsSize(records[..|records| - 1]) + RecordSize(records[|records| - 1])
  }

  function Digits(n: nat): (d: nat)
    ensures d >= 1
  {
    if n < 10 then 1 else 1 + Digits(n / 10)
  }

  /** A length prefix and the records, then the cursor: a tag, a length prefix and its decimal digits. */
  ghost function BodySize(page: SyncPage): nat {
    4 + RecordsSize(page.records)
      + match page.nextCursor case None => 1 case Some(c) => 1 + 4 + Digits(c)
  }

  lemma DigitsOfU64(n: nat)
    requires n <= U64_MAX
    ensures Digits(n) <= 20
  {
    FiveMore(0);
    FiveMore(5);
    FiveMore(10);
    FiveMore(15);
    DigitsBound(n, 20, 100_000_000_000_000_000_000);
  }

  lemma {:induction false} DigitsBound(n: nat, k: nat, power: nat)
    requires k >= 1 && power == Power10(k) && n < power
    ensures Digits(n) <= k
    decreases k
  {
    if n >= 10 {
      assert k > 1;
      DigitsBound(n / 10, k - 1, Power10(k - 1));
    }
  }

  lemma FiveMore(k: nat)
    ensures Power10(k + 5) == 100_000 * Power10(k)
  {
    assert Power10(k + 5) == 10 * Power10(k + 4) == 100 * Power10(k + 3) == 1000 * Power10(k + 2);
  }

  function Power10(k: nat): nat {
    if k == 0 then 1 else 10 * Power10(k - 1)
  }

  ghost function NameBytes(handles: seq<string>): nat {
    if handles == [] then 0
    else NameBytes(handles[..|handles| - 1]) + |handles[|handles| - 1]|
  }

  ghost function NamesTotal(names: set<string>): int {
    Total(map s | s in names :: |s|)
  }

  lemma {:induction false} SizeOfRecords(t: Table, handles: seq<string>)
    requires forall h | h in handles :: h in t
    ensures RecordsSize(Records(t, handles))
         == 32 * |handles| + NameBytes(handles) + RecordsBytes(Records(t, handles))
    decreases |handles|
  {
    if handles != [] {
      var front := handles[..|handles| - 1];
      assert Records(t, handles)[..|handles| - 1] == Records(t, front);
      SizeOfRecords(t, front);
    }
  }

  lemma {:induction false} NamesConcat(a: seq<string>, b: seq<string>)
    ensures NameBytes(a + b) == NameBytes(a) + NameBytes(b)
    decreases |b|
  {
    if b == [] {
      assert a + b == a;
    } else {
      assert (a + b)[..|a| + |b| - 1] == a + b[..|b| - 1];
      NamesConcat(a, b[..|b| - 1]);
    }
  }

  lemma OneMoreName(names: set<string>, s: string)
    requires s !in names
    ensures NamesTotal(names + {s}) == NamesTotal(names) + |s|
  {
    var m := map n | n in names :: |n|;
    var more := names + {s};
    PutIn(m, s, |s|);
    assert m[s := |s|] == map n | n in more :: |n|;
  }

  lemma ListsFront(extra: seq<string>, s: set<string>)
    requires Lists(extra, s) && extra != []
    ensures extra[|extra| - 1] in s && Lists(extra[..|extra| - 1], s - {extra[|extra| - 1]})
  {
    var front, last := extra[..|extra| - 1], extra[|extra| - 1];
    assert extra == front + [last];
    assert forall h | h in s - {last} :: h in front;
  }

  lemma {:induction false} ListedNames(extra: seq<string>, s: set<string>)
    requires Lists(extra, s)
    ensures NameBytes(extra) == NamesTotal(s)
    decreases |extra|
  {
    if extra == [] {
      assert s == {};
    } else {
      var last := extra[|extra| - 1];
      ListsFront(extra, s);
      ListedNames(extra[..|extra| - 1], s - {last});
      OneMoreName(s - {last}, last);
      assert s - {last} + {last} == s;
    }
  }

  lemma {:induction false} FewerNames(a: set<string>, b: set<string>)
    requires a <= b
    ensures NamesTotal(a) <= NamesTotal(b)
    decreases |b|
  {
    if a != b {
      var s :| s in b && s !in a;
      FewerNames(a, b - {s});
      OneMoreName(b - {s}, s);
      assert b - {s} + {s} == b;
    }
  }

  /** The spaces of sub-handles have shorter names than the sub-handles. */
  lemma {:induction false} SpacesAreShorter(main: seq<string>)
    ensures NamesTotal(SubSpaces(main)) + |SubSpaces(main)| <= NameBytes(main)
    decreases |main|
  {
    if main == [] {
      assert SubSpaces(main) == {};
    } else {
      var front, last := main[..|main| - 1], main[|main| - 1];
      assert main == front + [last];
      SpacesAreShorter(front);
      if IsRoot(last) || SpaceName(last) in SubSpaces(front) {
        assert SubSpaces(main) == SubSpaces(front);
      } else {
        assert SubSpaces(main) == SubSpaces(front) + {SpaceName(last)};
        OneMoreName(SubSpaces(front), SpaceName(last));
        SpaceIsShorter(last);
      }
    }
  }

  lemma SpaceIsShorter(h: string)
    requires !IsRoot(h)
    ensures |SpaceName(h)| < |h|
  {
    FromMarkerIsSuffix(h);
  }

  lemma {:induction false} ImageSize(main: seq<string>, spaces: set<string>)
    requires spaces == SubSpaces(main)
    ensures |spaces| <= |main|
    decreases |main|
  {
    if main != [] {
      var front, last := main[..|main| - 1], main[|main| - 1];
      ImageSize(front, SubSpaces(front));
      assert main == front + [last];
      if IsRoot(last) {
        assert spaces == SubSpaces(front);
      } else {
        assert spaces == SubSpaces(front) + {SpaceName(last)};
      }
    }
  }

  lemma {:induction false} ListedSize(extra: seq<string>, s: set<string>)
    requires Lists(extra, s)
    ensures |extra| == |s|
    decreases |extra|
  {
    if extra == [] {
      assert s == {};
    } else {
      ListsFront(extra, s);
      ListedSize(extra[..|extra| - 1], s - {extra[|extra| - 1]});
    }
  }

  /** No more roots are appended than there are main rows. */
  lemma PageRows(t: Table, after: nat, limit: nat, maxBytes: nat, page: SyncPage)
    requires IsPage(t, after, limit, maxBytes, page)
    ensures |page.records| <= 2 * limit
  {
    var main, extra := Shipped(t, after, limit, maxBytes, page);
    ListedSize(extra, LateRoots(t, main, after));
    ImageSize(main, SubSpaces(main));
    SubsetSize(LateRoots(t, main, after), SubSpaces(main));
  }

  lemma CursorIsStored(t: Table, after: nat, limit: nat, maxBytes: nat, page: SyncPage)
    requires IsPage(t, after, limit, maxBytes, page)
    ensures page.nextCursor.Some? ==> exists h :: h in t && t[h].syncSeq == page.nextCursor.value
  {
    var main, extra := Shipped(t, after, limit, maxBytes, page);
    if main != [] {
      var h := main[|main| - 1];
      assert h in main && t[h].syncSeq == page.nextCursor.value;
    }
  }

  /** What the framing and the names of a page add to its payload: 63 bytes and twice its name for each
      main row, whatever roots are appended, and the rest of the page. */
  lemma PageOverhead(t: Table, after: nat, limit: nat, maxBytes: nat, page: SyncPage)
    requires IsPage(t, after, limit, maxBytes, page)
    ensures var main := Main(t, after, limit, maxBytes);
      RecordsSize(page.records) <= RecordsBytes(page.records) + 63 * |main| + 2 * NameBytes(main)
  {
    var main, extra := Shipped(t, after, limit, maxBytes, page);
    ServedAlways(t, after);
    SizeOfRecords(t, main + extra);
    NamesConcat(main, extra);
    var late := LateRoots(t, main, after);
    ListedNames(extra, late);
    ListedSize(extra, late);
    FewerNames(late, SubSpaces(main));
    SpacesAreShorter(main);
    ImageSize(main, SubSpaces(main));
    SubsetSize(late, SubSpaces(main));
  }

  /** Main result. How large the encoded body of a page can be: twice the byte limit or the largest row for the
      payload, plus for each main row 63 bytes and twice the length of its handle, plus 29. No bound on rows,
      on handles or on their number is assumed. */
  lemma BodyBound(t: Table, after: nat, limit: nat, maxBytes: nat, largest: nat, page: SyncPage)
    requires IsPage(t, after, limit, maxBytes, page)
    requires forall h | h in t :: RowBytes(t[h]) <= largest && t[h].syncSeq <= U64_MAX
    ensures var main := Main(t, after, limit, maxBytes);
      BodySize(page) <= 2 * Larger(maxBytes, largest) + 63 * |main| + 2 * NameBytes(main) + 29
  {
    PageIsCapped(t, after, limit, maxBytes, largest, page);
    PageOverhead(t, after, limit, maxBytes, page);
    CursorIsStored(t, after, limit, maxBytes, page);
    if page.nextCursor.Some? {
      DigitsOfU64(page.nextCursor.value);
    }
  }

  lemma {:induction false} NamesWithin(handles: seq<string>, longest: nat, total: nat)
    requires forall h | h in handles :: |h| <= longest
    requires |handles| * longest <= total
    ensures NameBytes(handles) <= total
    decreases |handles|
  {
    if handles != [] {
      assert |handles| * longest == (|handles| - 1) * longest + longest;
      NamesWithin(handles[..|handles| - 1], longest, total - longest);
    }
  }

  /** The most that 1000 main rows with handles of up to 230 bytes add to the payload. */
  const OVERHEAD: nat := 63 * MAX_SYNC_PAGE_ROWS + 2 * 230 * MAX_SYNC_PAGE_ROWS + 29

  /** What a puller takes whose largest message is `message` bytes: `SyncConfig::max_page_bytes` as configured. */
  function MaxPageBytes(message: nat): nat {
    2 * MAX_SYNC_PAGE_BYTES + message
  }

  /** So where no row is larger than a message, a page fits its pullers as soon as what its main rows add is
      within the message size, and with a single main row also the message size plus that within twice the
      byte limit. */
  lemma BodyFitsPuller(t: Table, after: nat, limit: nat, message: nat, page: SyncPage)
    requires IsPage(t, after, limit, MAX_SYNC_PAGE_BYTES, page)
    requires forall h | h in t :: RowBytes(t[h]) <= message && t[h].syncSeq <= U64_MAX
    ensures var main := Main(t, after, limit, MAX_SYNC_PAGE_BYTES);
      var added := 63 * |main| + 2 * NameBytes(main) + 29;
      added <= message && (|main| == 1 ==> message + added <= 2 * MAX_SYNC_PAGE_BYTES) ==>
        BodySize(page) <= MaxPageBytes(message)
  {
    PageIsCapped(t, after, limit, MAX_SYNC_PAGE_BYTES, message, page);
    PageOverhead(t, after, limit, MAX_SYNC_PAGE_BYTES, page);
    BodyBound(t, after, limit, MAX_SYNC_PAGE_BYTES, message, page);
    CursorIsStored(t, after, limit, MAX_SYNC_PAGE_BYTES, page);
    if page.nextCursor.Some? {
      DigitsOfU64(page.nextCursor.value);
    }
  }

  /** Every page that the route serves, from any table with rows no larger than a message and handles of up to
      `longest` bytes, is one that pullers take. */
  ghost predicate NeverWedges(message: nat, longest: nat) {
    forall t: Table, after: nat, limit: nat, page: SyncPage |
      IsPage(t, after, limit, 2_097_152, page) && limit <= 1000
      && (forall h | h in t :: |t[h].cert| + |t[h].zone| <= message && t[h].syncSeq <= U64_MAX && |h| <= longest) ::
      BodySize(page) <= 4_194_304 + message
  }

  lemma PageFits(t: Table, after: nat, limit: nat, message: nat, longest: nat, page: SyncPage)
    requires IsPage(t, after, limit, MAX_SYNC_PAGE_BYTES, page) && limit <= MAX_SYNC_PAGE_ROWS
    requires forall h | h in t :: RowBytes(t[h]) <= message && t[h].syncSeq <= U64_MAX && |h| <= longest
    requires longest <= 230 && OVERHEAD <= message && message + 2 * longest + 92 <= 2 * MAX_SYNC_PAGE_BYTES
    ensures BodySize(page) <= MaxPageBytes(message)
  {
    var main := Main(t, after, limit, MAX_SYNC_PAGE_BYTES);
    Members(After(t, after), main);
    if |main| == 1 {
      NamesWithin(main, longest, longest);
    } else {
      NamesWithin(main, 230, 230 * MAX_SYNC_PAGE_ROWS);
    }
    BodyFitsPuller(t, after, limit, message, page);
  }

  // ---- a message size that is too large ------------------------------------------------------------

  lemma {:induction false} OneRecord(records: seq<SyncRecord>, i: nat)
    requires i < |records|
    ensures RecordsSize(records) >= RecordSize(records[i])
    decreases |records|
  {
    if i < |records| - 1 {
      OneRecord(records[..|records| - 1], i);
    }
  }

  lemma {:induction false} TwoRecords(records: seq<SyncRecord>, i: nat, j: nat)
    requires i < j < |records|
    ensures RecordsSize(records) >= RecordSize(records[i]) + RecordSize(records[j])
    decreases |records|
  {
    if j < |records| - 1 {
      TwoRecords(records[..|records| - 1], i, j);
    } else {
      OneRecord(records[..j], i);
    }
  }

  lemma {:induction false} DigitsAtLeast(n: nat, k: nat)
    requires k >= 1 && n >= Power10(k - 1)
    ensures Digits(n) >= k
    decreases k
  {
    if k > 1 {
      PowerPositive(k - 2);
      DigitsAtLeast(n / 10, k - 1);
    }
  }

  lemma {:induction false} PowerPositive(k: nat)
    ensures Power10(k) >= 1
    decreases k
  {
    if k > 0 {
      PowerPositive(k - 1);
    }
  }

  function Zeros(n: nat): (b: Blob)
    ensures |b| == n
  {
    seq(n, _ => 0 as Byte)
  }

  /** The longest number there is room for: 10 to the 19th, of twenty digits. */
  const LATE: nat := 10_000_000_000_000_000_000

  lemma LateDigits(n: nat)
    requires n >= LATE
    ensures Digits(n) >= 20
  {
    FiveMore(0);
    FiveMore(5);
    FiveMore(10);
    assert Power10(19) == 10 * Power10(18) == 100 * Power10(17) == 1000 * Power10(16) == 10_000 * Power10(15);
    DigitsAtLeast(n, 20);
  }

  function RootName(length: nat): (name: string)
    requires length >= 1
    ensures |name| == length && name[0] == '@'
  {
    "@" + seq(length - 1, _ => 'b')
  }

  function SubName(length: nat): (name: string)
    requires length >= 2
    ensures |name| == length && name[0] == 'a' && name[1..] == RootName(length - 1)
  {
    "a" + RootName(length - 1)
  }

  /** A sub-handle of `longest` bytes and, behind it, its root, in rows of `n` bytes each. */
  function Pair(n: nat, longest: nat): Table
    requires longest >= 2
  {
    var root, sub := RootName(longest - 1), SubName(longest);
    map[sub := Row(root, Zeros(n), [], 0, 0, 0, LATE, [], 0), root := Row(root, Zeros(n), [], 0, 0, 0, LATE + 1, [], 0)]
  }

  lemma PairIsStored(n: nat, longest: nat)
    requires longest >= 2
    ensures var root, sub := RootName(longest - 1), SubName(longest);
      && SpaceName(sub) == root == SpaceName(root) && sub != root
      && Distinct(Pair(n, longest)) && SpacesAgree(Pair(n, longest))
      && forall h | h in Pair(n, longest) ::
           RowBytes(Pair(n, longest)[h]) == n && LATE <= Pair(n, longest)[h].syncSeq <= U64_MAX && |h| <= longest
  {
    var root, sub := RootName(longest - 1), SubName(longest);
    assert FromMarker(sub) == FromMarker(sub[1..]) == root;
  }

  /** A sub-handle within the page's range and its root are both on the page. */
  lemma BothShipped(t: Table, limit: nat, maxBytes: nat, page: SyncPage, sub: string) returns (i: nat, j: nat)
    requires IsPage(t, 0, limit, maxBytes, page) && page.nextCursor.Some?
    requires sub in t && 0 < t[sub].syncSeq <= page.nextCursor.value && !IsRoot(sub)
    requires SpaceName(sub) in t && t[SpaceName(sub)].syncSeq > 0
    ensures i < |page.records| && j < |page.records| && i != j
    ensures page.records[i] == ToRecord(sub, t[sub])
    ensures page.records[j] == ToRecord(SpaceName(sub), t[SpaceName(sub)])
  {
    PageCoversItsRange(t, 0, limit, maxBytes, page, sub);
    PageIsRootClosed(t, 0, limit, maxBytes, page, ToRecord(sub, t[sub]));
    i :| 0 <= i < |page.records| && page.records[i] == ToRecord(sub, t[sub]);
    j :| 0 <= j < |page.records| && page.records[j] == ToRecord(SpaceName(sub), t[SpaceName(sub)]);
  }

  /** Any page of it, from the start, holds both rows. */
  lemma PairTravels(n: nat, longest: nat, limit: nat, maxBytes: nat, page: SyncPage)
    requires longest >= 2 && limit >= 1 && IsPage(Pair(n, longest), 0, limit, maxBytes, page)
    ensures RecordsSize(page.records) >= 2 * n + 2 * longest + 63
    ensures page.nextCursor.Some? && page.nextCursor.value >= LATE
  {
    var t := Pair(n, longest);
    var root, sub := RootName(longest - 1), SubName(longest);
    PairIsStored(n, longest);
    assert t[sub].syncSeq > 0;
    PageMakesProgress(t, 0, limit, maxBytes, page);
    var i, j := BothShipped(t, limit, maxBytes, page, sub);
    BothSized(page.records, i, j);
  }

  lemma PairBody(n: nat, longest: nat, limit: nat, maxBytes: nat, page: SyncPage)
    requires longest >= 2 && limit >= 1 && IsPage(Pair(n, longest), 0, limit, maxBytes, page)
    ensures BodySize(page) >= 2 * n + 2 * longest + 92
  {
    PairTravels(n, longest, limit, maxBytes, page);
    LateDigits(page.nextCursor.value);
  }

  lemma BothSized(records: seq<SyncRecord>, i: nat, j: nat)
    requires i < |records| && j < |records| && i != j
    ensures RecordsSize(records) >= RecordSize(records[i]) + RecordSize(records[j])
  {
    if i < j {
      TwoRecords(records, i, j);
    } else {
      TwoRecords(records, j, i);
    }
  }

  /** A message size that is too large: two rows of it, a sub-handle and its root, travel as one page, at any
      row limit, which a puller with the same message size refuses. */
  lemma RaisedLimitWedges(message: nat, longest: nat, limit: nat) returns (t: Table, page: SyncPage)
    requires longest >= 2 && limit >= 1 && message + 2 * longest + 92 > 2 * MAX_SYNC_PAGE_BYTES
    ensures Distinct(t) && SpacesAgree(t)
    ensures forall h | h in t :: RowBytes(t[h]) <= message && t[h].syncSeq <= U64_MAX && |h| <= longest
    ensures IsPage(t, 0, limit, MAX_SYNC_PAGE_BYTES, page)
    ensures BodySize(page) > MaxPageBytes(message)
  {
    t := Pair(message, longest);
    PairIsStored(message, longest);
    page := PageOf(t, 0, limit, MAX_SYNC_PAGE_BYTES);
    PairBody(message, longest, limit, MAX_SYNC_PAGE_BYTES, page);
  }

  /** Main result. Exactly how far the message size can be raised, from its default on, before pullers that
      derive their page limit from it can be wedged: up to twice the byte limit, less 92 bytes and twice the
      longest handle. */
  lemma NeverWedgesIff(message: nat, longest: nat)
    requires message >= 524_288 && 2 <= longest <= 230
    ensures NeverWedges(message, longest) <==> message + 2 * longest + 92 <= 4_194_304
  {
    if message + 2 * longest + 92 <= 2 * MAX_SYNC_PAGE_BYTES {
      forall t: Table, after: nat, limit: nat, page: SyncPage |
        IsPage(t, after, limit, MAX_SYNC_PAGE_BYTES, page) && limit <= MAX_SYNC_PAGE_ROWS
        && (forall h | h in t :: RowBytes(t[h]) <= message && t[h].syncSeq <= U64_MAX && |h| <= longest)
        ensures BodySize(page) <= MaxPageBytes(message)
      {
        PageFits(t, after, limit, message, longest, page);
      }
    } else {
      var t, page := RaisedLimitWedges(message, longest, 1);
      assert IsPage(t, 0, 1, 2_097_152, page) && BodySize(page) > 4_194_304 + message;
      assert forall h | h in t :: |t[h].cert| + |t[h].zone| == RowBytes(t[h]);
    }
  }
}
