/** The two migrations that run when a database is opened: numbering the rows written before the
    table had a write sequence (`backfill_sync`), and building the storage accounting of a database
    that had none (`backfill_storage`). A row with `sync_seq = 0` is a legacy row. */
module Backfill {
  import opened Sets
  import opened Tables
  import opened Accounting
  import opened StoreRuns

  type Hash = Blob -> Blob

  // ---- the order in which legacy rows are numbered -------------------------------------------------

  /** The text order of handles (by code point, which is also their order as UTF-8 bytes). */
  predicate TextLess(a: string, b: string) {
    b != "" && (a == "" || a[0] < b[0] || (a[0] == b[0] && TextLess(a[1..], b[1..])))
  }

  lemma {:induction false} TextOrderTotal(a: string, b: string)
    ensures a == b || TextLess(a, b) || TextLess(b, a)
    ensures !TextLess(a, a)
    ensures !(TextLess(a, b) && TextLess(b, a))
    decreases |a| + |b|
  {
    if a != "" && b != "" && a[0] == b[0] {
      TextOrderTotal(a[1..], b[1..]);
      assert a == [a[0]] + a[1..] && b == [b[0]] + b[1..];
    }
    TextIrreflexive(a);
  }

  lemma {:induction false} TextIrreflexive(a: string)
    ensures !TextLess(a, a)
    decreases |a|
  {
    if a != "" {
      TextIrreflexive(a[1..]);
    }
  }

  lemma {:induction false} TextOrderTransitive(a: string, b: string, c: string)
    requires TextLess(a, b) && TextLess(b, c)
    ensures TextLess(a, c)
    decreases |a|
  {
    if a != "" && a[0] == b[0] && b[0] == c[0] {
      TextOrderTransitive(a[1..], b[1..], c[1..]);
    }
  }

  /** `ORDER BY updated_at, handle`. */
  predicate Before(t: Table, h: string, k: string)
    requires h in t && k in t
  {
    t[h].updatedAt < t[k].updatedAt || (t[h].updatedAt == t[k].updatedAt && TextLess(h, k))
  }

  lemma BeforeTransitive(t: Table, h: string, m: string, k: string)
    requires h in t && m in t && k in t && Before(t, h, m) && Before(t, m, k)
    ensures Before(t, h, k)
  {
    if t[h].updatedAt == t[m].updatedAt == t[k].updatedAt {
      TextOrderTransitive(h, m, k);
    }
  }

  predicate IsFirst(t: Table, s: set<string>, h: string)
    requires s <= t.Keys
  {
    h in s && forall k | k in s :: k == h || Before(t, h, k)
  }

  lemma {:induction false} FirstExists(t: Table, s: set<string>)
    requires s <= t.Keys && s != {}
    ensures exists h :: IsFirst(t, s, h)
    decreases |s|
  {
    var h :| h in s;
    if s == {h} {
      assert IsFirst(t, s, h);
    } else {
      FirstExists(t, s - {h});
      var m :| IsFirst(t, s - {h}, m);
      TextOrderTotal(h, m);
      if Before(t, m, h) {
        assert IsFirst(t, s, m);
      } else {
        forall k | k in s ensures k == h || Before(t, h, k) {
          if k != h && k != m {
            assert k in s - {h};
            BeforeTransitive(t, h, m, k);
          }
        }
        assert IsFirst(t, s, h);
      }
    }
  }

  lemma FirstUnique(t: Table, s: set<string>, h: string, k: string)
    requires s <= t.Keys && IsFirst(t, s, h) && IsFirst(t, s, k)
    ensures h == k
  {
    TextOrderTotal(h, k);
  }

  /** The handles of `s`, in order. */
  function Sorted(t: Table, s: set<string>): (order: seq<string>)
    requires s <= t.Keys
    ensures |order| == |s|
    ensures forall h | h in order :: h in s
    decreases |s|
  {
    if s == {} then []
    else
      FirstExists(t, s);
      assert forall h, k | IsFirst(t, s, h) && IsFirst(t, s, k) :: h == k by {
        forall h, k | IsFirst(t, s, h) && IsFirst(t, s, k) ensures h == k {
          FirstUnique(t, s, h, k);
        }
      }
      var h :| IsFirst(t, s, h);
      [h] + Sorted(t, s - {h})
  }

  function Legacy(t: Table): set<string> {
    set h | h in t && t[h].syncSeq == 0
  }

  /** `SELECT handle ... WHERE sync_seq = 0 ORDER BY updated_at, handle`. */
  function LegacyOrder(t: Table): (order: seq<string>)
    ensures |order| == |Legacy(t)|
    ensures forall h | h in order :: h in t && t[h].syncSeq == 0
  {
    Sorted(t, Legacy(t))
  }

  // ---- the migration -------------------------------------------------------------------------------

  function Numbered(hash: Hash, row: Row, n: nat): Row {
    row.(syncSeq := n, zoneHash := hash(row.zone))
  }

  /** The updates of one chunk transaction: entry `i` gets `base + 1 + i`. */
  function Assign(hash: Hash, t: Table, chunk: seq<string>, base: nat): (t': Table)
    requires forall h | h in chunk :: h in t
    ensures t'.Keys == t.Keys
  {
    if chunk == [] then t
    else
      var n := |chunk| - 1;
      var rest := Assign(hash, t, chunk[..n], base);
      rest[chunk[n] := Numbered(hash, t[chunk[n]], base + 1 + n)]
  }

  /** The rows a chunk of at most `size` takes. */
  function Chunk(t: Table, size: nat): (chunk: seq<string>)
    ensures |chunk| == if size < |LegacyOrder(t)| then size else |LegacyOrder(t)|
    ensures chunk == LegacyOrder(t)[..|chunk|]
    ensures forall h | h in chunk :: h in t
  {
    var order := LegacyOrder(t);
    if size < |order| then order[..size] else order
  }

  /** One committed chunk of at most `size` rows. */
  function CommitChunk(hash: Hash, db: Db, size: nat): Db {
    var chunk := Chunk(db.rows, size);
    db.(rows := Assign(hash, db.rows, chunk, db.counter), counter := db.counter + |chunk|)
  }

  ghost function Rank(t: Table, h: string): nat
    requires h in t
  {
    |set k | k in Legacy(t) && (k == h || Before(t, k, h))|
  }

  /** The outcome of the whole migration: each legacy row is numbered by its rank in
      (`updated_at`, `handle`) order, on top of what the counter had issued. */
  ghost function Migrated(hash: Hash, db: Db): Db {
    db.(rows := map h | h in db.rows ::
          if db.rows[h].syncSeq == 0 then Numbered(hash, db.rows[h], db.counter + Rank(db.rows, h))
          else db.rows[h],
        counter := db.counter + |Legacy(db.rows)|)
  }

  // ---- ranks ---------------------------------------------------------------------------------------

  ghost predicate InOrder(t: Table, order: seq<string>) {
    && (forall h | h in order :: h in t)
    && forall i, j | 0 <= i < j < |order| :: order[i] != order[j] && Before(t, order[i], order[j])
  }

  lemma {:induction false} SortedComplete(t: Table, s: set<string>)
    requires s <= t.Keys
    ensures forall h | h in s :: h in Sorted(t, s)
    decreases |s|
  {
    if s != {} {
      var h := Sorted(t, s)[0];
      assert Sorted(t, s) == [h] + Sorted(t, s - {h});
      SortedComplete(t, s - {h});
    }
  }

  lemma InOrderCons(t: Table, h: string, rest: seq<string>)
    requires h in t && InOrder(t, rest)
    requires forall k | k in rest :: k in t && k != h && Before(t, h, k)
    ensures InOrder(t, [h] + rest)
  {
  }

  lemma {:induction false} SortedInOrder(t: Table, s: set<string>)
    requires s <= t.Keys
    ensures InOrder(t, Sorted(t, s))
    ensures forall h | h in s :: h in Sorted(t, s)
    decreases |s|
  {
    if s != {} {
      var h := Sorted(t, s)[0];
      assert IsFirst(t, s, h);
      SortedInOrder(t, s - {h});
      InOrderCons(t, h, Sorted(t, s - {h}));
      assert Sorted(t, s) == [h] + Sorted(t, s - {h});
    }
    SortedComplete(t, s);
  }

  lemma NotBoth(t: Table, h: string, k: string)
    requires h in t && k in t && Before(t, h, k)
    ensures !Before(t, k, h) && h != k
  {
    TextOrderTotal(h, k);
  }

  lemma RankInOrder(t: Table, i: nat)
    requires i < |LegacyOrder(t)|
    ensures LegacyOrder(t)[i] in t
    ensures Rank(t, LegacyOrder(t)[i]) == i + 1
  {
    var order := LegacyOrder(t);
    SortedInOrder(t, Legacy(t));
    var lower := set k | k in Legacy(t) && (k == order[i] || Before(t, k, order[i]));
    var head := order[..i + 1];
    forall k | k in lower ensures k in head {
      var j :| 0 <= j < |order| && order[j] == k;
      if i < j {
        NotBoth(t, order[i], order[j]);
      }
      assert head[j] == k;
    }
    forall k | k in head ensures k in lower {
      var j :| 0 <= j < |head| && head[j] == k;
      assert order[j] == k;
    }
    DistinctCount(head, lower);
  }

  // ---- chunks and crashes --------------------------------------------------------------------------

  lemma {:induction false} AssignAt(hash: Hash, t: Table, chunk: seq<string>, base: nat, i: nat)
    requires forall h | h in chunk :: h in t
    requires forall i, j | 0 <= i < j < |chunk| :: chunk[i] != chunk[j]
    requires i < |chunk|
    ensures Assign(hash, t, chunk, base)[chunk[i]] == Numbered(hash, t[chunk[i]], base + 1 + i)
    decreases |chunk|
  {
    if i < |chunk| - 1 {
      AssignAt(hash, t, chunk[..|chunk| - 1], base, i);
    }
  }

  lemma {:induction false} AssignRows(hash: Hash, t: Table, chunk: seq<string>, base: nat)
    requires forall h | h in chunk :: h in t
    requires forall i, j | 0 <= i < j < |chunk| :: chunk[i] != chunk[j]
    ensures forall i | 0 <= i < |chunk| ::
      Assign(hash, t, chunk, base)[chunk[i]] == Numbered(hash, t[chunk[i]], base + 1 + i)
    ensures forall h | h in t && h !in chunk :: Assign(hash, t, chunk, base)[h] == t[h]
  {
    forall i | 0 <= i < |chunk|
      ensures Assign(hash, t, chunk, base)[chunk[i]] == Numbered(hash, t[chunk[i]], base + 1 + i)
    {
      AssignAt(hash, t, chunk, base, i);
    }
    forall h | h in t && h !in chunk ensures Assign(hash, t, chunk, base)[h] == t[h] {
      AssignLeaves(hash, t, chunk, base, h);
    }
  }

  lemma {:induction false} AssignLeaves(hash: Hash, t: Table, chunk: seq<string>, base: nat, h: string)
    requires forall g | g in chunk :: g in t
    requires h in t && h !in chunk
    ensures Assign(hash, t, chunk, base)[h] == t[h]
    decreases |chunk|
  {
    if chunk != [] {
      AssignLeaves(hash, t, chunk[..|chunk| - 1], base, h);
    }
  }

  lemma AssignOne(hash: Hash, t: Table, chunk: seq<string>, i: nat, base: nat)
    requires forall h | h in chunk :: h in t
    requires forall i, j | 0 <= i < j < |chunk| :: chunk[i] != chunk[j]
    requires i < |chunk|
    ensures var before := Assign(hash, t, chunk[..i], base);
      Assign(hash, t, chunk[..i + 1], base)
        == before[chunk[i] := Numbered(hash, before[chunk[i]], base + 1 + i)]
  {
    assert chunk[..i + 1][..i] == chunk[..i];
    assert chunk[i] !in chunk[..i];
    AssignLeaves(hash, t, chunk[..i], base, chunk[i]);
  }

  /** Sorting does not depend on anything a chunk changes. */
  lemma {:induction false} SortedSame(t: Table, t': Table, s: set<string>)
    requires s <= t.Keys && s <= t'.Keys
    requires forall h | h in s :: t[h] == t'[h]
    ensures Sorted(t, s) == Sorted(t', s)
    decreases |s|
  {
    if s != {} {
      var h := Sorted(t, s)[0];
      var h' := Sorted(t', s)[0];
      assert IsFirst(t, s, h) && IsFirst(t', s, h');
      assert IsFirst(t, s, h');
      FirstUnique(t, s, h, h');
      SortedSame(t, t', s - {h});
    }
  }

  ghost function Elements(order: seq<string>): set<string> {
    set h | h in order
  }

  lemma ElementsSplit(order: seq<string>)
    requires order != []
    ensures Elements(order) == {order[0]} + Elements(order[1..])
  {
    assert order == [order[0]] + order[1..];
  }

  lemma RemoveTogether(s: set<string>, h: string, more: set<string>)
    ensures s - ({h} + more) == s - {h} - more
  {
  }

  lemma SortedFirst(t: Table, s: set<string>)
    requires s <= t.Keys && s != {}
    ensures Sorted(t, s)[0] in s
    ensures Sorted(t, s)[1..] == Sorted(t, s - {Sorted(t, s)[0]})
  {
  }

  lemma TailSlices(order: seq<string>, n: nat)
    requires 0 < n <= |order|
    ensures order[..n][1..] == order[1..][..n - 1]
    ensures order[n..] == order[1..][n - 1..]
    ensures order[..n] != [] && order[..n][0] == order[0]
  {
  }

  lemma {:induction false} SortedTail(t: Table, s: set<string>, n: nat)
    requires s <= t.Keys && n <= |s|
    ensures Sorted(t, s)[n..] == Sorted(t, s - Elements(Sorted(t, s)[..n]))
    decreases n
  {
    var order := Sorted(t, s);
    if n == 0 {
      assert s - Elements(order[..0]) == s;
    } else {
      var h := order[0];
      SortedFirst(t, s);
      SortedTail(t, s - {h}, n - 1);
      ElementsSplit(order[..n]);
      TailSlices(order, n);
      RemoveTogether(s, h, Elements(order[1..][..n - 1]));
    }
  }

  lemma ChunkInOrder(t: Table, size: nat)
    ensures InOrder(t, LegacyOrder(t))
    ensures forall h | h in Legacy(t) :: h in LegacyOrder(t)
    ensures InOrder(t, Chunk(t, size))
  {
    SortedInOrder(t, Legacy(t));
  }

  lemma LegacyAfter(t: Table, t': Table, chunk: seq<string>)
    requires t'.Keys == t.Keys
    requires forall h | h in chunk :: h in t && t'[h].syncSeq > 0
    requires forall h | h in t && h !in chunk :: t'[h] == t[h]
    ensures Legacy(t') == Legacy(t) - Elements(chunk)
  {
  }

  /** What a chunk leaves to do is the rest of the order. */
  lemma OrderAfterChunk(hash: Hash, db: Db, size: nat)
    ensures LegacyOrder(CommitChunk(hash, db, size).rows) == LegacyOrder(db.rows)[|Chunk(db.rows, size)|..]
  {
    var t := db.rows;
    var chunk := Chunk(t, size);
    var t' := CommitChunk(hash, db, size).rows;
    ChunkInOrder(t, size);
    AssignRows(hash, t, chunk, db.counter);
    forall h | h in chunk ensures t'[h].syncSeq > 0 {
      var i :| 0 <= i < |chunk| && chunk[i] == h;
    }
    LegacyAfter(t, t', chunk);
    SortedSame(t, t', Legacy(t'));
    SortedTail(t, Legacy(t), |chunk|);
  }

  lemma MigratedRow(hash: Hash, db: Db, i: nat)
    requires i < |LegacyOrder(db.rows)|
    ensures LegacyOrder(db.rows)[i] in db.rows
    ensures Migrated(hash, db).rows[LegacyOrder(db.rows)[i]]
         == Numbered(hash, db.rows[LegacyOrder(db.rows)[i]], db.counter + 1 + i)
  {
    RankInOrder(db.rows, i);
  }

  lemma ChunkNumbers(hash: Hash, db: Db, size: nat, i: nat)
    requires i < |Chunk(db.rows, size)|
    ensures var h := LegacyOrder(db.rows)[i];
      && h in db.rows && h in CommitChunk(hash, db, size).rows
      && CommitChunk(hash, db, size).rows[h] == Numbered(hash, db.rows[h], db.counter + 1 + i)
  {
    var chunk := Chunk(db.rows, size);
    ChunkInOrder(db.rows, size);
    AssignRows(hash, db.rows, chunk, db.counter);
    assert chunk[i] == LegacyOrder(db.rows)[i];
  }

  lemma ChunkLeaves(hash: Hash, db: Db, size: nat, i: nat)
    requires |Chunk(db.rows, size)| <= i < |LegacyOrder(db.rows)|
    ensures var h := LegacyOrder(db.rows)[i];
      && h in db.rows && h in CommitChunk(hash, db, size).rows
      && CommitChunk(hash, db, size).rows[h] == db.rows[h]
  {
    var chunk := Chunk(db.rows, size);
    ChunkInOrder(db.rows, size);
    AssignRows(hash, db.rows, chunk, db.counter);
    assert LegacyOrder(db.rows)[i] !in chunk;
  }

  lemma ChunkKeepsLegacyRow(hash: Hash, db: Db, size: nat, i: nat)
    requires i < |LegacyOrder(db.rows)|
    ensures LegacyOrder(db.rows)[i] in db.rows
    ensures Migrated(hash, CommitChunk(hash, db, size)).rows[LegacyOrder(db.rows)[i]]
         == Migrated(hash, db).rows[LegacyOrder(db.rows)[i]]
  {
    var n := |Chunk(db.rows, size)|;
    MigratedRow(hash, db, i);
    if i < n {
      ChunkNumbers(hash, db, size, i);
    } else {
      ChunkLeaves(hash, db, size, i);
      OrderAfterChunk(hash, db, size);
      MigratedRow(hash, CommitChunk(hash, db, size), i - n);
    }
  }

  lemma ChunkKeepsOtherRow(hash: Hash, db: Db, size: nat, h: string)
    requires h in db.rows && db.rows[h].syncSeq > 0
    ensures h in CommitChunk(hash, db, size).rows
    ensures Migrated(hash, CommitChunk(hash, db, size)).rows[h] == Migrated(hash, db).rows[h]
  {
    ChunkInOrder(db.rows, size);
    AssignRows(hash, db.rows, Chunk(db.rows, size), db.counter);
  }

  lemma ChunkKeepsRow(hash: Hash, db: Db, size: nat, h: string)
    requires h in db.rows
    ensures h in CommitChunk(hash, db, size).rows
    ensures Migrated(hash, CommitChunk(hash, db, size)).rows[h] == Migrated(hash, db).rows[h]
  {
    if db.rows[h].syncSeq == 0 {
      SortedInOrder(db.rows, Legacy(db.rows));
      assert h in Legacy(db.rows);
      var i :| 0 <= i < |LegacyOrder(db.rows)| && LegacyOrder(db.rows)[i] == h;
      ChunkKeepsLegacyRow(hash, db, size, i);
    } else {
      ChunkKeepsOtherRow(hash, db, size, h);
    }
  }

  /** Main result. Committing a chunk, of whatever size, does not change where the migration ends. */
  lemma ChunkKeepsOutcome(hash: Hash, db: Db, size: nat)
    ensures Migrated(hash, CommitChunk(hash, db, size)) == Migrated(hash, db)
  {
    var after := CommitChunk(hash, db, size);
    forall h | h in db.rows ensures Migrated(hash, after).rows[h] == Migrated(hash, db).rows[h] {
      ChunkKeepsRow(hash, db, size, h);
    }
    assert Migrated(hash, after).rows == Migrated(hash, db).rows;
    OrderAfterChunk(hash, db, size);
    assert Migrated(hash, after).counter == Migrated(hash, db).counter;
  }

  /** A history of chunk transactions committed before some crash, by any number of attempts. */
  function Attempts(hash: Hash, db: Db, sizes: seq<nat>): Db {
    if sizes == [] then db else CommitChunk(hash, Attempts(hash, db, sizes[..|sizes| - 1]), sizes[|sizes| - 1])
  }

  /** Main result. Wherever the migration crashed, and however often, running it again ends exactly
      where one uninterrupted run would have. */
  lemma {:induction false} CrashResumable(hash: Hash, db: Db, sizes: seq<nat>)
    ensures Migrated(hash, Attempts(hash, db, sizes)) == Migrated(hash, db)
    decreases |sizes|
  {
    if sizes != [] {
      CrashResumable(hash, db, sizes[..|sizes| - 1]);
      ChunkKeepsOutcome(hash, Attempts(hash, db, sizes[..|sizes| - 1]), sizes[|sizes| - 1]);
    }
  }

  lemma ChunkTakesOff(hash: Hash, db: Db, size: nat)
    requires size >= 1
    ensures var left := |Legacy(CommitChunk(hash, db, size).rows)|;
      left == 0 || left + 1 <= |Legacy(db.rows)|
  {
    OrderAfterChunk(hash, db, size);
  }

  /** Each chunk of at least one row takes a row off what is left, so enough of them leave nothing. */
  lemma {:induction false} ChunksFinish(hash: Hash, db: Db, sizes: seq<nat>)
    requires forall i | 0 <= i < |sizes| :: sizes[i] >= 1
    ensures var left := |Legacy(Attempts(hash, db, sizes).rows)|;
      left == 0 || left + |sizes| <= |Legacy(db.rows)|
    decreases |sizes|
  {
    if sizes != [] {
      var front, last := sizes[..|sizes| - 1], sizes[|sizes| - 1];
      ChunksFinish(hash, db, front);
      ChunkTakesOff(hash, Attempts(hash, db, front), last);
    }
  }

  /** Once no legacy row is left the migration is over, and running it again changes nothing. */
  lemma NothingLeftNothingDone(hash: Hash, db: Db)
    requires Legacy(db.rows) == {}
    ensures Migrated(hash, db) == db
    ensures Migrated(hash, Migrated(hash, db)) == Migrated(hash, db)
  {
    assert forall h | h in db.rows :: h !in Legacy(db.rows);
    assert Migrated(hash, db).rows == db.rows;
  }

  lemma MigratedSeq(hash: Hash, db: Db, h: string) returns (i: nat)
    requires h in db.rows && db.rows[h].syncSeq == 0
    ensures i < |LegacyOrder(db.rows)| && LegacyOrder(db.rows)[i] == h
    ensures Migrated(hash, db).rows[h].syncSeq == db.counter + 1 + i
  {
    SortedInOrder(db.rows, Legacy(db.rows));
    assert h in Legacy(db.rows);
    i :| 0 <= i < |LegacyOrder(db.rows)| && LegacyOrder(db.rows)[i] == h;
    MigratedRow(hash, db, i);
  }

  /** Main result. The migration leaves no legacy row, and the sequence numbers it hands out join
      those already issued without a clash. */
  lemma MigratedIsSequenced(hash: Hash, db: Db)
    requires forall h, k | h in db.rows && k in db.rows && db.rows[h].syncSeq == db.rows[k].syncSeq > 0 :: h == k
    requires forall h | h in db.rows :: db.rows[h].syncSeq <= db.counter
    ensures Sequenced(Migrated(hash, db).rows, Migrated(hash, db).counter)
  {
    var after := Migrated(hash, db);
    forall h | h in after.rows ensures 1 <= after.rows[h].syncSeq <= after.counter {
      MigratedInRange(hash, db, h);
    }
    forall h, k | h in after.rows && k in after.rows && after.rows[h].syncSeq == after.rows[k].syncSeq
      ensures h == k
    {
      MigratedApart(hash, db, h, k);
    }
  }

  lemma MigratedInRange(hash: Hash, db: Db, h: string)
    requires h in db.rows && db.rows[h].syncSeq <= db.counter
    ensures var seqNo := Migrated(hash, db).rows[h].syncSeq;
      && 1 <= seqNo <= Migrated(hash, db).counter
      && (if db.rows[h].syncSeq == 0 then seqNo > db.counter else seqNo == db.rows[h].syncSeq)
  {
    if db.rows[h].syncSeq == 0 {
      var i := MigratedSeq(hash, db, h);
    }
  }

  lemma MigratedApart(hash: Hash, db: Db, h: string, k: string)
    requires h in db.rows && db.rows[h].syncSeq <= db.counter
    requires k in db.rows && db.rows[k].syncSeq <= db.counter
    requires db.rows[h].syncSeq == db.rows[k].syncSeq > 0 ==> h == k
    requires Migrated(hash, db).rows[h].syncSeq == Migrated(hash, db).rows[k].syncSeq
    ensures h == k
  {
    MigratedInRange(hash, db, h);
    MigratedInRange(hash, db, k);
    if db.rows[h].syncSeq == 0 {
      var i := MigratedSeq(hash, db, h);
      var j := MigratedSeq(hash, db, k);
    }
  }

  /** What comes first in the text order: at the first place where the two differ it has the lower character, or
      it ends there. */
  lemma {:induction false} TextLessMeans(a: string, b: string)
    ensures TextLess(a, b) <==> exists n: nat ::
      n <= |a| && n < |b| && a[..n] == b[..n] && (n == |a| || a[n] < b[n])
    decreases |a|
  {
    if a != "" && b != "" && a[0] == b[0] {
      var c, d := a[1..], b[1..];
      TextLessMeans(c, d);
      if n: nat :| n <= |c| && n < |d| && c[..n] == d[..n] && (n == |c| || c[n] < d[n]) {
        assert a[..n + 1] == [a[0]] + c[..n] && b[..n + 1] == [b[0]] + d[..n];
      }
      if n: nat :| n <= |a| && n < |b| && a[..n] == b[..n] && (n == |a| || a[n] < b[n]) {
        assert n > 0;
        assert c[..n - 1] == a[..n][1..] && d[..n - 1] == b[..n][1..];
      }
    } else if TextLess(a, b) {
      assert a[..0] == b[..0];
    } else if a != "" && b != "" {
      assert forall n: nat | 0 < n <= |a| && n < |b| :: a[..n][0] != b[..n][0];
    }
  }

  /** Main result. What the migration makes of each row: a row that had a number is left alone; one that had none
      gets the hash of its zone and a number, and nothing else changes. The numbers follow on what the counter
      had issued, in the order of last update and, within one second, of the handles. */
  lemma MigratedMeans(hash: Hash, db: Db, h: string) returns (upTo: set<string>)
    requires h in db.rows
    ensures forall k :: k in upTo <==>
      && k in db.rows && db.rows[k].syncSeq == 0
      && (|| k == h || db.rows[k].updatedAt < db.rows[h].updatedAt
          || (db.rows[k].updatedAt == db.rows[h].updatedAt && TextLess(k, h)))
    ensures h in Migrated(hash, db).rows
    ensures var row, row' := db.rows[h], Migrated(hash, db).rows[h];
      if row.syncSeq > 0 then row' == row
      else
        && row'.space == row.space && row'.cert == row.cert && row'.zone == row.zone
        && row'.epochHeight == row.epochHeight && row'.offchainSeq == row.offchainSeq
        && row'.delegateSeq == row.delegateSeq && row'.updatedAt == row.updatedAt
        && row'.zoneHash == hash(row.zone)
        && row'.syncSeq == db.counter + |upTo|
    ensures Migrated(hash, db).counter == db.counter + |set k | k in db.rows && db.rows[k].syncSeq == 0|
  {
    upTo := set k | k in Legacy(db.rows) && (k == h || Before(db.rows, k, h));
    assert Rank(db.rows, h) == |upTo|;
    LegacyMeans(db.rows);
  }

  lemma LegacyMeans(t: Table)
    ensures |Legacy(t)| == |set k | k in t && t[k].syncSeq == 0|
  {
    assert Legacy(t) == set k | k in t && t[k].syncSeq == 0;
  }

  /** Numbers go up along that order. */
  lemma MigratedInOrder(hash: Hash, db: Db, h: string, k: string)
    requires h in db.rows && db.rows[h].syncSeq == 0 && k in db.rows && db.rows[k].syncSeq == 0
    ensures Migrated(hash, db).rows[h].syncSeq < Migrated(hash, db).rows[k].syncSeq <==>
      || db.rows[h].updatedAt < db.rows[k].updatedAt
      || (db.rows[h].updatedAt == db.rows[k].updatedAt && TextLess(h, k))
  {
    var i := MigratedSeq(hash, db, h);
    var j := MigratedSeq(hash, db, k);
    PlacesAreOrdered(db.rows, i, j);
  }

  lemma PlacesAreOrdered(t: Table, i: nat, j: nat)
    requires i < |LegacyOrder(t)| && j < |LegacyOrder(t)|
    ensures LegacyOrder(t)[i] in t && LegacyOrder(t)[j] in t
    ensures i < j <==> Before(t, LegacyOrder(t)[i], LegacyOrder(t)[j])
  {
    var h, k := LegacyOrder(t)[i], LegacyOrder(t)[j];
    if i < j {
      EarlierIsBefore(t, i, j);
    } else if j < i {
      EarlierIsBefore(t, j, i);
      NotBoth(t, k, h);
    } else {
      TextIrreflexive(h);
    }
  }

  lemma EarlierIsBefore(t: Table, i: nat, j: nat)
    requires i < j < |LegacyOrder(t)|
    ensures LegacyOrder(t)[i] in t && LegacyOrder(t)[j] in t
    ensures Before(t, LegacyOrder(t)[i], LegacyOrder(t)[j])
  {
    SortedInOrder(t, Legacy(t));
  }

  // ---- the accounting of an older database ---------------------------------------------------------

  function BucketKeys(t: Table): set<Bucket> {
    set h | h in t :: BucketOf(t[h])
  }

  /** `backfill_storage`: rebuild the accounting when it is empty although handles exist. */
  ghost function Rebuilt(db: Db): Db {
    if db.totalRows != 0 || db.rows == map[] then db
    else db.(
      buckets := db.buckets + map k | k in BucketKeys(db.rows) :: |BucketRows(db.rows, k)|,
      totalRows := |db.rows|,
      totalBytes := TableBytes(db.rows))
  }

  lemma RebuiltMovesNothing(db: Db)
    ensures Rebuilt(db).rows == db.rows && Rebuilt(db).counter == db.counter
  {
  }

  /** Main result. The rebuilt accounting equals a recount both for a database that never had one and
      for one whose accounting was already right, which it leaves alone. */
  lemma RebuiltRecounts(db: Db)
    requires Recount(db) || (db.totalRows == 0 && db.totalBytes == 0 && db.buckets == map[])
    ensures Recount(Rebuilt(db))
    ensures Recount(db) ==> Rebuilt(db) == db
  {
    if Recount(db) {
      assert db.totalRows == 0 ==> db.rows == map[];
    } else {
      forall h | h in db.rows ensures BucketOf(db.rows[h]) in Rebuilt(db).buckets {
        assert BucketOf(db.rows[h]) in BucketKeys(db.rows);
      }
      if db.rows == map[] {
        assert TableBytes(db.rows) == 0;
      }
    }
  }
}
