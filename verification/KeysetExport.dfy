/**
 * The keyset-paginated export (src/pheasant/analytics.py).  A writer may
 * commit between any two pages, so each page is read from its own table
 * state.  Keys are modelled as integers: only their order matters.
 */
module KeysetExport {

  import opened Options
  import opened Sequences

  type Key = int
  type Row = string
  type Table = map<Key, Row>
  type Page = seq<(Key, Row)>

  // ------------------------------------------------------------ ORDER BY

  lemma {:induction false} LeastExists(s: set<Key>)
    requires s != {}
    ensures exists m :: m in s && forall x :: x in s ==> m <= x
    decreases |s|
  {
    assert exists k :: k in s by {
      if forall k :: k !in s {
        assert false;
      }
    }
    var k :| k in s;
    var rest := s - {k};
    if rest == {} {
      assert s == {k};
    } else {
      LeastExists(rest);
      var m :| m in rest && forall x :: x in rest ==> m <= x;
      assert forall x :: x in s ==> x == k || x in rest;
      var least := if m <= k then m else k;
      assert least in s && forall x :: x in s ==> least <= x;
    }
  }

  function Least(s: set<Key>): (m: Key)
    requires s != {}
    ensures m in s && forall x :: x in s ==> m <= x
  {
    LeastExists(s);
    var m :| m in s && forall x :: x in s ==> m <= x;
    m
  }

  function Ascending(s: set<Key>): (keys: seq<Key>)
    ensures forall k :: k in keys <==> k in s
    ensures |keys| == |s|
    decreases |s|
  {
    if s == {} then [] else [Least(s)] + Ascending(s - {Least(s)})
  }

  ghost predicate Increasing(keys: seq<Key>) {
    forall i, j :: 0 <= i < j < |keys| ==> keys[i] < keys[j]
  }

  lemma {:induction false} AscendingIncreases(s: set<Key>)
    ensures Increasing(Ascending(s))
    decreases |s|
  {
    if s != {} {
      var m := Least(s);
      var rest := Ascending(s - {m});
      AscendingIncreases(s - {m});
      forall j | 0 <= j < |rest|
        ensures m < rest[j]
      {
        assert rest[j] in s - {m};
      }
    }
  }

  // ------------------------------------------------------------ one SELECT

  predicate Beyond(after: Option<Key>, k: Key) {
    after.None? || after.value < k
  }

  /** `SELECT ... WHERE key > after ORDER BY key LIMIT limit`, or without the WHERE for the first page. */
  function Select(t: Table, after: Option<Key>, limit: nat): (page: Page)
  {
    var keys := Ascending(set k | k in t && Beyond(after, k));
    assert forall k :: k in keys ==> k in t;
    seq(if |keys| <= limit then |keys| else limit, i requires 0 <= i < |keys| => assert keys[i] in keys; (keys[i], t[keys[i]]))
  }

  ghost function KeysOf(p: Page): (keys: seq<Key>)
    ensures |keys| == |p| && forall i :: 0 <= i < |p| ==> keys[i] == p[i].0
  {
    seq(|p|, i requires 0 <= i < |p| => p[i].0)
  }

  /** A page is in key order, beyond the cursor, and skips nothing of its table up to its last key. */
  ghost predicate IsPage(t: Table, after: Option<Key>, limit: nat, page: Page) {
    && |page| <= limit
    && Increasing(KeysOf(page))
    && (forall i :: 0 <= i < |page| ==> From(t, page[i]) && Beyond(after, page[i].0))
    && (forall k :: k in t && Beyond(after, k) ==> k in KeysOf(page) || Later(page, limit, k))
  }

  /** The row is one of the table's. */
  predicate From(t: Table, row: (Key, Row)) {
    row.0 in t && t[row.0] == row.1
  }

  /** The page was full before it could reach `k`. */
  predicate Later(page: Page, limit: nat, k: Key) {
    |page| == limit && (limit > 0 ==> page[limit - 1].0 < k)
  }

  lemma SelectIsPage(t: Table, after: Option<Key>, limit: nat)
    ensures IsPage(t, after, limit, Select(t, after, limit))
  {
    var wanted := set k | k in t && Beyond(after, k);
    var keys := Ascending(wanted);
    AscendingIncreases(wanted);
    var page := Select(t, after, limit);
    assert KeysOf(page) == keys[..|page|];
    forall i | 0 <= i < |page|
      ensures From(t, page[i]) && Beyond(after, page[i].0)
    {
      assert keys[i] in wanted;
    }
    forall k | k in t && Beyond(after, k)
      ensures k in KeysOf(page) || Later(page, limit, k)
    {
      assert k in wanted && k in keys;
      var i :| 0 <= i < |keys| && keys[i] == k;
      if i < |page| {
        assert KeysOf(page)[i] == k;
      }
    }
  }

  // ------------------------------------------------------------ the stream

  ghost predicate InAll(k: Key, tables: seq<Table>) {
    forall t :: t in tables ==> k in t
  }

  ghost predicate HasOrigin(row: (Key, Row), tables: seq<Table>) {
    exists t :: t in tables && From(t, row)
  }

  /** The cursor stands on the last exported key. */
  ghost predicate AtCursor(rows: Page, after: Option<Key>) {
    if rows == [] then after.None? else after == Some(rows[|rows| - 1].0)
  }

  /** The rows are in key order, and each was in one of the tables that were read. */
  ghost predicate Sourced(rows: Page, read: seq<Table>) {
    Increasing(KeysOf(rows)) && forall r :: r in rows ==> HasOrigin(r, read)
  }

  /** What has been exported once the tables `read` have been read and the cursor stands at `after`. */
  ghost predicate Exported(rows: Page, after: Option<Key>, read: seq<Table>) {
    && Sourced(rows, read)
    && AtCursor(rows, after)
    && (forall k :: InAll(k, read) && !Beyond(after, k) ==> k in KeysOf(rows))
  }

  lemma ConcatIncreases(rows: Page, after: Option<Key>, page: Page)
    requires Increasing(KeysOf(rows)) && AtCursor(rows, after)
    requires Increasing(KeysOf(page)) && forall i :: 0 <= i < |page| ==> Beyond(after, page[i].0)
    ensures Increasing(KeysOf(rows + page))
    ensures KeysOf(rows + page) == KeysOf(rows) + KeysOf(page)
  {
    var x, y := KeysOf(rows), KeysOf(page);
    assert KeysOf(rows + page) == x + y;
    forall i, j | 0 <= i < j < |x + y|
      ensures (x + y)[i] < (x + y)[j]
    {
      if i < |x| <= j {
        assert x[i] <= x[|x| - 1];
        assert Beyond(after, page[j - |x|].0);
      }
    }
  }

  lemma OriginGrows(row: (Key, Row), tables: seq<Table>, more: seq<Table>)
    requires HasOrigin(row, tables)
    ensures HasOrigin(row, tables + more)
  {
    var t :| t in tables && From(t, row);
    assert t in tables + more;
  }

  lemma InAllSplits(k: Key, read: seq<Table>, t: Table)
    requires InAll(k, read + [t])
    ensures InAll(k, read) && k in t
  {
    assert t in read + [t];
    forall s | s in read ensures k in s { assert s in read + [t]; }
  }

  lemma PageOrigin(rows: Page, page: Page, read: seq<Table>, t: Table)
    requires forall r :: r in rows ==> HasOrigin(r, read)
    requires forall i :: 0 <= i < |page| ==> From(t, page[i])
    ensures forall r :: r in rows + page ==> HasOrigin(r, read + [t])
  {
    forall r | r in rows + page
      ensures HasOrigin(r, read + [t])
    {
      if r in rows {
        OriginGrows(r, read, [t]);
      } else {
        assert r in page && t in read + [t];
      }
    }
  }

  lemma ExportPage(rows: Page, after: Option<Key>, read: seq<Table>, t: Table, batch: nat, page: Page)
    requires Exported(rows, after, read) && IsPage(t, after, batch, page) && page != []
    ensures Exported(rows + page, Some(page[|page| - 1].0), read + [t])
  {
    ConcatIncreases(rows, after, page);
    PageOrigin(rows, page, read, t);
    forall k | InAll(k, read + [t]) && !Beyond(Some(page[|page| - 1].0), k)
      ensures k in KeysOf(rows + page)
    {
      InAllSplits(k, read, t);
    }
  }

  /** The stream is over and nothing that was there throughout is missing. */
  ghost predicate Complete(rows: Page, read: seq<Table>) {
    forall k :: InAll(k, read) ==> k in KeysOf(rows)
  }

  lemma ShortPageCompletes(rows: Page, after: Option<Key>, read: seq<Table>, t: Table, batch: nat, page: Page)
    requires Exported(rows, after, read) && IsPage(t, after, batch, page) && |page| < batch
    ensures Complete(rows + page, read + [t])
  {
    ConcatIncreases(rows, after, page);
    forall k | InAll(k, read + [t])
      ensures k in KeysOf(rows + page)
    {
      InAllSplits(k, read, t);
    }
  }

  ghost predicate Sized(pages: seq<Page>, batch: nat) {
    forall p :: 0 <= p < |pages| ==> pages[p] != [] && |pages[p]| <= batch
  }

  ghost predicate Full(pages: seq<Page>, batch: nat) {
    forall p :: 0 <= p < |pages| ==> |pages[p]| == batch
  }

  lemma {:induction false} FullCounts(pages: seq<Page>, batch: nat)
    requires Full(pages, batch)
    ensures |Flatten(pages)| == |pages| * batch
  {
    if pages != [] {
      FullCounts(pages[..|pages| - 1], batch);
      OneMore(|pages| - 1, batch);
    }
  }

  lemma OnePageMore(pages: seq<Page>, batch: nat, page: Page)
    requires Sized(pages, batch) && page != [] && |page| <= batch
    ensures Sized(pages + [page], batch)
    ensures Full(pages, batch) && |page| == batch ==> Full(pages + [page], batch)
  {
  }

  lemma TakePage(pages: seq<Page>, after: Option<Key>, read: seq<Table>, t: Table, batch: nat, page: Page,
                 more: seq<Page>, readOn: seq<Table>)
    requires Exported(Flatten(pages), after, read) && IsPage(t, after, batch, page) && page != []
    requires more == pages + [page] && readOn == read + [t]
    ensures Exported(Flatten(more), Some(page[|page| - 1].0), readOn)
    ensures |page| < batch ==> Complete(Flatten(more), readOn)
  {
    FlattenLast(pages, page);
    ExportPage(Flatten(pages), after, read, t, batch, page);
    if |page| < batch {
      ShortPageCompletes(Flatten(pages), after, read, t, batch, page);
    }
  }

  lemma TakeNothing(rows: Page, after: Option<Key>, read: seq<Table>, t: Table, batch: nat)
    requires Exported(rows, after, read) && IsPage(t, after, batch, [])
    ensures Sourced(rows, read + [t])
    ensures batch > 0 ==> Complete(rows, read + [t])
  {
    assert rows + [] == rows;
    PageOrigin(rows, [], read, t);
    if batch > 0 {
      ShortPageCompletes(rows, after, read, t, batch, []);
    }
  }

  /** Where the read of page `p` starts: nowhere yet, or after the last key of the page before. */
  ghost function CursorAt(pages: seq<Page>, p: nat): Option<Key>
    requires p <= |pages|
  {
    if p > 0 && pages[p - 1] != [] then Some(pages[p - 1][|pages[p - 1]| - 1].0) else None
  }

  /** Page `p` is the next page of the `p`-th table state that was read. */
  ghost predicate ReadAt(pages: seq<Page>, tables: seq<Table>, batch: nat, p: nat) {
    p < |pages| && p < |tables| && pages[p] == Select(tables[p], CursorAt(pages, p), batch)
  }

  ghost predicate ReadInTurn(pages: seq<Page>, tables: seq<Table>, batch: nat) {
    |pages| <= |tables| && forall p: nat {:trigger ReadAt(pages, tables, batch, p)} :: p < |pages| ==> ReadAt(pages, tables, batch, p)
  }

  lemma ReadOneMore(pages: seq<Page>, tables: seq<Table>, batch: nat, page: Page)
    requires ReadInTurn(pages, tables, batch) && |pages| < |tables|
    requires page == Select(tables[|pages|], CursorAt(pages, |pages|), batch)
    ensures ReadInTurn(pages + [page], tables, batch)
  {
    var more := pages + [page];
    forall p: nat | p < |more|
      ensures ReadAt(more, tables, batch, p)
    {
      assert CursorAt(more, p) == CursorAt(pages, p);
      assert p < |pages| ==> ReadAt(pages, tables, batch, p);
    }
  }

  /** What holds before each read: `pages` are full and hold what the states read so far had up to the cursor. */
  ghost predicate Streaming(pages: seq<Page>, after: Option<Key>, tables: seq<Table>, batch: nat) {
    && |pages| <= |tables|
    && Sized(pages, batch) && Full(pages, batch)
    && Exported(Flatten(pages), after, tables[..|pages|])
    && ReadInTurn(pages, tables, batch) && after == CursorAt(pages, |pages|)
  }

  /** What a stream has yielded: pages of the states read, in turn and full but for the last. */
  ghost predicate Yielded(pages: seq<Page>, tables: seq<Table>, fetched: nat, batch: nat) {
    && |pages| <= fetched <= |tables| && Sized(pages, batch) && Sourced(Flatten(pages), tables[..fetched])
    && ReadInTurn(pages, tables, batch)
    && forall p :: 0 <= p < |pages| - 1 ==> |pages[p]| == batch
  }

  lemma StreamBegins(tables: seq<Table>, batch: nat)
    ensures Streaming([], None, tables, batch)
  {
    var none: seq<Page> := [];
    assert Flatten(none) == [] && tables[..0] == [];
  }

  lemma OneTableMore(tables: seq<Table>, n: nat, m: nat)
    requires n < |tables| && m == n + 1
    ensures tables[..m] == tables[..n] + [tables[n]]
  {
  }

  lemma PageTaken(pages: seq<Page>, after: Option<Key>, tables: seq<Table>, batch: nat, page: Page, more: seq<Page>)
    requires |pages| < |tables| && Exported(Flatten(pages), after, tables[..|pages|])
    requires page == Select(tables[|pages|], after, batch) && page != [] && more == pages + [page]
    ensures |page| <= batch
    ensures Exported(Flatten(more), Some(page[|page| - 1].0), tables[..|more|])
    ensures |page| < batch ==> Complete(Flatten(more), tables[..|more|])
  {
    var n := |pages|;
    SelectIsPage(tables[n], after, batch);
    OneTableMore(tables, n, |more|);
    TakePage(pages, after, tables[..n], tables[n], batch, page, more, tables[..|more|]);
  }

  lemma StreamGrows(pages: seq<Page>, page: Page, more: seq<Page>, after: Option<Key>, tables: seq<Table>, batch: nat)
    requires more == pages + [page] && |pages| < |tables| && Full(pages, batch) && page != []
    requires Sized(more, batch) && ReadInTurn(more, tables, batch)
    requires |page| == batch ==> Full(more, batch)
    requires after == Some(page[|page| - 1].0) && Exported(Flatten(more), after, tables[..|more|])
    ensures |page| == batch ==> Streaming(more, after, tables, batch)
    ensures Yielded(more, tables, |more|, batch)
  {
    assert |more| == |pages| + 1 && more[|more| - 1] == page;
    assert forall p :: 0 <= p < |more| - 1 ==> more[p] == pages[p];
  }

  lemma StreamTakes(pages: seq<Page>, after: Option<Key>, tables: seq<Table>, batch: nat, page: Page, more: seq<Page>)
    requires Streaming(pages, after, tables, batch) && |pages| < |tables|
    requires page == Select(tables[|pages|], after, batch) && page != [] && more == pages + [page]
    ensures |page| <= batch
    ensures |page| == batch ==> Streaming(more, Some(page[|page| - 1].0), tables, batch)
    ensures |page| < batch ==> Complete(Flatten(more), tables[..|more|])
    ensures Yielded(more, tables, |more|, batch)
  {
    PageTaken(pages, after, tables, batch, page, more);
    OnePageMore(pages, batch, page);
    ReadOneMore(pages, tables, batch, page);
    StreamGrows(pages, page, more, Some(page[|page| - 1].0), tables, batch);
  }

  lemma StreamStops(pages: seq<Page>, after: Option<Key>, tables: seq<Table>, batch: nat)
    requires Streaming(pages, after, tables, batch) && |pages| < |tables|
    requires Select(tables[|pages|], after, batch) == []
    ensures Yielded(pages, tables, |pages| + 1, batch)
    ensures batch > 0 ==> Complete(Flatten(pages), tables[..|pages| + 1])
  {
    var n := |pages|;
    SelectIsPage(tables[n], after, batch);
    assert tables[..n + 1] == tables[..n] + [tables[n]];
    TakeNothing(Flatten(pages), after, tables[..n], tables[n], batch);
  }

  lemma StreamIsCut(pages: seq<Page>, after: Option<Key>, tables: seq<Table>, batch: nat)
    requires Streaming(pages, after, tables, batch)
    ensures Yielded(pages, tables, |pages|, batch) && |Flatten(pages)| == |pages| * batch
  {
    FullCounts(pages, batch);
  }

  /**
   * `_stream_table` against one table state per page.  The run is cut off when
   * `tables` runs out; `finished` tells a completed stream from a cut one.
   */
  method StreamTable(tables: seq<Table>, batch: nat) returns (pages: seq<Page>, fetched: nat, finished: bool)
    ensures fetched <= |tables| && (if finished then fetched > 0 else fetched == |tables|)
    ensures Yielded(pages, tables, fetched, batch)
    ensures finished && batch > 0 ==> Complete(Flatten(pages), tables[..fetched])
    ensures !finished ==> |Flatten(pages)| == |tables| * batch
    ensures finished ==> if pages != [] && |pages[|pages| - 1]| < batch then fetched == |pages|
                         else fetched == |pages| + 1 && Select(tables[|pages|], CursorAt(pages, |pages|), batch) == []
  {
    pages, fetched, finished := [], 0, false;
    var after: Option<Key> := None;
    StreamBegins(tables, batch);
    while fetched < |tables|
      invariant fetched == |pages| <= |tables| && !finished
      invariant Streaming(pages, after, tables, batch)
    {
      var page := Select(tables[fetched], after, batch);
      if page == [] {
        StreamStops(pages, after, tables, batch);
        return pages, fetched + 1, true;
      }
      StreamTakes(pages, after, tables, batch, page, pages + [page]);
      pages, fetched := pages + [page], fetched + 1;
      after := Some(page[|page| - 1].0);
      if |page| < batch {
        return pages, fetched, true;
      }
    }
    StreamIsCut(pages, after, tables, batch);
  }

  /** A row that no commit touched during the export is in it, once, as it was. */
  lemma StableRowExportedOnce(rows: Page, read: seq<Table>, row: (Key, Row))
    requires Sourced(rows, read) && Complete(rows, read)
    requires forall t :: t in read ==> From(t, row)
    ensures exists i :: 0 <= i < |rows| && rows[i] == row && forall j :: 0 <= j < |rows| && rows[j].0 == row.0 ==> j == i
  {
    assert InAll(row.0, read);
    var i :| 0 <= i < |rows| && KeysOf(rows)[i] == row.0;
    assert rows[i] in rows;
    var t :| t in read && From(t, rows[i]);
    assert rows[i] == row;
    forall j | 0 <= j < |rows| && rows[j].0 == row.0
      ensures j == i
    {
      assert KeysOf(rows)[j] == KeysOf(rows)[i];
    }
  }

  // ------------------------------------------------------------ a quiet table

  /** The whole table in key order: what an export of an unchanging table should be. */
  function InOrder(t: Table): Page {
    var keys := Ascending(t.Keys);
    seq(|keys|, i requires 0 <= i < |keys| => assert keys[i] in keys; (keys[i], t[keys[i]]))
  }

  lemma {:induction false} IncreasingUnique(a: seq<Key>, b: seq<Key>)
    requires Increasing(a) && Increasing(b)
    requires forall k :: k in a <==> k in b
    ensures a == b
  {
    assert a != [] ==> a[0] in a;
    assert b != [] ==> b[0] in b;
    if a != [] {
      assert a[0] in b && b[0] in a;
      assert a[0] == b[0];
      var x, y := a[1..], b[1..];
      forall k
        ensures k in x <==> k in y
      {
        assert k in x <==> k in a && k != a[0] by { TailMembers(a, k); }
        assert k in y <==> k in b && k != b[0] by { TailMembers(b, k); }
      }
      IncreasingUnique(x, y);
      assert a == [a[0]] + x && b == [b[0]] + y;
    }
  }

  lemma TailMembers(a: seq<Key>, k: Key)
    requires Increasing(a) && a != []
    ensures k in a[1..] <==> k in a && k != a[0]
  {
    if k in a && k != a[0] {
      var i :| 0 <= i < |a| && a[i] == k;
      assert a[1..][i - 1] == k;
    }
  }

  lemma {:induction false} IncreasingCounts(a: seq<Key>, s: set<Key>)
    requires Increasing(a) && forall k :: k in a ==> k in s
    ensures |a| <= |s|
  {
    if a != [] {
      var rest := a[1..];
      assert a[0] in a;
      forall k | k in rest
        ensures k in s - {a[0]}
      {
        TailMembers(a, k);
      }
      IncreasingCounts(rest, s - {a[0]});
    }
  }

  /** Everything exported of an unchanging table is a row of it, so no more rows come than it has. */
  lemma QuietRows(t: Table, read: seq<Table>, rows: Page)
    requires (forall s :: s in read ==> s == t) && Sourced(rows, read)
    ensures forall i :: 0 <= i < |rows| ==> From(t, rows[i])
    ensures |rows| <= |t|
  {
    forall i | 0 <= i < |rows|
      ensures From(t, rows[i])
    {
      assert rows[i] in rows;
    }
    forall k | k in KeysOf(rows)
      ensures k in t.Keys
    {
      var i :| 0 <= i < |rows| && KeysOf(rows)[i] == k;
    }
    IncreasingCounts(KeysOf(rows), t.Keys);
  }

  lemma QuietComplete(t: Table, read: seq<Table>, rows: Page)
    requires (forall s :: s in read ==> s == t) && Sourced(rows, read) && Complete(rows, read)
    ensures rows == InOrder(t)
  {
    QuietRows(t, read, rows);
    forall k
      ensures k in KeysOf(rows) <==> k in Ascending(t.Keys)
    {
      assert k in t ==> InAll(k, read);
    }
    AscendingIncreases(t.Keys);
    IncreasingUnique(KeysOf(rows), Ascending(t.Keys));
    forall i | 0 <= i < |rows|
      ensures rows[i] == InOrder(t)[i]
    {
      assert KeysOf(rows)[i] == Ascending(t.Keys)[i];
    }
  }

  /** With no writer, a finished export is the sorted table and enough pages always finish it. */
  lemma QuietExport(t: Table, tables: seq<Table>, batch: nat, pages: seq<Page>, fetched: nat, finished: bool)
    requires forall s :: s in tables ==> s == t
    requires 0 < fetched <= |tables| && (!finished ==> fetched == |tables|)
    requires Yielded(pages, tables, fetched, batch)
    requires finished && batch > 0 ==> Complete(Flatten(pages), tables[..fetched])
    requires !finished ==> |Flatten(pages)| == |tables| * batch
    ensures finished && batch > 0 ==> Flatten(pages) == InOrder(t)
    ensures |tables| * batch > |t| ==> finished
  {
    assert forall s :: s in tables[..fetched] ==> s in tables;
    QuietRows(t, tables[..fetched], Flatten(pages));
    if finished && batch > 0 {
      QuietComplete(t, tables[..fetched], Flatten(pages));
    }
  }

  /** The same table state read again and again. */
  function Copies(t: Table, n: nat): (tables: seq<Table>)
    ensures |tables| == n && forall s :: s in tables ==> s == t
  {
    seq(n, _ => t)
  }

  lemma EnoughPages(rows: nat, batch: nat)
    requires batch > 0
    ensures (rows + 1) * batch > rows
  {
  }

  /** The stream over an unchanging table: it ends, and what it yields is the table in key order. */
  method StreamQuietTable(t: Table, batch: nat) returns (pages: seq<Page>)
    requires batch > 0
    ensures Flatten(pages) == InOrder(t)
  {
    var tables := Copies(t, |t| + 1);
    var fetched, finished;
    pages, fetched, finished := StreamTable(tables, batch);
    EnoughPages(|t|, batch);
    QuietExport(t, tables, batch, pages, fetched, finished);
  }

  // ------------------------------------------------------------ graph pages

  /** The groups `from` up to `to` make the page, and without the last of them it is below the batch size or empty. */
  ghost predicate PageOf<T>(page: seq<T>, groups: seq<seq<T>>, from: nat, to: nat, batch: int) {
    && from < to <= |groups| && page == Flatten(groups[from..to])
    && (from == to - 1 || |Flatten(groups[from..to - 1])| < batch)
  }

  ghost predicate OnlyLastGroupExceeds<T>(page: seq<T>, groups: seq<seq<T>>, batch: int) {
    exists from: nat, to: nat :: PageOf(page, groups, from, to, batch)
  }

  /** A page in progress: the groups since `from`, below the batch size. */
  ghost predicate InProgress<T>(page: seq<T>, groups: seq<seq<T>>, from: nat, n: nat, batch: int) {
    from <= n <= |groups| && page == Flatten(groups[from..n]) && (from == n || |page| < batch)
  }

  lemma TakeGroup<T>(pages: seq<seq<T>>, page: seq<T>, groups: seq<seq<T>>, from: nat, n: nat, batch: int)
    requires n < |groups| && InProgress(page, groups, from, n, batch) && Flatten(pages) + page == Flatten(groups[..n])
    ensures Flatten(pages) + (page + groups[n]) == Flatten(groups[..n + 1])
    ensures PageOf(page + groups[n], groups, from, n + 1, batch)
  {
    GroupAdded(groups, 0, n);
    GroupAdded(groups, from, n);
    assert Flatten(pages) + (page + groups[n]) == (Flatten(pages) + page) + groups[n];
  }

  lemma GroupAdded<T>(groups: seq<seq<T>>, from: nat, n: nat)
    requires from <= n < |groups|
    ensures Flatten(groups[from..n + 1]) == Flatten(groups[from..n]) + groups[n]
  {
    assert groups[from..n + 1] == groups[from..n] + [groups[n]];
    FlattenLast(groups[from..n], groups[n]);
  }

  ghost predicate Filled<T>(pages: seq<seq<T>>, groups: seq<seq<T>>, batch: int) {
    forall i :: 0 <= i < |pages| ==> |pages[i]| >= batch && OnlyLastGroupExceeds(pages[i], groups, batch)
  }

  /** After `n` groups: the pages yielded so far and the one in progress hold all of them. */
  ghost predicate Building<T>(pages: seq<seq<T>>, page: seq<T>, groups: seq<seq<T>>, from: nat, n: nat, batch: int) {
    && InProgress(page, groups, from, n, batch)
    && Flatten(pages) + page == Flatten(groups[..n])
    && Filled(pages, groups, batch)
    && (page != [] ==> OnlyLastGroupExceeds(page, groups, batch))
  }

  lemma BuildOn<T>(pages: seq<seq<T>>, page: seq<T>, groups: seq<seq<T>>, from: nat, n: nat, batch: int)
    requires n < |groups| && Building(pages, page, groups, from, n, batch)
    ensures var more := page + groups[n];
            if |more| >= batch then Building(pages + [more], [], groups, n + 1, n + 1, batch)
            else Building(pages, more, groups, from, n + 1, batch)
  {
    TakeGroup(pages, page, groups, from, n, batch);
    var more := page + groups[n];
    FlattenLast(pages, more);
    assert Flatten(pages + [more]) + [] == Flatten(pages) + more;
    assert groups[n + 1..n + 1] == [];
  }

  /** What the exports promise of their pages. */
  ghost predicate Paged<T>(pages: seq<seq<T>>, groups: seq<seq<T>>, batch: int) {
    && Flatten(pages) == Flatten(groups)
    && (forall i :: 0 <= i < |pages| - 1 ==> |pages[i]| >= batch)
    && (forall i :: 0 <= i < |pages| ==> OnlyLastGroupExceeds(pages[i], groups, batch) && (batch > 0 ==> pages[i] != []))
  }

  lemma BuildEnds<T>(pages: seq<seq<T>>, page: seq<T>, groups: seq<seq<T>>, from: nat, batch: int)
    requires Building(pages, page, groups, from, |groups|, batch)
    ensures Paged(if page == [] then pages else pages + [page], groups, batch)
  {
    assert groups[..|groups|] == groups;
    if page == [] {
      assert Flatten(pages) + page == Flatten(pages);
    } else {
      FlattenLast(pages, page);
      var done := pages + [page];
      assert forall i :: 0 <= i < |pages| ==> done[i] == pages[i];
      assert done[|pages|] == page;
    }
  }

  /**
   * The graph exports' page builder: a group is one node, or all parallel
   * edges of one node pair, and the page is only measured between groups.
   */
  method PageGroups<T>(groups: seq<seq<T>>, batch: int) returns (pages: seq<seq<T>>)
    ensures Paged(pages, groups, batch)
  {
    pages := [];
    var page: seq<T> := [];
    ghost var from: nat := 0;
    for n := 0 to |groups|
      invariant Building(pages, page, groups, from, n, batch)
    {
      BuildOn(pages, page, groups, from, n, batch);
      page := page + groups[n];
      if |page| >= batch {
        pages, page, from := pages + [page], [], n + 1;
      }
    }
    BuildEnds(pages, page, groups, from, batch);
    if page != [] {
      pages := pages + [page];
    }
  }
}
