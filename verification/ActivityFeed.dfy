/** The activity table and its reads: the filter, the newest-first page, the ascending cursor read
    and the retention delete. */
module ActivityFeed {
  import opened Options

  const I64_MAX := 0x7fff_ffff_ffff_ffff

  /** One recorded run; `payload` stands for the columns no read looks at. */
  datatype Row = Row(id: nat, at: string, command: string, source: string,
                     actor: Option<string>, repo: Option<string>, eventId: Option<string>, payload: string)

  datatype Filter = Filter(repo: Option<string>, command: Option<string>, source: Option<string>,
                           actor: Option<string>, since: Option<string>, afterId: Option<int>)

  /** The table: its rows in the order of their ids, and the next id `AUTOINCREMENT` hands out. */
  datatype Table = Table(rows: seq<Row>, next: nat) {

    ghost predicate Valid() {
      && Ascending(rows)
      && (forall r :: r in rows ==> 1 <= r.id < next)
      && 1 <= next <= I64_MAX + 1
    }
  }

  ghost predicate Ascending(rows: seq<Row>) {
    forall i, j :: 0 <= i < j < |rows| ==> rows[i].id < rows[j].id
  }

  // ----- Text order.

  /** SQLite's binary collation. */
  predicate Less(a: string, b: string) {
    b != "" && (a == "" || a[0] < b[0] || (a[0] == b[0] && Less(a[1..], b[1..])))
  }

  lemma {:induction false} LessTotal(a: string, b: string)
    ensures a == b || Less(a, b) || Less(b, a)
    ensures !(Less(a, b) && Less(b, a)) && !Less(a, a)
    decreases |a|
  {
    if a != "" && b != "" && a[0] == b[0] {
      LessTotal(a[1..], b[1..]);
      assert a == [a[0]] + a[1..] && b == [b[0]] + b[1..];
    }
    if a != "" {
      LessTotal(a[1..], a[1..]);
    }
  }

  lemma {:induction false} LessTransitive(a: string, b: string, c: string)
    requires Less(a, b) && Less(b, c)
    ensures Less(a, c)
    decreases |b|
  {
    if a != "" && b != "" && c != "" && a[0] == b[0] == c[0] {
      LessTransitive(a[1..], b[1..], c[1..]);
    }
  }

  /** The order of texts, position by position: `a` ends where `b` goes on, or the two differ first at
      a place where `a` has the smaller character. */
  ghost predicate Precedes(a: string, b: string) {
    || (|a| < |b| && a == b[..|a|])
    || (exists k :: DiffersAt(a, b, k) && a[k] < b[k])
  }

  predicate DiffersAt(a: string, b: string, k: int) {
    0 <= k < |a| && k < |b| && a[..k] == b[..k] && a[k] != b[k]
  }

  lemma {:induction false} LessIff(a: string, b: string)
    ensures Less(a, b) <==> Precedes(a, b)
    decreases |a|
  {
    if a != "" && b != "" && a[0] == b[0] {
      LessIff(a[1..], b[1..]);
      assert a == [a[0]] + a[1..] && b == [b[0]] + b[1..];
      if k :| DiffersAt(a[1..], b[1..], k) && a[1..][k] < b[1..][k] {
        assert a[..k + 1] == [a[0]] + a[1..][..k] && b[..k + 1] == [b[0]] + b[1..][..k];
        assert DiffersAt(a, b, k + 1);
      }
      if k :| DiffersAt(a, b, k) && a[k] < b[k] {
        assert a[1..][..k - 1] == a[..k][1..] && b[1..][..k - 1] == b[..k][1..];
        assert DiffersAt(a[1..], b[1..], k - 1);
      }
      assert |a| < |b| ==> b[..|a|] == [b[0]] + b[1..][..|a[1..]|];
    } else if a != "" && b != "" {
      assert DiffersAt(a, b, 0);
      FirstDiffers(a, b);
    }
  }

  lemma FirstDiffers(a: string, b: string)
    requires a != "" && b != "" && a[0] != b[0]
    ensures forall k :: DiffersAt(a, b, k) ==> k == 0
    ensures |a| < |b| ==> a != b[..|a|]
  {
    forall k | 0 < k <= |a| && k <= |b| ensures a[..k] != b[..k] {
      assert a[..k][0] == a[0] && b[..k][0] == b[0];
    }
    assert a[..|a|] == a;
  }

  // ----- Queries.

  function Agrees(want: Option<string>, have: Option<string>): bool {
    want.Some? ==> want == have
  }

  /** `apply_filter`: every set field narrows. */
  predicate Matches(f: Filter, r: Row) {
    && Agrees(f.repo, r.repo)
    && Agrees(f.command, Some(r.command))
    && Agrees(f.source, Some(r.source))
    && Agrees(f.actor, r.actor)
    && (f.since.Some? ==> !Less(r.at, f.since.value))
    && (f.afterId.Some? ==> r.id > f.afterId.value)
  }

  /** The matching rows, in the order of the table. */
  function Select(rows: seq<Row>, f: Filter): (r: seq<Row>) {
    if rows == [] then []
    else (if Matches(f, rows[0]) then [rows[0]] else []) + Select(rows[1..], f)
  }

  function Min(a: nat, b: nat): nat { if a < b then a else b }

  function Take(rows: seq<Row>, n: nat): seq<Row> { rows[..Min(n, |rows|)] }

  /** `since_cursor`. */
  function SinceCursor(t: Table, f: Filter, limit: nat): seq<Row> {
    Take(Select(t.rows, f), Min(limit, I64_MAX))
  }

  function NewestId(t: Table): nat {
    if t.rows == [] then 0 else t.rows[|t.rows| - 1].id
  }

  /** `ORDER BY at DESC, id DESC`. */
  predicate Before(a: Row, b: Row) {
    Less(b.at, a.at) || (a.at == b.at && a.id > b.id)
  }

  function Insert(r: Row, sorted: seq<Row>): seq<Row> {
    if sorted == [] || Before(r, sorted[0]) then [r] + sorted else [sorted[0]] + Insert(r, sorted[1..])
  }

  function NewestFirst(rows: seq<Row>): seq<Row> {
    if rows == [] then [] else Insert(rows[0], NewestFirst(rows[1..]))
  }

  /** `list`: one window and the total under the same filter; limit 0 means no limit. */
  function List(t: Table, f: Filter, limit: nat, offset: nat): (seq<Row>, nat) {
    var matching := Select(t.rows, f);
    var ordered := NewestFirst(matching);
    var from := ordered[Min(Min(offset, I64_MAX), |ordered|)..];
    (if limit == 0 then from else Take(from, Min(limit, I64_MAX)), |matching|)
  }

  // ----- What the queries select.

  lemma {:induction false} SelectExact(rows: seq<Row>, f: Filter, r: Row)
    ensures r in Select(rows, f) <==> r in rows && Matches(f, r)
  {
    hide Matches;
    if rows != [] {
      SelectExact(rows[1..], f, r);
    }
  }

  /** The selected rows in plain terms: a field of the filter that is set must agree, `since` is the
      earliest text allowed, and the cursor is exclusive. */
  lemma SelectMeans(rows: seq<Row>, f: Filter, r: Row)
    ensures r in Select(rows, f)
       <==> && r in rows
            && (f.repo == None || r.repo == f.repo)
            && (f.command == None || f.command == Some(r.command))
            && (f.source == None || f.source == Some(r.source))
            && (f.actor == None || r.actor == f.actor)
            && (f.since == None || r.at == f.since.value || Precedes(f.since.value, r.at))
            && (f.afterId == None || f.afterId.value < r.id)
  {
    hide Precedes, Less;
    SelectExact(rows, f, r);
    if f.since.Some? {
      LessIff(f.since.value, r.at);
      LessTotal(f.since.value, r.at);
    }
  }

  lemma {:induction false} SelectAscending(rows: seq<Row>, f: Filter)
    requires Ascending(rows)
    ensures Ascending(Select(rows, f))
  {
    hide Matches;
    if rows != [] {
      SelectAscending(rows[1..], f);
      forall i | 0 <= i < |Select(rows[1..], f)| ensures rows[0].id < Select(rows[1..], f)[i].id {
        SelectExact(rows[1..], f, Select(rows[1..], f)[i]);
      }
    }
  }

  lemma {:induction false} SelectLength(rows: seq<Row>, f: Filter)
    ensures |Select(rows, f)| <= |rows|
  {
    if rows != [] {
      SelectLength(rows[1..], f);
    }
  }

  lemma {:induction false} AscendingIds(rows: seq<Row>, k: nat)
    requires Ascending(rows) && k < |rows| && rows[0].id >= 1
    ensures rows[k].id >= k + 1
  {
    if k > 0 {
      AscendingIds(rows, k - 1);
    }
  }

  /** The newest id is 0 for an empty table, and otherwise that of a live row that no row exceeds. */
  lemma NewestIdExact(t: Table)
    requires t.Valid()
    ensures t.rows == [] ==> NewestId(t) == 0
    ensures t.rows != [] ==> exists r :: r in t.rows && r.id == NewestId(t)
    ensures forall r :: r in t.rows ==> r.id <= NewestId(t)
    ensures NewestId(t) < t.next
  {
    if t.rows != [] {
      assert t.rows[|t.rows| - 1] in t.rows;
    }
  }

  /** A table holds no more rows than there are ids. */
  lemma TableFits(t: Table)
    requires t.Valid()
    ensures |t.rows| <= I64_MAX
  {
    if t.rows != [] {
      assert t.rows[0] in t.rows && t.rows[|t.rows| - 1] in t.rows;
      AscendingIds(t.rows, |t.rows| - 1);
    }
  }

  // ----- The page order.

  ghost predicate Sorted(rows: seq<Row>) {
    forall i, j :: 0 <= i < j < |rows| ==> Before(rows[i], rows[j])
  }

  lemma BeforeTotal(a: Row, b: Row)
    ensures Before(a, b) || Before(b, a) || (a.at == b.at && a.id == b.id)
    ensures !(Before(a, b) && Before(b, a))
  {
    LessTotal(a.at, b.at);
  }

  lemma BeforeTransitive(a: Row, b: Row, c: Row)
    requires Before(a, b) && Before(b, c)
    ensures Before(a, c)
  {
    hide Less;
    if Less(b.at, a.at) && Less(c.at, b.at) {
      LessTransitive(c.at, b.at, a.at);
    }
  }

  lemma {:induction false} InsertMembers(r: Row, sorted: seq<Row>)
    ensures multiset(Insert(r, sorted)) == multiset(sorted) + multiset{r}
    ensures forall x :: x in Insert(r, sorted) <==> x == r || x in sorted
    decreases |sorted|
  {
    hide Before;
    if sorted != [] && !Before(r, sorted[0]) {
      InsertMembers(r, sorted[1..]);
      assert sorted == [sorted[0]] + sorted[1..];
    }
  }

  lemma {:induction false} InsertSorted(r: Row, sorted: seq<Row>)
    requires Sorted(sorted) && forall x :: x in sorted ==> x.id != r.id
    ensures Sorted(Insert(r, sorted))
    decreases |sorted|
  {
    hide Before;
    if sorted == [] {
    } else if Before(r, sorted[0]) {
      forall i | 0 < i < |sorted| ensures Before(r, sorted[i]) {
        BeforeTransitive(r, sorted[0], sorted[i]);
      }
    } else {
      var rest := Insert(r, sorted[1..]);
      assert sorted[0] in sorted;
      BeforeTotal(r, sorted[0]);
      InsertSorted(r, sorted[1..]);
      InsertMembers(r, sorted[1..]);
      forall i | 0 <= i < |rest| ensures Before(sorted[0], rest[i]) {
        assert rest[i] in rest;
      }
    }
  }

  /** The page order is a permutation of the rows, strictly sorted by `at`, then id, descending. */
  lemma {:induction false} NewestFirstSorts(rows: seq<Row>)
    requires Ascending(rows)
    ensures Sorted(NewestFirst(rows)) && multiset(NewestFirst(rows)) == multiset(rows)
    ensures forall x :: x in NewestFirst(rows) <==> x in rows
    ensures |NewestFirst(rows)| == |rows|
  {
    hide Before;
    if rows != [] {
      NewestFirstSorts(rows[1..]);
      InsertSorted(rows[0], NewestFirst(rows[1..]));
      InsertMembers(rows[0], NewestFirst(rows[1..]));
      assert rows == [rows[0]] + rows[1..];
    }
    assert |multiset(NewestFirst(rows))| == |multiset(rows)|;
  }

  // ----- Paging.

  /** The windows at `offset`, `offset + limit`, ... one after the other, `n` of them. */
  function Pages(t: Table, f: Filter, limit: nat, offset: nat, n: nat): seq<Row>
    decreases n
  {
    if n == 0 then [] else List(t, f, limit, offset).0 + Pages(t, f, limit, offset + limit, n - 1)
  }

  /** A window is a slice of the page order, whatever the bounds of the integers involved. */
  lemma WindowIsSlice(t: Table, f: Filter, limit: nat, offset: nat)
    requires t.Valid()
    ensures var all := NewestFirst(Select(t.rows, f));
            var from := Min(offset, |all|);
            && List(t, f, limit, offset).0 == (if limit == 0 then all[from..] else all[from..Min(from + limit, |all|)])
            && List(t, f, limit, offset).1 == |all|
  {
    hide NewestFirst, Select;
    TableFits(t);
    SelectLength(t.rows, f);
    SelectAscending(t.rows, f);
    NewestFirstSorts(Select(t.rows, f));
  }

  /** On a page a later row has an earlier `at`, or the same one and a smaller id. */
  lemma PageNewestFirst(t: Table, f: Filter, limit: nat, offset: nat, i: nat, j: nat)
    requires t.Valid() && i < j < |List(t, f, limit, offset).0|
    ensures var a, b := List(t, f, limit, offset).0[i], List(t, f, limit, offset).0[j];
            Precedes(b.at, a.at) || (a.at == b.at && a.id > b.id)
  {
    hide Less, Precedes, NewestFirst, Select, List;
    WindowIsSlice(t, f, limit, offset);
    SelectAscending(t.rows, f);
    NewestFirstSorts(Select(t.rows, f));
    var all := NewestFirst(Select(t.rows, f));
    var from := Min(offset, |all|);
    assert List(t, f, limit, offset).0[i] == all[from + i] && List(t, f, limit, offset).0[j] == all[from + j];
    assert Before(all[from + i], all[from + j]);
    LessIff(all[from + j].at, all[from + i].at);
  }

  lemma {:induction false} PagesAreSlice(t: Table, f: Filter, limit: nat, offset: nat, n: nat)
    requires t.Valid() && limit > 0
    ensures var all := NewestFirst(Select(t.rows, f));
            Pages(t, f, limit, offset, n) == all[Min(offset, |all|)..Min(offset + n * limit, |all|)]
    decreases n
  {
    hide NewestFirst, Select, List;
    var all := NewestFirst(Select(t.rows, f));
    if n > 0 {
      WindowIsSlice(t, f, limit, offset);
      PagesAreSlice(t, f, limit, offset + limit, n - 1);
      assert offset + limit + (n - 1) * limit == offset + n * limit;
    }
  }

  /** Successive windows partition the feed: with enough of them they are, without gap or repeat,
      the filtered rows, newest first; their number is the total each window reports; limit 0 is
      the whole tail; and the rows are those a cursor read from 0 under the same filter returns. */
  lemma PagingPartitions(t: Table, f: Filter, limit: nat, n: nat)
    requires t.Valid() && limit > 0 && n * limit >= |Select(t.rows, f)|
    ensures var all := Pages(t, f, limit, 0, n);
            && Sorted(all)
            && (forall r :: r in all <==> r in t.rows && Matches(f, r))
            && List(t, f, limit, 0).1 == |all|
            && (forall offset: nat :: offset <= |all| ==> List(t, f, 0, offset).0 == all[offset..])
            && multiset(all) == multiset(SinceCursor(t, f, I64_MAX))
  {
    hide NewestFirst, Select, List, Sorted, Pages;
    var rows := Select(t.rows, f);
    SelectAscending(t.rows, f);
    SelectLength(t.rows, f);
    TableFits(t);
    NewestFirstSorts(rows);
    PagesAreSlice(t, f, limit, 0, n);
    WindowIsSlice(t, f, limit, 0);
    assert NewestFirst(rows)[0..|rows|] == NewestFirst(rows) && rows[..|rows|] == rows;
    forall r ensures r in rows <==> r in t.rows && Matches(f, r) {
      SelectExact(t.rows, f, r);
    }
    forall offset: nat | offset <= |rows| ensures List(t, f, 0, offset).0 == NewestFirst(rows)[offset..] {
      WindowIsSlice(t, f, 0, offset);
    }
  }
}
