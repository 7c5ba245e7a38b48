/** The activity feed at work: writers, the retention sweep and one live stream over the table, in
    any interleaving. */
module ActivityStream {
  import opened Options
  import opened ActivityFeed

  /** What a writer hands to `insert`. */
  datatype NewRow = NewRow(at: string, command: string, source: string,
                           actor: Option<string>, repo: Option<string>, eventId: Option<string>, payload: string)

  /** Rows one poll of the stream reads. */
  const BATCH := 100

  function MakeRow(id: nat, n: NewRow): Row {
    Row(id, n.at, n.command, n.source, n.actor, n.repo, n.eventId, n.payload)
  }

  predicate IsSource(source: string) {
    source == "cli" || source == "http" || source == "mcp"
  }

  /** The constraints of the table: the source vocabulary, unique event ids, and ids that fit. */
  predicate Accepts(t: Table, n: NewRow) {
    && IsSource(n.source)
    && (n.eventId.Some? ==> forall r :: r in t.rows ==> r.eventId != n.eventId)
    && t.next <= I64_MAX
  }

  /** `insert`; ids are never handed out twice. */
  function Inserted(t: Table, n: NewRow): Table
    requires Accepts(t, n)
  {
    Table(t.rows + [MakeRow(t.next, n)], t.next + 1)
  }

  /** `delete_before`: rows strictly older than the cutoff go. */
  function Kept(rows: seq<Row>, cutoff: string): seq<Row> {
    if rows == [] then []
    else (if Less(rows[0].at, cutoff) then [] else [rows[0]]) + Kept(rows[1..], cutoff)
  }

  function DeletedBefore(t: Table, cutoff: string): Table {
    t.(rows := Kept(t.rows, cutoff))
  }

  /** A stream as a client follows it over its connections: the filter without the cursor, the
      `after_id` of the URL, the last event id the client knows, the id to read above, and the rows
      read but not emitted. For the record: the cursor it started from, the rows emitted since, and
      those received before it last started over. */
  datatype Stream = Stream(filter: Filter, query: Option<int>, seen: Option<int>, last: int, pending: seq<Row>,
                           start: int, earlier: seq<Row>, emitted: seq<Row>)

  function AfterCursor(f: Filter, id: int): Filter {
    f.(afterId := Some(id))
  }

  /** `resolve_cursor`: the URL's cursor, else the header's, else the newest row. */
  function ResolveCursor(t: Table, query: Option<int>, header: Option<int>): int {
    if query.Some? then query.value else if header.Some? then header.value else NewestId(t)
  }

  function Connect(t: Table, f: Filter, query: Option<int>, header: Option<int>): Stream {
    var start := ResolveCursor(t, query, header);
    Stream(f, query, header, start, [], start, [], [])
  }

  /** Everything the client has got, in order. */
  function Received(st: Stream): seq<Row> {
    st.earlier + st.emitted
  }

  /** Whether a reconnection goes on above what the client has seen: the URL has no cursor of its
      own, and there is an id to send as `Last-Event-ID`. */
  predicate Continues(st: Stream) {
    st.query == None && st.seen.Some?
  }

  /** The client connects again, to the same URL, with the last event id it knows. */
  function Reconnected(t: Table, st: Stream): Stream {
    var cursor := ResolveCursor(t, st.query, st.seen);
    if Continues(st) then st.(last := cursor, pending := [])
    else Stream(st.filter, st.query, st.seen, cursor, [], cursor, Received(st), [])
  }

  /** The table and the stream, with the rows inserted since the stream connected, and those that
      were swept while the stream had still to reach them. */
  datatype System = System(table: Table, stream: Stream, floor: nat, inserted: set<Row>, swept: set<Row>)

  datatype Event =
    | Write(row: NewRow)
    | Sweep(cutoff: string)
    | Poll
    | Emit
    | Reconnect

  function Step(s: System, e: Event): System {
    var st := s.stream;
    match e
    case Write(n) =>
      if Accepts(s.table, n) then
        s.(table := Inserted(s.table, n), inserted := s.inserted + {MakeRow(s.table.next, n)})
      else s
    case Sweep(cutoff) =>
      var t := DeletedBefore(s.table, cutoff);
      s.(table := t, swept := s.swept + (set r | r in s.table.rows && r !in t.rows && r.id > st.last))
    case Poll =>
      // the stream reads again only when it has emitted what it read before
      if st.pending == [] then
        s.(stream := st.(pending := SinceCursor(s.table, AfterCursor(st.filter, st.last), BATCH)))
      else s
    case Emit =>
      if st.pending != [] then
        var r := st.pending[0];
        s.(stream := st.(seen := Some(r.id), last := r.id, pending := st.pending[1..], emitted := st.emitted + [r]))
      else s
    case Reconnect =>
      // with no cursor at all the client is as good as new
      if st.query == None && st.seen == None then System(s.table, Reconnected(s.table, st), s.table.next, {}, {})
      else s.(stream := Reconnected(s.table, st))
  }

  function Run(s: System, es: seq<Event>): System
    decreases |es|
  {
    if es == [] then s else Run(Step(s, es[0]), es[1..])
  }

  function Start(t: Table, f: Filter, query: Option<int>, header: Option<int>): System {
    System(t, Connect(t, f, query, header), t.next, {}, {})
  }

  // ----- The invariant.

  function Read(st: Stream): seq<Row> { st.emitted + st.pending }

  /** Up to here the stream has read the table. */
  function Frontier(st: Stream): int {
    if Read(st) == [] then st.start else Read(st)[|Read(st)| - 1].id
  }

  /** What the client knows and what it got before. */
  ghost predicate ClientOk(t: Table, st: Stream) {
    && (st.query.Some? ==> st.start == st.query.value)
    && (st.query == None ==> st.earlier == [])
    && (st.query == None && st.seen == None ==> st.emitted == [])
    && (Continues(st) ==> st.seen.value == st.last)
    && (forall r :: r in st.earlier ==> Matches(AfterCursor(st.filter, st.start), r) && r.id < t.next)
  }

  ghost predicate StreamOk(t: Table, st: Stream) {
    && Ascending(Read(st))
    && (forall r :: r in Read(st) ==> Matches(AfterCursor(st.filter, st.start), r) && r.id < t.next)
    && st.last == (if st.emitted == [] then st.start else st.emitted[|st.emitted| - 1].id)
  }

  /** No row is passed over: what is live, wanted and behind the frontier has been read. */
  ghost predicate NoneSkipped(t: Table, st: Stream) {
    forall r :: r in t.rows && Matches(AfterCursor(st.filter, st.start), r) && r.id <= Frontier(st) ==> r in Read(st)
  }

  /** Rows inserted since the connection are newer than everything before it, and a wanted one is
      gone only if the client has it or it was swept ahead of the stream. */
  ghost predicate Recorded(s: System) {
    && s.floor <= s.table.next
    && (forall r :: r in s.inserted ==> s.floor <= r.id)
    && (forall r ::
          r in s.inserted && Matches(AfterCursor(s.stream.filter, s.stream.start), r) && r !in s.table.rows ==>
          r in Received(s.stream) || r in s.swept)
    && (forall r :: r in s.table.rows && r.id >= s.floor ==> r in s.inserted)
  }

  ghost predicate Inv(s: System) {
    && s.table.Valid() && StreamOk(s.table, s.stream) && ClientOk(s.table, s.stream)
    && NoneSkipped(s.table, s.stream) && Recorded(s)
  }

  lemma {:induction false} KeptExact(rows: seq<Row>, cutoff: string, r: Row)
    ensures r in Kept(rows, cutoff) <==> r in rows && !Less(r.at, cutoff)
  {
    hide Less;
    if rows != [] {
      KeptExact(rows[1..], cutoff, r);
    }
  }

  lemma {:induction false} KeptAscending(rows: seq<Row>, cutoff: string)
    requires Ascending(rows)
    ensures Ascending(Kept(rows, cutoff)) && forall r :: r in Kept(rows, cutoff) ==> r in rows
  {
    hide Less;
    if rows != [] {
      KeptAscending(rows[1..], cutoff);
      var rest := Kept(rows[1..], cutoff);
      forall i | 0 <= i < |rest| ensures rows[0].id < rest[i].id {
        assert rest[i] in rest;
        var j :| 0 <= j < |rows[1..]| && rows[1..][j] == rest[i];
        assert rows[j + 1] == rest[i];
      }
      forall r | r in Kept(rows, cutoff) ensures r in rows {
        KeptExact(rows, cutoff, r);
      }
    }
  }

  lemma WriteKeepsInv(s: System, n: NewRow)
    requires Inv(s) && Accepts(s.table, n)
    ensures Inv(Step(s, Write(n)))
  {
    hide Matches;
    var t, row := Step(s, Write(n)), MakeRow(s.table.next, n);
    var st, all := s.stream, Read(s.stream);
    assert forall r :: r in t.table.rows <==> r in s.table.rows || r == row;
    if Matches(AfterCursor(st.filter, st.start), row) {
      StartBelow(st.filter, st.start, row);
      assert all != [] ==> all[|all| - 1] in all;
    }
  }

  lemma StartBelow(f: Filter, start: int, r: Row)
    requires Matches(AfterCursor(f, start), r)
    ensures r.id > start
  {
    hide Agrees;
  }

  lemma SweepKeepsInv(s: System, cutoff: string)
    requires Inv(s)
    ensures Inv(Step(s, Sweep(cutoff)))
  {
    hide Matches;
    KeptAscending(s.table.rows, cutoff);
    var st, t := s.stream, Step(s, Sweep(cutoff));
    forall r | r in s.inserted && Matches(AfterCursor(st.filter, st.start), r) && r !in t.table.rows
      ensures r in Received(st) || r in t.swept
    {
      if r in s.table.rows && r.id <= st.last {
        BehindIsEmitted(s.table, st, r);
      }
    }
  }

  lemma MatchesAbove(f: Filter, start: int, last: int, r: Row)
    requires start <= last
    ensures Matches(AfterCursor(f, last), r) <==> Matches(AfterCursor(f, start), r) && r.id > last
  {
    hide Agrees;
  }

  lemma TakeCovers(all: seq<Row>, n: nat, r: Row)
    requires Ascending(all) && r in all
    ensures var rows := all[..Min(n, |all|)]; r in rows || (|rows| == n && (n > 0 ==> r.id > rows[n - 1].id))
  {
    var i :| 0 <= i < |all| && all[i] == r;
    if i < Min(n, |all|) {
      assert all[..Min(n, |all|)][i] == r;
    }
  }

  /** What a poll reads: the wanted rows above the cursor, in order, and if they are fewer than the
      batch then all of them. */
  lemma PollReads(t: Table, f: Filter, start: int, last: int)
    requires t.Valid() && start <= last
    ensures var rows := SinceCursor(t, AfterCursor(f, last), BATCH);
            && Ascending(rows) && |rows| <= BATCH
            && (forall r :: r in rows ==> r in t.rows && Matches(AfterCursor(f, start), r) && r.id > last)
            && (forall r :: r in t.rows && Matches(AfterCursor(f, start), r) && r.id > last ==>
                  r in rows || (|rows| == BATCH && r.id > rows[BATCH - 1].id))
  {
    hide Select, Matches;
    var g := AfterCursor(f, last);
    var all := Select(t.rows, g);
    SelectAscending(t.rows, g);
    var rows := all[..Min(BATCH, |all|)];
    assert SinceCursor(t, g, BATCH) == rows;
    forall r | r in rows ensures r in t.rows && Matches(AfterCursor(f, start), r) && r.id > last {
      SelectExact(t.rows, g, r);
      MatchesAbove(f, start, last, r);
    }
    forall r | r in t.rows && Matches(AfterCursor(f, start), r) && r.id > last
      ensures r in rows || (|rows| == BATCH && r.id > rows[BATCH - 1].id)
    {
      SelectExact(t.rows, g, r);
      MatchesAbove(f, start, last, r);
      TakeCovers(all, BATCH, r);
    }
  }

  lemma PollKeepsInv(s: System)
    requires Inv(s) && s.stream.pending == []
    ensures Inv(Step(s, Poll))
  {
    hide Matches, SinceCursor;
    var st := s.stream;
    var rows := SinceCursor(s.table, AfterCursor(st.filter, st.last), BATCH);
    LastAboveStart(s.table, st);
    PollReads(s.table, st.filter, st.start, st.last);
    var st' := Step(s, Poll).stream;
    assert Read(st) == st.emitted && Read(st') == st.emitted + rows;
    AscendingAppend(st.emitted, rows, st.last);
  }

  lemma LastAboveStart(t: Table, st: Stream)
    requires StreamOk(t, st)
    ensures st.start <= st.last
    ensures forall r :: r in st.emitted ==> r.id <= st.last
    ensures st.pending == [] ==> Frontier(st) == st.last
  {
    if st.emitted != [] {
      assert st.emitted[|st.emitted| - 1] in Read(st);
      assert forall i :: 0 <= i < |st.emitted| ==> Read(st)[i] == st.emitted[i];
    }
  }

  lemma AscendingAppend(a: seq<Row>, b: seq<Row>, last: int)
    requires Ascending(a) && Ascending(b)
    requires (forall r :: r in a ==> r.id <= last) && (forall r :: r in b ==> r.id > last)
    ensures Ascending(a + b)
  {
    forall i, j | 0 <= i < j < |a + b| ensures (a + b)[i].id < (a + b)[j].id {
      if i < |a| <= j {
        assert a[i] in a && b[j - |a|] in b;
      }
    }
  }

  lemma EmitKeepsInv(s: System)
    requires Inv(s) && s.stream.pending != []
    ensures Inv(Step(s, Emit))
    ensures Read(Step(s, Emit).stream) == Read(s.stream)
  {
    hide Matches, Ascending, StreamOk, ClientOk, NoneSkipped, Recorded, Read;
    var st, st' := s.stream, Step(s, Emit).stream;
    EmitReads(s);
    assert NoneSkipped(s.table, st') by { EmitSkipsNone(s.table, st, st'); }
    assert Recorded(Step(s, Emit)) by { EmitRecorded(s); }
  }

  lemma EmitReads(s: System)
    requires s.stream.pending != [] && StreamOk(s.table, s.stream) && ClientOk(s.table, s.stream)
    ensures var st' := Step(s, Emit).stream;
            Read(st') == Read(s.stream) && StreamOk(s.table, st') && ClientOk(s.table, st')
  {
    hide Matches, Ascending;
    var st := s.stream;
    assert st.emitted + [st.pending[0]] + st.pending[1..] == st.emitted + st.pending;
    assert (st.emitted + [st.pending[0]])[|st.emitted|] == st.pending[0];
  }

  lemma EmitSkipsNone(t: Table, st: Stream, st': Stream)
    requires NoneSkipped(t, st) && Read(st') == Read(st) && st'.filter == st.filter && st'.start == st.start
    ensures NoneSkipped(t, st')
  {
    hide Matches;
  }

  lemma EmitRecorded(s: System)
    requires Recorded(s) && s.stream.pending != []
    ensures Recorded(Step(s, Emit))
  {
    hide Matches;
    var st := s.stream;
    assert forall r :: r in Received(st) ==> r in Received(Step(s, Emit).stream);
  }

  /** Going on above the last id seen only drops what was read ahead. */
  lemma ContinueKeepsInv(s: System)
    requires Inv(s) && Continues(s.stream)
    ensures Inv(Step(s, Reconnect))
  {
    hide Matches, StreamOk, ClientOk, NoneSkipped, Ascending, Read;
    var st := s.stream;
    ContinueReads(s);
    assert Step(s, Reconnect) == s.(stream := st.(pending := []));
    ContinueSkipsNone(s.table, st);
  }

  lemma ContinueReads(s: System)
    requires Continues(s.stream) && StreamOk(s.table, s.stream) && ClientOk(s.table, s.stream)
    ensures var st, st' := s.stream, Step(s, Reconnect).stream;
            && st' == st.(pending := []) && Read(st') == st.emitted && Received(st') == Received(st)
            && StreamOk(s.table, st') && ClientOk(s.table, st')
  {
    hide Matches;
    var st := s.stream;
    assert forall i :: 0 <= i < |st.emitted| ==> Read(st)[i] == st.emitted[i];
    assert forall r :: r in st.emitted ==> r in Read(st);
  }

  lemma ContinueSkipsNone(t: Table, st: Stream)
    requires StreamOk(t, st) && NoneSkipped(t, st) && StreamOk(t, st.(pending := []))
    ensures NoneSkipped(t, st.(pending := []))
  {
    hide Matches, Ascending;
    var st' := st.(pending := []);
    LastAboveStart(t, st');
    assert Read(st') == st.emitted;
    forall r | r in t.rows && Matches(AfterCursor(st.filter, st.start), r) && r.id <= Frontier(st')
      ensures r in Read(st')
    {
      BehindIsEmitted(t, st, r);
    }
  }

  /** Starting over puts the stream back to a cursor with nothing emitted above it yet. */
  lemma RestartKeepsInv(s: System)
    requires Inv(s) && !Continues(s.stream)
    ensures Inv(Step(s, Reconnect))
  {
    hide Matches, StreamOk, ClientOk, NoneSkipped, Ascending, Read;
    RestartReads(s);
    RestartRecorded(s);
  }

  lemma RestartReads(s: System)
    requires StreamOk(s.table, s.stream) && ClientOk(s.table, s.stream) && !Continues(s.stream)
    ensures var st, st' := s.stream, Step(s, Reconnect).stream;
            && Step(s, Reconnect).table == s.table && st'.filter == st.filter && Received(st') == Received(st)
            && StreamOk(s.table, st') && ClientOk(s.table, st') && NoneSkipped(s.table, st')
            && (st.query.Some? ==> st'.start == st.start)
  {
    hide Matches;
    var st, st' := s.stream, Step(s, Reconnect).stream;
    assert Read(st') == [] && Received(st') == Received(st);
    forall r | r in s.table.rows && Matches(AfterCursor(st'.filter, st'.start), r) ensures r.id > st'.start {
      StartBelow(st'.filter, st'.start, r);
    }
    assert forall r :: r in st.emitted ==> r in Read(st);
  }

  lemma RestartRecorded(s: System)
    requires s.table.Valid() && Recorded(s) && !Continues(s.stream)
    requires var st, st' := s.stream, Step(s, Reconnect).stream;
             Received(st') == Received(st) && st'.filter == st.filter && (st.query.Some? ==> st'.start == st.start)
    ensures Recorded(Step(s, Reconnect))
  {
    hide Matches, Ascending, Received;
  }

  lemma FrontierMonotone(st: Stream)
    requires Ascending(Read(st)) && st.emitted != []
    ensures st.emitted[|st.emitted| - 1].id <= Frontier(st)
  {
    assert Read(st)[|st.emitted| - 1] == st.emitted[|st.emitted| - 1];
  }

  lemma StepKeepsInv(s: System, e: Event)
    requires Inv(s)
    ensures Inv(Step(s, e))
  {
    hide Inv;
    match e
    case Write(n) => if Accepts(s.table, n) { WriteKeepsInv(s, n); }
    case Sweep(cutoff) => SweepKeepsInv(s, cutoff);
    case Poll => if s.stream.pending == [] { PollKeepsInv(s); }
    case Emit => if s.stream.pending != [] { EmitKeepsInv(s); }
    case Reconnect => if Continues(s.stream) { ContinueKeepsInv(s); } else { RestartKeepsInv(s); }
  }

  /** Whether the client names a cursor, in the URL or in the header. */
  predicate HasCursor(st: Stream) {
    st.query.Some? || st.seen.Some?
  }

  /** A client with a cursor keeps its start; what it has received it keeps in any case. */
  lemma StepGrows(s: System, e: Event)
    requires Inv(s)
    ensures var st, st' := s.stream, Step(s, e).stream;
            && st'.filter == st.filter && st'.query == st.query && s.floor <= Step(s, e).floor
            && Received(st) <= Received(st')
            && (HasCursor(st) ==> HasCursor(st') && st'.start == st.start && Step(s, e).floor == s.floor)
  {
    hide Matches, SinceCursor;
  }

  /** What a writer and the sweep do to the table while streams are open: a row that satisfies the
      constraints comes at the end under the next id, and the rows older than the cutoff go. */
  lemma TableSteps(s: System, n: NewRow, cutoff: string, r: Row)
    ensures var t := Step(s, Write(n)).table;
            t.rows == (if Accepts(s.table, n) then s.table.rows + [MakeRow(s.table.next, n)] else s.table.rows)
            && Step(s, Write(n)).stream == s.stream
    ensures r in Step(s, Sweep(cutoff)).table.rows <==> r in s.table.rows && !Precedes(r.at, cutoff)
    ensures Step(s, Sweep(cutoff)).stream == s.stream
  {
    hide Less, Precedes, Accepts;
    KeptExact(s.table.rows, cutoff, r);
    LessIff(r.at, cutoff);
  }

  lemma {:induction false} RunKeepsInv(s: System, es: seq<Event>)
    requires Inv(s)
    ensures var st, t := s.stream, Run(s, es);
            && Inv(t) && t.stream.filter == st.filter && t.stream.query == st.query && s.floor <= t.floor
            && Received(st) <= Received(t.stream)
            && (HasCursor(st) ==> t.stream.start == st.start && t.floor == s.floor)
    decreases |es|
  {
    hide Inv, Received, Step;
    if es != [] {
      StepKeepsInv(s, es[0]);
      StepGrows(s, es[0]);
      RunKeepsInv(Step(s, es[0]), es[1..]);
      PrefixTransitive(Received(s.stream), Received(Step(s, es[0]).stream), Received(Run(s, es).stream));
    }
  }

  lemma PrefixTransitive(a: seq<Row>, b: seq<Row>, c: seq<Row>)
    requires a <= b && b <= c
    ensures a <= c
  {
  }

  lemma StartInv(t: Table, f: Filter, query: Option<int>, header: Option<int>)
    requires t.Valid()
    ensures Inv(Start(t, f, query, header))
  {
    hide Matches;
    var start := Connect(t, f, query, header).start;
    forall r | r in t.rows && Matches(AfterCursor(f, start), r) ensures r.id > start {
      StartBelow(f, start, r);
    }
  }

  /** What has been read and lies at or below the last emitted id has been emitted. */
  lemma BehindIsEmitted(t: Table, st: Stream, r: Row)
    requires StreamOk(t, st) && NoneSkipped(t, st)
    requires r in t.rows && Matches(AfterCursor(st.filter, st.start), r) && r.id <= st.last
    ensures r in st.emitted
  {
    hide Matches;
    var all := Read(st);
    LastAboveStart(t, st);
    if st.emitted != [] {
      FrontierMonotone(st);
    } else if st.pending != [] {
      assert all[|all| - 1] in all;
      StartBelow(st.filter, st.start, all[|all| - 1]);
    }
    StartBelow(st.filter, st.start, r);
    assert st.emitted != [] ==> forall k :: |st.emitted| <= k < |all| ==> all[|st.emitted| - 1].id < all[k].id;
    var i :| 0 <= i < |all| && all[i] == r;
  }

  /** No loss: after a poll that returns fewer rows than the batch, every live wanted row is emitted
      or about to be; and a poll makes progress whenever a live wanted row has not been read, first
      with the oldest of them. */
  lemma PollIsComplete(s: System)
    requires Inv(s) && s.stream.pending == []
    ensures var st, st' := s.stream, Step(s, Poll).stream;
            var g := AfterCursor(st.filter, st.start);
            && |st'.pending| <= 100
            && (|st'.pending| < 100 ==>
                  forall r :: r in s.table.rows && Matches(g, r) ==> r in st'.emitted || r in st'.pending)
            && ((exists r :: r in s.table.rows && Matches(g, r) && r !in st.emitted) ==>
                  && st'.pending != []
                  && forall r :: r in s.table.rows && Matches(g, r) && r !in st.emitted ==> st'.pending[0].id <= r.id)
  {
    hide Matches, SinceCursor;
    var st, st' := s.stream, Step(s, Poll).stream;
    LastAboveStart(s.table, st);
    PollReads(s.table, st.filter, st.start, st.last);
    forall r | r in s.table.rows && Matches(AfterCursor(st.filter, st.start), r) && r !in st.emitted
      ensures r.id > st.last
    {
      if r.id <= st.last {
        BehindIsEmitted(s.table, st, r);
      }
    }
  }

  // ----- The table as an object.

  class ActivityLog {
    var table: Table

    constructor ()
      ensures table == Table([], 1) && table.Valid()
    {
      table := Table([], 1);
    }

    /** `insert`: the id comes back, and it is larger than any id handed out before. */
    method Insert(n: NewRow) returns (id: Option<nat>)
      requires table.Valid()
      modifies this
      ensures table.Valid()
      ensures if old(Accepts(table, n)) then id == Some(old(table.next)) && table == old(Inserted(table, n))
              else id == None && table == old(table)
      ensures id.Some?
         <==> && n.source in {"cli", "http", "mcp"}
              && (forall r :: r in old(table.rows) && n.eventId.Some? ==> r.eventId != n.eventId)
              && old(table.next) <= 9223372036854775807
      ensures id.Some? ==>
                && (forall r :: r in old(table.rows) ==> r.id < id.value) && table.next == id.value + 1
                && table.rows == old(table.rows)
                                 + [Row(id.value, n.at, n.command, n.source, n.actor, n.repo, n.eventId, n.payload)]
    {
      if !Accepts(table, n) { return None; }
      id := Some(table.next);
      table := Inserted(table, n);
    }

    /** `delete_before`: how many rows went; the boundary stays. */
    method DeleteBefore(cutoff: string) returns (removed: nat)
      requires table.Valid()
      modifies this
      ensures table.Valid() && table == DeletedBefore(old(table), cutoff)
      ensures removed == |old(table.rows)| - |table.rows|
      ensures forall r :: r in table.rows <==> r in old(table.rows) && !Precedes(r.at, cutoff)
      ensures table.next == old(table.next)
    {
      hide Less, Precedes;
      ghost var before := table.rows;
      KeptAscending(table.rows, cutoff);
      KeptLength(table.rows, cutoff);
      removed := |table.rows| - |Kept(table.rows, cutoff)|;
      table := DeletedBefore(table, cutoff);
      forall r ensures r in table.rows <==> r in before && !Precedes(r.at, cutoff) {
        KeptExact(before, cutoff, r);
        LessIff(r.at, cutoff);
      }
    }
  }

  lemma {:induction false} KeptLength(rows: seq<Row>, cutoff: string)
    ensures |Kept(rows, cutoff)| <= |rows|
  {
    if rows != [] {
      KeptLength(rows[1..], cutoff);
    }
  }
}
