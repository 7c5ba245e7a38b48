/** What the client of a live activity stream gets over any run of the system: everything once when
    it connects without a cursor in the URL, and exactly when it gets rows again, or misses some,
    otherwise. */
module ActivityDelivery {
  import opened Options
  import opened ActivityFeed
  import opened ActivityStream

  /** What the stream is after. */
  function Wanted(st: Stream): Filter {
    AfterCursor(st.filter, st.start)
  }

  // ----- Nothing twice, nothing lost.

  lemma EmittedOk(s: System)
    requires Inv(s)
    ensures var st := s.stream;
            && Ascending(st.emitted)
            && (forall r :: r in Received(st) ==> Matches(Wanted(st), r))
            && (forall r :: r in s.table.rows && Matches(Wanted(st), r) && r.id <= st.last ==> r in st.emitted)
            && (forall r :: r in s.inserted && Matches(Wanted(st), r) && r.id <= st.last ==>
                  r in Received(st) || r in s.swept)
            && (st.query == None ==> st.earlier == [])
  {
    hide Matches;
    var st := s.stream;
    assert forall i :: 0 <= i < |st.emitted| ==> Read(st)[i] == st.emitted[i];
    assert forall r :: r in st.emitted ==> r in Read(st);
    forall r | r in s.table.rows && Matches(Wanted(st), r) && r.id <= st.last ensures r in st.emitted {
      BehindIsEmitted(s.table, st, r);
    }
  }

  /** A stream opened without `after_id`, in every interleaving of writers, sweeps, polls, emissions
      and reconnections: what the client receives over all its connections is strictly ascending in
      id, so free of duplicates, matches the filter and lies above the start. */
  lemma ExactlyOnce(t: Table, f: Filter, header: Option<int>, es: seq<Event>)
    requires t.Valid()
    ensures var st := Run(Start(t, f, None, header), es).stream;
            && Ascending(Received(st))
            && (forall r :: r in Received(st) ==> Matches(AfterCursor(f, st.start), r))
            && (header.Some? ==> st.start == header.value)
  {
    hide Inv, Matches, Step;
    StartInv(t, f, None, header);
    RunKeepsInv(Start(t, f, None, header), es);
    EmittedOk(Run(Start(t, f, None, header), es));
  }

  /** Any stream, in every interleaving: each stretch since the stream last started over is strictly
      ascending; every wanted row inserted since the connection that the stream has moved past was
      received, unless the sweep deleted it while the stream had still to reach it; and a live one
      was emitted. For a client with a cursor the connection is the first one and the start is the
      cursor. */
  lemma NothingLost(t: Table, f: Filter, query: Option<int>, header: Option<int>, es: seq<Event>)
    requires t.Valid()
    ensures var s := Run(Start(t, f, query, header), es); var st := s.stream;
            && Ascending(st.emitted)
            && (forall r :: r in s.inserted && Matches(AfterCursor(f, st.start), r) && r.id <= st.last ==>
                  r in Received(st) || r in s.swept)
            && (forall r :: r in s.table.rows && Matches(AfterCursor(f, st.start), r) && r.id <= st.last ==>
                  r in st.emitted)
            && (query.Some? || header.Some? ==> s.floor == t.next && st.start == ResolveCursor(t, query, header))
            && (forall r :: r in s.table.rows && r.id >= s.floor ==> r in s.inserted)
  {
    hide Inv, Matches, Step;
    StartInv(t, f, query, header);
    RunKeepsInv(Start(t, f, query, header), es);
    EmittedOk(Run(Start(t, f, query, header), es));
    assert Recorded(Run(Start(t, f, query, header), es)) by { InvRecorded(Run(Start(t, f, query, header), es)); }
  }

  lemma InvRecorded(s: System)
    requires Inv(s)
    ensures Recorded(s)
  {
    hide Recorded;
  }

  /** A stream connected at the newest row emits no row that was there before it connected: not even
      when the table was empty and the newest id fell back to 0. */
  lemma NothingOld(t: Table, f: Filter, es: seq<Event>)
    requires t.Valid()
    ensures var st := Run(Start(t, f, None, None), es).stream;
            forall r :: r in Received(st) ==> r.id >= t.next && r !in t.rows
  {
    hide Inv, Matches, Step;
    StartInv(t, f, None, None);
    if t.rows != [] {
      assert t.rows[|t.rows| - 1] in t.rows;
    }
    OnlyNewRun(Start(t, f, None, None), es);
    RunKeepsInv(Start(t, f, None, None), es);
    EmittedOk(Run(Start(t, f, None, None), es));
    var st := Run(Start(t, f, None, None), es).stream;
    forall r | r in st.emitted ensures r.id >= t.next {
      assert r in Read(st);
    }
  }

  /** Everything live above the start, and everything read, is new since the connection. */
  ghost predicate OnlyNew(s: System) {
    && s.stream.query == None
    && (forall r :: r in s.table.rows && r.id > s.stream.start ==> r.id >= s.floor)
    && (forall r :: r in Read(s.stream) ==> r.id >= s.floor)
  }

  lemma OnlyNewStep(s: System, e: Event)
    requires Inv(s) && OnlyNew(s)
    ensures OnlyNew(Step(s, e))
  {
    hide Matches, SinceCursor, Accepts, NoneSkipped, Ascending;
    var st := s.stream;
    match e
    case Write(_) =>
    case Sweep(cutoff) => KeptExactAll(s.table.rows, cutoff);
    case Poll => if st.pending == [] { OnlyNewPoll(s); }
    case Emit => if st.pending != [] { EmitKeepsInv(s); }
    case Reconnect =>
      assert forall r :: r in st.emitted ==> r in Read(st);
      NewestIdExact(s.table);
  }

  lemma KeptExactAll(rows: seq<Row>, cutoff: string)
    ensures forall r :: r in Kept(rows, cutoff) ==> r in rows
  {
    forall r | r in Kept(rows, cutoff) ensures r in rows {
      KeptExact(rows, cutoff, r);
    }
  }

  lemma OnlyNewPoll(s: System)
    requires Inv(s) && OnlyNew(s) && s.stream.pending == []
    ensures OnlyNew(Step(s, Poll))
  {
    hide Matches, SinceCursor, NoneSkipped, Ascending;
    LastAboveStart(s.table, s.stream);
    PollReads(s.table, s.stream.filter, s.stream.start, s.stream.last);
  }

  lemma {:induction false} OnlyNewRun(s: System, es: seq<Event>)
    requires Inv(s) && OnlyNew(s)
    ensures OnlyNew(Run(s, es)) && Run(s, es).floor >= s.floor
    decreases |es|
  {
    hide Inv, OnlyNew, Step;
    if es != [] {
      StepKeepsInv(s, es[0]);
      StepGrows(s, es[0]);
      OnlyNewStep(s, es[0]);
      OnlyNewRun(Step(s, es[0]), es[1..]);
    }
  }

  /** And it is there for all rows written since: each one that the filter lets through lies above the
      start, so that none is passed over because of where the stream began. */
  lemma NothingBelowStart(t: Table, f: Filter, es: seq<Event>)
    requires t.Valid()
    ensures var s := Run(Start(t, f, None, None), es);
            && s.stream.start < s.floor
            && (forall r :: r in s.inserted && Matches(f.(afterId := None), r) ==>
                  Matches(AfterCursor(f, s.stream.start), r))
            && (forall r :: r in s.inserted && Matches(f.(afterId := None), r) && r.id <= s.stream.last ==>
                  r in Received(s.stream) || r in s.swept)
  {
    hide Inv, Matches, Step;
    StartInv(t, f, None, None);
    NewestIdExact(t);
    StartBelowFloor(Start(t, f, None, None), es);
    RunKeepsInv(Start(t, f, None, None), es);
    var s := Run(Start(t, f, None, None), es);
    NothingLost(t, f, None, None, es);
    InvRecorded(s);
    forall r | r in s.inserted && Matches(f.(afterId := None), r) ensures Matches(AfterCursor(f, s.stream.start), r) {
      AboveMatches(f, s.stream.start, r);
    }
  }

  lemma AboveMatches(f: Filter, start: int, r: Row)
    requires Matches(f.(afterId := None), r) && r.id > start
    ensures Matches(AfterCursor(f, start), r)
  {
  }

  lemma {:induction false} StartBelowFloor(s: System, es: seq<Event>)
    requires Inv(s) && s.stream.query == None && s.stream.start < s.floor
    ensures Run(s, es).stream.start < Run(s, es).floor
    decreases |es|
  {
    hide Inv;
    if es != [] {
      assert s.table.Valid() by { InvValid(s); }
      NewestIdExact(s.table);
      StepKeepsInv(s, es[0]);
      StartBelowFloor(Step(s, es[0]), es[1..]);
    }
  }

  lemma InvValid(s: System)
    requires Inv(s)
    ensures s.table.Valid()
  {
  }

  // ----- Every wanted row can be had.

  predicate Reads(es: seq<Event>) {
    forall e :: e in es ==> e == Poll || e == Emit
  }

  /** From any state, polling and emitting alone bring the client every wanted row that is live and
      lies above the start. */
  lemma {:induction false} Arrives(s: System, r: Row) returns (es: seq<Event>)
    requires Inv(s) && r in s.table.rows && Matches(Wanted(s.stream), r)
    ensures Reads(es)
    ensures var t := Run(s, es); r in t.stream.emitted && t.table == s.table && t.stream.earlier == s.stream.earlier
    decreases r.id - s.stream.last, s.stream.pending == []
  {
    hide Inv, Matches, SinceCursor;
    var st := s.stream;
    if r in st.emitted {
      return [];
    }
    EmittedOk(s);
    var e := if st.pending == [] then Poll else Emit;
    if st.pending == [] {
      PollIsComplete(s);
    } else {
      PendingAhead(s);
    }
    StepKeepsInv(s, e);
    var rest := Arrives(Step(s, e), r);
    es := [e] + rest;
    assert es[1..] == rest;
  }

  lemma PendingAhead(s: System)
    requires Inv(s) && s.stream.pending != []
    ensures s.stream.pending[0].id > s.stream.last
  {
    hide Matches;
    var st := s.stream;
    assert Read(st)[|st.emitted|] == st.pending[0];
    if st.emitted == [] {
      assert st.pending[0] in Read(st);
      StartBelow(st.filter, st.start, st.pending[0]);
    } else {
      assert Read(st)[|st.emitted| - 1] == st.emitted[|st.emitted| - 1];
    }
  }

  /** How many rows a run emits. */
  function Emissions(s: System, es: seq<Event>): nat
    decreases |es|
  {
    if es == [] then 0
    else (if es[0] == Emit && s.stream.pending != [] then 1 else 0) + Emissions(Step(s, es[0]), es[1..])
  }

  /** The wanted rows up to `r` that the stream has ahead of it, live or read already. */
  function Ahead(s: System, r: Row): set<Row> {
    set x | x in s.table.rows + s.stream.pending && Matches(Wanted(s.stream), x) && s.stream.last < x.id <= r.id
  }

  /** `r` is settled, or ahead of the stream. */
  ghost predicate Tracked(s: System, r: Row) {
    && Matches(Wanted(s.stream), r) && r.id < s.table.next
    && (r in s.stream.emitted || r in s.swept || r in Ahead(s, r))
  }

  /** Only an emission shortens what is ahead, or a sweep; nothing makes it longer. */
  lemma TrackedStep(s: System, e: Event, r: Row)
    requires Inv(s) && Tracked(s, r) && e != Reconnect
    ensures var t := Step(s, e);
            && Tracked(t, r) && Ahead(t, r) <= Ahead(s, r)
            && (e == Emit && s.stream.pending != [] && r in Ahead(s, r) ==> Ahead(t, r) < Ahead(s, r))
            && (r in s.stream.emitted || r in s.swept ==> r in t.stream.emitted || r in t.swept)
  {
    hide Matches, SinceCursor, Accepts, Inv;
    var st := s.stream;
    match e
    case Write(_) =>
    case Sweep(cutoff) => SweepTracked(s, cutoff, r);
    case Poll => if st.pending == [] { PollTracked(s, r); }
    case Emit => if st.pending != [] { EmitTracked(s, r); }
  }

  lemma SweepTracked(s: System, cutoff: string, r: Row)
    requires Inv(s) && Tracked(s, r)
    ensures Tracked(Step(s, Sweep(cutoff)), r) && Ahead(Step(s, Sweep(cutoff)), r) <= Ahead(s, r)
  {
    hide Matches;
    KeptAscending(s.table.rows, cutoff);
  }

  lemma PollTracked(s: System, r: Row)
    requires Inv(s) && Tracked(s, r) && s.stream.pending == []
    ensures Tracked(Step(s, Poll), r) && Ahead(Step(s, Poll), r) <= Ahead(s, r)
  {
    hide Matches, SinceCursor;
    LastAboveStart(s.table, s.stream);
    PollReads(s.table, s.stream.filter, s.stream.start, s.stream.last);
  }

  /** The row a stream emits is among the first of what it has ahead. */
  lemma EmitTracked(s: System, r: Row)
    requires Inv(s) && Tracked(s, r) && s.stream.pending != []
    ensures var t := Step(s, Emit);
            && Tracked(t, r) && Ahead(t, r) <= Ahead(s, r)
            && (r in Ahead(s, r) ==> Ahead(t, r) < Ahead(s, r))
  {
    hide Matches;
    var st, next := s.stream, s.stream.pending[0];
    PendingAhead(s);
    EmitKeepsInv(s);
    assert next in Read(st);
    if r in Ahead(s, r) {
      OldestFirst(s, r);
      assert next in Ahead(s, r);
    }
    assert forall x :: x in st.pending[1..] ==> x in st.pending;
  }

  /** What a stream emits next is no newer than any wanted row ahead of it. */
  lemma OldestFirst(s: System, r: Row)
    requires Inv(s) && r in Ahead(s, r) && s.stream.pending != []
    ensures r in s.stream.pending || r.id > s.stream.pending[0].id
    ensures s.stream.pending[0].id <= r.id && (r.id == s.stream.pending[0].id ==> r == s.stream.pending[0])
  {
    hide Matches, Ascending, Frontier;
    var st := s.stream;
    FirstPending(st, r);
    LastAboveStart(s.table, st);
    if r !in st.pending {
      assert r !in Read(st);
      assert r.id > Frontier(st);
    }
  }

  lemma FirstPending(st: Stream, r: Row)
    requires Ascending(Read(st)) && st.pending != []
    ensures st.pending[0].id <= Frontier(st)
    ensures r in st.pending ==> st.pending[0].id <= r.id && (r.id == st.pending[0].id ==> r == st.pending[0])
  {
    var all, n := Read(st), |st.emitted|;
    assert all[n] == st.pending[0];
    if r in st.pending {
      var k :| 0 <= k < |st.pending| && st.pending[k] == r;
      assert all[n + k] == r;
    }
  }

  /** Bounded delivery: in any run without a reconnection, whatever writers and the sweep do
      meanwhile, after as many emissions as there are wanted rows up to `r` ahead of the stream, `r`
      has been emitted, or it was swept while still ahead. */
  lemma {:induction false} ArrivesWithin(s: System, es: seq<Event>, r: Row)
    requires Inv(s) && Tracked(s, r) && NoReconnect(es) && Emissions(s, es) >= |Ahead(s, r)|
    ensures var t := Run(s, es); r in t.stream.emitted || r in t.swept
    decreases |es|
  {
    hide Inv, Step, Ahead;
    if r in s.stream.emitted || r in s.swept {
      SettledRun(s, es, r);
    } else if es != [] {
      StepKeepsInv(s, es[0]);
      TrackedStep(s, es[0], r);
      Fewer(Ahead(Step(s, es[0]), r), Ahead(s, r));
      ArrivesWithin(Step(s, es[0]), es[1..], r);
    }
  }

  lemma {:induction false} SettledRun(s: System, es: seq<Event>, r: Row)
    requires Inv(s) && Tracked(s, r) && NoReconnect(es) && (r in s.stream.emitted || r in s.swept)
    ensures var t := Run(s, es); r in t.stream.emitted || r in t.swept
    decreases |es|
  {
    hide Inv, Step, Ahead, Tracked;
    if es != [] {
      StepKeepsInv(s, es[0]);
      TrackedStep(s, es[0], r);
      SettledRun(Step(s, es[0]), es[1..], r);
    }
  }

  lemma Fewer(a: set<Row>, b: set<Row>)
    requires a <= b
    ensures |a| <= |b| && (a < b ==> |a| < |b|)
  {
    assert b == a + (b - a);
  }

  // ----- Rows received again.

  /** Since it last started over, the stream has emitted nothing the client already had. */
  predicate NoReplay(st: Stream) {
    forall r :: r in st.emitted ==> r !in st.earlier
  }

  predicate NoReconnect(es: seq<Event>) {
    Reconnect !in es
  }

  /** A stream opened with `after_id` starts over there at every reconnection. The client then gets
      no row again, whatever happens up to its next reconnection, if and only if the sweep has
      already deleted every row it had received. */
  lemma ReplayIff(s: System)
    requires Inv(s) && s.stream.query.Some?
    ensures (forall es :: NoReconnect(es) ==> NoReplay(Run(Step(s, Reconnect), es).stream))
       <==> (forall r :: r in Received(s.stream) ==> r !in s.table.rows)
  {
    hide Inv, Matches, Step, Run;
    StepKeepsInv(s, Reconnect);
    var t := Step(s, Reconnect);
    Restarted(s);
    if forall r :: r in Received(s.stream) ==> r !in s.table.rows {
      forall es | NoReconnect(es) ensures NoReplay(Run(t, es).stream) {
        GoneRun(t, es);
      }
    } else {
      var r :| r in Received(s.stream) && r in s.table.rows;
      EmittedOk(s);
      var es := Arrives(t, r);
      assert NoReconnect(es) && !NoReplay(Run(t, es).stream);
    }
  }

  lemma Restarted(s: System)
    requires Inv(s) && s.stream.query.Some?
    ensures var t := Step(s, Reconnect);
            && t.table == s.table && t.stream.earlier == Received(s.stream) && Read(t.stream) == []
            && t.stream.filter == s.stream.filter && t.stream.start == s.stream.start
  {
    hide Matches;
  }

  /** What the client had before is neither live nor read. */
  ghost predicate Gone(s: System) {
    forall r :: r in s.stream.earlier ==> r !in s.table.rows && r !in Read(s.stream)
  }

  lemma GoneStep(s: System, e: Event)
    requires Inv(s) && Gone(s) && e != Reconnect
    ensures Gone(Step(s, e))
  {
    hide Matches, SinceCursor, Accepts;
    var st := s.stream;
    match e
    case Write(_) =>
    case Sweep(cutoff) => KeptAscending(s.table.rows, cutoff);
    case Poll =>
      if st.pending == [] {
        LastAboveStart(s.table, st);
        PollReads(s.table, st.filter, st.start, st.last);
      }
    case Emit => if st.pending != [] { EmitKeepsInv(s); }
  }

  lemma {:induction false} GoneRun(s: System, es: seq<Event>)
    requires Inv(s) && Gone(s) && NoReconnect(es)
    ensures NoReplay(Run(s, es).stream)
    decreases |es|
  {
    hide Inv, Step;
    if es == [] {
      assert forall r :: r in s.stream.emitted ==> r in Read(s.stream);
    } else {
      StepKeepsInv(s, es[0]);
      GoneStep(s, es[0]);
      GoneRun(Step(s, es[0]), es[1..]);
    }
  }

  ghost predicate Distinct(rows: seq<Row>) {
    forall i, j :: 0 <= i < j < |rows| ==> rows[i] != rows[j]
  }

  /** A row that the filter lets through above `cursor` is live, or can still be written: the filter
      names no foreign source, and there are ids left above the cursor. */
  ghost predicate Sendable(t: Table, f: Filter, cursor: int) {
    || (exists r :: r in t.rows && Matches(AfterCursor(f, cursor), r))
    || (t.next <= I64_MAX && cursor < I64_MAX && (f.source.Some? ==> IsSource(f.source.value)))
  }

  /** Over whole runs: the client never receives a row twice, whatever happens, if and only if the
      stream was opened without `after_id`, or there can never be anything to send. */
  lemma DuplicateFreeIff(t: Table, f: Filter, query: Option<int>, header: Option<int>)
    requires t.Valid()
    ensures (forall es :: Distinct(Received(Run(Start(t, f, query, header), es).stream)))
       <==> query == None || !Sendable(t, f, query.value)
  {
    hide Inv, Matches, Step, Run, Sendable, Received, Distinct;
    var s := Start(t, f, query, header);
    StartInv(t, f, query, header);
    if query == None {
      forall es ensures Distinct(Received(Run(s, es).stream)) {
        ExactlyOnce(t, f, header, es);
        AscendingDistinct(Received(Run(s, es).stream));
      }
    } else if !Sendable(t, f, query.value) {
      StartsIdle(t, f, query, header);
      forall es ensures Distinct(Received(Run(s, es).stream)) {
        IdleRun(s, es);
        assert Distinct([]) by { AscendingDistinct([]); }
      }
    } else {
      var es1, r := Publish(s);
      RunKeepsInv(s, es1);
      var es2 := Twice(Run(s, es1), r);
      RunAppend(s, es1, es2);
      NotDistinct(Run(s, es1 + es2).stream, r);
    }
  }

  lemma AscendingDistinct(rows: seq<Row>)
    requires Ascending(rows)
    ensures Distinct(rows)
  {
  }

  lemma NotDistinct(st: Stream, r: Row)
    requires r in st.earlier && r in st.emitted
    ensures !Distinct(Received(st))
  {
    var i :| 0 <= i < |st.earlier| && st.earlier[i] == r;
    var j :| 0 <= j < |st.emitted| && st.emitted[j] == r;
    assert Received(st)[i] == r && Received(st)[|st.earlier| + j] == r;
  }

  // ----- Streams that never have anything to send.

  ghost predicate Idle(s: System) {
    && s.stream.query.Some? && !Sendable(s.table, s.stream.filter, s.stream.query.value)
    && Read(s.stream) == [] && Received(s.stream) == []
  }

  lemma StartsIdle(t: Table, f: Filter, query: Option<int>, header: Option<int>)
    requires query.Some? && !Sendable(t, f, query.value)
    ensures Idle(Start(t, f, query, header))
  {
    hide Sendable;
  }

  lemma NotWritten(t: Table, f: Filter, cursor: int, n: NewRow)
    requires !Sendable(t, f, cursor) && Accepts(t, n)
    ensures !Sendable(Inserted(t, n), f, cursor)
  {
  }

  lemma IdleStep(s: System, e: Event)
    requires Inv(s) && Idle(s)
    ensures Idle(Step(s, e))
  {
    hide Sendable, Matches, SinceCursor, Accepts;
    var st := s.stream;
    match e
    case Write(n) => if Accepts(s.table, n) { NotWritten(s.table, st.filter, st.query.value, n); }
    case Sweep(cutoff) => SweptIdle(s.table, st.filter, st.query.value, cutoff);
    case Poll =>
      LastAboveStart(s.table, st);
      PollReads(s.table, st.filter, st.start, st.last);
      NothingLive(s.table, st.filter, st.query.value);
      FirstOf(Step(s, Poll).stream.pending);
    case Emit =>
    case Reconnect =>
  }

  lemma FirstOf(rows: seq<Row>)
    ensures rows == [] || rows[0] in rows
  {
  }

  lemma SweptIdle(t: Table, f: Filter, cursor: int, cutoff: string)
    requires t.Valid() && !Sendable(t, f, cursor)
    ensures !Sendable(DeletedBefore(t, cutoff), f, cursor)
  {
    hide Matches;
    KeptAscending(t.rows, cutoff);
  }

  lemma NothingLive(t: Table, f: Filter, cursor: int)
    requires !Sendable(t, f, cursor)
    ensures forall r :: r in t.rows ==> !Matches(AfterCursor(f, cursor), r)
  {
    hide Matches;
  }

  lemma {:induction false} IdleRun(s: System, es: seq<Event>)
    requires Inv(s) && Idle(s)
    ensures Received(Run(s, es).stream) == []
    decreases |es|
  {
    hide Inv, Step, Sendable;
    if es != [] {
      StepKeepsInv(s, es[0]);
      IdleStep(s, es[0]);
      IdleRun(Step(s, es[0]), es[1..]);
    }
  }

  // ----- Bringing a wanted row into the table.

  /** A row the filter lets through, as far as its columns other than the id go. */
  function Sample(f: Filter): NewRow {
    NewRow(if f.since.Some? then f.since.value else "", if f.command.Some? then f.command.value else "",
           if f.source.Some? then f.source.value else "cli", f.actor, f.repo, None, "")
  }

  lemma SampleMatches(f: Filter, cursor: int, id: nat)
    requires id > cursor
    ensures Matches(AfterCursor(f, cursor), MakeRow(id, Sample(f)))
  {
    if f.since.Some? {
      LessTotal(f.since.value, f.since.value);
    }
  }

  /** Writing until the row with id `id` is there. */
  lemma {:induction false} Fill(s: System, id: nat) returns (es: seq<Event>)
    requires s.table.next <= id <= I64_MAX
    requires s.stream.filter.source.Some? ==> IsSource(s.stream.filter.source.value)
    ensures var t := Run(s, es); MakeRow(id, Sample(s.stream.filter)) in t.table.rows && t.stream == s.stream
    decreases id - s.table.next
  {
    hide Run;
    var e := Write(Sample(s.stream.filter));
    var t := Step(s, e);
    assert t.table == Inserted(s.table, e.row) && t.stream == s.stream;
    if s.table.next == id {
      es := [e];
      RunCons(s, e, []);
      RunNil(t);
      assert [e] + [] == [e];
    } else {
      var rest := Fill(t, id);
      es := [e] + rest;
      RunCons(s, e, rest);
    }
  }

  lemma Publish(s: System) returns (es: seq<Event>, r: Row)
    requires Inv(s) && s.stream.query.Some? && Sendable(s.table, s.stream.filter, s.stream.query.value)
    ensures var t := Run(s, es); r in t.table.rows && Matches(Wanted(t.stream), r) && t.stream.query == s.stream.query
  {
    hide Matches, Run;
    var f, cursor := s.stream.filter, s.stream.query.value;
    if exists r :: r in s.table.rows && Matches(AfterCursor(f, cursor), r) {
      r :| r in s.table.rows && Matches(AfterCursor(f, cursor), r);
      es := [];
      RunNil(s);
    } else {
      var id := if s.table.next > cursor then s.table.next else cursor + 1;
      es := Fill(s, id);
      r := MakeRow(id, Sample(f));
      SampleMatches(f, cursor, id);
    }
  }

  /** Reading up to `r`, reconnecting and reading again. */
  lemma Twice(s: System, r: Row) returns (es: seq<Event>)
    requires Inv(s) && s.stream.query.Some? && r in s.table.rows && Matches(Wanted(s.stream), r)
    ensures r in Run(s, es).stream.earlier && r in Run(s, es).stream.emitted
  {
    hide Inv, Matches, Step, Run;
    var es1 := Arrives(s, r);
    var s1 := Run(s, es1);
    RunKeepsInv(s, es1);
    StepKeepsInv(s1, Reconnect);
    Restarted(s1);
    var es2 := Arrives(Step(s1, Reconnect), r);
    es := es1 + ([Reconnect] + es2);
    RunAppend(s, es1, [Reconnect] + es2);
    RunCons(s1, Reconnect, es2);
  }

  lemma {:induction false} RunAppend(s: System, a: seq<Event>, b: seq<Event>)
    ensures Run(s, a + b) == Run(Run(s, a), b)
    decreases |a|
  {
    hide Step;
    if a == [] {
      assert a + b == b;
    } else {
      assert (a + b)[1..] == a[1..] + b;
      RunAppend(Step(s, a[0]), a[1..], b);
    }
  }

  lemma RunCons(s: System, e: Event, es: seq<Event>)
    ensures Run(s, [e] + es) == Run(Step(s, e), es)
  {
    hide Step;
    assert ([e] + es)[1..] == es;
  }

  /** The smallest such run: one row, a stream opened at `after_id=0`, and one reconnection. */
  lemma ReplayCounterexample(f: Filter, r: Row)
    requires r.id == 1 && Matches(AfterCursor(f, 0), r)
    ensures var s := Start(Table([r], 2), f, Some(0), None);
            Received(Run(s, [Poll, Emit, Reconnect, Poll, Emit]).stream) == [r, r]
  {
    hide Matches, Run, Step;
    var s := Start(Table([r], 2), f, Some(0), None);
    ReadOne(s, r);
    var s1 := Step(Step(s, Poll), Emit);
    var s2 := Step(s1, Reconnect);
    assert s2.table == s.table && s2.stream == s.stream.(seen := Some(1), earlier := [r]) by { StartsOver(s1, r); }
    ReadOne(s2, r);
    RunCons(s, Poll, [Emit, Reconnect, Poll, Emit]);
    RunCons(Step(s, Poll), Emit, [Reconnect, Poll, Emit]);
    RunCons(s1, Reconnect, [Poll, Emit]);
    RunCons(s2, Poll, [Emit]);
    RunCons(Step(s2, Poll), Emit, []);
    RunNil(Step(Step(s2, Poll), Emit));
    assert [Poll] + [Emit, Reconnect, Poll, Emit] == [Poll, Emit, Reconnect, Poll, Emit];
    assert [Emit] + [Reconnect, Poll, Emit] == [Emit, Reconnect, Poll, Emit];
    assert [Reconnect] + [Poll, Emit] == [Reconnect, Poll, Emit];
    assert [Poll] + [Emit] == [Poll, Emit] && [Emit] + [] == [Emit];
  }

  lemma RunNil(s: System)
    ensures Run(s, []) == s
  {
  }

  lemma ReadOne(s: System, r: Row)
    requires s.table.rows == [r] && s.stream.pending == [] && Matches(AfterCursor(s.stream.filter, s.stream.last), r)
    ensures var t := Step(Step(s, Poll), Emit);
            t == s.(stream := s.stream.(seen := Some(r.id), last := r.id, emitted := s.stream.emitted + [r]))
  {
    hide Matches;
    var g := AfterCursor(s.stream.filter, s.stream.last);
    assert [r][1..] == [] && Select([], g) == [];
    assert Select([r], g) == [r] && Take([r], BATCH) == [r];
  }

  lemma StartsOver(s: System, r: Row)
    requires s.stream.query == Some(0)
    ensures var t := Step(s, Reconnect);
            t == s.(stream := Stream(s.stream.filter, Some(0), s.stream.seen, 0, [], 0, Received(s.stream), []))
  {
  }

  // ----- Rows passed over by a reconnection.

  /** A reconnection leaves every live wanted row that the client has not received above the cursor
      if and only if the client has a cursor to send, or there is no such row: with neither
      `after_id` nor an event seen it connects at the newest row as if for the first time. */
  lemma ReconnectLosesNothingIff(s: System)
    requires Inv(s)
    ensures (forall r :: r in s.table.rows && Matches(Wanted(s.stream), r) && r !in Received(s.stream) ==>
               r.id > Step(s, Reconnect).stream.last)
       <==> HasCursor(s.stream) || forall r :: r in s.table.rows ==> !Matches(Wanted(s.stream), r)
  {
    hide Matches;
    var st := s.stream;
    EmittedOk(s);
    NewestIdExact(s.table);
    forall r | Matches(Wanted(st), r) ensures r.id > st.start {
      StartBelow(st.filter, st.start, r);
    }
  }
}
