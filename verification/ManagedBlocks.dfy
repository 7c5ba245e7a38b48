/** The managed block that the completion installer keeps in a shell startup file: finding the
    blocks in arbitrary text, and writing one block in. */
module ManagedBlocks {
  import opened Options

  const BLOCK_START := "# >>> comemory completions >>>"
  const BLOCK_END := "# <<< comemory completions <<<"
  const MARK := 30

  datatype Kind = Start | End

  /** An occurrence of a marker. */
  datatype Mark = Mark(kind: Kind, pos: nat)

  /** One block: from its start marker up to just behind its end marker. */
  datatype Block = Block(start: nat, end: nat)

  function Marker(kind: Kind): (m: string)
    ensures |m| == MARK
  {
    if kind == Start then BLOCK_START else BLOCK_END
  }

  /** `m` occurs in `s` at `i`. */
  predicate At(s: string, m: string, i: int) {
    0 <= i && i + |m| <= |s| && s[i..i + |m|] == m
  }

  lemma AtIff(s: string, m: string, i: int)
    ensures At(s, m, i) <==> exists p, q :: |p| == i && s == p + (m + q)
  {
    if At(s, m, i) {
      assert s == s[..i] + (m + s[i + |m|..]);
    }
    if p, q :| |p| == i && s == p + (m + q) {
      assert s[i..i + |m|] == m;
    }
  }

  // ----- The independent description: all marker occurrences, in order.

  /** All occurrences of the markers in `s` at or after `from`. */
  function Marks(s: string, from: nat): (ms: seq<Mark>)
    decreases |s| - from
  {
    if from >= |s| then []
    else if At(s, Marker(Start), from) then [Mark(Start, from)] + Marks(s, from + 1)
    else if At(s, Marker(End), from) then [Mark(End, from)] + Marks(s, from + 1)
    else Marks(s, from + 1)
  }

  /** Start, end, start, end, ... */
  predicate Alternates(ms: seq<Mark>) {
    ms == [] || (|ms| >= 2 && ms[0].kind == Start && ms[1].kind == End && Alternates(ms[2..]))
  }

  /** The blocks an alternating list of marks delimits. */
  function Pairs(ms: seq<Mark>): (bs: seq<Block>)
    requires Alternates(ms)
  {
    if ms == [] then [] else [Block(ms[0].pos, ms[1].pos + MARK)] + Pairs(ms[2..])
  }

  // ----- Markers do not overlap.

  /** The markers are different, `#` occurs in them only at the start, and they have no newline. */
  lemma MarkerText(kind: Kind)
    ensures var m := Marker(kind);
            m[0] == '#' && (forall i :: 0 < i < |m| ==> m[i] != '#') && (forall i :: 0 <= i < |m| ==> m[i] != '\n')
    ensures Marker(Start) != Marker(End)
  {
    assert BLOCK_START[2] == '>' && BLOCK_END[2] == '<';
  }

  lemma AtChars(s: string, kind: Kind, i: nat)
    requires At(s, Marker(kind), i)
    ensures s[i] == '#' && (forall j :: i < j < i + MARK ==> s[j] != '#')
    ensures forall j :: i <= j < i + MARK ==> s[j] != '\n'
  {
    hide Marker;
    MarkerText(kind);
    var m := Marker(kind);
    assert forall j :: i <= j < i + MARK ==> s[j] == s[i..i + MARK][j - i] == m[j - i];
  }

  lemma AtOneKind(s: string, i: nat)
    ensures !(At(s, Marker(Start), i) && At(s, Marker(End), i))
  {
    hide Marker;
    MarkerText(Start);
  }

  lemma NoOverlap(s: string, kind: Kind, i: nat, other: Kind, j: nat)
    requires At(s, Marker(kind), i) && At(s, Marker(other), j) && i < j
    ensures i + MARK <= j
  {
    hide Marker, At;
    AtChars(s, kind, i);
    AtChars(s, other, j);
  }

  /** No marker occurs in `s` from `from` up to `to`. */
  ghost predicate Clear(s: string, from: nat, to: nat) {
    forall i, kind :: from <= i < to ==> !At(s, Marker(kind), i)
  }

  lemma {:induction false} MarksSkip(s: string, from: nat, to: nat)
    requires from <= to <= |s| && Clear(s, from, to)
    ensures Marks(s, from) == Marks(s, to)
    decreases |s| - from
  {
    hide Marker, At;
    if from < to {
      MarksSkip(s, from + 1, to);
    }
  }

  lemma MarksAt(s: string, kind: Kind, i: nat)
    requires At(s, Marker(kind), i)
    ensures i + MARK <= |s| && Marks(s, i) == [Mark(kind, i)] + Marks(s, i + MARK)
  {
    assert |Marker(kind)| == MARK;
    hide Marker;
    AtOneKind(s, i);
    forall j, other | i + 1 <= j < i + MARK ensures !At(s, Marker(other), j) {
      if At(s, Marker(other), j) {
        NoOverlap(s, kind, i, other, j);
      }
    }
    MarksSkip(s, i + 1, i + MARK);
  }

  /** `Marks` lists exactly the occurrences ... */
  lemma {:induction false} MarksComplete(s: string, from: nat, kind: Kind, i: nat)
    ensures Mark(kind, i) in Marks(s, from) <==> from <= i && At(s, Marker(kind), i)
    decreases |s| - from
  {
    hide At, Marker;
    if from < |s| {
      AtOneKind(s, from);
      MarksComplete(s, from + 1, kind, i);
    } else {
      AtInBounds(s, kind, i);
    }
  }

  lemma AtInBounds(s: string, kind: Kind, i: nat)
    ensures At(s, Marker(kind), i) ==> i + MARK <= |s|
  {
    assert |Marker(kind)| == MARK;
    hide Marker;
  }

  /** ... in order. */
  lemma {:induction false} MarksSorted(s: string, from: nat)
    ensures forall i :: 0 <= i < |Marks(s, from)| ==> from <= Marks(s, from)[i].pos
    ensures forall i, j :: 0 <= i < j < |Marks(s, from)| ==> Marks(s, from)[i].pos < Marks(s, from)[j].pos
    decreases |s| - from
  {
    hide At, Marker;
    if from < |s| {
      MarksSorted(s, from + 1);
    }
  }

  // ----- The scanner of the source.

  /** `str::find`: the leftmost occurrence of `m` at or after `from`. */
  function Find(s: string, m: string, from: nat): (r: Option<nat>)
    ensures r.Some? ==> from <= r.value && At(s, m, r.value) && forall i :: from <= i < r.value ==> !At(s, m, i)
    ensures r.None? ==> forall i :: from <= i ==> !At(s, m, i)
    decreases |s| - from
  {
    if from + |m| > |s| then None
    else if At(s, m, from) then Some(from)
    else if from < |s| then Find(s, m, from + 1)
    else None
  }

  /** The marks of a list of blocks. */
  function Flat(bs: seq<Block>): (ms: seq<Mark>)
    requires forall b :: b in bs ==> b.end >= MARK
  {
    if bs == [] then [] else [Mark(Start, bs[0].start), Mark(End, bs[0].end - MARK)] + Flat(bs[1..])
  }

  lemma {:induction false} FlatAppend(bs: seq<Block>, b: Block)
    requires forall x :: x in bs + [b] ==> x.end >= MARK
    ensures forall x :: x in bs ==> x.end >= MARK
    ensures b.end >= MARK
    ensures Flat(bs + [b]) == Flat(bs) + [Mark(Start, b.start), Mark(End, b.end - MARK)]
  {
    assert forall x :: x in bs ==> x in bs + [b];
    assert b in bs + [b];
    if bs == [] {
      assert bs + [b] == [b];
    } else {
      assert (bs + [b])[1..] == bs[1..] + [b];
      FlatAppend(bs[1..], b);
    }
  }

  lemma AlternatesTwo(a: Mark, b: Mark, rest: seq<Mark>)
    requires a.kind == Start && b.kind == End
    ensures Alternates([a, b] + rest) == Alternates(rest)
    ensures Alternates(rest) ==> Pairs([a, b] + rest) == [Block(a.pos, b.pos + MARK)] + Pairs(rest)
  {
    assert ([a, b] + rest)[2..] == rest;
  }

  lemma {:induction false} AlternatesFlat(bs: seq<Block>, ms: seq<Mark>)
    requires forall x :: x in bs ==> x.end >= MARK
    ensures Alternates(Flat(bs) + ms) == Alternates(ms)
    ensures Alternates(ms) ==> Pairs(Flat(bs) + ms) == bs + Pairs(ms)
  {
    hide Alternates, Pairs;
    if bs == [] {
      assert Flat(bs) + ms == ms;
    } else {
      var b, rest := bs[0], Flat(bs[1..]) + ms;
      AlternatesFlat(bs[1..], ms);
      AlternatesTwo(Mark(Start, b.start), Mark(End, b.end - MARK), rest);
      assert Flat(bs) + ms == [Mark(Start, b.start), Mark(End, b.end - MARK)] + rest;
      assert [b] + bs[1..] == bs;
    }
  }

  /** What the scanner returns: the blocks when the markers alternate, and otherwise an error. */
  function Blocks(s: string): Option<seq<Block>> {
    var ms := Marks(s, 0);
    if Alternates(ms) then Some(Pairs(ms)) else None
  }

  /** `bs` delimit all marks of `s` before `cursor`. */
  ghost predicate Scanned(s: string, bs: seq<Block>, cursor: nat) {
    && cursor <= |s|
    && (forall b :: b in bs ==> b.end >= MARK)
    && Marks(s, 0) == Flat(bs) + Marks(s, cursor)
  }

  lemma ScannedOne(s: string, bs: seq<Block>, cursor: nat, start: nat, end: nat)
    requires Scanned(s, bs, cursor) && cursor <= start
    requires At(s, Marker(Start), start) && Clear(s, cursor, start)
    requires start + MARK <= end && At(s, Marker(End), end) && Clear(s, start + MARK, end)
    ensures Scanned(s, bs + [Block(start, end + MARK)], end + MARK)
  {
    hide At, Marker, Clear, Marks;
    AtInBounds(s, End, end);
    MarksSkip(s, cursor, start);
    MarksAt(s, Start, start);
    MarksSkip(s, start + MARK, end);
    MarksAt(s, End, end);
    var b := Block(start, end + MARK);
    assert forall x :: x in bs + [b] ==> x.end >= MARK;
    FlatAppend(bs, b);
  }

  lemma ScannedError(s: string, bs: seq<Block>, cursor: nat, ms: seq<Mark>)
    requires Scanned(s, bs, cursor) && Marks(s, cursor) == ms && !Alternates(ms)
    ensures Blocks(s) == None
  {
    hide At, Marker;
    AlternatesFlat(bs, ms);
  }

  lemma ScannedAll(s: string, bs: seq<Block>, cursor: nat)
    requires Scanned(s, bs, cursor) && Clear(s, cursor, |s|)
    ensures Blocks(s) == Some(bs)
  {
    hide Clear, Flat, At;
    MarksSkip(s, cursor, |s|);
    AlternatesFlat(bs, []);
    assert Flat(bs) + [] == Flat(bs) && bs + Pairs([]) == bs;
  }

  lemma ScannedStart(s: string)
    ensures Scanned(s, [], 0)
  {
    hide Marks;
  }

  /** What `Find` says, in terms of marks. */
  lemma FindClear(s: string, from: nat, start: Option<nat>, end: Option<nat>)
    requires from <= |s| && start == Find(s, Marker(Start), from) && end == Find(s, Marker(End), from)
    ensures start.Some? ==> from <= start.value && At(s, Marker(Start), start.value)
    ensures end.Some? ==> from <= end.value && At(s, Marker(End), end.value)
    ensures start.Some? && end.Some? ==> start.value != end.value
    ensures Clear(s, from, FirstOf(s, start, end))
  {
    hide At, Marker, Find;
    if start.Some? {
      AtOneKind(s, start.value);
    }
    forall i, kind | from <= i < FirstOf(s, start, end) ensures !At(s, Marker(kind), i) {
      assert kind == Start || kind == End;
    }
  }

  ghost function FirstOf(s: string, start: Option<nat>, end: Option<nat>): nat {
    match (start, end)
    case (Some(i), Some(j)) => if i < j then i else j
    case (Some(i), None) => i
    case (None, Some(j)) => j
    case (None, None) => |s|
  }

  /** The marks from `from` on, by what `Find` says comes first. */
  lemma MarksFirst(s: string, from: nat, start: Option<nat>, end: Option<nat>)
    requires from <= |s| && start == Find(s, Marker(Start), from) && end == Find(s, Marker(End), from)
    ensures var first := FirstOf(s, start, end);
            && from <= first <= |s|
            && if start == end == None then Marks(s, from) == []
               else first + MARK <= |s| && exists kind ::
                 && Marks(s, from) == [Mark(kind, first)] + Marks(s, first + MARK)
                 && (kind == Start <==> start.Some? && first == start.value)
  {
    hide At, Marker, Find, Clear;
    FindClear(s, from, start, end);
    var first := FirstOf(s, start, end);
    if start.Some? {
      AtInBounds(s, Start, start.value);
    }
    if end.Some? {
      AtInBounds(s, End, end.value);
    }
    MarksSkip(s, from, first);
    if start.Some? || end.Some? {
      var kind := if start.Some? && first == start.value then Start else End;
      MarksAt(s, kind, first);
    }
  }

  lemma FirstIsStart(s: string, bs: seq<Block>, cursor: nat, start: Option<nat>, before: Option<nat>)
    requires Scanned(s, bs, cursor)
    requires start == Find(s, Marker(Start), cursor) && before == Find(s, Marker(End), cursor) && start.Some?
    ensures cursor <= start.value && start.value + MARK <= |s| && At(s, Marker(Start), start.value)
    ensures before.Some? && before.value < start.value ==> Blocks(s) == None
    ensures !(before.Some? && before.value < start.value) ==> Clear(s, cursor, start.value)
  {
    hide At, Marker, Find, Clear, Marks, Blocks, Scanned;
    assert cursor <= |s| by { ScannedBound(s, bs, cursor); }
    FindClear(s, cursor, start, before);
    AtInBounds(s, Start, start.value);
    MarksFirst(s, cursor, start, before);
    if before.Some? && before.value < start.value {
      ScannedError(s, bs, cursor, Marks(s, cursor));
    }
  }

  lemma ScannedBound(s: string, bs: seq<Block>, cursor: nat)
    requires Scanned(s, bs, cursor)
    ensures cursor <= |s|
  {
  }

  lemma NextIsEnd(s: string, bs: seq<Block>, cursor: nat, start: nat, end: Option<nat>, nested: Option<nat>)
    requires Scanned(s, bs, cursor) && cursor <= start && start + MARK <= |s|
    requires At(s, Marker(Start), start) && Clear(s, cursor, start)
    requires end == Find(s, Marker(End), start + MARK) && nested == Find(s, Marker(Start), start + MARK)
    ensures end == None || (nested.Some? && nested.value < end.value) ==> Blocks(s) == None
    ensures end.Some? && !(nested.Some? && nested.value < end.value) ==>
              start < end.value && end.value + MARK <= |s|
              && Scanned(s, bs + [Block(start, end.value + MARK)], end.value + MARK)
  {
    hide At, Marker, Find, Clear, Marks, Blocks, Scanned;
    FindClear(s, start + MARK, nested, end);
    MarksFirst(s, start + MARK, nested, end);
    MarksSkip(s, cursor, start);
    MarksAt(s, Start, start);
    if end == None || (nested.Some? && nested.value < end.value) {
      StartThenNoEnd(start, Marks(s, start + MARK));
      ScannedError(s, bs, cursor, Marks(s, cursor));
    } else {
      AtInBounds(s, End, end.value);
      ScannedOne(s, bs, cursor, start, end.value);
    }
  }

  lemma StartThenNoEnd(start: nat, rest: seq<Mark>)
    requires rest == [] || rest[0].kind == Start
    ensures !Alternates([Mark(Start, start)] + rest)
  {
  }

  lemma NothingLeft(s: string, bs: seq<Block>, cursor: nat, left: Option<nat>)
    requires Scanned(s, bs, cursor)
    requires Find(s, Marker(Start), cursor) == None && left == Find(s, Marker(End), cursor)
    ensures Blocks(s) == if left == None then Some(bs) else None
  {
    hide At, Marker, Find, Clear, Marks, Blocks, Scanned;
    assert cursor <= |s| by { ScannedBound(s, bs, cursor); }
    FindClear(s, cursor, None, left);
    MarksFirst(s, cursor, None, left);
    if left == None {
      ScannedAll(s, bs, cursor);
    } else {
      ScannedError(s, bs, cursor, Marks(s, cursor));
    }
  }

  /** The loop of the source. */
  method FindBlocks(current: string) returns (r: Option<seq<Block>>)
    ensures r == Blocks(current)
  {
    hide *;
    var blocks: seq<Block>, cursor := [], 0;
    ScannedStart(current);
    while true
      invariant 0 <= cursor <= |current|
      invariant Scanned(current, blocks, cursor)
      decreases |current| - cursor
    {
      var start := Find(current, Marker(Start), cursor);
      if start == None { break; }
      var before := Find(current, Marker(End), cursor);
      FirstIsStart(current, blocks, cursor, start, before);
      if before.Some? && before.value < start.value { return None; }
      var bodyStart := start.value + MARK;
      var end := Find(current, Marker(End), bodyStart);
      var nested := Find(current, Marker(Start), bodyStart);
      NextIsEnd(current, blocks, cursor, start.value, end, nested);
      if end == None { return None; }
      if nested.Some? && nested.value < end.value { return None; }
      blocks := blocks + [Block(start.value, end.value + MARK)];
      cursor := end.value + MARK;
    }
    var left := Find(current, Marker(End), cursor);
    NothingLeft(current, blocks, cursor, left);
    if left != None { return None; }
    return Some(blocks);
  }

  // ----- Exactly which texts are accepted, and with which blocks.

  /** `b` is the first block of `s` from `cursor` on. */
  ghost predicate HoldsBlock(s: string, cursor: nat, b: Block) {
    && cursor <= b.start && b.start + 2 * MARK <= b.end <= |s|
    && Clear(s, cursor, b.start) && At(s, Marker(Start), b.start)
    && Clear(s, b.start + MARK, b.end - MARK) && At(s, Marker(End), b.end - MARK)
  }

  /** From `cursor` on, `s` is marker-free text and blocks in turn, and `bs` are the blocks: each
      one is a start marker, a marker-free body and an end marker. */
  ghost predicate Delimits(s: string, bs: seq<Block>, cursor: nat)
    decreases |bs|
  {
    if bs == [] then cursor <= |s| && Clear(s, cursor, |s|)
    else HoldsBlock(s, cursor, bs[0]) && Delimits(s, bs[1..], bs[0].end)
  }

  lemma FirstMark(s: string, cursor: nat)
    requires cursor <= |s|
    ensures var ms := Marks(s, cursor);
            if ms == [] then Clear(s, cursor, |s|)
            else
              var m := ms[0];
              && cursor <= m.pos && m.pos + MARK <= |s| && At(s, Marker(m.kind), m.pos)
              && Clear(s, cursor, m.pos) && Marks(s, m.pos + MARK) == ms[1..]
  {
    hide At, Marker, Marks;
    var ms := Marks(s, cursor);
    MarksSorted(s, cursor);
    var to := if ms == [] then |s| else ms[0].pos;
    assert forall m :: m in ms ==> to <= m.pos;
    forall i: nat, kind | cursor <= i < to ensures !At(s, Marker(kind), i) {
      MarksComplete(s, cursor, kind, i);
    }
    if ms != [] {
      var m := ms[0];
      assert m in ms && m == Mark(m.kind, m.pos);
      MarksComplete(s, cursor, m.kind, m.pos);
      AtInBounds(s, m.kind, m.pos);
      MarksSkip(s, cursor, m.pos);
      MarksAt(s, m.kind, m.pos);
    }
  }

  lemma {:induction false} AlternatesDelimits(s: string, cursor: nat)
    requires cursor <= |s| && Alternates(Marks(s, cursor))
    ensures Delimits(s, Pairs(Marks(s, cursor)), cursor)
    decreases |s| - cursor
  {
    hide At, Marker, Marks, Clear;
    var ms := Marks(s, cursor);
    FirstMark(s, cursor);
    if ms != [] {
      FirstMark(s, ms[0].pos + MARK);
      assert ms[1..][1..] == ms[2..];
      AlternatesDelimits(s, ms[1].pos + MARK);
    }
  }

  lemma {:induction false} DelimitsScanned(s: string, done: seq<Block>, bs: seq<Block>, cursor: nat)
    requires Scanned(s, done, cursor) && Delimits(s, bs, cursor)
    ensures Blocks(s) == Some(done + bs)
    decreases |bs|
  {
    hide At, Marker, Marks, Clear, Scanned, Blocks;
    if bs == [] {
      ScannedAll(s, done, cursor);
      assert done + bs == done;
    } else {
      var b := bs[0];
      ScannedOne(s, done, cursor, b.start, b.end - MARK);
      assert Block(b.start, b.end - MARK + MARK) == b && done + [b] + bs[1..] == done + bs;
      DelimitsScanned(s, done + [b], bs[1..], b.end);
    }
  }

  /** The scanner succeeds exactly on texts of that shape, and returns exactly their blocks. */
  lemma BlocksExact(s: string, bs: seq<Block>)
    ensures Blocks(s) == Some(bs) <==> Delimits(s, bs, 0)
  {
    hide Delimits, Marks, Alternates;
    if Blocks(s) == Some(bs) {
      AlternatesDelimits(s, 0);
    }
    if Delimits(s, bs, 0) {
      ScannedStart(s);
      DelimitsScanned(s, [], bs, 0);
      assert [] + bs == bs;
    }
  }
}
