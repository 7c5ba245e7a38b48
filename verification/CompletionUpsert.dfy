/** Writing the managed block into a startup file. */
module CompletionUpsert {
  import opened Options
  import opened ManagedBlocks
  import opened CompletionWrite

  function BlockText(body: string): string {
    BLOCK_START + "\n" + body + "\n" + BLOCK_END
  }

  /** What stays of the text from `cursor` on when the blocks `bs` are taken out. */
  function Splice(s: string, bs: seq<Block>, cursor: nat): string
    requires Delimits(s, bs, cursor)
  {
    if bs == [] then s[cursor..] else s[cursor..bs[0].start] + Splice(s, bs[1..], bs[0].end)
  }

  /** The text around the block to write: it takes the place of the first block, all later blocks
      go; a text without a block gets it appended after an empty line. */
  datatype Frame = Frame(before: string, after: string)

  function Padding(s: string): string {
    if s == "" then "" else if s[|s| - 1] != '\n' then "\n\n" else "\n"
  }

  function FrameOf(s: string): Option<Frame> {
    match Blocks(s)
    case None => None
    case Some(bs) =>
      BlocksExact(s, bs);
      if bs == [] then Some(Frame(s + Padding(s), "\n"))
      else Some(Frame(s[..bs[0].start], Splice(s, bs[1..], bs[0].end)))
  }

  function Framed(f: Frame, body: string): string {
    f.before + BlockText(body) + f.after
  }

  /** The new text of the file; `None` when the markers of the old one do not alternate. */
  function Upsert(s: string, body: string): Option<string> {
    match FrameOf(s)
    case None => None
    case Some(f) => Some(Framed(f, body))
  }

  /** The text outside all managed blocks. */
  function UserText(s: string): Option<string> {
    match Blocks(s)
    case None => None
    case Some(bs) =>
      BlocksExact(s, bs);
      Some(Splice(s, bs, 0))
  }

  ghost predicate MarkFree(x: string) {
    Clear(x, 0, |x|)
  }

  // ----- Where markers can and cannot appear when texts are put together.

  lemma AtShift(a: string, b: string, kind: Kind, i: nat)
    ensures At(a + b, Marker(kind), |a| + i) == At(b, Marker(kind), i)
  {
    hide Marker;
    var m := Marker(kind);
    if i + |m| <= |b| {
      assert (a + b)[|a| + i..|a| + i + |m|] == b[i..i + |m|];
    }
  }

  lemma AtPrefix(a: string, b: string, kind: Kind, i: nat)
    requires i + MARK <= |a|
    ensures At(a + b, Marker(kind), i) == At(a, Marker(kind), i)
  {
    assert |Marker(kind)| == MARK;
    hide Marker;
    assert (a + b)[i..i + MARK] == a[i..i + MARK];
  }

  lemma ClearShift(a: string, b: string, from: nat, to: nat)
    ensures Clear(a + b, |a| + from, |a| + to) <==> Clear(b, from, to)
  {
    hide At, Marker;
    if Clear(a + b, |a| + from, |a| + to) {
      forall i: nat, kind | from <= i < to ensures !At(b, Marker(kind), i) {
        AtShift(a, b, kind, i);
      }
    }
    if Clear(b, from, to) {
      forall i, kind | |a| + from <= i < |a| + to ensures !At(a + b, Marker(kind), i) {
        AtShift(a, b, kind, i - |a|);
      }
    }
  }

  /** A marker cannot reach across a newline or into another marker. */
  predicate Separates(x: string, y: string) {
    || x == "" || y == "" || x[|x| - 1] == '\n' || y[0] == '\n' || y[0] == '#'
  }

  lemma ClearPrefix(x: string, y: string)
    requires MarkFree(x) && Separates(x, y)
    ensures Clear(x + y, 0, |x|)
  {
    hide At, Marker;
    assert y != "" ==> (x + y)[|x|] == y[0];
    assert x != "" ==> (x + y)[|x| - 1] == x[|x| - 1];
    forall i: nat, kind | i < |x| ensures !At(x + y, Marker(kind), i) {
      if At(x + y, Marker(kind), i) {
        AtChars(x + y, kind, i);
        AtInBounds(x + y, kind, i);
        if i + MARK <= |x| {
          AtPrefix(x, y, kind, i);
        }
      }
    }
  }

  lemma ClearSplit(s: string, a: nat, b: nat, c: nat)
    requires a <= b <= c
    ensures Clear(s, a, c) <==> Clear(s, a, b) && Clear(s, b, c)
  {
    hide At, Marker;
  }

  lemma MarkFreeJoin(x: string, y: string)
    requires MarkFree(x) && MarkFree(y) && Separates(x, y)
    ensures MarkFree(x + y)
  {
    hide Clear, Separates;
    ClearPrefix(x, y);
    ClearShift(x, y, 0, |y|);
    ClearSplit(x + y, 0, |x|, |x + y|);
  }

  lemma MarkFreeSlice(s: string, from: nat, to: nat)
    requires from <= to <= |s| && Clear(s, from, to)
    ensures MarkFree(s[from..to])
  {
    hide At, Marker;
    var x := s[from..to];
    forall i: nat, kind | i < |x| ensures !At(x, Marker(kind), i) {
      AtInBounds(x, kind, i);
      if i + MARK <= |x| {
        assert s == s[..from] + (x + s[to..]);
        AtShift(s[..from], x + s[to..], kind, i);
        AtPrefix(x, s[to..], kind, i);
      }
    }
  }

  lemma ShortMarkFree(x: string)
    requires |x| < MARK
    ensures MarkFree(x)
  {
    hide Marker;
    forall i: nat, kind | i < |x| ensures !At(x, Marker(kind), i) {
      AtInBounds(x, kind, i);
    }
  }

  // ----- The framed text.

  /** The only block of a framed text. */
  function Written(f: Frame, body: string): Block {
    Block(|f.before|, |f.before| + |BlockText(body)|)
  }

  lemma FramedParts(f: Frame, body: string)
    ensures var r, b := Framed(f, body), Written(f, body);
      && b.start + 2 * MARK <= b.end <= |r| && r[..b.start] == f.before && r[b.end..] == f.after
      && r[b.start..b.end] == BlockText(body) && r[b.start] == '#'
      && At(r, Marker(Start), b.start) && At(r, Marker(End), b.end - MARK)
      && r == (f.before + BLOCK_START) + ("\n" + body + "\n") + (BLOCK_END + f.after)
      && r == f.before + (BLOCK_START + ("\n" + body + "\n") + (BLOCK_END + f.after))
      && b.end - MARK == |f.before| + MARK + |"\n" + body + "\n"|
  {
    var r, b := Framed(f, body), Written(f, body);
    assert Marker(Start) == BLOCK_START && Marker(End) == BLOCK_END;
    assert |BLOCK_START| == MARK == |BLOCK_END|;
    FramedConcat(f.before, BLOCK_START, body, BLOCK_END, f.after);
    AtChars(r, Start, b.start);
  }

  lemma FramedConcat(p: string, a: string, body: string, z: string, q: string)
    ensures var r, e := p + (a + "\n" + body + "\n" + z) + q, |p| + |a| + |body| + 2;
      && r == (p + a) + ("\n" + body + "\n") + (z + q) == p + (a + ("\n" + body + "\n") + (z + q))
      && r[..|p|] == p && r[|p|..|p| + |a|] == a && r[e..e + |z|] == z && r[e + |z|..] == q
      && r[|p|..e + |z|] == a + "\n" + body + "\n" + z
  {
  }

  lemma NewlinesMarkFree(body: string)
    ensures MarkFree("\n" + body + "\n") <==> MarkFree(body)
  {
    hide Marker, At;
    var x := "\n" + body;
    assert MarkFree("\n") by { ShortMarkFree("\n"); }
    if MarkFree(body) {
      MarkFreeJoin("\n", body);
      MarkFreeJoin(x, "\n");
    }
    if MarkFree(x + "\n") {
      assert x + "\n" == "\n" + (body + "\n");
      ClearShift("\n", body + "\n", 0, |body|);
      MarkFreeSlice(body + "\n", 0, |body|);
      assert (body + "\n")[0..|body|] == body;
    }
  }

  lemma HashStarts()
    ensures BLOCK_START != "" && BLOCK_START[0] == '#' && BLOCK_END != "" && BLOCK_END[0] == '#'
  {
  }

  /** What the framed text must satisfy to hold just the new block. */
  lemma FramedClear(f: Frame, body: string)
    ensures var r, b := Framed(f, body), Written(f, body);
      && (MarkFree(f.before) ==> Clear(r, 0, b.start))
      && (Clear(r, b.start + MARK, b.end - MARK) <==> MarkFree(body))
      && (Clear(r, b.end, |r|) <==> MarkFree(f.after))
  {
    hide Clear, Marker, At, Framed, Written, MarkFree, BlockText;
    FramedParts(f, body);
    HashStarts();
    NewlinesMarkFree(body);
    FramedClearOuter(Framed(f, body), Written(f, body), f);
    ClearMiddle(f.before + BLOCK_START, "\n" + body + "\n", BLOCK_END + f.after);
  }

  lemma FramedClearOuter(r: string, b: Block, f: Frame)
    requires b.start < b.end <= |r| && r[..b.start] == f.before && r[b.end..] == f.after && r[b.start] == '#'
    ensures MarkFree(f.before) ==> Clear(r, 0, b.start)
    ensures Clear(r, b.end, |r|) <==> MarkFree(f.after)
  {
    hide Clear, Marker, At;
    assert r == f.before + r[b.start..] && r == r[..b.end] + f.after;
    if MarkFree(f.before) {
      ClearPrefix(f.before, r[b.start..]);
    }
    ClearShift(r[..b.end], f.after, 0, |f.after|);
  }

  lemma ClearMiddle(a: string, x: string, b: string)
    requires Separates(x, b)
    ensures Clear(a + x + b, |a|, |a| + |x|) <==> MarkFree(x)
  {
    hide Clear, Marker, At;
    assert a + x + b == a + (x + b);
    ClearShift(a, x + b, 0, |x|);
    if MarkFree(x) {
      ClearPrefix(x, b);
    }
    if Clear(x + b, 0, |x|) {
      MarkFreeSlice(x + b, 0, |x|);
      assert (x + b)[0..|x|] == x;
    }
  }

  /** The framed text holds one block, the new one, exactly when the new body and the text after
      the first block are free of markers. */
  lemma FramedOneBlock(f: Frame, body: string)
    requires MarkFree(f.before)
    ensures Blocks(Framed(f, body)) == Some([Written(f, body)]) <==> MarkFree(body) && MarkFree(f.after)
  {
    hide Blocks, Clear, At, Framed, Written, Marker;
    FramedParts(f, body);
    FramedClear(f, body);
    BlocksExact(Framed(f, body), [Written(f, body)]);
  }

  lemma FramedFrame(f: Frame, body: string)
    requires Blocks(Framed(f, body)) == Some([Written(f, body)])
    ensures FrameOf(Framed(f, body)) == Some(f)
    ensures UserText(Framed(f, body)) == Some(f.before + f.after)
  {
    hide Blocks, Clear, At, Framed, Marker;
    var r, b := Framed(f, body), Written(f, body);
    FramedParts(f, body);
    BlocksExact(r, [b]);
    assert [b][1..] == [];
    assert r[0..b.start] == f.before;
  }

  // ----- The text around the block, from the input.

  lemma FrameBefore(s: string)
    requires FrameOf(s).Some?
    ensures MarkFree(FrameOf(s).value.before)
    ensures Blocks(s) == Some([]) ==> MarkFree(FrameOf(s).value.after)
  {
    hide Blocks, Marker, At, Clear;
    var bs := Blocks(s).value;
    BlocksExact(s, bs);
    if bs == [] {
      ShortMarkFree(Padding(s));
      ShortMarkFree("\n");
      MarkFreeJoin(s, Padding(s));
    } else {
      MarkFreeSlice(s, 0, bs[0].start);
      assert s[0..bs[0].start] == s[..bs[0].start];
    }
  }

  /** Every block starts a line. */
  predicate StartLines(s: string, bs: seq<Block>) {
    forall i :: 0 <= i < |bs| ==> 0 < bs[i].start <= |s| && s[bs[i].start - 1] == '\n'
  }

  /** Taking out blocks that start lines cannot put a marker together. */
  lemma {:induction false} SpliceMarkFree(s: string, bs: seq<Block>, cursor: nat)
    requires Delimits(s, bs, cursor) && StartLines(s, bs)
    ensures MarkFree(Splice(s, bs, cursor))
    decreases |bs|
  {
    hide Marker, At, Clear;
    if bs == [] {
      MarkFreeSlice(s, cursor, |s|);
      assert s[cursor..|s|] == s[cursor..];
    } else {
      var gap := s[cursor..bs[0].start];
      MarkFreeSlice(s, cursor, bs[0].start);
      SpliceMarkFree(s, bs[1..], bs[0].end);
      MarkFreeJoin(gap, Splice(s, bs[1..], bs[0].end));
    }
  }

  // ----- Main results.

  /** A successful write leaves exactly one block, equal to the new one, if and only if the new body
      and the text after the first old block, blocks taken out, hold no marker. */
  lemma OneBlockIff(s: string, body: string)
    requires FrameOf(s).Some?
    ensures var f, r := FrameOf(s).value, Upsert(s, body).value; var b := Written(f, body);
      && (Blocks(r) == Some([b]) <==> MarkFree(body) && MarkFree(f.after))
      && b.end <= |r|
      && r[b.start..b.end] == BLOCK_START + "\n" + body + "\n" + BLOCK_END
      && (Blocks(s).value != [] ==> b.start == Blocks(s).value[0].start <= |s| && r[..b.start] == s[..b.start])
  {
    if Blocks(s).value != [] { FirstPlace(s, body); }
    hide Blocks, FrameOf, Clear, Framed, Written, MarkFree;
    FrameBefore(s);
    FramedOneBlock(FrameOf(s).value, body);
    WrittenText(FrameOf(s).value, body);
  }

  lemma FirstPlace(s: string, body: string)
    requires FrameOf(s).Some? && Blocks(s).value != []
    ensures var r, n := Upsert(s, body).value, Blocks(s).value[0].start;
            n == Written(FrameOf(s).value, body).start <= |s| && n <= |r| && r[..n] == s[..n]
  {
    hide Blocks, Splice;
    BlocksExact(s, Blocks(s).value);
  }

  lemma WrittenText(f: Frame, body: string)
    ensures var r, b := Framed(f, body), Written(f, body);
            b.end <= |r| && r[b.start..b.end] == BLOCK_START + "\n" + body + "\n" + BLOCK_END
  {
  }

  /** It is enough that every block after the first starts a line, as the installer writes them. */
  lemma LinesSuffice(s: string, bs: seq<Block>)
    requires Blocks(s) == Some(bs)
    requires bs == [] || StartLines(s, bs[1..])
    ensures MarkFree(FrameOf(s).value.after)
  {
    hide Blocks, MarkFree, StartLines;
    FrameBefore(s);
    BlocksExact(s, bs);
    if bs != [] {
      SpliceMarkFree(s, bs[1..], bs[0].end);
    }
  }

  /** A text without a block keeps its own text in front, gains nothing but newlines, and has the
      block set off by an empty line. */
  lemma AppendSetsOff(s: string)
    requires Blocks(s) == Some([])
    ensures var f := FrameOf(s).value; var n := |f.before|;
      && f.after == "\n" && s <= f.before && n <= |s| + 2
      && (forall i :: |s| <= i < n ==> f.before[i] == '\n')
      && (s == "" ==> n == 0)
      && (s != "" ==> n >= 2 && f.before[n - 1] == '\n' && f.before[n - 2] == '\n')
  {
    hide Blocks;
  }

  /** The user's own text survives: what is outside the blocks is the same before and after, and a
      text that had no block only gains the padding that ends its last line. */
  lemma UserTextKept(s: string, body: string)
    requires FrameOf(s).Some? && MarkFree(body) && MarkFree(FrameOf(s).value.after)
    ensures var r := Upsert(s, body).value;
      UserText(r) == if Blocks(s) == Some([]) then Some(s + Padding(s) + "\n") else UserText(s)
  {
    hide Blocks, Clear, Framed, Written;
    FrameBefore(s);
    FramedOneBlock(FrameOf(s).value, body);
    FramedFrame(FrameOf(s).value, body);
    var bs := Blocks(s).value;
    BlocksExact(s, bs);
    if bs != [] {
      assert s[0..bs[0].start] == s[..bs[0].start];
    }
  }

  /** Last write wins, whatever the text held before; with `b1 == b2` this is idempotence. The
      condition is needed as well: otherwise the second write disturbs the user's text. */
  lemma LastWriteWins(s: string, b1: string, b2: string)
    requires FrameOf(s).Some? && MarkFree(b1)
    ensures Upsert(Upsert(s, b1).value, b2) == Upsert(s, b2) <==> MarkFree(FrameOf(s).value.after)
  {
    hide Blocks, Clear, Framed, Written, MarkFree, FrameOf;
    var f := FrameOf(s).value;
    FrameBefore(s);
    if MarkFree(f.after) {
      FramedOneBlock(f, b1);
      FramedFrame(f, b1);
    } else {
      FramedDirty(f, b1, b2);
    }
  }

  lemma FramedDirty(f: Frame, b1: string, b2: string)
    requires MarkFree(f.before) && MarkFree(b1) && !MarkFree(f.after)
    ensures Upsert(Framed(f, b1), b2) != Some(Framed(f, b2))
  {
    hide Blocks, Clear, Framed, Written, MarkFree, HoldsBlock, BlockText, Delimits, Splice, At;
    var r, b := Framed(f, b1), Written(f, b1);
    FramedParts(f, b1);
    FramedHolds(f, b1);
    match Blocks(r)
    case None =>
    case Some(bs) =>
      BlocksExact(r, bs);
      FirstBlock(r, b, bs);
      DelimitsTail(r, bs, 0);
      assert |bs| == 1 ==> bs == [b];
      if |bs| == 1 {
        FramedOneBlock(f, b1);
      } else {
        SpliceShorter(r, bs[1..], b.end);
        FramedLength(f, b2);
        FramedLength(Frame(f.before, Splice(r, bs[1..], b.end)), b2);
      }
  }

  lemma FramedLength(f: Frame, body: string)
    ensures |Framed(f, body)| == |f.before| + |BlockText(body)| + |f.after|
  {
  }

  lemma {:induction false} SpliceShorter(s: string, bs: seq<Block>, cursor: nat)
    requires Delimits(s, bs, cursor)
    ensures |Splice(s, bs, cursor)| <= |s| - cursor
    ensures bs != [] ==> |Splice(s, bs, cursor)| < |s| - cursor
    decreases |bs|
  {
    hide Clear, At, Marker;
    if bs != [] {
      SpliceShorter(s, bs[1..], bs[0].end);
    }
  }

  /** The first block of a text is known from its first marks. */
  lemma FirstBlock(s: string, b: Block, bs: seq<Block>)
    requires Delimits(s, bs, 0) && HoldsBlock(s, 0, b)
    ensures bs != [] && bs[0] == b
  {
    hide At, Marker;
    AtOneKind(s, b.start);
    if bs != [] {
      var c := bs[0];
      assert c.start == b.start;
      assert c.end - MARK == b.end - MARK;
    }
  }

  // ----- Where the condition fails.

  lemma StartMarkerHolds()
    ensures !MarkFree(BLOCK_START) && At(BLOCK_START, Marker(Start), 0) && |BLOCK_START| == MARK
  {
    assert BLOCK_START[0..|BLOCK_START|] == BLOCK_START;
    assert At(BLOCK_START, Marker(Start), 0);
  }

  /** Two halves of a start marker, kept apart by a block that does not start a line: the write
      succeeds, joins them, and leaves a text that every later write refuses. */
  lemma SplitMarkerBreaks(p: string, q: string, b0: string, b: string)
    requires p + q == BLOCK_START && p != "" && q != "" && MarkFree(b0) && MarkFree(b)
    ensures var s := BlockText(b0) + (p + BlockText(b0) + q);
      Upsert(s, b).Some? && Blocks(Upsert(s, b).value) == None
  {
    hide Blocks, Clear, Framed, BlockText, Marker, At;
    SplitMarkerFrame(p, q, b0);
    TrailingStart(b);
  }

  lemma SplitMarkerFrame(p: string, q: string, b0: string)
    requires p + q == BLOCK_START && p != "" && q != "" && MarkFree(b0)
    ensures FrameOf(BlockText(b0) + (p + BlockText(b0) + q)) == Some(Frame("", BLOCK_START))
  {
    hide *;
    var s, first, second := SplitMarkerBlocks(p, q, b0);
    BlocksExact(s, [first, second]);
    SpliceTwo(s, first, second);
    FrameOfTwo(s, first, second);
  }

  lemma FrameOfTwo(s: string, b: Block, c: Block)
    requires Blocks(s) == Some([b, c]) && Delimits(s, [b, c], 0) && Delimits(s, [c], b.end)
    requires b.start == 0 && Splice(s, [c], b.end) == BLOCK_START
    ensures FrameOf(s) == Some(Frame("", BLOCK_START))
  {
    hide Blocks, Delimits, Splice;
    assert [b, c][1..] == [c] && s[..0] == "";
  }

  /** The two blocks of that text. */
  lemma SplitMarkerBlocks(p: string, q: string, b0: string) returns (s: string, first: Block, second: Block)
    requires p + q == BLOCK_START && p != "" && q != "" && MarkFree(b0)
    ensures s == BlockText(b0) + (p + BlockText(b0) + q) && first.start == 0
    ensures Delimits(s, [first, second], 0) && Delimits(s, [second], first.end)
    ensures first.end <= second.start <= second.end <= |s|
    ensures s[first.end..second.start] + s[second.end..] == BLOCK_START
  {
    hide *;
    var block := BlockText(b0);
    var x := p + block + q;
    s := block + x;
    FramedIs(Frame("", x), b0);
    FramedIs(Frame(p, q), b0);
    HalvesMarkFree(p, q);
    FramedHolds(Frame("", x), b0);
    FramedHolds(Frame(p, q), b0);
    first := Written(Frame("", x), b0);
    var c := Written(Frame(p, q), b0);
    second := Block(first.end + c.start, first.end + c.end);
    ShiftedBlock(block, x, c, second);
    DelimitsTwo(s, first, second);
    DropShift(block, x, c.start, c.end);
    assert x[..c.start] == p && x[c.end..] == q;
  }

  lemma FramedHolds(f: Frame, b0: string)
    requires MarkFree(f.before) && MarkFree(b0)
    ensures HoldsBlock(Framed(f, b0), 0, Written(f, b0))
    ensures MarkFree(f.after) ==> Clear(Framed(f, b0), Written(f, b0).end, |Framed(f, b0)|)
  {
    hide Clear, Marker, At, Framed, Written, MarkFree, BlockText;
    FramedParts(f, b0);
    FramedClear(f, b0);
  }

  lemma FramedIs(f: Frame, b0: string)
    ensures Framed(f, b0) == f.before + BlockText(b0) + f.after
    ensures f.before == "" ==> Framed(f, b0) == BlockText(b0) + f.after
    ensures Written(f, b0).start == |f.before| && Written(f, b0).end == |f.before| + |BlockText(b0)|
  {
    hide BlockText;
    assert "" + BlockText(b0) == BlockText(b0);
  }

  lemma HalvesMarkFree(p: string, q: string)
    requires p + q == BLOCK_START && p != "" && q != ""
    ensures MarkFree(p) && MarkFree(q) && MarkFree("")
  {
    hide MarkFree;
    StartMarkerHolds();
    assert |p| + |q| == |p + q|;
    ShortMarkFree(p);
    ShortMarkFree(q);
    ShortMarkFree("");
  }

  lemma ShiftedBlock(a: string, x: string, c: Block, d: Block)
    requires d == Block(|a| + c.start, |a| + c.end) && HoldsBlock(x, 0, c) && Clear(x, c.end, |x|)
    ensures HoldsBlock(a + x, |a|, d) && Clear(a + x, d.end, |a + x|)
    ensures c.start <= c.end <= |x| && d.start <= d.end <= |a + x|
  {
    hide Clear, At, Marker;
    ClearShift(a, x, 0, c.start);
    ClearShift(a, x, c.start + MARK, c.end - MARK);
    ClearShift(a, x, c.end, |x|);
    AtShift(a, x, Start, c.start);
    AtShift(a, x, End, c.end - MARK);
  }

  lemma DropShift(a: string, x: string, i: nat, j: nat)
    requires i <= j <= |x|
    ensures (a + x)[|a|..|a| + i] == x[..i] && (a + x)[|a| + j..] == x[j..]
  {
  }

  lemma DelimitsTwo(s: string, b: Block, c: Block)
    requires HoldsBlock(s, 0, b) && HoldsBlock(s, b.end, c) && Clear(s, c.end, |s|)
    ensures Delimits(s, [b, c], 0) && Delimits(s, [c], b.end)
  {
    assert c.end <= |s|;
    hide Clear, HoldsBlock;
    assert [b, c][1..] == [c] && [c][1..] == [];
    assert Delimits(s, [], c.end);
  }

  lemma SpliceTwo(s: string, b: Block, c: Block)
    requires Delimits(s, [b, c], 0) && Delimits(s, [c], b.end)
    ensures c.start <= c.end <= |s| && b.end <= c.start
    ensures Splice(s, [c], b.end) == s[b.end..c.start] + s[c.end..]
  {
    hide Clear, At, Marker;
    assert [c][1..] == [];
  }

  /** A start marker opens a block, or the text is refused. */
  lemma StartOpensBlock(s: string, bs: seq<Block>, cursor: nat)
    requires Delimits(s, bs, cursor) && At(s, Marker(Start), cursor)
    ensures cursor + 2 * MARK <= |s|
  {
    AtInBounds(s, Start, cursor);
    hide At, Marker;
  }

  lemma TrailingStart(b: string)
    requires MarkFree(b)
    ensures Blocks(Framed(Frame("", BLOCK_START), b)) == None
  {
    hide Blocks, Clear, Framed, BlockText, Marker, At, HoldsBlock, Delimits, Written, MarkFree;
    var f := Frame("", BLOCK_START);
    var r, w := Framed(f, b), Written(f, b);
    FramedParts(f, b);
    assert MarkFree("") by { ShortMarkFree(""); }
    FramedHolds(f, b);
    StartMarkerHolds();
    assert r == r[..w.end] + BLOCK_START;
    AtShift(r[..w.end], BLOCK_START, Start, 0);
    assert |r| == w.end + MARK;
    match Blocks(r)
    case None =>
    case Some(bs) =>
      BlocksExact(r, bs);
      FirstBlock(r, w, bs);
      DelimitsTail(r, bs, 0);
      StartOpensBlock(r, bs[1..], w.end);
  }

  // ----- The code.

  /** The text of a startup file; one that does not exist is empty. */
  function TextOf(files: Files, name: string): string {
    if name in files then files[name].content else ""
  }

  /** `upsert_block`, down to the file system. Malformed markers: nothing is touched. Otherwise every
      state of the directory on the way shows the startup file whole, as it was or with the block
      written, and in the end it is the one or the other, as reported. */
  method UpsertBlock(dir: Directory, name: string, body: string) returns (ok: bool)
    modifies dir
    ensures var result := Upsert(TextOf(old(dir.files), name), body);
            var done := |old(dir.history)|;
            && old(dir.history) <= dir.history
            && (result == None ==> !ok && dir.files == old(dir.files) && dir.history == old(dir.history))
            && (result.Some? ==>
                  var final := Replacement(old(dir.files), name, result.value);
                  AllSeen(old(dir.files), name, dir.pid, final, dir.history[done..]))
            && (ok ==>
                  && result.Some?
                  && dir.files == old(dir.files)[name := Replacement(old(dir.files), name, result.value)])
            && (!ok ==> Same(old(dir.files), dir.files, name))
            && (result.Some? ==>
                  forall i :: done <= i < |dir.history| ==> Intact(old(dir.files), name, result.value, dir.history[i]))
            && (ok ==> result.Some? && name in dir.files && dir.files[name].content == result.value)
            && (ok && name in old(dir.files) ==> dir.files[name].mode == old(dir.files[name].mode))
  {
    var updated := UpsertText(TextOf(dir.files, name), body);
    if updated == None { return false; }
    ok := dir.WriteFile(name, updated.value);
  }

  /** The text work of `upsert_block`. */
  method UpsertText(text: string, body: string) returns (updated: Option<string>)
    ensures updated == Upsert(text, body)
  {
    hide Blocks, Delimits, Splice;
    var current := text;
    var block := BLOCK_START + "\n" + body + "\n" + BLOCK_END;
    var found := FindBlocks(current);
    if found == None { return None; }
    var blocks := found.value;
    BlocksExact(current, blocks);
    if blocks != [] {
      DelimitsTail(current, blocks, 0);
      current := ReplaceBlocks(current, blocks, block);
    } else {
      if current != "" && current[|current| - 1] != '\n' {
        current := current + "\n";
      }
      if current != "" {
        current := current + "\n";
      }
      current := current + block;
      current := current + "\n";
      assert text + "\n" + "\n" == text + "\n\n" && text + "" == text;
    }
    return Some(current);
  }

  /** The loop of the source: `block` for the first block, and the text between the others. */
  method ReplaceBlocks(current: string, blocks: seq<Block>, block: string) returns (updated: string)
    requires blocks != [] && Delimits(current, blocks, 0)
    requires blocks[0].start <= |current| && Delimits(current, blocks[1..], blocks[0].end)
    ensures updated == current[..blocks[0].start] + block + Splice(current, blocks[1..], blocks[0].end)
  {
    hide *;
    updated := current[..blocks[0].start] + block;
    var cursor: nat := blocks[0].end;
    ghost var whole := updated + Splice(current, blocks[1..], cursor);
    for i := 1 to |blocks|
      invariant Delimits(current, blocks[i..], cursor)
      invariant updated + Splice(current, blocks[i..], cursor) == whole
    {
      ghost var left := blocks[i..];
      assert left[0] == blocks[i] && left[1..] == blocks[i + 1..];
      DelimitsTail(current, left, cursor);
      SpliceStep(current, left, cursor);
      var gap := current[cursor..blocks[i].start];
      ghost var kept := Splice(current, left[1..], blocks[i].end);
      assert updated + (gap + kept) == updated + gap + kept;
      updated := updated + gap;
      cursor := blocks[i].end;
    }
    assert blocks[|blocks|..] == [];
    DelimitsTail(current, [], cursor);
    SpliceNone(current, cursor);
    updated := updated + current[cursor..];
  }

  lemma SpliceNone(s: string, cursor: nat)
    requires Delimits(s, [], cursor)
    ensures cursor <= |s| && Splice(s, [], cursor) == s[cursor..]
  {
  }

  lemma DelimitsTail(s: string, bs: seq<Block>, cursor: nat)
    requires Delimits(s, bs, cursor)
    ensures cursor <= |s|
    ensures bs != [] ==> cursor <= bs[0].start <= bs[0].end <= |s| && Delimits(s, bs[1..], bs[0].end)
  {
  }

  lemma SpliceStep(s: string, bs: seq<Block>, cursor: nat)
    requires Delimits(s, bs, cursor) && bs != []
    requires cursor <= bs[0].start <= |s| && Delimits(s, bs[1..], bs[0].end)
    ensures Splice(s, bs, cursor) == s[cursor..bs[0].start] + Splice(s, bs[1..], bs[0].end)
  {
  }
}
