/** SPDX expressions as trees, and the proof that the string evaluator agrees with them. */
module LicenseGrammar {
  import opened Text
  import opened LicenseSplit
  import opened LicenseScan
  import opened LicenseAudit

  /** The text between two operands: white space around the operator's word, or around the legacy
      slash. */
  datatype Gap = Spaced(before: string, after: string) | Slashed(before: string, after: string)

  /** An expression as it is written: `Group` is one pair of parentheses with optional padding, and
      `Fused` an operator that the scanner does not see, with the operands around it. */
  datatype Expr =
    | Atom(id: string)
    | Group(lead: string, inner: Expr, trail: string)
    | Join(op: Operator, left: Expr, gap: Gap, right: Expr)
    | Fused(op: Operator, left: Expr, gap: Gap, right: Expr)

  function GapText(op: Operator, gap: Gap): string {
    match gap
    case Spaced(before, after) => before + op.Word() + after
    case Slashed(before, after) => before + "/" + after
  }

  function Print(t: Expr): string {
    match t
    case Atom(id) => id
    case Group(lead, inner, trail) => "(" + (lead + Print(inner) + trail) + ")"
    case Join(op, left, gap, right) => Print(left) + GapText(op, gap) + Print(right)
    case Fused(op, left, gap, right) => Print(left) + GapText(op, gap) + Print(right)
  }

  /** The meaning of a tree; fused operands are looked up as one identifier. */
  predicate Eval(t: Expr, allow: set<string>) {
    match t
    case Atom(id) => Allowed(id, allow)
    case Group(_, inner, _) => Eval(inner, allow)
    case Join(OR, left, _, right) => Eval(left, allow) || Eval(right, allow)
    case Join(AND, left, _, right) => Eval(left, allow) && Eval(right, allow)
    case Fused(_, _, _, _) => Allowed(Print(t), allow)
  }

  // ----- Which trees are expressions.

  /** No white-space-separated word of `x` is an operator; `start` says a word may start at `x[0]`. */
  predicate KeywordFree(x: string, start: bool) {
    x != "" ==>
      && (start ==> !IsKeyword(OR, x) && !IsKeyword(AND, x))
      && KeywordFree(x[1..], IsSpace(x[0]))
  }

  predicate IsKeyword(op: Operator, x: string) {
    op.Opens(x) && (|x| == op.Length() || IsSpace(x[op.Length()]))
  }

  predicate IsPunctuation(c: char) {
    c == '(' || c == ')' || c == '/'
  }

  /** A licence identifier, possibly with a `WITH` exception: any trimmed text without
      punctuation and without an operator among its words. */
  predicate IsAtom(id: string) {
    && id != "" && Trimmed(id, IsSpace)
    && (forall i :: 0 <= i < |id| ==> !IsPunctuation(id[i]))
    && KeywordFree(id, true)
  }

  predicate IsOr(t: Expr) {
    t.Join? && t.op == OR
  }

  /** What may stand between two operands: a slash for OR, or the operator's word, set off on either
      side by white space or by a parenthesis of the operand. */
  predicate SetOff(op: Operator, left: Expr, gap: Gap, right: Expr) {
    && All(gap.before, IsSpace) && All(gap.after, IsSpace)
    && (if gap.Slashed? then op == OR
        else (gap.before != "" || EndsClosed(Print(left))) && (gap.after != "" || StartsOpen(Print(right))))
  }

  /** The scanner sees the operator: there is white space behind it, and a blank, a tab or a closing
      parenthesis before it. */
  predicate Seen(left: Expr, gap: Gap) {
    gap.Slashed? || (gap.after != "" && (HasBlank(gap.before) || EndsClosed(Print(left))))
  }

  predicate GapOk(op: Operator, left: Expr, gap: Gap, right: Expr) {
    SetOff(op, left, gap, right) && Seen(left, gap)
  }

  /** OR binds loosest: an OR below an AND stands in parentheses. Every operator of a `Join` is seen,
      and none of a `Fused`. */
  predicate IsExpression(t: Expr) {
    match t
    case Atom(id) => IsAtom(id)
    case Group(lead, inner, trail) => All(lead, IsSpace) && IsExpression(inner) && All(trail, IsSpace)
    case Join(op, left, gap, right) =>
      && IsExpression(left) && IsExpression(right) && GapOk(op, left, gap, right)
      && (op == AND ==> !IsOr(left) && !IsOr(right))
    case Fused(op, left, gap, right) =>
      && IsExpression(left) && IsExpression(right) && SetOff(op, left, gap, right) && !Seen(left, gap)
      && !left.Join? && !right.Join?
  }

  // ----- The shape of printed expressions.

  /** `rest` may follow `x`: it cannot complete a word of it. */
  predicate Follows(x: string, rest: string) {
    || rest == "" || IsSpace(rest[0]) || rest[0] == '/' || rest[0] == ')'
    || EndsClosed(x)
  }

  lemma {:induction false} PrintTrimmed(t: Expr)
    requires IsExpression(t)
    ensures Print(t) != "" && Trimmed(Print(t), IsSpace)
  {
    hide KeywordFree, IsSpace, GapText;
    assert !IsSpace('(') && !IsSpace(')') by { PunctuationFacts(); }
    if t.Join? || t.Fused? {
      PrintTrimmed(t.left);
      PrintTrimmed(t.right);
    }
  }

  lemma PunctuationFacts()
    ensures !IsSpace('(') && !IsSpace(')') && !IsSpace('/')
  {
  }

  lemma GapFollows(op: Operator, left: Expr, gap: Gap, right: Expr, s: string)
    requires SetOff(op, left, gap, right)
    ensures Follows(Print(left), GapText(op, gap) + s)
  {
    hide Print, IsSpace;
    var text := GapText(op, gap);
    if gap.before != "" {
      assert text[0] == gap.before[0] && IsSpace(gap.before[0]);
      assert (text + s)[0] == text[0];
    }
  }

  lemma FollowsRight(x: string, y: string, rest: string)
    requires y != "" && Follows(x + y, rest)
    ensures Follows(y, rest)
  {
  }

  // ----- Atoms.

  /** No operator is seen at the start of a keyword-free text, whatever may follow it. */
  lemma {:induction false} AtomNoOperator(op: Operator, x: string, rest: string)
    requires x != "" && !IsSpace(x[|x| - 1]) && KeywordFree(x, true)
    requires rest == "" || IsSpace(rest[0]) || rest[0] == '/' || rest[0] == ')'
    ensures OpMatch(x + rest, op) == 0
    decreases |x|
  {
    hide LeadingSpaces;
    if IsSpace(x[0]) {
      assert (x + rest)[1..] == x[1..] + rest;
      AtomNoOperator(op, x[1..], rest);
    } else {
      AtomNotOpened(op, x, rest);
    }
  }

  lemma AtomNotOpened(op: Operator, x: string, rest: string)
    requires x != "" && KeywordFree(x, true)
    requires rest == "" || IsSpace(rest[0]) || rest[0] == '/' || rest[0] == ')'
    ensures op.Opens(x + rest) && |x + rest| > op.Length() ==> !IsSpace((x + rest)[op.Length()])
  {
    assert rest != "" ==> (x + rest)[|x|] == rest[0];
  }

  lemma {:induction false} QuietAtom(op: Operator, x: string, rest: string, boundary: bool, start: bool)
    requires x == "" || !IsSpace(x[|x| - 1])
    requires KeywordFree(x, start) && (boundary ==> start)
    requires forall i :: 0 <= i < |x| ==> !IsPunctuation(x[i])
    requires rest == "" || IsSpace(rest[0]) || rest[0] == '/' || rest[0] == ')'
    ensures Quiet(op, x, rest, boundary, 0) && Net(x) == 0
    ensures forall d :: d >= 0 ==> Level(x, d) == d
    decreases |x|
  {
    hide OpMatch, IsSpace;
    if x != "" {
      assert !IsPunctuation(x[0]);
      if start {
        AtomNoOperator(op, x, rest);
      }
      BoundaryStartsWord(x[0]);
      QuietAtom(op, x[1..], rest, IsBoundary(x[0]), IsSpace(x[0]));
    }
  }

  lemma BoundaryStartsWord(c: char)
    ensures IsBoundary(c) && c != ')' ==> IsSpace(c)
  {
  }

  // ----- Whole expressions: depth, and what the scanner passes over.

  /** Printed expressions are balanced. */
  lemma {:induction false} PrintLevel(t: Expr, d: nat)
    requires IsExpression(t)
    ensures Level(Print(t), d) == d
    decreases t, 0
  {
    hide Level, IsSpace, KeywordFree;
    match t
    case Atom(id) =>
      QuietAtom(OR, id, "", true, true);
    case Group(lead, inner, trail) =>
      BodyLevel(lead, inner, trail, d + 1);
      GroupLevel(lead + Print(inner) + trail, d);
    case _ =>
      var left, right := t.left, t.right;
      PrintLevel(left, d);
      PrintLevel(right, d);
      GapLevel(t.op, left, t.gap, right, d);
      LevelConcat(Print(left) + GapText(t.op, t.gap), Print(right), d);
      LevelConcat(Print(left), GapText(t.op, t.gap), d);
  }

  lemma BodyLevel(lead: string, inner: Expr, trail: string, d: nat)
    requires All(lead, IsSpace) && IsExpression(inner) && All(trail, IsSpace)
    ensures Level(lead + Print(inner) + trail, d) == d
    decreases inner, 1
  {
    hide Level, IsSpace, IsExpression, Print;
    PrintLevel(inner, d);
    SpaceNet(lead);
    SpaceNet(trail);
    LevelConcat(lead + Print(inner), trail, d);
    LevelConcat(lead, Print(inner), d);
  }

  lemma GroupLevel(body: string, d: nat)
    requires Level(body, d + 1) == d + 1
    ensures Level("(" + body + ")", d) == d
  {
    assert ("(" + body)[1..] == body;
    LevelConcat("(" + body, ")", d);
  }

  lemma GapLevel(op: Operator, left: Expr, gap: Gap, right: Expr, d: nat)
    requires SetOff(op, left, gap, right)
    ensures Level(GapText(op, gap), d) == d
  {
    hide IsSpace;
    var word := if gap.Spaced? then op.Word() else "/";
    SpaceNet(gap.before);
    SpaceNet(gap.after);
    WordLevel(word, d);
    hide Level;
    LevelConcat(gap.before + word, gap.after, d);
    LevelConcat(gap.before, word, d);
  }

  lemma WordLevel(word: string, d: nat)
    requires word == "OR" || word == "AND" || word == "/"
    ensures Level(word, d) == d
  {
    if word == "OR" {
      assert word[1..] == "R" && Level("R", d) == d;
    } else if word == "AND" {
      assert word[1..] == "ND" && "ND"[1..] == "D" && Level("D", d) == d;
    }
  }

  lemma PrintNet(t: Expr)
    requires IsExpression(t)
    ensures Net(Print(t)) == 0
  {
    hide Level, Print, IsExpression;
    PrintLevel(t, 0);
    LevelNet(Print(t), 0);
  }

  /** No expression starts with an operator. */
  lemma {:induction false} PrintNoOperator(op: Operator, t: Expr, rest: string)
    requires IsExpression(t) && Follows(Print(t), rest)
    ensures OpMatch(Print(t) + rest, op) == 0
  {
    hide IsSpace, KeywordFree, OpMatch;
    match t
    case Atom(id) =>
      assert !EndsClosed(id) by { assert !IsPunctuation(id[|id| - 1]); }
      AtomNoOperator(op, id, rest);
    case Group(_, _, _) =>
      ParenNoOperator(op, Print(t) + rest);
    case _ =>
      var text, s := GapText(t.op, t.gap), Print(t.right) + rest;
      GapFollows(t.op, t.left, t.gap, t.right, s);
      PrintNoOperator(op, t.left, text + s);
      assert Print(t) + rest == Print(t.left) + (text + s);
  }

  lemma ParenNoOperator(op: Operator, s: string)
    requires s != "" && IsPunctuation(s[0])
    ensures OpMatch(s, op) == 0
  {
  }

  lemma QuietGroup(op: Operator, body: string, rest: string, boundary: bool)
    requires Level(body, 0) == 0
    ensures Quiet(op, "(" + body + ")", rest, boundary, 0)
  {
    var all := "(" + body + ")";
    assert all[1..] == body + ")";
    var b := IsBoundary('(');
    QuietInside(op, body, ")" + rest, b, 1);
    LevelNet(body, 0);
    QuietClose(op, rest, After(b, body));
    hide Quiet, OpMatch, Level, Net;
    QuietConcat(op, body, ")", rest, b, 1);
    QuietOpen(op, body + ")", rest, boundary);
  }

  lemma QuietClose(op: Operator, rest: string, boundary: bool)
    ensures Quiet(op, ")", rest, boundary, 1)
  {
    ParenNoOperator(op, ")" + rest);
  }

  lemma QuietOpen(op: Operator, x: string, rest: string, boundary: bool)
    requires Quiet(op, x, rest, false, 1)
    ensures Quiet(op, "(" + x, rest, boundary, 0)
  {
    hide OpMatch;
    assert ("(" + x)[1..] == x;
  }

  /** Whether the scanner for `op` has something to cut in `t`. */
  predicate Splits(op: Operator, t: Expr) {
    t.Join? && (t.op == op || t.op == OR)
  }

  /** An expression without `op` at its top is passed over in one piece. */
  lemma {:induction false} QuietPrint(op: Operator, t: Expr, rest: string, boundary: bool)
    requires IsExpression(t) && Follows(Print(t), rest) && !Splits(op, t)
    ensures Quiet(op, Print(t), rest, boundary, 0)
  {
    hide IsSpace, KeywordFree, Quiet, OpMatch, Level, GapText;
    match t
    case Atom(id) =>
      assert !EndsClosed(id) by { assert !IsPunctuation(id[|id| - 1]); }
      QuietAtom(op, id, rest, boundary, true);
    case Group(lead, inner, trail) =>
      BodyLevel(lead, inner, trail, 0);
      QuietGroup(op, lead + Print(inner) + trail, rest, boundary);
    case _ =>
      QuietOperands(op, t, rest, boundary);
      var text, b := GapText(t.op, t.gap), After(boundary, Print(t.left));
      QuietPrint(op, t.left, text + (Print(t.right) + rest), boundary);
      QuietPrint(op, t.right, rest, After(b, text));
      QuietJoin(op, Print(t.left), text, Print(t.right), rest, boundary);
  }

  /** Around an operator that is passed over: what its operands may be, and that it is. */
  lemma QuietOperands(op: Operator, t: Expr, rest: string, boundary: bool)
    requires IsExpression(t) && Follows(Print(t), rest) && !Splits(op, t) && (t.Join? || t.Fused?)
    ensures var text, s := GapText(t.op, t.gap), Print(t.right) + rest;
            && IsExpression(t.left) && IsExpression(t.right) && !Splits(op, t.left) && !Splits(op, t.right)
            && Follows(Print(t.left), text + s) && Follows(Print(t.right), rest)
            && Quiet(op, text, s, After(boundary, Print(t.left)), 0) && Net(text) == 0 && Net(Print(t.left)) == 0
  {
    hide IsSpace, KeywordFree, Quiet, OpMatch, Level, GapText, Net;
    var text, s := GapText(t.op, t.gap), Print(t.right) + rest;
    PrintTrimmed(t.left);
    PrintTrimmed(t.right);
    FollowsRight(Print(t.left) + text, Print(t.right), rest);
    GapFollows(t.op, t.left, t.gap, t.right, s);
    PrintNoOperator(op, t.right, rest);
    PrintNet(t.left);
    GapLevel(t.op, t.left, t.gap, t.right, 0);
    LevelNet(text, 0);
    if op != t.op {
      QuietOther(op, t.gap, s, After(boundary, Print(t.left)));
    } else {
      QuietUnseen(t.op, t.left, t.gap, t.right, rest, boundary);
    }
  }

  lemma QuietJoin(op: Operator, x: string, y: string, z: string, rest: string, boundary: bool)
    requires Quiet(op, x, y + (z + rest), boundary, 0) && Net(x) == 0
    requires Quiet(op, y, z + rest, After(boundary, x), 0) && Net(y) == 0
    requires Quiet(op, z, rest, After(After(boundary, x), y), 0)
    ensures Quiet(op, x + y + z, rest, boundary, 0)
  {
    hide Quiet, Net;
    assert y + (z + rest) == y + z + rest && x + y + z == x + (y + z);
    QuietConcat(op, y, z, rest, After(boundary, x), 0);
    QuietConcat(op, x, y + z, rest, boundary, 0);
  }

  function Other(op: Operator): Operator {
    if op == OR then AND else OR
  }

  /** The scanner for one operator passes over the word of the other. */
  lemma QuietOther(op: Operator, gap: Gap, rest: string, boundary: bool)
    requires gap.Spaced? && All(gap.before, IsSpace) && All(gap.after, IsSpace) && OpMatch(rest, op) == 0
    ensures Quiet(op, GapText(Other(op), gap), rest, boundary, 0)
  {
    hide Quiet, IsSpace, Net;
    var w, tail := Other(op).Word(), gap.after + rest;
    WordFacts(Other(op), tail);
    assert OpMatch(w + tail, op) == 0;
    hide OpMatch;
    QuietSpace(op, gap.before, w + tail, boundary);
    QuietLetters(op, w, tail, After(boundary, gap.before));
    QuietSpace(op, gap.after, rest, false);
    SpaceNet(gap.before);
    QuietJoin(op, gap.before, w, gap.after, rest, boundary);
  }

  /** An operator that is not seen is passed over. */
  lemma QuietUnseen(op: Operator, left: Expr, gap: Gap, right: Expr, rest: string, boundary: bool)
    requires SetOff(op, left, gap, right) && !Seen(left, gap)
    requires Print(left) != "" && Trimmed(Print(left), IsSpace)
    requires Print(right) != "" && OpMatch(Print(right) + rest, op) == 0
    ensures Quiet(op, GapText(op, gap), Print(right) + rest, After(boundary, Print(left)), 0)
  {
    hide Quiet, IsSpace, Net, OpMatch, Print;
    var s, b := Print(right) + rest, After(boundary, Print(left));
    if gap.after == "" {
      assert !IsSpace(s[0]) by { PunctuationFacts(); }
      QuietBareWord(op, s, After(b, gap.before));
      QuietSpace(op, gap.before, op.Word() + s, b);
      SpaceNet(gap.before);
      QuietConcat(op, gap.before, op.Word(), s, b, 0);
      assert gap.before + op.Word() + gap.after == gap.before + op.Word();
    } else {
      assert !b by { BlankIsSpace(); }
      QuietMissed(op, gap.before, gap.after, s);
      assert gap.before + op.Word() + gap.after == gap.before + (op.Word() + gap.after);
    }
  }

  lemma BlankIsSpace()
    ensures IsSpace(' ') && IsSpace('\t') && IsBoundary(' ')
  {
  }

  // ----- Splitting an expression gives back its operands.

  /** The operands of the outermost `op`. */
  function Branches(op: Operator, t: Expr): (r: seq<Expr>)
    ensures r != []
  {
    if t.Join? && t.op == op then Branches(op, t.left) + Branches(op, t.right) else [t]
  }

  function Prints(ts: seq<Expr>): (r: seq<string>)
    ensures |r| == |ts|
    ensures forall i :: 0 <= i < |ts| ==> r[i] == Print(ts[i])
  {
    seq(|ts|, i requires 0 <= i < |ts| => Print(ts[i]))
  }

  /** Part by part, `raw` is `parts` with white space around. */
  ghost predicate Pads(raw: seq<string>, parts: seq<string>) {
    |raw| == |parts| && forall i :: 0 <= i < |raw| ==> Strip(raw[i]) == parts[i]
  }

  lemma {:induction false} CleanPads(raw: seq<string>, parts: seq<string>)
    requires Pads(raw, parts) && forall i :: 0 <= i < |parts| ==> parts[i] != ""
    ensures Clean(raw) == parts
  {
    hide Trim;
    if raw != [] {
      CleanPads(raw[1..], parts[1..]);
    }
  }

  lemma PadsJoin(raw1: seq<string>, parts1: seq<string>, pad: string, part: string, kept: string,
                 raw2: seq<string>, parts2: seq<string>)
    requires Pads(raw1, parts1) && Pads(raw2, parts2)
    requires All(pad, IsSpace) && Trimmed(part, IsSpace) && All(kept, IsSpace)
    ensures Pads(raw1 + [pad + part + kept] + raw2, parts1 + [part] + parts2)
  {
    hide Trim;
    TrimPadded(pad, part, kept, IsSpace);
  }

  /** Scanning a printed expression yields one part per operand, the last one still in the buffer. */
  lemma {:induction false} ScanPrint(op: Operator, t: Expr, rest: string, boundary: bool, buffer: string)
      returns (raw: seq<string>, pad: string)
    requires IsExpression(t) && Follows(Print(t), rest) && (op == AND ==> !IsOr(t))
    requires All(buffer, IsSpace)
    ensures var parts := Prints(Branches(op, t));
      && Pads(raw, parts[..|parts| - 1]) && All(pad, IsSpace)
      && Scan(op, Print(t) + rest, boundary, 0, buffer)
      == raw + Scan(op, rest, After(boundary, Print(t)), 0, pad + parts[|parts| - 1])
    decreases t, 1
  {
    hide Scan, Quiet, IsExpression, Print, Trim, IsSpace, Follows, Net;
    if t.Join? && t.op == op {
      raw, pad := ScanJoin(op, t, rest, boundary, buffer);
    } else {
      QuietPrint(op, t, rest, boundary);
      ScanQuiet(op, Print(t), rest, boundary, 0, buffer);
      PrintNet(t);
      raw, pad := [], buffer;
      assert Prints([t]) == [Print(t)];
    }
  }

  lemma {:induction false} ScanJoin(op: Operator, t: Expr, rest: string, boundary: bool, buffer: string)
      returns (raw: seq<string>, pad: string)
    requires IsExpression(t) && Follows(Print(t), rest) && t.Join? && t.op == op
    requires All(buffer, IsSpace)
    ensures var parts := Prints(Branches(op, t));
      && Pads(raw, parts[..|parts| - 1]) && All(pad, IsSpace)
      && Scan(op, Print(t) + rest, boundary, 0, buffer)
      == raw + Scan(op, rest, After(boundary, Print(t)), 0, pad + parts[|parts| - 1])
    decreases t, 0
  {
    hide *;
    var x, y, z := Print(t.left), GapText(op, t.gap), Print(t.right);
    JoinFacts(t, rest, boundary);
    var raw1, pad1 := ScanPrint(op, t.left, y + (z + rest), boundary, buffer);
    var parts1, parts2 := Prints(Branches(op, t.left)), Prints(Branches(op, t.right));
    var last1 := parts1[|parts1| - 1];
    var kept, lead, b := ScanGap(op, t.gap, z + rest, After(boundary, x), pad1 + last1);
    var raw2, pad2 := ScanPrint(op, t.right, rest, b, lead);
    raw, pad := raw1 + [pad1 + last1 + kept] + raw2, pad2;
    JoinParts(op, t, raw1, pad1, kept, raw2);
    AfterLast(b, boundary, x + y, z);
    var tail := Scan(op, rest, After(b, z), 0, pad2 + parts2[|parts2| - 1]);
    assert raw1 + ([pad1 + last1 + kept] + (raw2 + tail)) == raw + tail;
  }

  lemma JoinFacts(t: Expr, rest: string, boundary: bool)
    requires IsExpression(t) && t.Join? && Follows(Print(t), rest)
    ensures var x, y, z := Print(t.left), GapText(t.op, t.gap), Print(t.right);
      && Print(t) + rest == x + (y + (z + rest)) && Print(t) == x + y + z
      && IsExpression(t.left) && IsExpression(t.right)
      && (t.op == AND ==> !IsOr(t.left) && !IsOr(t.right)) && !(t.op == AND && IsOr(t))
      && Follows(x, y + (z + rest)) && Follows(z, rest)
      && z != "" && z + rest != "" && !IsSpace((z + rest)[0]) && OpMatch(z + rest, t.op) == 0
      && All(t.gap.before, IsSpace) && All(t.gap.after, IsSpace)
      && (if t.gap.Spaced? then t.gap.after != "" && (After(boundary, x) || HasBlank(t.gap.before)) else t.op == OR)
  {
    hide IsSpace, OpMatch, KeywordFree, GapText;
    PrintTrimmed(t.left);
    PrintTrimmed(t.right);
    FollowsRight(Print(t.left) + GapText(t.op, t.gap), Print(t.right), rest);
    PrintNoOperator(t.op, t.right, rest);
    GapFollows(t.op, t.left, t.gap, t.right, Print(t.right) + rest);
  }

  /** Between two operands the scanner cuts; white space goes to the part before, to the separator
      or to the part after. */
  lemma ScanGap(op: Operator, gap: Gap, s: string, boundary: bool, buffer: string)
      returns (kept: string, lead: string, b: bool)
    requires All(gap.before, IsSpace) && All(gap.after, IsSpace)
    requires if gap.Spaced? then gap.after != "" && (boundary || HasBlank(gap.before)) else op == OR
    requires s != "" && !IsSpace(s[0]) && OpMatch(s, op) == 0
    ensures All(kept, IsSpace) && All(lead, IsSpace)
    ensures Scan(op, GapText(op, gap) + s, boundary, 0, buffer) == [buffer + kept] + Scan(op, s, b, 0, lead)
  {
    hide IsSpace, OpMatch, Scan, Quiet, Net, Level;
    match gap
    case Spaced(before, after) =>
      assert GapText(op, gap) + s == before + (op.Word() + (after + s));
      kept := ScanWord(op, before, after, s, boundary, buffer);
      lead, b := "", IsBoundary(after[|after| - 1]);
    case Slashed(before, after) =>
      assert GapText(op, gap) + s == before + ("/" + (after + s));
      ScanSlash(before, after + s, boundary, buffer);
      QuietSpace(op, after, s, false);
      ScanQuiet(op, after, s, false, 0, "");
      SpaceNet(after);
      kept, lead, b := before, after, After(false, after);
      assert "" + after == after;
  }

  lemma JoinParts(op: Operator, t: Expr, raw1: seq<string>, pad1: string, kept: string, raw2: seq<string>)
    requires t.Join? && t.op == op && IsExpression(t.left)
    requires All(pad1, IsSpace) && All(kept, IsSpace)
    requires var parts1, parts2 := Prints(Branches(op, t.left)), Prints(Branches(op, t.right));
      Pads(raw1, parts1[..|parts1| - 1]) && Pads(raw2, parts2[..|parts2| - 1])
    ensures var parts1, parts2 := Prints(Branches(op, t.left)), Prints(Branches(op, t.right));
      var parts := Prints(Branches(op, t));
      && parts == parts1 + parts2
      && Pads(raw1 + [pad1 + parts1[|parts1| - 1] + kept] + raw2, parts[..|parts| - 1])
  {
    hide *;
    var bs1, bs2 := Branches(op, t.left), Branches(op, t.right);
    var parts1, parts2 := Prints(bs1), Prints(bs2);
    assert Branches(op, t) == bs1 + bs2 by { BranchesJoin(op, t); }
    PrintsConcat(bs1, bs2);
    BranchesAreExpressions(op, t.left);
    PrintTrimmed(bs1[|bs1| - 1]);
    PadsJoin(raw1, parts1[..|parts1| - 1], pad1, parts1[|parts1| - 1], kept, raw2, parts2[..|parts2| - 1]);
    AllButLast(parts1, parts2);
  }

  lemma BranchesJoin(op: Operator, t: Expr)
    requires t.Join? && t.op == op
    ensures Branches(op, t) == Branches(op, t.left) + Branches(op, t.right)
  {
  }

  lemma PrintsConcat(a: seq<Expr>, b: seq<Expr>)
    ensures Prints(a + b) == Prints(a) + Prints(b)
  {
    hide Print;
  }

  lemma AllButLast(a: seq<string>, b: seq<string>)
    requires a != [] && b != []
    ensures (a + b)[..|a + b| - 1] == a[..|a| - 1] + [a[|a| - 1]] + b[..|b| - 1]
  {
  }

  lemma AfterLast(b: bool, boundary: bool, x: string, z: string)
    requires z != ""
    ensures After(b, z) == After(boundary, x + z)
  {
  }

  ghost function Size(t: Expr): nat {
    match t
    case Atom(_) => 0
    case Group(_, inner, _) => 1 + Size(inner)
    case Join(_, left, _, right) => 1 + Size(left) + Size(right)
    case Fused(_, _, _, _) => 0
  }

  lemma {:induction false} BranchesAreExpressions(op: Operator, t: Expr)
    ensures IsExpression(t) ==> forall b :: b in Branches(op, t) ==> IsExpression(b)
    ensures forall b :: b in Branches(op, t) ==> Size(b) <= Size(t)
    ensures t.Join? && t.op == op ==> forall b :: b in Branches(op, t) ==> Size(b) < Size(t)
    ensures t.Join? && t.op == op <==> |Branches(op, t)| > 1
  {
    hide IsAtom, SetOff, Seen, IsSpace;
    if t.Join? && t.op == op {
      BranchesAreExpressions(op, t.left);
      BranchesAreExpressions(op, t.right);
    }
  }

  /** Splitting a printed expression gives exactly its printed operands, in order. */
  lemma SplitPrint(op: Operator, t: Expr)
    requires IsExpression(t) && (op == AND ==> !IsOr(t))
    ensures TopLevelParts(Print(t), op) == Prints(Branches(op, t))
  {
    hide Scan, Clean, IsSpace, IsExpression, Print, Trim;
    var raw, pad := ScanPrint(op, t, "", true, "");
    assert Print(t) + "" == Print(t);
    var bs := Branches(op, t);
    var parts := Prints(bs);
    var n := |parts| - 1;
    BranchesAreExpressions(op, t);
    forall i | 0 <= i < |parts| ensures parts[i] != "" {
      PrintTrimmed(bs[i]);
    }
    PrintTrimmed(bs[n]);
    PadsJoin(raw, parts[..n], pad, parts[n], "", [], []);
    assert pad + parts[n] + "" == pad + parts[n];
    assert parts[..n] + [parts[n]] + [] == parts && raw + [pad + parts[n]] + [] == raw + [pad + parts[n]];
    ScanEmpty(op, After(true, Print(t)), pad + parts[n]);
    CleanPads(raw + [pad + parts[n]], parts);
  }

  lemma ScanEmpty(op: Operator, boundary: bool, buffer: string)
    ensures Scan(op, "", boundary, 0, buffer) == [buffer]
  {
  }

  // ----- Taking outer parentheses off.

  lemma {:induction false} CountNet(s: string)
    ensures Net(s) == Count(s, '(') - Count(s, ')')
  {
    if s != "" {
      CountNet(s[1..]);
    }
  }

  lemma StripTrimmed(pre: string, s: string, post: string)
    requires All(pre, IsSpace) && Trimmed(s, IsSpace) && All(post, IsSpace)
    ensures Strip(pre + s + post) == s && Strip(s) == s
  {
    hide IsSpace, TrimEnd, TrimStart;
    TrimPadded(pre, s, post, IsSpace);
    assert "" + s + "" == s;
    TrimPadded("", s, "", IsSpace);
  }

  /** A pair of parentheses around the whole expression comes off. */
  lemma UnwrapGroup(t: Expr)
    requires IsExpression(t) && t.Group?
    ensures Unwrap(Print(t)) == Unwrap(Print(t.inner))
  {
    hide IsSpace, Level, Net, Count, TopLevelParts, Unwrap, Trim, IsExpression;
    var e, body := Print(t), t.lead + Print(t.inner) + t.trail;
    GroupParts(t);
    PrintTrimmed(t.inner);
    BodyLevel(t.lead, t.inner, t.trail, 0);
    LevelNet(body, 0);
    CountNet(body);
    StripTrimmed(t.lead, Print(t.inner), t.trail);
    UnwrapStep(e);
  }

  lemma GroupParts(t: Expr)
    requires IsExpression(t) && t.Group?
    ensures IsExpression(t.inner) && All(t.lead, IsSpace) && All(t.trail, IsSpace)
    ensures var e := Print(t);
            StartsOpen(e) && EndsClosed(e) && |e| >= 2 && e[1..|e| - 1] == t.lead + Print(t.inner) + t.trail
  {
    hide IsSpace;
  }

  /** An expression that starts with a parenthesis starts with a whole group. */
  lemma {:induction false} FirstGroup(t: Expr) returns (body: string, rest: string)
    requires IsExpression(t) && StartsOpen(Print(t))
    ensures Print(t) == "(" + body + ")" + rest && Level(body, 0) == 0
    ensures !t.Group? ==> rest != ""
  {
    hide IsSpace, KeywordFree, Level, GapText, SetOff, Seen;
    assert t.Atom? ==> !IsPunctuation(t.id[0]);
    match t
    case Atom(_) =>
    case Group(lead, inner, trail) =>
      BodyLevel(lead, inner, trail, 0);
      body, rest := lead + Print(inner) + trail, "";
      assert "(" + body + ")" + rest == "(" + body + ")";
    case _ =>
      PrintTrimmed(t.left);
      PrintTrimmed(t.right);
      var r;
      body, r := FirstGroup(t.left);
      rest := r + GapText(t.op, t.gap) + Print(t.right);
      assert Print(t) == "(" + body + ")" + r + GapText(t.op, t.gap) + Print(t.right);
  }

  lemma ClosesEarly(body: string, rest: string)
    requires Level(body, 0) == 0
    ensures Level(body + ")" + rest, 0) == -1
  {
    LevelConcat(body + ")", rest, 0);
    LevelConcat(body, ")", 0);
  }

  lemma WithoutEnds(body: string, rest: string)
    requires rest != ""
    ensures var e := "(" + body + ")" + rest; e[1..|e| - 1] == body + ")" + rest[..|rest| - 1]
  {
  }

  /** Parentheses that do not enclose the whole expression stay. */
  lemma UnwrapBare(t: Expr)
    requires IsExpression(t) && !t.Group?
    ensures Unwrap(Print(t)) == Print(t)
  {
    hide IsExpression, Level, Print, Unwrap;
    var e := Print(t);
    UnwrapStep(e);
    if StartsOpen(e) && EndsClosed(e) {
      var body, rest := FirstGroup(t);
      ClosesEarly(body, rest[..|rest| - 1]);
      WithoutEnds(body, rest);
    }
  }

  // ----- The main theorem.

  lemma {:induction false} EvalBranches(op: Operator, t: Expr, allow: set<string>)
    ensures Eval(t, allow)
        <==> if op == OR then exists b :: b in Branches(op, t) && Eval(b, allow)
             else forall b :: b in Branches(op, t) ==> Eval(b, allow)
  {
    hide Allowed;
    var bs := Branches(op, t);
    if t.Join? && t.op == op {
      EvalBranches(op, t.left, allow);
      EvalBranches(op, t.right, allow);
    } else {
      assert bs == [t] && bs[0] == t;
    }
  }

  /** The string evaluator computes the meaning of every expression, however it is parenthesised,
      spaced and spelled. */
  lemma {:induction false} EvaluatorAgrees(t: Expr, allow: set<string>)
    requires IsExpression(t)
    ensures Satisfied(Print(t), allow) == Eval(t, allow)
    decreases Size(t)
  {
    hide Satisfied, Unwrap, TopLevelParts, IsExpression, Print, Trim, Allowed, Branches, IsSpace;
    var e := Print(t);
    PrintTrimmed(t);
    StripTrimmed("", e, "");
    if t.Group? {
      GroupParts(t);
      PrintTrimmed(t.inner);
      StripTrimmed("", Print(t.inner), "");
      UnwrapGroup(t);
      SatisfiedUnwrapped(e, Print(t.inner), allow);
      EvaluatorAgrees(t.inner, allow);
    } else {
      UnwrapBare(t);
      if t.Join? {
        var bs := Branches(t.op, t);
        BranchesAreExpressions(t.op, t);
        forall b | b in bs ensures Satisfied(Print(b), allow) == Eval(b, allow) {
          EvaluatorAgrees(b, allow);
        }
        EvalBranches(t.op, t, allow);
        SatisfiedJoin(t, allow);
      } else {
        SatisfiedAtom(t, allow);
      }
    }
  }

  lemma SatisfiedJoin(t: Expr, allow: set<string>)
    requires IsExpression(t) && t.Join? && Unwrap(Strip(Print(t))) == Print(t)
    ensures Satisfied(Print(t), allow)
        <==> if t.op == OR then exists b :: b in Branches(OR, t) && Satisfied(Print(b), allow)
             else forall b :: b in Branches(AND, t) ==> Satisfied(Print(b), allow)
  {
    hide *;
    SatisfiedStep(Print(t), allow);
    BranchesAreExpressions(OR, t);
    BranchesAreExpressions(AND, t);
    SplitPrint(OR, t);
    OrIsNotAnd(t);
    if t.op == AND {
      SplitPrint(AND, t);
    }
    var ps, bs := Prints(Branches(t.op, t)), Branches(t.op, t);
    assert forall i :: 0 <= i < |bs| ==> ps[i] == Print(bs[i]) && bs[i] in bs;
  }

  lemma OrIsNotAnd(t: Expr)
    ensures t.Join? && t.op == AND ==> !IsOr(t)
  {
  }

  /** An atom, and what is fused into one, is looked up. */
  lemma SatisfiedAtom(t: Expr, allow: set<string>)
    requires IsExpression(t) && (t.Atom? || t.Fused?) && Unwrap(Strip(Print(t))) == Print(t)
    ensures Satisfied(Print(t), allow) == Eval(t, allow)
  {
    hide Satisfied, Unwrap, TopLevelParts, Trim, Allowed, IsSpace, KeywordFree, IsExpression;
    SatisfiedStep(Print(t), allow);
    SplitPrint(OR, t);
    SplitPrint(AND, t);
  }

  // ----- Precedence never has to be written by hand.

  function Enclose(t: Expr): Expr {
    if IsOr(t) then Group("", t, "") else t
  }

  /** Parentheses exactly where the precedence of AND over OR needs them. */
  function Parenthesize(t: Expr): Expr {
    match t
    case Atom(_) => t
    case Group(lead, inner, trail) => Group(lead, Parenthesize(inner), trail)
    case Join(OR, left, gap, right) => Join(OR, Parenthesize(left), gap, Parenthesize(right))
    case Join(AND, left, gap, right) => Join(AND, Enclose(Parenthesize(left)), gap, Enclose(Parenthesize(right)))
    case Fused(_, _, _, _) => t
  }

  /** A tree whose atoms and gaps are in order, whatever its shape. */
  predicate IsTree(t: Expr) {
    match t
    case Atom(id) => IsAtom(id)
    case Group(lead, inner, trail) => All(lead, IsSpace) && IsTree(inner) && All(trail, IsSpace)
    case Join(op, left, gap, right) =>
      && IsTree(left) && IsTree(right)
      && All(gap.before, IsSpace) && All(gap.after, IsSpace)
      && (if gap.Spaced? then gap.after != "" && HasBlank(gap.before) else op == OR)
    case Fused(_, _, _, _) => false
  }

  lemma {:induction false} ParenthesizeIsExpression(t: Expr, allow: set<string>)
    requires IsTree(t)
    ensures IsExpression(Parenthesize(t)) && Eval(Parenthesize(t), allow) == Eval(t, allow)
  {
    hide IsSpace, IsAtom, Allowed, Print;
    match t
    case Atom(_) =>
    case Group(_, inner, _) =>
      ParenthesizeIsExpression(inner, allow);
    case Join(_, left, _, right) =>
      ParenthesizeIsExpression(left, allow);
      ParenthesizeIsExpression(right, allow);
  }

  /** Every tree of ANDs and ORs, printed with parentheses only where needed, evaluates to its meaning. */
  lemma AnyTreeRoundTrips(t: Expr, allow: set<string>)
    requires IsTree(t)
    ensures Satisfied(Print(Parenthesize(t)), allow) == Eval(t, allow)
  {
    hide *;
    ParenthesizeIsExpression(t, allow);
    EvaluatorAgrees(Parenthesize(t), allow);
  }
}
