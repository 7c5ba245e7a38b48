/** How the scanner of `LicenseSplit` composes: which stretches of text it passes over, and where
    it cuts. Everything here is about arbitrary text; the grammar comes in `LicenseGrammar`. */
module LicenseScan {
  import opened Text
  import opened LicenseSplit

  /** Net change of depth over `s`. */
  function Net(s: string): int {
    if s == "" then 0 else Delta(s[0]) + Net(s[1..])
  }

  /** Depth after `s` when starting at `d`, or -1 once the depth has been negative. */
  function Level(s: string, d: int): (r: int)
    ensures r >= -1
    decreases |s|
  {
    if d < 0 then -1 else if s == "" then d else Level(s[1..], d + Delta(s[0]))
  }

  predicate Balanced(s: string) {
    Level(s, 0) == 0
  }

  function After(boundary: bool, s: string): bool {
    if s == "" then boundary else IsBoundary(s[|s| - 1])
  }

  /** The scanner passes over `x` without a cut when `rest` follows. */
  predicate Quiet(op: Operator, x: string, rest: string, boundary: bool, depth: int)
    decreases |x|
  {
    x == "" ||
    var d := depth + Delta(x[0]);
    && CutLength(op, x + rest, boundary, d) == 0
    && Quiet(op, x[1..], rest, IsBoundary(x[0]), d)
  }

  // ----- Concatenation.

  lemma {:induction false} NetConcat(x: string, y: string)
    ensures Net(x + y) == Net(x) + Net(y)
  {
    if x == "" {
      assert x + y == y;
    } else {
      assert (x + y)[1..] == x[1..] + y;
      NetConcat(x[1..], y);
    }
  }

  lemma {:induction false} LevelConcat(x: string, y: string, d: int)
    ensures Level(x + y, d) == if Level(x, d) < 0 then -1 else Level(y, Level(x, d))
    decreases |x|
  {
    if x == "" {
      assert x + y == y;
    } else {
      assert (x + y)[1..] == x[1..] + y;
      LevelConcat(x[1..], y, d + Delta(x[0]));
    }
  }

  lemma {:induction false} LevelNet(x: string, d: int)
    requires Level(x, d) >= 0
    ensures Level(x, d) == d + Net(x)
    decreases |x|
  {
    if x != "" {
      LevelNet(x[1..], d + Delta(x[0]));
    }
  }

  lemma {:induction false} ScanQuiet(op: Operator, x: string, rest: string, boundary: bool, depth: int, buffer: string)
    requires Quiet(op, x, rest, boundary, depth)
    ensures Scan(op, x + rest, boundary, depth, buffer)
         == Scan(op, rest, After(boundary, x), depth + Net(x), buffer + x)
    decreases |x|
  {
    hide Scan, CutLength, Delta, IsBoundary;
    if x == "" {
      assert x + rest == rest && buffer + x == buffer;
    } else {
      ScanStep(op, x + rest, boundary, depth, buffer, 0);
      assert (x + rest)[1..] == x[1..] + rest;
      assert buffer + [x[0]] + x[1..] == buffer + x;
      ScanQuiet(op, x[1..], rest, IsBoundary(x[0]), depth + Delta(x[0]), buffer + [x[0]]);
    }
  }

  lemma {:induction false} QuietConcat(op: Operator, x: string, y: string, rest: string, boundary: bool, depth: int)
    requires Quiet(op, x, y + rest, boundary, depth)
    requires Quiet(op, y, rest, After(boundary, x), depth + Net(x))
    ensures Quiet(op, x + y, rest, boundary, depth)
    decreases |x|
  {
    hide CutLength, Delta, IsBoundary;
    if x == "" {
      assert x + y == y;
    } else {
      assert x + y + rest == x + (y + rest);
      assert (x + y)[1..] == x[1..] + y;
      QuietConcat(op, x[1..], y, rest, IsBoundary(x[0]), depth + Delta(x[0]));
    }
  }

  /** Inside parentheses nothing is ever cut. */
  lemma {:induction false} QuietInside(op: Operator, x: string, rest: string, boundary: bool, depth: int)
    requires depth >= 1 && Level(x, depth - 1) >= 0
    ensures Quiet(op, x, rest, boundary, depth)
    decreases |x|
  {
    hide IsBoundary, OpMatch;
    if x != "" {
      assert Level(x[1..], depth - 1 + Delta(x[0])) >= 0;
      QuietInside(op, x[1..], rest, IsBoundary(x[0]), depth + Delta(x[0]));
    }
  }

  // ----- White space and operators.

  lemma SpaceFacts(c: char)
    requires IsSpace(c)
    ensures Delta(c) == 0 && c != '/' && c != ')' && c != '(' && c !in "ANDOR"
  {
  }

  lemma {:induction false} OpMatchAfterSpace(pre: string, s: string, op: Operator)
    requires All(pre, IsSpace)
    ensures OpMatch(s, op) == 0 ==> OpMatch(pre + s, op) == 0
    ensures OpMatch(s, op) > 0 ==> OpMatch(pre + s, op) == |pre| + OpMatch(s, op)
  {
    if pre == "" {
      assert pre + s == s;
    } else {
      assert (pre + s)[1..] == pre[1..] + s;
      OpMatchAfterSpace(pre[1..], s, op);
    }
  }

  lemma {:induction false} LeadingSpacesOf(pre: string, s: string)
    requires All(pre, IsSpace) && (s == "" || !IsSpace(s[0]))
    ensures LeadingSpaces(pre + s) == |pre|
  {
    hide IsSpace;
    if pre == "" {
      assert pre + s == s;
    } else {
      assert (pre + s)[1..] == pre[1..] + s;
      LeadingSpacesOf(pre[1..], s);
    }
  }

  lemma WordFacts(op: Operator, s: string)
    ensures var w := op.Word() + s;
      && |op.Word()| == op.Length()
      && !IsSpace(w[0]) && op.Opens(w)
      && (forall other: Operator :: other != op ==> !other.Opens(w))
      && w[op.Length()..] == s
  {
  }

  /** The operator word, some white space and then text: exactly the word and the space match. */
  lemma OpMatchWord(op: Operator, after: string, s: string)
    requires All(after, IsSpace) && after != "" && (s == "" || !IsSpace(s[0]))
    ensures OpMatch(op.Word() + (after + s), op) == op.Length() + |after|
  {
    WordFacts(op, after + s);
    assert IsSpace((after + s)[0]);
    LeadingSpacesOf(after, s);
    hide IsSpace, LeadingSpaces;
  }

  lemma {:induction false} SpaceNet(x: string)
    requires All(x, IsSpace)
    ensures Net(x) == 0
    ensures forall d :: d >= 0 ==> Level(x, d) == d
  {
    hide IsSpace;
    if x != "" {
      SpaceFacts(x[0]);
      SpaceNet(x[1..]);
    }
  }

  /** White space before text that starts with no operator is passed over. */
  lemma {:induction false} QuietSpace(op: Operator, x: string, rest: string, boundary: bool)
    requires All(x, IsSpace) && OpMatch(rest, op) == 0
    ensures Quiet(op, x, rest, boundary, 0)
    decreases |x|
  {
    hide IsSpace, IsBoundary;
    if x != "" {
      SpaceFacts(x[0]);
      OpMatchAfterSpace(x, rest, op);
      QuietSpace(op, x[1..], rest, IsBoundary(x[0]));
    }
  }

  predicate HasBlank(s: string) {
    exists i :: 0 <= i < |s| && (s[i] == ' ' || s[i] == '\t')
  }

  lemma AfterThree(a: string, b: string, c: string, rest: string)
    requires c != ""
    ensures var s, n := a + (b + (c + rest)), |a| + |b| + |c|; s[n..] == rest && s[n - 1] == c[|c| - 1]
  {
    assert a + (b + (c + rest)) == (a + b + c) + rest;
  }

  lemma WordStarts(op: Operator, before: string, s: string)
    requires All(before, IsSpace)
    ensures var c := (before + (op.Word() + s))[0]; Delta(c) == 0 && c != '/'
  {
    if before != "" {
      SpaceFacts(before[0]);
    }
  }

  lemma WordAhead(op: Operator, before: string, after: string, rest: string)
    requires All(before, IsSpace) && All(after, IsSpace) && after != ""
    requires rest == "" || !IsSpace(rest[0])
    ensures var s := before + (op.Word() + (after + rest));
            var n := |before| + op.Length() + |after|;
            && 0 < n <= |s| && OpMatch(s, op) == n && s[n..] == rest && s[n - 1] == after[|after| - 1]
            && Delta(s[0]) == 0 && s[0] != '/'
  {
    hide OpMatch, IsSpace, Delta;
    OpMatchWord(op, after, rest);
    OpMatchAfterSpace(before, op.Word() + (after + rest), op);
    WordStarts(op, before, after + rest);
    AfterThree(before, op.Word(), after, rest);
  }

  /** Standing at a boundary before white space and an operator the scanner cuts at once; not
      standing at one, it cuts after the first blank or tab. The white space stays in the buffer
      or is swallowed with the operator. */
  lemma {:induction false} ScanWord(op: Operator, before: string, after: string, rest: string,
                                    boundary: bool, buffer: string) returns (kept: string)
    requires All(before, IsSpace) && All(after, IsSpace) && after != ""
    requires rest == "" || !IsSpace(rest[0])
    requires boundary || HasBlank(before)
    ensures All(kept, IsSpace)
    ensures Scan(op, before + (op.Word() + (after + rest)), boundary, 0, buffer)
         == [buffer + kept] + Scan(op, rest, IsBoundary(after[|after| - 1]), 0, "")
    decreases |before|
  {
    hide OpMatch, IsSpace, Scan, Delta;
    var word := op.Word() + (after + rest);
    var s := before + word;
    WordAhead(op, before, after, rest);
    if boundary {
      kept := "";
      ScanStep(op, s, boundary, 0, buffer, |before| + op.Length() + |after|);
      assert buffer + kept == buffer;
    } else {
      ScanStep(op, s, boundary, 0, buffer, 0);
      assert s[1..] == before[1..] + word;
      kept := ScanWord(op, before[1..], after, rest, IsBoundary(before[0]), buffer + [before[0]]);
      var k := kept;
      kept := [before[0]] + k;
      assert buffer + [before[0]] + k == buffer + kept;
    }
  }

  /** Without a boundary and without a blank, as after a line break alone, the operator is missed. */
  lemma {:induction false} QuietMissed(op: Operator, before: string, after: string, rest: string)
    requires All(before, IsSpace) && !HasBlank(before) && All(after, IsSpace) && OpMatch(rest, op) == 0
    ensures Quiet(op, before + (op.Word() + after), rest, false, 0)
    decreases |before|
  {
    if before == "" {
      assert before + (op.Word() + after) == op.Word() + after;
      QuietSpace(op, after, rest, false);
      QuietLetters(op, op.Word(), after + rest, false);
      QuietConcat(op, op.Word(), after, rest, false, 0);
    } else {
      SpaceFacts(before[0]);
      assert (before + (op.Word() + after))[1..] == before[1..] + (op.Word() + after);
      QuietMissed(op, before[1..], after, rest);
    }
  }

  /** An operator word is passed over unless it stands at a boundary and is the one looked for. */
  lemma QuietLetters(op: Operator, word: string, rest: string, boundary: bool)
    requires word == "OR" || word == "AND"
    requires !boundary || word != op.Word()
    ensures Quiet(op, word, rest, boundary, 0) && Net(word) == 0 && !After(boundary, word)
  {
    if word == "OR" {
      assert word[1..] == "R" && "R"[1..] == "";
      assert Net("R") == 0;
    } else {
      assert word[1..] == "ND" && "ND"[1..] == "D" && "D"[1..] == "";
      assert Net("D") == 0 && Net("ND") == 0;
    }
  }

  /** With no white space behind it, the operator's own word is passed over even at a boundary. */
  lemma QuietBareWord(op: Operator, rest: string, boundary: bool)
    requires rest != "" && !IsSpace(rest[0])
    ensures Quiet(op, op.Word(), rest, boundary, 0) && OpMatch(op.Word() + rest, op) == 0
  {
    hide IsSpace;
    var word := op.Word();
    WordFacts(op, rest);
    assert (word + rest)[op.Length()] == rest[0];
    if op == OR {
      assert word[1..] == "R" && "R"[1..] == "";
    } else {
      assert word[1..] == "ND" && "ND"[1..] == "D" && "D"[1..] == "";
    }
  }

  lemma SlashStep(rest: string, boundary: bool, buffer: string)
    ensures OpMatch("/" + rest, OR) == 0
    ensures Scan(OR, "/" + rest, boundary, 0, buffer) == [buffer] + Scan(OR, rest, false, 0, "")
  {
    ScanStep(OR, "/" + rest, boundary, 0, buffer, 1);
    assert ("/" + rest)[1..] == rest;
  }

  /** A slash at depth 0 ends a part of an OR. */
  lemma ScanSlash(before: string, rest: string, boundary: bool, buffer: string)
    requires All(before, IsSpace)
    ensures Scan(OR, before + ("/" + rest), boundary, 0, buffer)
         == [buffer + before] + Scan(OR, rest, false, 0, "")
  {
    hide IsSpace, OpMatch, Scan, Quiet, Net, Level, IsBoundary;
    SlashStep(rest, After(boundary, before), buffer + before);
    QuietSpace(OR, before, "/" + rest, boundary);
    ScanQuiet(OR, before, "/" + rest, boundary, 0, buffer);
    SpaceNet(before);
  }
}
