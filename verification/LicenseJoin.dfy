/** Splitting against joining, for arbitrary parts; and exactly when the scanner sees an operator
    between two of them. */
module LicenseJoin {
  import opened Text
  import opened LicenseSplit
  import opened LicenseScan
  import opened LicenseAudit
  import opened LicenseGrammar

  /** `s` starts with white space, if any, the operator's word, and white space again. */
  predicate OperatorAhead(op: Operator, s: string) {
    exists j :: 0 <= j < |s| && WordAt(op, s, j)
  }

  predicate WordAt(op: Operator, s: string, j: nat)
    requires j < |s|
  {
    All(s[..j], IsSpace) && op.Opens(s[j..]) && j + op.Length() < |s| && IsSpace(s[j + op.Length()])
  }

  /** At depth 0 there is no operator in `p`, not even one that ends `p`: no slash for OR, and
      nowhere, at the start or behind a blank, a tab or a closing parenthesis, the word with white
      space behind it. */
  predicate FreeOf(op: Operator, p: string) {
    forall i :: 0 <= i < |p| && Net(p[..i + 1]) == 0 ==>
      && (op == OR ==> p[i] != '/')
      && (BoundaryAt(p, i) ==> !OperatorAhead(op, p[i..] + " "))
  }

  predicate IsPart(op: Operator, p: string) {
    p != "" && Trimmed(p, IsSpace) && Balanced(p) && FreeOf(op, p)
  }

  function JoinWith(op: Operator, parts: seq<string>): string
    requires parts != []
  {
    if |parts| == 1 then parts[0] else parts[0] + (" " + (op.Word() + (" " + JoinWith(op, parts[1..]))))
  }

  // ----- A part is passed over wherever it stands.

  lemma {:induction false} AheadIff(op: Operator, s: string)
    ensures OperatorAhead(op, s) <==> OpMatch(s, op) > 0
  {
    hide IsSpace, LeadingSpaces;
    if s != "" && IsSpace(s[0]) {
      SpaceFacts(s[0]);
      AheadIff(op, s[1..]);
      forall j | 0 <= j < |s[1..]| ensures WordAt(op, s[1..], j) <==> WordAt(op, s, j + 1) {
        AheadShift(op, s, j);
      }
      if j :| 0 <= j < |s| && WordAt(op, s, j) {
        assert s[0..] == s && j > 0;
        assert WordAt(op, s[1..], j - 1);
      }
      if j :| 0 <= j < |s[1..]| && WordAt(op, s[1..], j) {
        assert WordAt(op, s, j + 1);
      }
    } else if s != "" {
      assert s[0..] == s;
      if op.Opens(s) && |s| > op.Length() && IsSpace(s[op.Length()]) {
        assert WordAt(op, s, 0);
      }
      WordAtStart(op, s);
    }
  }

  lemma WordAtStart(op: Operator, s: string)
    requires s != "" && !IsSpace(s[0])
    ensures forall j :: 0 < j < |s| ==> !WordAt(op, s, j)
  {
    forall j | 0 < j < |s| ensures !WordAt(op, s, j) {
      assert s[..j][0] == s[0];
    }
  }

  lemma AheadShift(op: Operator, s: string, j: nat)
    requires j < |s| - 1 && IsSpace(s[0])
    ensures WordAt(op, s[1..], j) <==> WordAt(op, s, j + 1)
  {
    hide IsSpace;
    assert s[1..][j..] == s[j + 1..] && s[1..][..j] == s[..j + 1][1..];
    assert forall i :: 0 <= i < j ==> s[1..][..j][i] == s[..j + 1][i + 1];
  }

  /** The scanner's view of one position. */
  predicate PassedAt(op: Operator, p: string, i: nat)
    requires i < |p|
  {
    CutLength(op, p[i..] + " ", BoundaryAt(p, i), Net(p[..i + 1])) == 0
  }

  lemma {:induction false} QuietIff(op: Operator, p: string, i: nat)
    requires i <= |p|
    ensures Quiet(op, p[i..], " ", BoundaryAt(p, i), Net(p[..i])) <==> forall k :: i <= k < |p| ==> PassedAt(op, p, k)
    decreases |p| - i
  {
    hide CutLength, IsBoundary, Delta, Net;
    if i < |p| {
      QuietIff(op, p, i + 1);
      var x := p[i..];
      assert x[1..] == p[i + 1..] && x[0] == p[i] && BoundaryAt(p, i + 1) == IsBoundary(p[i]);
      assert p[..i + 1] == p[..i] + [p[i]];
      NetConcat(p[..i], [p[i]]);
      NetOne(p[i]);
      var rest := Quiet(op, x[1..], " ", IsBoundary(p[i]), Net(p[..i + 1]));
      assert Quiet(op, x, " ", BoundaryAt(p, i), Net(p[..i])) <==> PassedAt(op, p, i) && rest;
    }
  }

  lemma NetOne(c: char)
    ensures Net([c]) == Delta(c) && Net("") == 0
  {
    assert [c][1..] == "";
  }

  /** Text free of the operator is what the scanner passes over, and nothing else is. */
  lemma FreeIff(op: Operator, p: string)
    ensures FreeOf(op, p) <==> Quiet(op, p, " ", true, 0)
  {
    hide OpMatch, OperatorAhead, IsBoundary, Quiet, Net;
    QuietIff(op, p, 0);
    NetOne(' ');
    assert p[0..] == p && p[..0] == "";
    forall i | 0 <= i < |p|
      ensures PassedAt(op, p, i)
         <==> (Net(p[..i + 1]) == 0 ==>
                 && (op == OR ==> p[i] != '/')
                 && (BoundaryAt(p, i) ==> !OperatorAhead(op, p[i..] + " ")))
    {
      AheadIff(op, p[i..] + " ");
      assert (p[i..] + " ")[0] == p[i];
    }
  }

  /** What follows a trimmed text does not matter to an operator inside it. */
  predicate Apart(x: string, rest: string) {
    rest == "" || IsSpace(rest[0]) || EndsClosed(x)
  }

  lemma {:induction false} OpMatchApart(op: Operator, x: string, rest: string)
    requires x != "" && !IsSpace(x[|x| - 1]) && Apart(x, rest) && OpMatch(x + " ", op) == 0
    ensures OpMatch(x + rest, op) == 0
    decreases |x|
  {
    hide LeadingSpaces, IsSpace;
    assert IsSpace(' ') by { BlankIsSpace(); }
    if IsSpace(x[0]) {
      assert (x + rest)[1..] == x[1..] + rest && (x + " ")[1..] == x[1..] + " ";
      OpMatchApart(op, x[1..], rest);
    } else {
      NotOpenedApart(op, x, rest);
    }
  }

  lemma NotOpenedApart(op: Operator, x: string, rest: string)
    requires x != "" && !IsSpace(x[0]) && Apart(x, rest) && OpMatch(x + " ", op) == 0
    ensures !(op.Opens(x + rest) && |x + rest| > op.Length() && IsSpace((x + rest)[op.Length()]))
  {
    var e, f := x + rest, x + " ";
    assert rest != "" ==> e[|x|] == rest[0];
    if op.Opens(e) && |e| > op.Length() && IsSpace(e[op.Length()]) {
      assert op.Length() <= |x| && f[op.Length()] == if |x| > op.Length() then x[op.Length()] else ' ';
    }
  }

  lemma {:induction false} QuietApart(op: Operator, x: string, rest: string, boundary: bool, depth: int)
    requires x != "" ==> !IsSpace(x[|x| - 1]) && Apart(x, rest)
    requires Quiet(op, x, " ", boundary, depth)
    ensures Quiet(op, x, rest, boundary, depth)
    decreases |x|
  {
    hide OpMatch, IsSpace, IsBoundary, Delta;
    if x != "" {
      assert (x + " ")[0] == x[0] == (x + rest)[0];
      if OpMatch(x + " ", op) == 0 {
        OpMatchApart(op, x, rest);
      }
      QuietApart(op, x[1..], rest, IsBoundary(x[0]), depth + Delta(x[0]));
    }
  }

  lemma QuietStart(op: Operator, x: string, rest: string, depth: int)
    requires Quiet(op, x, rest, true, depth)
    ensures Quiet(op, x, rest, false, depth)
  {
  }

  lemma PartQuiet(op: Operator, p: string, rest: string, boundary: bool)
    requires IsPart(op, p) && Apart(p, rest)
    ensures Quiet(op, p, rest, boundary, 0) && Net(p) == 0
  {
    hide Scan, Quiet, IsSpace, Level, FreeOf;
    FreeIff(op, p);
    QuietApart(op, p, rest, true, 0);
    QuietStart(op, p, rest, 0);
    LevelNet(p, 0);
  }

  lemma PartNoOperator(op: Operator, p: string, rest: string)
    requires IsPart(op, p) && Apart(p, rest)
    ensures OpMatch(p + rest, op) == 0
  {
    PartQuiet(op, p, rest, true);
    if IsPunctuation(p[0]) {
      ParenNoOperator(op, p + rest);
    }
    hide OpMatch, Scan, Level;
  }

  // ----- Splitting undoes joining.

  lemma {:induction false} ScanJoined(op: Operator, parts: seq<string>) returns (raw: seq<string>)
    requires parts != [] && forall i :: 0 <= i < |parts| ==> IsPart(op, parts[i])
    ensures Scan(op, JoinWith(op, parts), true, 0, "") == raw && Pads(raw, parts)
    ensures JoinWith(op, parts) != "" && !IsSpace(JoinWith(op, parts)[0])
  {
    hide Scan, IsPart, IsSpace, Trim, OpMatch, Quiet;
    var p := parts[0];
    PartFacts(op, p);
    if |parts| == 1 {
      PartQuiet(op, p, "", true);
      assert p + "" == p && "" + p == p;
      ScanQuiet(op, p, "", true, 0, "");
      ScanEmpty(op, After(true, p), p);
      raw := [p];
    } else {
      var rest := JoinWith(op, parts[1..]);
      var tail := ScanJoined(op, parts[1..]);
      var gap := " " + (op.Word() + (" " + rest));
      PartQuiet(op, p, gap, true);
      ScanQuiet(op, p, gap, true, 0, "");
      assert "" + p == p;
      var kept := ScanWord(op, " ", " ", rest, After(true, p), p);
      StripTrimmed("", p, kept);
      assert "" + p + kept == p + kept;
      raw := [p + kept] + tail;
      assert (p + gap)[0] == p[0];
    }
  }

  lemma PartFacts(op: Operator, p: string)
    requires IsPart(op, p)
    ensures p != "" && Trimmed(p, IsSpace) && !IsSpace(p[0]) && Strip(p) == p
    ensures forall rest :: Apart(p, " " + rest)
    ensures IsSpace(' ') && IsBoundary(' ') && HasBlank(" ") && All(" ", IsSpace)
  {
    StripTrimmed("", p, "");
    assert " "[0] == ' ';
    hide Scan, Level, Trim;
  }

  /** For parts that are trimmed, non-empty, balanced and free of the operator at depth 0,
      splitting their join gives back exactly the parts, in order. */
  lemma SplitJoin(op: Operator, parts: seq<string>)
    requires parts != [] && forall i :: 0 <= i < |parts| ==> IsPart(op, parts[i])
    ensures TopLevelParts(JoinWith(op, parts), op) == parts
  {
    hide Scan, Clean, IsSpace, Trim, Balanced, FreeOf;
    var raw := ScanJoined(op, parts);
    CleanPads(raw, parts);
  }

  // ----- When an operator is seen.

  function Written(l: string, before: string, op: Operator, after: string, r: string): string {
    l + (before + (op.Word() + (after + r)))
  }

  /** Between two parts, an operator set off on either side by white space or a parenthesis splits
      the expression exactly when there is white space behind it, and a blank or a tab, or a closing
      parenthesis, before it. An opening parenthesis behind it does not do, and neither does a line
      break alone before it, although the regular expression of the source asks for any white space. */
  lemma OperatorSeenIff(op: Operator, l: string, before: string, after: string, r: string)
    requires IsPart(op, l) && IsPart(op, r)
    requires All(before, IsSpace) && All(after, IsSpace)
    requires (before != "" || EndsClosed(l)) && (after != "" || StartsOpen(r))
    ensures var e := Written(l, before, op, after, r);
            TopLevelParts(e, op) == if (HasBlank(before) || EndsClosed(l)) && after != "" then [l, r] else [e]
  {
    hide *;
    var e := Written(l, before, op, after, r);
    WrittenTrimmed(op, l, before, after, r);
    if (HasBlank(before) || EndsClosed(l)) && after != "" {
      var kept := WrittenSeen(op, l, before, after, r);
      StripKept(op, l, kept);
      SplitFromScan(op, e, [l + kept, r], [l, r]);
    } else {
      WrittenMissed(op, l, before, after, r);
      SplitFromScan(op, e, [e], [e]);
    }
  }

  lemma StripKept(op: Operator, l: string, kept: string)
    requires IsPart(op, l) && All(kept, IsSpace)
    ensures Strip(l + kept) == l
  {
    hide IsPart, IsSpace, Trim;
    PartFacts(op, l);
    StripTrimmed("", l, kept);
    assert "" + l + kept == l + kept;
  }

  lemma SplitFromScan(op: Operator, e: string, raw: seq<string>, parts: seq<string>)
    requires Scan(op, e, true, 0, "") == raw && |raw| == |parts|
    requires forall i :: 0 <= i < |raw| ==> Strip(raw[i]) == parts[i] && parts[i] != ""
    ensures TopLevelParts(e, op) == parts
  {
    hide Scan, Clean, Trim;
    CleanPads(raw, parts);
  }

  lemma WrittenTrimmed(op: Operator, l: string, before: string, after: string, r: string)
    requires IsPart(op, l) && IsPart(op, r)
    requires All(before, IsSpace) && (before != "" || EndsClosed(l))
    ensures var e := Written(l, before, op, after, r); Strip(e) == e && e != ""
    ensures Strip(l) == l && Strip(r) == r && l != "" && r != ""
  {
    hide IsPart, IsSpace, Trim, EndsClosed;
    PartFacts(op, l);
    PartFacts(op, r);
    GapApart(op, l, before, after, r);
    StripTrimmed("", Written(l, before, op, after, r), "");
  }

  lemma WrittenSeen(op: Operator, l: string, before: string, after: string, r: string) returns (kept: string)
    requires IsPart(op, l) && IsPart(op, r)
    requires All(before, IsSpace) && All(after, IsSpace) && after != ""
    requires HasBlank(before) || EndsClosed(l)
    ensures All(kept, IsSpace)
    ensures Scan(op, Written(l, before, op, after, r), true, 0, "") == [l + kept, r]
  {
    hide Scan, IsSpace, IsPart, OpMatch, Quiet, Net, EndsClosed;
    var gap := before + (op.Word() + (after + r));
    PartFacts(op, l);
    PartFacts(op, r);
    GapApart(op, l, before, after, r);
    PartQuiet(op, l, gap, true);
    ScanQuiet(op, l, gap, true, 0, "");
    kept := ScanWord(op, before, after, r, After(true, l), l);
    var b := IsBoundary(after[|after| - 1]);
    PartQuiet(op, r, "", b);
    ScanQuiet(op, r, "", b, 0, "");
    ScanEmpty(op, After(b, r), r);
    assert "" + l == l && r + "" == r && "" + r == r;
  }

  lemma WrittenMissed(op: Operator, l: string, before: string, after: string, r: string)
    requires IsPart(op, l) && IsPart(op, r)
    requires All(before, IsSpace) && All(after, IsSpace)
    requires (before != "" || EndsClosed(l)) && (after != "" || StartsOpen(r))
    requires (!HasBlank(before) && !EndsClosed(l)) || after == ""
    ensures var e := Written(l, before, op, after, r); Scan(op, e, true, 0, "") == [e]
  {
    hide Scan, IsSpace, IsPart, OpMatch, Quiet, Net, HasBlank, EndsClosed, StartsOpen;
    var x := before + (op.Word() + after);
    PartFacts(op, l);
    PartFacts(op, r);
    GapApart(op, l, before, after, r);
    PartNoOperator(op, r, "");
    assert r + "" == r;
    if after == "" {
      QuietTouching(op, before, r, After(true, l));
    } else {
      QuietMissed(op, before, after, r);
    }
    MissedNet(op, before, after);
    ScanThrough(op, l, x, r);
    assert before + (op.Word() + (after + r)) == x + r;
  }

  lemma QuietTouching(op: Operator, before: string, rest: string, boundary: bool)
    requires All(before, IsSpace) && rest != "" && !IsSpace(rest[0])
    ensures Quiet(op, before + (op.Word() + ""), rest, boundary, 0)
  {
    hide Quiet, IsSpace, OpMatch, Net;
    QuietBareWord(op, rest, After(boundary, before));
    QuietSpace(op, before, op.Word() + rest, boundary);
    SpaceNet(before);
    QuietConcat(op, before, op.Word(), rest, boundary, 0);
    assert op.Word() + "" == op.Word();
  }

  /** Two parts with something to pass over between them stay in one piece. */
  lemma ScanThrough(op: Operator, l: string, x: string, r: string)
    requires IsPart(op, l) && IsPart(op, r) && Apart(l, x + r)
    requires Quiet(op, x, r, After(true, l), 0) && Net(x) == 0
    ensures Scan(op, l + (x + r), true, 0, "") == [l + (x + r)]
  {
    hide Scan, IsSpace, IsPart, OpMatch, Quiet, Net, Apart;
    PartQuiet(op, l, x + r, true);
    ScanQuiet(op, l, x + r, true, 0, "");
    ScanQuiet(op, x, r, After(true, l), 0, l);
    var b := After(After(true, l), x);
    assert Apart(r, "") by { ApartEnd(r); }
    PartQuiet(op, r, "", b);
    ScanQuiet(op, r, "", b, 0, l + x);
    ScanEmpty(op, After(b, r), l + x + r);
    assert "" + l == l && r + "" == r && l + x + r == l + (x + r);
  }

  lemma ApartEnd(x: string)
    ensures Apart(x, "")
  {
  }

  lemma GapApart(op: Operator, l: string, before: string, after: string, r: string)
    requires l != "" && Trimmed(l, IsSpace) && r != "" && Trimmed(r, IsSpace)
    requires All(before, IsSpace) && (before != "" || EndsClosed(l))
    ensures var gap := before + (op.Word() + (after + r)); Apart(l, gap)
    ensures Trimmed(Written(l, before, op, after, r), IsSpace)
    ensures After(true, l) == EndsClosed(l)
  {
    var gap := before + (op.Word() + (after + r));
    if before != "" {
      assert gap[0] == before[0];
    }
    assert gap == before + op.Word() + after + r;
    assert gap[|gap| - 1] == r[|r| - 1];
  }

  lemma MissedNet(op: Operator, before: string, after: string)
    requires All(before, IsSpace) && All(after, IsSpace)
    ensures Net(before + (op.Word() + after)) == 0
  {
    hide IsSpace;
    SpaceNet(before);
    SpaceNet(after);
    assert Net(op.Word()) == 0 by {
      WordLevel(op.Word(), 0);
      LevelNet(op.Word(), 0);
    }
    hide Net;
    NetConcat(before, op.Word() + after);
    NetConcat(op.Word(), after);
  }

  // ----- What that means for two identifiers.

  lemma AtomIsPart(op: Operator, a: string)
    requires IsAtom(a)
    ensures IsPart(op, a) && !EndsClosed(a) && !StartsOpen(a)
  {
    hide Scan, Quiet, Level, IsSpace, KeywordFree, OpMatch, FreeOf;
    assert IsSpace(' ') by { BlankIsSpace(); }
    assert !IsPunctuation(a[0]) && !IsPunctuation(a[|a| - 1]);
    QuietAtom(op, a, " ", true, true);
    FreeIff(op, a);
  }

  /** A disjunction of two identifiers: with a blank or tab to the left of OR it means what it
      says; with line breaks alone the whole text is looked up as if it were one licence. */
  lemma OrOfTwoAtoms(a: string, before: string, after: string, b: string, allow: set<string>)
    requires IsAtom(a) && IsAtom(b)
    requires All(before, IsSpace) && before != "" && All(after, IsSpace) && after != ""
    ensures var e := Written(a, before, OR, after, b);
            Satisfied(e, allow)
            == if HasBlank(before) then Allowed(a, allow) || Allowed(b, allow) else Allowed(e, allow)
  {
    hide *;
    var e := Written(a, before, OR, after, b);
    AtomIsPart(OR, a);
    AtomIsPart(OR, b);
    WrittenTrimmed(OR, a, before, after, b);
    OperatorSeenIff(OR, a, before, after, b);
    WrittenNotWrapped(a, before, OR, after, b);
    UnwrapStep(e);
    SatisfiedStep(e, allow);
    AtomSatisfied(a, allow);
    AtomSatisfied(b, allow);
    if HasBlank(before) {
      assert TopLevelParts(e, OR) == [a, b];
      assert Satisfied(e, allow) <==> exists i :: 0 <= i < 2 && Satisfied([a, b][i], allow);
      assert [a, b][0] == a && [a, b][1] == b;
    } else {
      OrNotAnd(a, before, after, b);
    }
  }

  lemma WrittenNotWrapped(l: string, before: string, op: Operator, after: string, r: string)
    requires l != "" && !StartsOpen(l)
    ensures !StartsOpen(Written(l, before, op, after, r))
  {
  }

  lemma AtomSatisfied(a: string, allow: set<string>)
    requires IsAtom(a)
    ensures Satisfied(a, allow) == Allowed(a, allow)
  {
    hide Satisfied, Allowed, IsAtom;
    EvaluatorAgrees(Atom(a), allow);
  }

  lemma OrNotAnd(a: string, before: string, after: string, b: string)
    requires IsAtom(a) && IsAtom(b)
    requires All(before, IsSpace) && before != "" && All(after, IsSpace)
    ensures var e := Written(a, before, OR, after, b); TopLevelParts(e, AND) == [e]
  {
    hide Scan, Quiet, IsAtom, IsSpace, Net, OpMatch, IsPart, Trim, EndsClosed;
    var x, e := before + (OR.Word() + after), Written(a, before, OR, after, b);
    AtomIsPart(AND, a);
    AtomIsPart(AND, b);
    PartFacts(AND, a);
    PartFacts(AND, b);
    GapApart(OR, a, before, after, b);
    PartNoOperator(AND, b, "");
    assert b + "" == b && before + (OR.Word() + (after + b)) == x + b;
    QuietOther(AND, Spaced(before, after), b, After(true, a));
    assert before + OR.Word() + after == x;
    MissedNet(OR, before, after);
    ScanThrough(AND, a, x, b);
    StripTrimmed("", e, "");
    SplitFromScan(AND, e, [e], [e]);
  }

  /** The input that shows it: MIT is allowed, yet an expression offering MIT is turned down. */
  lemma LineBreakCounterexample()
    ensures IsAtom("MIT") && IsAtom("ISC")
    ensures var e := Written("MIT", "\n", OR, " ", "ISC");
            e == "MIT\nOR ISC" && !Satisfied(e, {"MIT"}) && Allowed("MIT", {"MIT"})
  {
    hide Satisfied;
    assert KeywordFree("MIT", true) by { assert KeywordFree("IT", false) && KeywordFree("T", false); }
    assert KeywordFree("ISC", true) by { assert KeywordFree("SC", false) && KeywordFree("C", false); }
    assert !HasBlank("\n");
    OrOfTwoAtoms("MIT", "\n", " ", "ISC", {"MIT"});
    var e := "MIT\nOR ISC";
    assert e[|e| - 1] == 'C' && TrimEnd(e, IsPlus) == e;
    assert |e| == 10;
  }
}
