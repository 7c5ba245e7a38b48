/** The splitter on arbitrary text, well formed or not: where it cuts, said without its loop. */
module LicenseSeparators {
  import opened Text
  import opened LicenseSplit
  import opened LicenseScan
  import opened LicenseAudit
  import opened LicenseGrammar
  import opened LicenseJoin

  // ----- Characters and words.

  lemma Words()
    ensures AND.Word() == "AND" && OR.Word() == "OR"
  {
  }

  lemma OpensIff(op: Operator, s: string)
    ensures op.Opens(s) <==> |op.Word()| <= |s| && s[..|op.Word()|] == op.Word()
    ensures op.Length() == |op.Word()|
  {
    if op == AND {
      assert |s| >= 3 ==> (s[..3] == "AND" <==> s[0] == 'A' && s[1] == 'N' && s[2] == 'D');
    } else {
      assert |s| >= 2 ==> (s[..2] == "OR" <==> s[0] == 'O' && s[1] == 'R');
    }
  }

  /** The white space that is trimmed, and that may surround an operator, character by character. */
  lemma WhiteSpace(c: char)
    ensures IsSpace(c)
       <==> c in "\t\n\U{b}\U{c}\r\U{1c}\U{1d}\U{1e}\U{1f} \U{85}\U{a0}\U{1680}\U{2000}\U{2001}\U{2002}\U{2003}\U{2004}"
              || c in "\U{2005}\U{2006}\U{2007}\U{2008}\U{2009}\U{200a}\U{2028}\U{2029}\U{202f}\U{205f}\U{3000}"
  {
  }

  /** The depth is the number of opening parentheses less that of closing ones. */
  lemma {:induction false} NetCounts(s: string)
    ensures Net(s) + multiset(s)[')'] == multiset(s)['(']
  {
    if s != "" {
      NetCounts(s[1..]);
      assert s == [s[0]] + s[1..];
    }
  }

  lemma {:induction false} LevelPrefixes(s: string, d: nat)
    ensures Level(s, d) >= 0 <==> forall i :: 0 <= i <= |s| ==> d + Net(s[..i]) >= 0
    decreases |s|
  {
    assert s[..0] == "";
    if s != "" {
      var e := d + Delta(s[0]);
      forall i | 0 <= i < |s| ensures Net(s[..i + 1]) == Delta(s[0]) + Net(s[1..][..i]) {
        assert s[..i + 1][1..] == s[1..][..i];
      }
      if e >= 0 {
        LevelPrefixes(s[1..], e);
        assert forall i :: 0 < i <= |s| ==> d + Net(s[..i]) == e + Net(s[1..][..i - 1]);
      } else {
        assert d + Net(s[..1]) == e by { assert s[1..][..0] == ""; }
      }
    }
  }

  /** When a pair of outer parentheses comes off: nothing inside closes more than it opens, and the
      inside is balanced or one operand. */
  lemma WrapsIff(inner: string)
    ensures Wraps(inner)
       <==> && (forall i :: 0 <= i <= |inner| ==> multiset(inner[..i])['('] >= multiset(inner[..i])[')'])
            && (multiset(inner)['('] == multiset(inner)[')'] || TopLevelParts(inner, OR) == [inner])
  {
    hide TopLevelParts, Level, Net;
    LevelPrefixes(inner, 0);
    CountNet(inner);
    NetCounts(inner);
    forall i | 0 <= i <= |inner| ensures Net(inner[..i]) + multiset(inner[..i])[')'] == multiset(inner[..i])['('] {
      NetCounts(inner[..i]);
    }
  }

  /** An identifier is allowed as it stands, or without all the `+` at its end. */
  lemma {:induction false} AllowedIff(core: string, plus: string, allow: set<string>)
    requires core == "" || core[|core| - 1] != '+'
    requires forall i :: 0 <= i < |plus| ==> plus[i] == '+'
    ensures Allowed(core + plus, allow) <==> core in allow || core + plus in allow
  {
    TrimEndPadded(core, plus, IsPlus);
  }

  /** The operator's word stands at `i`, between white space or an end of the text on either side. */
  predicate WordStands(op: Operator, x: string, i: int) {
    var w := op.Word();
    && 0 <= i && i + |w| <= |x| && x[i..i + |w|] == w
    && (i == 0 || IsSpace(x[i - 1])) && (i + |w| == |x| || IsSpace(x[i + |w|]))
  }

  /** What counts as an identifier in all that is said about trees: any text without parentheses and
      slashes, with no white space at its ends, in which neither operator stands as a word. */
  lemma AtomIff(id: string)
    ensures IsAtom(id)
       <==> && id != "" && !IsSpace(id[0]) && !IsSpace(id[|id| - 1])
            && '(' !in id && ')' !in id && '/' !in id
            && forall op, i :: i >= 0 ==> !WordStands(op, id, i)
  {
    hide KeywordFree, WordStands, IsSpace;
    KeywordFreeIff(id, 0);
    assert id[0..] == id;
    assert forall c :: c in id <==> exists k :: 0 <= k < |id| && id[k] == c;
  }

  predicate KeywordAt(op: Operator, x: string, i: int) {
    0 <= i < |x| && (i == 0 || IsSpace(x[i - 1])) && IsKeyword(op, x[i..])
  }

  lemma {:induction false} KeywordFreeIff(x: string, i: nat)
    requires i <= |x|
    ensures KeywordFree(x[i..], i == 0 || IsSpace(x[i - 1])) <==> forall op, k :: i <= k ==> !WordStands(op, x, k)
    decreases |x| - i
  {
    hide IsSpace, IsKeyword, WordStands;
    WordsStandInside(x);
    if i < |x| {
      KeywordAtIff(OR, x, i);
      KeywordAtIff(AND, x, i);
      assert x[i..][1..] == x[i + 1..] && x[i..][0] == x[i];
      KeywordFreeIff(x, i + 1);
      assert KeywordFree(x[i..], i == 0 || IsSpace(x[i - 1]))
        <==> !KeywordAt(OR, x, i) && !KeywordAt(AND, x, i) && KeywordFree(x[i + 1..], IsSpace(x[i]));
      NoneStandsIff(x, i);
    }
  }

  lemma NoneStandsIff(x: string, i: nat)
    ensures (forall op, k :: i <= k ==> !WordStands(op, x, k))
       <==> !WordStands(OR, x, i) && !WordStands(AND, x, i) && forall op, k :: i + 1 <= k ==> !WordStands(op, x, k)
  {
    hide WordStands;
    forall op, k | i <= k && !WordStands(OR, x, i) && !WordStands(AND, x, i)
                   && forall o, j :: i + 1 <= j ==> !WordStands(o, x, j)
      ensures !WordStands(op, x, k)
    {
      match op
      case OR => assert k == i || !WordStands(op, x, k);
      case AND => assert k == i || !WordStands(op, x, k);
    }
  }

  lemma KeywordAtIff(op: Operator, x: string, i: nat)
    requires i <= |x|
    ensures KeywordAt(op, x, i) <==> WordStands(op, x, i)
  {
    OpensIff(op, x[i..]);
    var w := |op.Word()|;
    if i + w <= |x| {
      assert x[i..][..w] == x[i..i + w];
    }
  }

  lemma WordsStandInside(x: string)
    ensures forall op, k :: k >= |x| ==> !WordStands(op, x, k)
  {
    Words();
  }

  // ----- Separators.

  /** The first `n` characters of `s` are white space or none, the operator's word, and all the white
      space behind it, of which there is some. */
  ghost predicate MatchOf(op: Operator, s: string, n: int) {
    0 < n <= |s| && (n == |s| || !IsSpace(s[n])) && exists j :: Spans(op, s, j, n)
  }

  ghost predicate Spans(op: Operator, s: string, j: int, n: int)
    requires n <= |s|
  {
    var w := op.Word();
    0 <= j && j + |w| < n && All(s[..j], IsSpace) && s[j..j + |w|] == w && All(s[j + |w|..n], IsSpace)
  }

  /** A separator of `n` characters at `i`: outside parentheses, a slash for OR, or the operator at the
      start of the text or right behind a blank, a tab or a closing parenthesis. */
  ghost predicate Separator(op: Operator, e: string, i: int, n: int) {
    && 0 <= i < |e| && 0 < n <= |e| - i
    && multiset(e[..i + 1])['('] == multiset(e[..i + 1])[')']
    && (if op == OR && e[i] == '/' then n == 1
        else (i == 0 || e[i - 1] == ' ' || e[i - 1] == '\t' || e[i - 1] == ')') && MatchOf(op, e[i..], n))
  }

  ghost predicate NoSeparator(op: Operator, e: string, from: int, to: int) {
    forall i, n :: from <= i < to ==> !Separator(op, e, i, n)
  }

  /** From `cursor` on, the leftmost separators cut `e` into `raw`. */
  ghost predicate CutInto(op: Operator, e: string, cursor: nat, raw: seq<string>)
    decreases |raw|
  {
    cursor <= |e| && raw != [] &&
    if |raw| == 1 then NoSeparator(op, e, cursor, |e|) && raw[0] == e[cursor..]
    else exists i: nat, n: nat :: FirstCut(op, e, cursor, i, n, raw[0]) && CutInto(op, e, i + n, raw[1..])
  }

  ghost predicate FirstCut(op: Operator, e: string, cursor: int, i: nat, n: nat, part: string) {
    0 <= cursor <= i && Separator(op, e, i, n) && NoSeparator(op, e, cursor, i) && part == e[cursor..i]
  }

  lemma {:induction false} LeadingSpacesIff(s: string)
    ensures var n := LeadingSpaces(s); All(s[..n], IsSpace) && (n < |s| ==> !IsSpace(s[n]))
  {
    hide IsSpace;
    if s != "" && IsSpace(s[0]) {
      LeadingSpacesIff(s[1..]);
      var n := LeadingSpaces(s);
      assert s[..n] == [s[0]] + s[1..][..n - 1];
    }
  }

  /** What the regular expression matches. */
  lemma {:induction false} MatchIff(op: Operator, s: string, n: int)
    ensures n > 0 ==> (OpMatch(s, op) == n <==> MatchOf(op, s, n))
    ensures OpMatch(s, op) <= |s|
    decreases |s|
  {
    hide IsSpace;
    if n > 0 {
      if s != "" && IsSpace(s[0]) {
        MatchIff(op, s[1..], n - 1);
        MatchShift(op, s, n);
        OpMatchLong(op, s[1..]);
      } else if s != "" {
        MatchHere(op, s, n);
      }
    }
  }

  lemma {:induction false} OpMatchLong(op: Operator, s: string)
    ensures OpMatch(s, op) > 0 ==> OpMatch(s, op) > 1
  {
    hide IsSpace;
    if s != "" && IsSpace(s[0]) {
      OpMatchLong(op, s[1..]);
    }
  }

  lemma MatchShift(op: Operator, s: string, n: int)
    requires s != "" && IsSpace(s[0]) && n > 0
    ensures MatchOf(op, s, n) <==> MatchOf(op, s[1..], n - 1)
  {
    hide IsSpace, Spans, All;
    TooShort(op, s);
    if 1 < n <= |s| {
      var t, m := s[1..], n - 1;
      if j :| Spans(op, s, j, n) {
        SpansShift(op, s, j, n);
      }
      if j :| Spans(op, t, j, m) {
        SpansShift(op, s, j + 1, n);
      }
    }
  }

  lemma TooShort(op: Operator, s: string)
    ensures !MatchOf(op, s, 1)
  {
    Words();
  }

  lemma SpansShift(op: Operator, s: string, j: int, n: int)
    requires s != "" && IsSpace(s[0]) && 0 < n <= |s|
    ensures Spans(op, s, j, n) <==> Spans(op, s[1..], j - 1, n - 1)
  {
    hide IsSpace, All;
    var w := |op.Word()|;
    NotHere(op, s, n);
    if 0 < j && j + w < n {
      SliceShift(s, j, w, n);
      AllCons(s[0], s[1..][..j - 1]);
    }
  }

  lemma SliceShift(s: string, j: int, w: nat, n: int)
    requires 0 < j && j + w < n <= |s|
    ensures s[..j] == [s[0]] + s[1..][..j - 1]
    ensures s[1..][j - 1..j - 1 + w] == s[j..j + w] && s[1..][j - 1 + w..n - 1] == s[j + w..n]
  {
  }

  lemma AllCons(c: char, s: string)
    ensures All([c] + s, IsSpace) <==> IsSpace(c) && All(s, IsSpace)
  {
    hide IsSpace;
    assert ([c] + s)[0] == c;
    assert forall i :: 0 <= i < |s| ==> ([c] + s)[i + 1] == s[i];
  }

  lemma NotHere(op: Operator, s: string, n: int)
    requires s != "" && IsSpace(s[0]) && n <= |s|
    ensures !Spans(op, s, 0, n)
  {
    WordFacts(op, "");
    assert op.Word() + "" == op.Word();
    hide IsSpace;
    assert |op.Word()| < n ==> s[0..0 + |op.Word()|][0] == s[0];
  }

  lemma MatchHere(op: Operator, s: string, n: int)
    requires s != "" && !IsSpace(s[0]) && n > 0
    ensures OpMatch(s, op) == n <==> MatchOf(op, s, n)
  {
    OpensIff(op, s);
    var w := |op.Word()|;
    hide IsSpace;
    if op.Opens(s) && |s| > w && IsSpace(s[w]) {
      LeadingSpacesIff(s[w..]);
      var m := w + LeadingSpaces(s[w..]);
      assert s[w..][..LeadingSpaces(s[w..])] == s[w..m] && s[..0] == "" && s[0..0 + w] == op.Word();
      assert LeadingSpaces(s[w..]) > 0;
      assert Spans(op, s, 0, m) && MatchOf(op, s, m);
      if MatchOf(op, s, n) {
        OneMatch(op, s, m, n);
      }
    } else if MatchOf(op, s, n) {
      var j :| Spans(op, s, j, n);
      SpansHere(op, s, j, n);
    }
  }

  /** Text that does not start with white space matches from its start. */
  lemma SpansHere(op: Operator, s: string, j: int, n: int)
    requires s != "" && !IsSpace(s[0]) && n <= |s| && Spans(op, s, j, n)
    ensures j == 0 && op.Opens(s) && IsSpace(s[op.Length()])
  {
    OpensIff(op, s);
    SpansStart(op, s, j, n);
    hide IsSpace;
    var w := |op.Word()|;
    assert s[..w] == s[0..w] && s[w..n][0] == s[w];
  }

  lemma SpansStart(op: Operator, s: string, j: int, n: int)
    requires n <= |s| && Spans(op, s, j, n)
    ensures j > 0 ==> IsSpace(s[0])
  {
    hide IsSpace;
    if j > 0 {
      assert s[..j][0] == s[0];
    }
  }

  lemma OneMatch(op: Operator, s: string, m: int, n: int)
    requires s != "" && !IsSpace(s[0]) && MatchOf(op, s, m) && MatchOf(op, s, n)
    ensures m == n
  {
    var i :| Spans(op, s, i, m);
    var j :| Spans(op, s, j, n);
    SpansHere(op, s, i, m);
    SpansHere(op, s, j, n);
    hide IsSpace;
    var w := |op.Word()|;
    assert forall k :: w <= k < m ==> s[k] == s[w..m][k - w];
    assert forall k :: w <= k < n ==> s[k] == s[w..n][k - w];
  }

  // ----- The scanner cuts at separators.

  lemma CutIff(op: Operator, e: string, i: nat, n: int)
    requires i < |e| && n > 0
    ensures CutLength(op, e[i..], BoundaryAt(e, i), Net(e[..i + 1])) == n <==> Separator(op, e, i, n)
  {
    hide OpMatch, MatchOf, Net;
    NetCounts(e[..i + 1]);
    MatchIff(op, e[i..], n);
    MatchBound(op, e[i..], n);
    assert e[i..][0] == e[i];
  }

  lemma MatchBound(op: Operator, s: string, n: int)
    ensures MatchOf(op, s, n) ==> n <= |s|
  {
  }

  /** Inside a separator the depth stays what it is. */
  lemma SeparatorFlat(op: Operator, e: string, i: nat, n: nat)
    requires Separator(op, e, i, n)
    ensures Net(e[..i + n]) == Net(e[..i + 1])
  {
    hide Net, MatchOf;
    var first, rest := e[..i + 1], e[i + 1..i + n];
    assert e[..i + n] == first + rest;
    NetConcat(first, rest);
    if n == 1 {
      assert rest == "" && Net("") == 0 by { NetOne(' '); }
    } else {
      MatchFlat(op, e[i..], n);
      assert rest == e[i..][1..n];
    }
  }

  lemma MatchFlat(op: Operator, s: string, n: int)
    requires MatchOf(op, s, n) && n > 1
    ensures Net(s[1..n]) == 0
  {
    var j :| Spans(op, s, j, n);
    var w := op.Word();
    assert s[..n] == s[..j] + s[j..j + |w|] + s[j + |w|..n];
    assert s[..n] == [s[0]] + s[1..n];
    hide IsSpace;
    SpaceNet(s[..j]);
    SpaceNet(s[j + |w|..n]);
    WordLevel(w, 0);
    LevelNet(w, 0);
    NetConcat(s[..j] + w, s[j + |w|..n]);
    NetConcat(s[..j], w);
    NetConcat([s[0]], s[1..n]);
    NetOne(s[0]);
    assert Delta(s[0]) == 0 by { MatchStart(op, s, j, n); }
  }

  lemma MatchStart(op: Operator, s: string, j: int, n: int)
    requires n <= |s| && Spans(op, s, j, n)
    ensures Delta(s[0]) == 0
  {
    if j > 0 {
      assert s[..j][0] == s[0];
      SpaceFacts(s[0]);
    } else {
      assert s[0..0 + |op.Word()|][0] == s[0];
    }
  }

  lemma {:induction false} ScanCuts(op: Operator, e: string, cursor: nat, i: nat)
    requires cursor <= i <= |e| && NoSeparator(op, e, cursor, i)
    ensures CutInto(op, e, cursor, Scan(op, e[i..], BoundaryAt(e, i), Net(e[..i]), e[cursor..i]))
    decreases |e| - i
  {
    hide Separator, CutLength, Net, BoundaryAt, Scan, IsBoundary, Delta;
    var s, b := e[i..], BoundaryAt(e, i);
    if i == |e| {
      ScanEnd(op, b, Net(e[..i]), e[cursor..i]);
      assert e[i..] == "" && e[cursor..i] == e[cursor..];
    } else {
      NetNext(e, i);
      var n := CutLength(op, s, b, Net(e[..i + 1]));
      ScanStep(op, s, b, Net(e[..i]), e[cursor..i], n);
      assert s[0] == e[i];
      if n > 0 {
        CutIff(op, e, i, n);
        SeparatorIn(op, e, i, n);
        SeparatorFlat(op, e, i, n);
        BoundaryNext(e, i, n);
        assert NoSeparator(op, e, i + n, i + n) && e[i + n..i + n] == "" && s[n..] == e[i + n..];
        ScanCuts(op, e, i + n, i + n);
        var rest := Scan(op, e[i + n..], BoundaryAt(e, i + n), Net(e[..i + n]), "");
        var raw := [e[cursor..i]] + rest;
        assert raw[1..] == rest && rest != [];
        assert FirstCut(op, e, cursor, i, n, raw[0]) && CutInto(op, e, i + n, raw[1..]);
        assert raw == Scan(op, s, b, Net(e[..i]), e[cursor..i]);
      } else {
        forall m ensures !Separator(op, e, i, m) {
          if m > 0 {
            CutIff(op, e, i, m);
          } else {
            SeparatorIn(op, e, i, m);
          }
        }
        BoundaryNext(e, i, 1);
        assert s[1..] == e[i + 1..] && e[cursor..i] + [e[i]] == e[cursor..i + 1];
        ScanCuts(op, e, cursor, i + 1);
      }
    }
  }

  lemma ScanEnd(op: Operator, boundary: bool, depth: int, buffer: string)
    ensures Scan(op, "", boundary, depth, buffer) == [buffer]
  {
  }

  lemma NetNext(e: string, i: nat)
    requires i < |e|
    ensures Net(e[..i + 1]) == Net(e[..i]) + Delta(e[i])
  {
    assert e[..i + 1] == e[..i] + [e[i]];
    NetConcat(e[..i], [e[i]]);
    NetOne(e[i]);
  }

  lemma SeparatorIn(op: Operator, e: string, i: int, n: int)
    ensures Separator(op, e, i, n) ==> 0 <= i && 0 < n && i + n <= |e|
  {
  }

  lemma BoundaryNext(e: string, i: nat, n: nat)
    requires 0 < n && i + n <= |e|
    ensures BoundaryAt(e, i + n) == IsBoundary(e[i..][n - 1])
  {
  }

  lemma OneSeparator(op: Operator, e: string, i: int, m: int, n: int)
    requires Separator(op, e, i, m) && Separator(op, e, i, n)
    ensures m == n
  {
    SeparatorIn(op, e, i, m);
    SeparatorIn(op, e, i, n);
    hide Separator;
    CutIff(op, e, i, m);
    CutIff(op, e, i, n);
  }

  lemma CutParts(op: Operator, e: string, cursor: nat, raw: seq<string>) returns (i: nat, n: nat)
    requires CutInto(op, e, cursor, raw) && |raw| > 1
    ensures cursor <= i && Separator(op, e, i, n) && NoSeparator(op, e, cursor, i) && i <= |e| && raw[0] == e[cursor..i]
    ensures CutInto(op, e, i + n, raw[1..])
  {
    i, n :| FirstCut(op, e, cursor, i, n, raw[0]) && CutInto(op, e, i + n, raw[1..]);
    SeparatorIn(op, e, i, n);
    hide Separator, NoSeparator, CutInto;
  }

  lemma CutWhole(op: Operator, e: string, cursor: nat, raw: seq<string>)
    requires CutInto(op, e, cursor, raw)
    ensures cursor <= |e| && raw != []
    ensures |raw| == 1 ==> NoSeparator(op, e, cursor, |e|) && raw == [e[cursor..]]
  {
    hide Separator, NoSeparator, FirstCut;
  }

  /** There is only one way to cut. */
  lemma {:induction false} OneCut(op: Operator, e: string, cursor: nat, a: seq<string>, b: seq<string>)
    requires CutInto(op, e, cursor, a) && CutInto(op, e, cursor, b)
    ensures a == b
    decreases |a|
  {
    hide *;
    CutWhole(op, e, cursor, a);
    CutWhole(op, e, cursor, b);
    if |a| > 1 && |b| > 1 {
      var i, n := CutParts(op, e, cursor, a);
      var j, m := CutParts(op, e, cursor, b);
      SameCut(op, e, cursor, i, n, j, m);
      OneCut(op, e, i + n, a[1..], b[1..]);
      assert a == [a[0]] + a[1..] && b == [b[0]] + b[1..];
    } else if |a| > 1 {
      var i, n := CutParts(op, e, cursor, a);
      SomeSeparator(op, e, cursor, i, n);
    } else if |b| > 1 {
      var j, m := CutParts(op, e, cursor, b);
      SomeSeparator(op, e, cursor, j, m);
    }
  }

  lemma SameCut(op: Operator, e: string, cursor: nat, i: nat, n: nat, j: nat, m: nat)
    requires Separator(op, e, i, n) && NoSeparator(op, e, cursor, i) && cursor <= i
    requires Separator(op, e, j, m) && NoSeparator(op, e, cursor, j) && cursor <= j
    ensures i == j && n == m
  {
    hide Separator;
    OneSeparator(op, e, i, n, if i == j then m else n);
  }

  lemma SomeSeparator(op: Operator, e: string, cursor: nat, i: nat, n: nat)
    requires Separator(op, e, i, n) && cursor <= i
    ensures !NoSeparator(op, e, cursor, |e|)
  {
    SeparatorIn(op, e, i, n);
    hide Separator;
  }

  // ----- Parts that are white space only are dropped, the others trimmed.

  lemma {:induction false} CleanConcat(a: seq<string>, b: seq<string>)
    ensures Clean(a + b) == Clean(a) + Clean(b)
  {
    hide Trim;
    if a == [] {
      assert a + b == b;
    } else {
      assert (a + b)[1..] == a[1..] + b;
      CleanConcat(a[1..], b);
    }
  }

  lemma CleanOne(pre: string, core: string, post: string)
    requires All(pre, IsSpace) && Trimmed(core, IsSpace) && All(post, IsSpace)
    ensures Clean([pre + core + post]) == if core == "" then [] else [core]
  {
    hide IsSpace, TrimEnd, TrimStart;
    TrimPadded(pre, core, post, IsSpace);
    assert [pre + core + post][1..] == [];
  }

  // ----- The main result.

  /** For every text: the split is the one way to cut it at its leftmost separators, with the parts
      trimmed and the empty ones dropped. */
  lemma SplitExact(op: Operator, e: string, raw: seq<string>)
    ensures CutInto(op, e, 0, raw) <==> Scan(op, e, true, 0, "") == raw
    ensures CutInto(op, e, 0, raw) ==> TopLevelParts(e, op) == Clean(raw)
  {
    hide CutInto, Scan, Clean;
    ScanCuts(op, e, 0, 0);
    var scanned := Scan(op, e, true, 0, "");
    assert e[0..] == e && e[..0] == "" && e[0..0] == "";
    if CutInto(op, e, 0, raw) {
      OneCut(op, e, 0, raw, scanned);
    }
  }
}
