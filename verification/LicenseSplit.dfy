/** The string scanner of the licence audit: splitting an SPDX expression on AND or OR at
    parenthesis depth 0, directly on the text. */
module LicenseSplit {
  import opened Text

  datatype Operator = AND | OR {
    function Word(): string {
      match this
      case AND => "AND"
      case OR => "OR"
    }

    /** Whether `s` starts with the operator's word. */
    predicate Opens(s: string) {
      match this
      case AND => |s| >= 3 && s[0] == 'A' && s[1] == 'N' && s[2] == 'D'
      case OR => |s| >= 2 && s[0] == 'O' && s[1] == 'R'
    }

    function Length(): nat {
      if this == AND then 3 else 2
    }
  }

  /** White space as Python's `str.strip` and `\s` understand it. */
  predicate IsSpace(c: char) {
    || '\t' <= c <= '\r'
    || '\U{1c}' <= c <= ' '
    || c == '\U{85}' || c == '\U{a0}' || c == '\U{1680}'
    || '\U{2000}' <= c <= '\U{200a}'
    || c == '\U{2028}' || c == '\U{2029}' || c == '\U{202f}' || c == '\U{205f}' || c == '\U{3000}'
  }

  function Strip(s: string): (r: string)
    ensures |r| <= |s|
  {
    Trim(s, IsSpace)
  }

  /** The characters after which the scanner is willing to see an operator. */
  predicate IsBoundary(c: char) {
    c == ' ' || c == '\t' || c == ')'
  }

  /** Whether the scanner standing at `index` may see an operator there. */
  predicate BoundaryAt(s: string, index: nat)
    requires index <= |s|
  {
    index == 0 || IsBoundary(s[index - 1])
  }

  function Delta(c: char): int {
    if c == '(' then 1 else if c == ')' then -1 else 0
  }

  function LeadingSpaces(s: string): (n: nat)
    ensures n <= |s|
  {
    if s != "" && IsSpace(s[0]) then 1 + LeadingSpaces(s[1..]) else 0
  }

  /** Length of the match of `\s*` operator `\s+` at the start of `s`; 0 when there is none. */
  function OpMatch(s: string, op: Operator): (n: nat)
    ensures n <= |s|
  {
    if s == "" then 0
    else if IsSpace(s[0]) then
      var n := OpMatch(s[1..], op);
      if n == 0 then 0 else n + 1
    else if op.Opens(s) && |s| > op.Length() && IsSpace(s[op.Length()]) then
      op.Length() + LeadingSpaces(s[op.Length()..])
    else 0
  }

  /** How many characters the scanner, at depth `depth` after counting `s[0]`, skips as a
      separator at the start of `s`; 0 when there is none. The slash is the legacy OR. */
  function CutLength(op: Operator, s: string, boundary: bool, depth: int): (n: nat)
    requires s != ""
    ensures n <= |s|
  {
    if depth != 0 then 0
    else if op == OR && s[0] == '/' then 1
    else if boundary then OpMatch(s, op)
    else 0
  }

  /** The raw parts the scanner still produces from the rest `s` of its input, at depth `depth`,
      with `buffer` collected since the last cut. */
  function Scan(op: Operator, s: string, boundary: bool, depth: int, buffer: string): (parts: seq<string>)
    ensures parts != []
    decreases |s|
  {
    if s == "" then [buffer]
    else
      var d := depth + Delta(s[0]);
      var n := CutLength(op, s, boundary, d);
      if n > 0 then [buffer] + Scan(op, s[n..], IsBoundary(s[n - 1]), d, "")
      else Scan(op, s[1..], IsBoundary(s[0]), d, buffer + [s[0]])
  }

  /** The stripped, non-empty parts. */
  function Clean(parts: seq<string>): (r: seq<string>)
    ensures forall p :: p in r ==> p != "" && Trimmed(p, IsSpace)
  {
    if parts == [] then []
    else
      var head := Strip(parts[0]);
      (if head == "" then [] else [head]) + Clean(parts[1..])
  }

  function TopLevelParts(expression: string, op: Operator): (r: seq<string>)
    ensures |r| > 1 ==> forall p :: p in r ==> |p| < |expression|
  {
    var raw := Scan(op, expression, true, 0, "");
    ScanShortens(op, expression, true, 0, "");
    CleanShortens(raw);
    Clean(raw)
  }

  // ----- A split into several parts leaves only shorter parts.

  ghost function TotalLength(parts: seq<string>): nat {
    if parts == [] then 0 else |parts[0]| + TotalLength(parts[1..])
  }

  lemma {:induction false} ScanShortens(op: Operator, s: string, boundary: bool, depth: int, buffer: string)
    ensures TotalLength(Scan(op, s, boundary, depth, buffer)) <= |buffer| + |s|
    decreases |s|
  {
    if s != "" {
      var d := depth + Delta(s[0]);
      var n := CutLength(op, s, boundary, d);
      if n > 0 {
        ScanShortens(op, s[n..], IsBoundary(s[n - 1]), d, "");
      } else {
        ScanShortens(op, s[1..], IsBoundary(s[0]), d, buffer + [s[0]]);
      }
    }
  }

  lemma {:induction false} CleanShortens(raw: seq<string>)
    ensures forall p :: p in Clean(raw) ==> |p| + |Clean(raw)| - 1 <= TotalLength(raw)
    ensures |Clean(raw)| <= TotalLength(raw)
  {
    if raw != [] {
      CleanShortens(raw[1..]);
    }
  }

  // ----- The loop.

  /** One step of the scanner. */
  lemma ScanStep(op: Operator, s: string, boundary: bool, depth: int, buffer: string, n: nat)
    requires s != "" && n == CutLength(op, s, boundary, depth + Delta(s[0]))
    ensures Scan(op, s, boundary, depth, buffer)
         == if n > 0 then [buffer] + Scan(op, s[n..], IsBoundary(s[n - 1]), depth + Delta(s[0]), "")
            else Scan(op, s[1..], IsBoundary(s[0]), depth + Delta(s[0]), buffer + [s[0]])
  {
  }

  /** `raw` are the parts cut off so far, and the scanner standing at `index` yields the others. */
  ghost predicate Pending(e: string, op: Operator, raw: seq<string>, index: nat, depth: int, buffer: string) {
    && index <= |e|
    && raw + Scan(op, e[index..], BoundaryAt(e, index), depth, buffer) == Scan(op, e, true, 0, "")
  }

  lemma PendingStart(e: string, op: Operator)
    ensures Pending(e, op, [], 0, 0, "")
  {
    assert e[0..] == e;
  }

  lemma DropDrop(e: string, i: nat, n: nat)
    requires i + n <= |e|
    ensures e[i..][n..] == e[i + n..]
  {
  }

  lemma Reassociate<T>(a: seq<T>, b: T, c: seq<T>)
    ensures a + ([b] + c) == a + [b] + c
  {
  }

  lemma PendingCut(e: string, op: Operator, raw: seq<string>, index: nat, depth: int, buffer: string, n: nat)
    requires index < |e| && Pending(e, op, raw, index, depth, buffer)
    requires 0 < n == CutLength(op, e[index..], BoundaryAt(e, index), depth + Delta(e[index]))
    ensures Pending(e, op, raw + [buffer], index + n, depth + Delta(e[index]), "")
  {
    hide Scan, OpMatch, CutLength, IsBoundary, Delta;
    ScanStep(op, e[index..], BoundaryAt(e, index), depth, buffer, n);
    DropDrop(e, index, n);
    Reassociate(raw, buffer, Scan(op, e[index + n..], BoundaryAt(e, index + n), depth + Delta(e[index]), ""));
  }

  lemma PendingKeep(e: string, op: Operator, raw: seq<string>, index: nat, depth: int, buffer: string)
    requires index < |e| && Pending(e, op, raw, index, depth, buffer)
    requires CutLength(op, e[index..], BoundaryAt(e, index), depth + Delta(e[index])) == 0
    ensures Pending(e, op, raw, index + 1, depth + Delta(e[index]), buffer + [e[index]])
  {
    hide Scan, OpMatch, CutLength, IsBoundary, Delta;
    ScanStep(op, e[index..], BoundaryAt(e, index), depth, buffer, 0);
    DropDrop(e, index, 1);
  }

  lemma PendingEnd(e: string, op: Operator, raw: seq<string>, depth: int, buffer: string)
    requires Pending(e, op, raw, |e|, depth, buffer)
    ensures Clean(raw + [buffer]) == TopLevelParts(e, op)
  {
    hide Clean;
  }

  /** The while loop of the source. */
  method SplitTopLevel(expression: string, op: Operator) returns (parts: seq<string>)
    ensures parts == TopLevelParts(expression, op)
  {
    hide *;
    var raw: seq<string>, buffer := [], "";
    var depth, index := 0, 0;
    PendingStart(expression, op);
    while index < |expression|
      invariant 0 <= index <= |expression|
      invariant Pending(expression, op, raw, index, depth, buffer)
    {
      var c := expression[index];
      var n := CutLength(op, expression[index..], BoundaryAt(expression, index), depth + Delta(c));
      if n > 0 {
        PendingCut(expression, op, raw, index, depth, buffer, n);
        raw, buffer, depth, index := raw + [buffer], "", depth + Delta(c), index + n;
      } else {
        PendingKeep(expression, op, raw, index, depth, buffer);
        buffer, depth, index := buffer + [c], depth + Delta(c), index + 1;
      }
    }
    PendingEnd(expression, op, raw, depth, buffer);
    parts := Clean(raw + [buffer]);
  }
}
