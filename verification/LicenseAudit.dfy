/** Evaluating a licence expression against the allow list, straight on its text. */
module LicenseAudit {
  import opened Text
  import opened LicenseSplit
  import opened LicenseScan

  predicate StartsOpen(s: string) { s != "" && s[0] == '(' }

  predicate EndsClosed(s: string) { s != "" && s[|s| - 1] == ')' }

  function Count(s: string, c: char): nat {
    if s == "" then 0 else (if s[0] == c then 1 else 0) + Count(s[1..], c)
  }

  /** The test the source makes before taking a pair of outer parentheses off. */
  predicate Wraps(inner: string) {
    && (TopLevelParts(inner, OR) == [inner] || Count(inner, '(') == Count(inner, ')'))
    && Level(inner, 0) >= 0
  }

  /** The stripping loop of `satisfied`. */
  function Unwrap(e: string): (r: string)
    ensures |r| <= |e|
    decreases |e|
  {
    if StartsOpen(e) && EndsClosed(e) && Wraps(e[1..|e| - 1]) then Unwrap(Strip(e[1..|e| - 1])) else e
  }

  predicate IsPlus(c: char) { c == '+' }

  predicate Allowed(id: string, allow: set<string>) {
    TrimEnd(id, IsPlus) in allow || id in allow
  }

  /** What `satisfied` returns, as a function of the text. */
  predicate Satisfied(expression: string, allow: set<string>)
    decreases |expression|
  {
    var e := Unwrap(Strip(expression));
    var ors, ands := TopLevelParts(e, OR), TopLevelParts(e, AND);
    if |ors| > 1 then exists i :: 0 <= i < |ors| && Satisfied(ors[i], allow)
    else if |ands| > 1 then forall i :: 0 <= i < |ands| ==> Satisfied(ands[i], allow)
    else Allowed(e, allow)
  }

  // ----- The code.

  /** `satisfied` as the source runs it: a loop taking outer parentheses off, then short-circuiting
      loops over the branches. */
  method CheckSatisfied(expression: string, allow: set<string>) returns (r: bool)
    ensures r == Satisfied(expression, allow)
    decreases |expression|
  {
    hide *;
    var e := Strip(expression);
    while StartsOpen(e) && EndsClosed(e)
      invariant |e| <= |expression| && Unwrap(e) == Unwrap(Strip(expression))
      decreases |e|
    {
      UnwrapStep(e);
      var inner := e[1..|e| - 1];
      var wraps := StripCandidate(inner);
      if !wraps { break; }
      e := Strip(inner);
    }
    UnwrapStep(e);
    SatisfiedStep(expression, allow);
    var branches := SplitTopLevel(e, OR);
    if |branches| > 1 {
      for i := 0 to |branches|
        invariant forall j :: 0 <= j < i ==> !Satisfied(branches[j], allow)
      {
        var branch := CheckSatisfied(branches[i], allow);
        if branch { return true; }
      }
      return false;
    }
    branches := SplitTopLevel(e, AND);
    if |branches| > 1 {
      for i := 0 to |branches|
        invariant forall j :: 0 <= j < i ==> Satisfied(branches[j], allow)
      {
        var branch := CheckSatisfied(branches[i], allow);
        if !branch { return false; }
      }
      return true;
    }
    r := Allowed(e, allow);
  }

  lemma UnwrapStep(e: string)
    ensures StartsOpen(e) && EndsClosed(e) ==> |e| >= 2
    ensures Unwrap(e) == if StartsOpen(e) && EndsClosed(e) && Wraps(e[1..|e| - 1])
                         then Unwrap(Strip(e[1..|e| - 1])) else e
  {
  }

  lemma SatisfiedStep(expression: string, allow: set<string>)
    ensures var e := Unwrap(Strip(expression));
            var ors, ands := TopLevelParts(e, OR), TopLevelParts(e, AND);
            Satisfied(expression, allow)
            <==> if |ors| > 1 then exists i :: 0 <= i < |ors| && Satisfied(ors[i], allow)
                 else if |ands| > 1 then forall i :: 0 <= i < |ands| ==> Satisfied(ands[i], allow)
                 else Allowed(e, allow)
  {
    hide Unwrap, Trim, TopLevelParts, Allowed;
  }

  /** The inner loop of the source: the depth of `inner` must never be negative. */
  method StripCandidate(inner: string) returns (wraps: bool)
    ensures wraps == Wraps(inner)
  {
    hide Scan, Clean;
    var parts := SplitTopLevel(inner, OR);
    if parts != [inner] && Count(inner, '(') != Count(inner, ')') {
      return false;
    }
    var depth := 0;
    for position := 0 to |inner|
      invariant depth >= 0
      invariant Level(inner, 0) == Level(inner[position..], depth)
    {
      assert inner[position..][1..] == inner[position + 1..];
      depth := depth + Delta(inner[position]);
      if depth < 0 { return false; }
    }
    return true;
  }

  // ----- Properties over every string, well formed or not.

  /** Allowing more licences never turns an accepted expression down. */
  lemma {:induction false} SatisfiedMonotone(expression: string, allow: set<string>, more: set<string>)
    requires allow <= more && Satisfied(expression, allow)
    ensures Satisfied(expression, more)
    decreases |expression|
  {
    hide *;
    SatisfiedStep(expression, allow);
    SatisfiedStep(expression, more);
    var e := Unwrap(Strip(expression));
    var ors, ands := TopLevelParts(e, OR), TopLevelParts(e, AND);
    if |ors| > 1 {
      var i :| 0 <= i < |ors| && Satisfied(ors[i], allow);
      SatisfiedMonotone(ors[i], allow, more);
    } else if |ands| > 1 {
      forall i | 0 <= i < |ands| ensures Satisfied(ands[i], more) {
        SatisfiedMonotone(ands[i], allow, more);
      }
    } else {
      AllowedMonotone(e, allow, more);
    }
  }

  lemma AllowedMonotone(id: string, allow: set<string>, more: set<string>)
    requires allow <= more
    ensures Allowed(id, allow) ==> Allowed(id, more)
    ensures !Allowed(id, {})
  {
  }

  /** Nothing satisfies an empty allow list. */
  lemma {:induction false} EmptyAllowRejects(expression: string)
    ensures !Satisfied(expression, {})
    decreases |expression|
  {
    hide *;
    SatisfiedStep(expression, {});
    var e := Unwrap(Strip(expression));
    var ors, ands := TopLevelParts(e, OR), TopLevelParts(e, AND);
    AllowedMonotone(e, {}, {});
    if |ors| > 1 {
      forall i | 0 <= i < |ors| ensures !Satisfied(ors[i], {}) {
        EmptyAllowRejects(ors[i]);
      }
    } else if |ands| > 1 {
      EmptyAllowRejects(ands[0]);
    }
  }

  /** Only the unwrapped text matters. */
  lemma SatisfiedUnwrapped(e: string, f: string, allow: set<string>)
    requires Unwrap(Strip(e)) == Unwrap(Strip(f))
    ensures Satisfied(e, allow) == Satisfied(f, allow)
  {
    hide *;
    SatisfiedStep(e, allow);
    SatisfiedStep(f, allow);
  }
}
