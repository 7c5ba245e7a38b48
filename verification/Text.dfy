/** Trimming, shared by every parser of this project. Each language has its own notion of
    white space, so the class of characters to trim is a parameter. */
module Text {

  predicate All(s: string, p: char -> bool) {
    forall i :: 0 <= i < |s| ==> p(s[i])
  }

  function TrimStart(s: string, p: char -> bool): (r: string)
    ensures |r| <= |s|
    ensures r == "" || !p(r[0])
  {
    if s != "" && p(s[0]) then TrimStart(s[1..], p) else s
  }

  function TrimEnd(s: string, p: char -> bool): (r: string)
    ensures r <= s
    ensures r == "" || !p(r[|r| - 1])
  {
    if s != "" && p(s[|s| - 1]) then TrimEnd(s[..|s| - 1], p) else s
  }

  function Trim(s: string, p: char -> bool): (r: string)
    ensures |r| <= |s|
    ensures Trimmed(r, p)
  {
    TrimEnd(TrimStart(s, p), p)
  }

  /** Neither end of `s` is in the class `p`; the empty string qualifies. */
  predicate Trimmed(s: string, p: char -> bool) {
    s != "" ==> !p(s[0]) && !p(s[|s| - 1])
  }

  lemma {:induction false} TrimStartPadded(pre: string, s: string, p: char -> bool)
    requires All(pre, p)
    ensures TrimStart(pre + s, p) == TrimStart(s, p)
  {
    if pre == "" {
      assert pre + s == s;
    } else {
      assert (pre + s)[1..] == pre[1..] + s;
      TrimStartPadded(pre[1..], s, p);
    }
  }

  lemma {:induction false} TrimEndPadded(s: string, post: string, p: char -> bool)
    requires All(post, p)
    ensures TrimEnd(s + post, p) == TrimEnd(s, p)
  {
    if post == "" {
      assert s + post == s;
    } else {
      assert (s + post)[..|s + post| - 1] == s + post[..|post| - 1];
      TrimEndPadded(s, post[..|post| - 1], p);
    }
  }

  /** Trimming removes exactly the padding. */
  lemma TrimPadded(pre: string, core: string, post: string, p: char -> bool)
    requires All(pre, p) && All(post, p) && Trimmed(core, p)
    ensures Trim(pre + core + post, p) == core
  {
    assert pre + core + post == pre + (core + post);
    TrimStartPadded(pre, core + post, p);
    if core == "" {
      assert core + post == post + "";
      TrimStartPadded(post, "", p);
    } else {
      assert TrimStart(core + post, p) == core + post;
      TrimEndPadded(core, post, p);
    }
  }
}
