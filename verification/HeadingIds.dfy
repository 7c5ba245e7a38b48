/** Unique ids for the headings of a documentation page. */
module HeadingIds {
  import opened Text
  import Decimal

  /** White space as JavaScript's `trim` understands it. */
  predicate IsJsSpace(c: char) {
    || '\t' <= c <= '\r'
    || c == ' ' || c == '\U{a0}' || c == '\U{1680}' || c == '\U{feff}'
    || '\U{2000}' <= c <= '\U{200a}'
    || c == '\U{2028}' || c == '\U{2029}' || c == '\U{202f}' || c == '\U{205f}' || c == '\U{3000}'
  }

  /** The characters that stay: `\w`, the hyphen and the blank. */
  predicate Stays(c: char) {
    'a' <= c <= 'z' || 'A' <= c <= 'Z' || '0' <= c <= '9' || c == '_' || c == '-' || c == ' '
  }

  function Strip(s: string): string {
    if s == "" then "" else (if Stays(s[0]) then [if s[0] == ' ' then '-' else s[0]] else []) + Strip(s[1..])
  }

  /** Characters are dropped, kept or, for a blank, turned into a hyphen one by one. */
  lemma {:induction false} StripConcat(a: string, b: string)
    ensures Strip(a + b) == Strip(a) + Strip(b)
  {
    hide Strip;
    StripNone();
    if a == "" {
      assert a + b == b;
    } else {
      var c, rest := a[0], a[1..];
      assert a == [c] + rest && a + b == [c] + (rest + b);
      StripConcat(rest, b);
      StripCons(c, rest);
      StripCons(c, rest + b);
    }
  }

  lemma StripCons(c: char, s: string)
    ensures Strip([c] + s) == (if Stays(c) then [if c == ' ' then '-' else c] else "") + Strip(s)
  {
    hide Stays;
    assert ([c] + s)[1..] == s;
  }

  /** The characters a slug is made of. */
  predicate IsSlugChar(c: char) {
    c in "abcdefghijklmnopqrstuvwxyz" || c in "ABCDEFGHIJKLMNOPQRSTUVWXYZ" || c in "0123456789_-"
  }

  lemma StaysIff(c: char)
    ensures Stays(c) <==> c == ' ' || IsSlugChar(c)
  {
    LowerLetters(c);
    UpperLetters(c);
    assert '0' <= c <= '9' || c == '_' || c == '-' <==> c in "0123456789_-";
  }

  lemma LowerLetters(c: char)
    ensures 'a' <= c <= 'z' <==> c in "abcdefghijklmnopqrstuvwxyz"
  {
  }

  lemma UpperLetters(c: char)
    ensures 'A' <= c <= 'Z' <==> c in "ABCDEFGHIJKLMNOPQRSTUVWXYZ"
  {
  }

  lemma StripOne(c: char)
    ensures Strip([c]) == if c == ' ' then "-" else if IsSlugChar(c) then [c] else ""
  {
    StaysIff(c);
    hide Stays, IsSlugChar;
    assert [c][1..] == "" && Strip("") == "";
  }

  /** Words separated by a blank come out joined by a hyphen. */
  lemma StripWords(a: string, b: string)
    ensures Strip(a + " " + b) == Strip(a) + "-" + Strip(b)
    ensures (forall c :: c in a ==> IsSlugChar(c)) ==> Strip(a) == a
  {
    StripConcat(a + " ", b);
    StripConcat(a, " ");
    StripOne(' ');
    if forall c :: c in a ==> IsSlugChar(c) {
      StripSame(a);
    }
  }

  lemma NoBlank()
    ensures !IsSlugChar(' ')
  {
  }

  lemma StripNone()
    ensures Strip("") == ""
  {
  }

  lemma {:induction false} StripSame(a: string)
    requires forall c :: c in a ==> IsSlugChar(c)
    ensures Strip(a) == a
  {
    NoBlank();
    hide IsSlugChar, Strip;
    assert Strip("") == "" by { StripNone(); }
    if a != "" {
      StripSame(a[1..]);
      assert a == [a[0]] + a[1..];
      StripConcat([a[0]], a[1..]);
      assert a[0] in a && a[0] != ' ';
      StripOne(a[0]);
    }
  }

  /** The white space that is trimmed, character by character. */
  lemma WhiteSpace(c: char)
    ensures IsJsSpace(c)
       <==> c in "\t\n\U{b}\U{c}\r \U{a0}\U{feff}\U{1680}\U{2000}\U{2001}\U{2002}\U{2003}\U{2004}\U{2005}\U{2006}"
              || c in "\U{2007}\U{2008}\U{2009}\U{200a}\U{2028}\U{2029}\U{202f}\U{205f}\U{3000}"
  {
  }

  /** The slug before it is made unique; `lower` is the host's `toLowerCase`. */
  function BaseSlug(text: string, lower: string -> string): string {
    Strip(lower(Trim(text, IsJsSpace)))
  }

  /** White space around a heading does not show in its slug. */
  lemma SlugTrims(pre: string, core: string, post: string, lower: string -> string)
    requires All(pre, IsJsSpace) && All(post, IsJsSpace) && Trimmed(core, IsJsSpace)
    ensures BaseSlug(pre + core + post, lower) == Strip(lower(core))
  {
    hide IsJsSpace, Trim;
    TrimPadded(pre, core, post, IsJsSpace);
  }

  /** The candidates in the order in which they are tried. */
  function Candidate(slug: string, k: nat): string {
    if k == 0 then slug else slug + "-" + Decimal.Print(k)
  }

  lemma CandidateInjective(slug: string, i: nat, j: nat)
    requires Candidate(slug, i) == Candidate(slug, j)
    ensures i == j
  {
    if i > 0 && j > 0 {
      var a, b := slug + "-" + Decimal.Print(i), slug + "-" + Decimal.Print(j);
      assert a[|slug| + 1..] == Decimal.Print(i) && b[|slug| + 1..] == Decimal.Print(j);
      Decimal.ValuePrint(i);
      Decimal.ValuePrint(j);
    }
  }

  /** `tried` are the first `n` candidates. */
  ghost predicate AreTried(slug: string, n: nat, tried: set<string>) {
    && (forall j: nat :: j < n ==> Candidate(slug, j) in tried)
    && (forall x :: x in tried ==> exists j: nat :: j < n && x == Candidate(slug, j))
    && |tried| == n
  }

  lemma TryNext(slug: string, n: nat, tried: set<string>)
    requires AreTried(slug, n, tried)
    ensures AreTried(slug, n + 1, tried + {Candidate(slug, n)})
  {
    hide Candidate;
    if Candidate(slug, n) in tried {
      var j: nat :| j < n && Candidate(slug, n) == Candidate(slug, j);
      CandidateInjective(slug, j, n);
    }
    forall x | x in tried + {Candidate(slug, n)} ensures exists j: nat :: j < n + 1 && x == Candidate(slug, j) {
      if x in tried {
        var j: nat :| j < n && x == Candidate(slug, j);
      }
    }
  }

  lemma TriedFirstFree(slug: string, n: nat, tried: set<string>, seen: set<string>, id: string)
    requires AreTried(slug, n, tried) && tried <= seen && id == Candidate(slug, n) && id !in seen
    ensures FirstFree(slug, seen, id)
    ensures slug !in seen ==> id == slug
  {
    if n > 0 {
      assert Candidate(slug, 0) in tried;
    }
  }

  /** `id` is the first candidate that has not been seen. */
  ghost predicate FirstFree(slug: string, seen: set<string>, id: string) {
    exists k: nat :: id == Candidate(slug, k) && id !in seen && forall j: nat :: j < k ==> Candidate(slug, j) in seen
  }

  datatype Heading = Heading(text: string, depth: nat)

  datatype Entry = Entry(id: string, depth: nat, text: string)

  /** The table of contents lists the headings of depth 2 and 3. */
  function Contents(headings: seq<Heading>, ids: seq<string>): seq<Entry>
    requires |ids| == |headings|
  {
    if headings == [] then []
    else
      var n := |headings| - 1;
      var h := headings[n];
      Contents(headings[..n], ids[..n]) + if h.depth == 2 || h.depth == 3 then [Entry(ids[n], h.depth, h.text)] else []
  }

  function Given(ids: seq<string>): set<string> {
    set x | x in ids
  }

  /** Each heading has the first candidate that was free when its turn came. */
  ghost predicate Assigned(headings: seq<Heading>, ids: seq<string>, seen: set<string>, lower: string -> string)
    requires |ids| == |headings|
  {
    ids != [] ==>
      var n := |ids| - 1;
      && FirstFree(BaseSlug(headings[n].text, lower), seen + Given(ids[..n]), ids[n])
      && Assigned(headings[..n], ids[..n], seen, lower)
  }

  /** The ids handed out on one page. */
  class Page {
    const lower: string -> string
    var seen: set<string>

    constructor (lower: string -> string)
      ensures this.lower == lower && seen == {}
    {
      this.lower := lower;
      seen := {};
    }

    /** `slugify`. The loop ends because each failed candidate uses up a member of `seen`, and
        different numbers print differently. */
    method Slugify(text: string) returns (unique: string)
      modifies this
      ensures FirstFree(BaseSlug(text, lower), old(seen), unique)
      ensures seen == old(seen) + {unique} && unique !in old(seen)
      ensures BaseSlug(text, lower) !in old(seen) ==> unique == BaseSlug(text, lower)
    {
      hide BaseSlug, AreTried, FirstFree;
      var slug := BaseSlug(text, lower);
      unique := slug;
      var n := 1;
      ghost var tried: set<string> := {};
      assert AreTried(slug, 0, {}) by { NoneTried(slug); }
      while unique in seen
        invariant 1 <= n && seen == old(seen) && unique == Candidate(slug, n - 1)
        invariant AreTried(slug, n - 1, tried) && tried <= seen
        decreases |seen| + 1 - n
      {
        TryNext(slug, n - 1, tried);
        tried := tried + {unique};
        SubsetSize(slug, n, tried, seen);
        unique := slug + "-" + Decimal.Print(n);
        n := n + 1;
      }
      TriedFirstFree(slug, n - 1, tried, seen, unique);
      seen := seen + {unique};
    }

    /** The ids `decorateHeadings` assigns: pairwise distinct, none seen before, and each the first
        free candidate for its heading. */
    method DecorateHeadings(headings: seq<Heading>) returns (ids: seq<string>, entries: seq<Entry>)
      modifies this
      ensures |ids| == |headings| && Assigned(headings, ids, old(seen), lower)
      ensures forall i, j :: 0 <= i < j < |ids| ==> ids[i] != ids[j]
      ensures forall i :: 0 <= i < |ids| ==> ids[i] !in old(seen)
      ensures entries == Contents(headings, ids)
    {
      hide Assigned, BaseSlug, Contents, Given;
      ids, entries := [], [];
      AssignedNone(old(seen), lower);
      for i := 0 to |headings|
        invariant |ids| == i && seen == old(seen) + Given(ids)
        invariant Assigned(headings[..i], ids, old(seen), lower)
        invariant entries == Contents(headings[..i], ids)
      {
        var h := headings[i];
        var id := Slugify(h.text);
        AssignedNext(headings[..i], ids, old(seen), lower, h, id);
        assert headings[..i] + [h] == headings[..i + 1];
        ids := ids + [id];
        if h.depth == 2 || h.depth == 3 {
          entries := entries + [Entry(id, h.depth, h.text)];
        }
      }
      assert headings[..|headings|] == headings;
      AssignedDistinct(headings, ids, old(seen), lower);
    }
  }

  lemma AssignedNone(seen: set<string>, lower: string -> string)
    ensures Assigned([], [], seen, lower) && Contents([], []) == [] && Given([]) == {}
  {
  }

  lemma AssignedNext(headings: seq<Heading>, ids: seq<string>, seen: set<string>, lower: string -> string,
                     h: Heading, id: string)
    requires |ids| == |headings| && Assigned(headings, ids, seen, lower)
    requires FirstFree(BaseSlug(h.text, lower), seen + Given(ids), id)
    ensures Assigned(headings + [h], ids + [id], seen, lower)
    ensures Contents(headings + [h], ids + [id])
         == Contents(headings, ids) + if h.depth == 2 || h.depth == 3 then [Entry(id, h.depth, h.text)] else []
    ensures Given(ids + [id]) == Given(ids) + {id}
  {
    hide FirstFree, BaseSlug;
    assert (headings + [h])[..|headings|] == headings && (ids + [id])[..|ids|] == ids;
  }

  lemma {:induction false} AssignedDistinct(headings: seq<Heading>, ids: seq<string>,
                                            seen: set<string>, lower: string -> string)
    requires |ids| == |headings| && Assigned(headings, ids, seen, lower)
    ensures forall i, j :: 0 <= i < j < |ids| ==> ids[i] != ids[j]
    ensures forall i :: 0 <= i < |ids| ==> ids[i] !in seen
  {
    hide BaseSlug;
    if ids != [] {
      var n := |ids| - 1;
      AssignedDistinct(headings[..n], ids[..n], seen, lower);
      assert ids == ids[..n] + [ids[n]];
      assert forall i :: 0 <= i < n ==> ids[..n][i] == ids[i] && ids[i] in ids[..n];
    }
  }

  /** A heading of one or more words gets its words joined by hyphens, when the page has not used that
      yet; and the same heading again gets it with 1, then 2 behind. */
  lemma RepeatedHeadings(a: string, b: string, slug: string, ids: seq<string>, lower: string -> string)
    requires Trimmed(a + " " + b, IsJsSpace) && lower(a + " " + b) == a + " " + b && slug == a + "-" + b
    requires forall c :: c in a + b ==> IsSlugChar(c)
    requires |ids| == 3
    requires Assigned([Heading(a + " " + b, 2), Heading(a + " " + b, 3), Heading(a + " " + b, 4)], ids, {}, lower)
    ensures ids == [slug, slug + "-1", slug + "-2"]
  {
    hide *;
    var h := a + " " + b;
    TwoWords(a, b, lower);
    var hs := [Heading(h, 2), Heading(h, 3), Heading(h, 4)];
    ThreeAssigned(hs, ids, lower);
    FirstCandidates(slug);
    FirstFreeOne(slug, [], ids[0]);
    FirstFreeOne(slug, [ids[0]], ids[1]);
    FirstFreeOne(slug, [ids[0], ids[1]], ids[2]);
  }

  lemma FirstCandidates(slug: string)
    ensures Candidate(slug, 0) == slug && Candidate(slug, 1) == slug + "-1" && Candidate(slug, 2) == slug + "-2"
  {
  }

  lemma TwoWords(a: string, b: string, lower: string -> string)
    requires Trimmed(a + " " + b, IsJsSpace) && lower(a + " " + b) == a + " " + b
    requires forall c :: c in a + b ==> IsSlugChar(c)
    ensures BaseSlug(a + " " + b, lower) == a + "-" + b
  {
    hide IsJsSpace, Trim, Strip, IsSlugChar;
    var h := a + " " + b;
    TrimPadded("", h, "", IsJsSpace);
    assert "" + h + "" == h;
    assert (forall c :: c in a ==> c in a + b) && forall c :: c in b ==> c in a + b;
    StripWords(a, b);
    StripWords(b, "");
  }

  lemma ThreeAssigned(hs: seq<Heading>, ids: seq<string>, lower: string -> string)
    requires |hs| == |ids| == 3 && Assigned(hs, ids, {}, lower)
    ensures FirstFree(BaseSlug(hs[0].text, lower), Given([]), ids[0])
    ensures FirstFree(BaseSlug(hs[1].text, lower), Given([ids[0]]), ids[1])
    ensures FirstFree(BaseSlug(hs[2].text, lower), Given([ids[0], ids[1]]), ids[2])
  {
    hide BaseSlug, FirstFree;
    assert ids[..2] == [ids[0], ids[1]] && ids[..2][..1] == [ids[0]] && ids[..2][..1][..0] == [];
    assert hs[..2] == [hs[0], hs[1]] && hs[..2][..1] == [hs[0]] && hs[..2][..1][..0] == [];
    assert forall x: set<string> :: {} + x == x;
    assert Assigned(hs[..2], ids[..2], {}, lower);
    assert Assigned(hs[..2][..1], ids[..2][..1], {}, lower);
  }

  /** When the first candidates are taken, in order, the next one is free. */
  lemma FirstFreeOne(slug: string, taken: seq<string>, id: string)
    requires forall i :: 0 <= i < |taken| ==> taken[i] == Candidate(slug, i)
    requires FirstFree(slug, Given(taken), id)
    ensures id == Candidate(slug, |taken|)
  {
    hide Candidate;
    var k: nat :| && id == Candidate(slug, k) && id !in Given(taken)
                  && forall j: nat :: j < k ==> Candidate(slug, j) in Given(taken);
    assert forall i :: 0 <= i < |taken| ==> taken[i] in Given(taken);
    if k > |taken| {
      assert Candidate(slug, |taken|) in Given(taken);
      var i :| 0 <= i < |taken| && taken[i] == Candidate(slug, |taken|);
      CandidateInjective(slug, i, |taken|);
    }
  }

  /** The table of contents holds, in order, the headings of depth 2 and 3 with their ids. */
  lemma {:induction false} ContentsExact(headings: seq<Heading>, ids: seq<string>, e: Entry)
    requires |ids| == |headings|
    ensures e in Contents(headings, ids)
       <==> exists i ::
              0 <= i < |ids| && headings[i].depth in {2, 3} && e == Entry(ids[i], headings[i].depth, headings[i].text)
  {
    if headings != [] {
      var n := |headings| - 1;
      ContentsExact(headings[..n], ids[..n], e);
      assert forall i :: 0 <= i < n ==> headings[..n][i] == headings[i] && ids[..n][i] == ids[i];
    }
  }

  lemma NoneTried(slug: string)
    ensures AreTried(slug, 0, {})
  {
  }

  /** The candidates tried are pairwise different, so there are no more of them than were seen. */
  lemma SubsetSize(slug: string, n: nat, tried: set<string>, seen: set<string>)
    requires AreTried(slug, n, tried) && tried <= seen
    ensures n <= |seen|
  {
    assert seen == tried + (seen - tried);
  }
}
