/** Which texts mean to the evaluator what they say, for expressions that name no licence twice. */
module LicenseMeaning {
  import opened Text
  import opened LicenseSplit
  import opened LicenseScan
  import opened LicenseAudit
  import opened LicenseGrammar
  import opened LicenseFuse

  /** All identifiers of a tree, without their `+`. */
  function Ids(t: Expr): multiset<string> {
    match t
    case Atom(id) => multiset{TrimEnd(id, IsPlus)}
    case Group(_, inner, _) => Ids(inner)
    case _ => Ids(t.left) + Ids(t.right)
  }

  /** The identifiers that are looked up on their own. */
  function Free(t: Expr): multiset<string> {
    match t
    case Atom(_) => Ids(t)
    case Group(_, inner, _) => Free(inner)
    case Join(_, left, _, right) => Free(left) + Free(right)
    case Fused(_, _, _, _) => multiset{}
  }

  /** No licence is named twice, with or without a `+`. */
  ghost predicate NamesOnce(t: Expr) {
    forall x :: x in Ids(t) ==> Ids(t)[x] == 1
  }

  /** The scanner sees every operator. */
  predicate AllSeen(t: Expr) {
    match t
    case Atom(_) => true
    case Group(_, inner, _) => AllSeen(inner)
    case Join(_, left, gap, right) => AllSeen(left) && AllSeen(right) && Seen(left, gap)
    case Fused(_, _, _, _) => false
  }

  /** An OR below an AND stands in parentheses. */
  predicate Binds(t: Expr) {
    match t
    case Group(_, inner, _) => Binds(inner)
    case Join(op, left, _, right) => Binds(left) && Binds(right) && (op == AND ==> !IsOr(left) && !IsOr(right))
    case _ => true
  }

  lemma {:induction false} SeenIsExpression(t: Expr)
    requires IsText(t) && AllSeen(t) && Binds(t)
    ensures IsExpression(t)
  {
    hide IsAtom, SetOff, Seen, IsSpace;
    match t
    case Group(_, inner, _) => SeenIsExpression(inner);
    case Join(_, left, _, right) =>
      SeenIsExpression(left);
      SeenIsExpression(right);
    case _ =>
  }

  // ----- What is fused is lost to the tree.

  /** Nothing in the tree is fused. */
  predicate Whole(t: Expr) {
    match t
    case Atom(_) => true
    case Group(_, inner, _) => Whole(inner)
    case Join(_, left, _, right) => Whole(left) && Whole(right)
    case Fused(_, _, _, _) => false
  }

  lemma {:induction false} FreeWithin(t: Expr)
    ensures Free(t) <= Ids(t) && |Ids(t)| > 0
    ensures |Free(t)| <= |Ids(t)| && (Whole(t) || |Free(t)| < |Ids(t)|)
  {
    match t
    case Atom(_) =>
    case Group(_, inner, _) => FreeWithin(inner);
    case Join(_, left, _, right) =>
      FreeWithin(left);
      FreeWithin(right);
      assert Free(t) == Free(left) + Free(right) && Ids(t) == Ids(left) + Ids(right);
    case Fused(_, left, _, right) =>
      FreeWithin(left);
      assert |Free(t)| == 0 && Ids(t) == Ids(left) + Ids(right);
  }

  function LineIds(l: Line): multiset<string> {
    match l
    case Last(e) => Ids(e)
    case More(e, _, _, rest) => Ids(e) + LineIds(rest)
  }

  predicate LineWhole(l: Line) {
    Whole(l.operand) && (l.More? ==> LineWhole(l.rest))
  }

  predicate LineSeen(l: Line) {
    l.More? ==> Seen(l.operand, l.gap) && LineSeen(l.rest)
  }

  lemma {:induction false} AppendIds(l: Line, op: Operator, gap: Gap, m: Line)
    ensures var a := Append(l, op, gap, m);
            && LineIds(a) == LineIds(l) + LineIds(m)
            && (LineWhole(a) <==> LineWhole(l) && LineWhole(m))
            && (LineSeen(a) <==> LineSeen(l) && LineSeen(m) && Seen(Final(l), gap))
  {
    hide Seen;
    if l.More? {
      AppendIds(l.rest, op, gap, m);
    }
  }

  lemma {:induction false} GlueIds(l: Line)
    ensures LineIds(Glue(l)) == LineIds(l)
    ensures LineWhole(Glue(l)) ==> LineWhole(l) && LineSeen(l)
  {
    hide Seen;
    if l.More? {
      GlueIds(l.rest);
    }
  }

  lemma {:induction false} BuildIds(l: Line)
    ensures Ids(Build(l)) == LineIds(l)
    ensures Whole(Build(l)) <==> LineWhole(l)
  {
    if l.More? {
      BuildIds(l.rest);
    }
  }

  lemma {:induction false} OperandsIds(t: Expr)
    requires IsText(t)
    ensures LineIds(Operands(t)) == Ids(t)
    ensures LineWhole(Operands(t)) && LineSeen(Operands(t)) ==> AllSeen(t)
  {
    hide SetOff, Seen, EndsClosed, IsAtom, IsSpace, LineOk, PrintLine, Print;
    match t
    case Atom(_) =>
    case Group(_, inner, _) =>
      OperandsIds(inner);
      GlueIds(Operands(inner));
      BuildIds(Glue(Operands(inner)));
    case Join(op, left, gap, right) =>
      OperandsIds(left);
      OperandsIds(right);
      AppendIds(Operands(left), op, gap, Operands(right));
      OperandsOk(left);
      LineEnds(Operands(left), false);
      SetOffSame(op, left, gap, right, Final(Operands(left)), right);
  }

  /** Fusing keeps the identifiers, and leaves a tree whole only if every operator is seen. */
  lemma FuseIds(t: Expr)
    requires IsText(t)
    ensures Ids(Fuse(t)) == Ids(t) && (Whole(Fuse(t)) ==> AllSeen(t))
  {
    OperandsIds(t);
    GlueIds(Operands(t));
    BuildIds(Glue(Operands(t)));
  }

  // ----- Fused text is no identifier.

  lemma {:induction false} TrimKeeps(s: string, k: nat)
    requires k < |s| && s[k] != '+'
    ensures k < |TrimEnd(s, IsPlus)| && TrimEnd(s, IsPlus)[k] == s[k]
    decreases |s|
  {
    if IsPlus(s[|s| - 1]) {
      TrimKeeps(s[..|s| - 1], k);
    }
  }

  /** An operator's word at `j`, with white space on both sides. */
  predicate Worded(op: Operator, x: string, j: nat) {
    && 0 < j < |x| && IsSpace(x[j - 1]) && op.Opens(x[j..])
    && j + op.Length() < |x| && IsSpace(x[j + op.Length()])
  }

  lemma {:induction false} AtomNotWorded(op: Operator, x: string, start: bool, j: nat)
    requires KeywordFree(x, start)
    ensures !Worded(op, x, j)
    decreases |x|
  {
    hide IsSpace;
    if 1 < j < |x| {
      AtomNotWorded(op, x[1..], IsSpace(x[0]), j - 1);
      assert x[1..][j - 1..] == x[j..];
    }
  }

  /** A place in a fused text that no identifier has. */
  lemma FusedPlace(f: Expr) returns (k: nat, j: nat)
    requires IsExpression(f) && f.Fused?
    ensures k < |Print(f)| && Print(f)[k] != '+'
    ensures IsPunctuation(Print(f)[k]) || (Worded(f.op, Print(f), j) && k == j + f.op.Length())
  {
    hide IsExpression, KeywordFree, Print;
    FusedParts(f);
    var x, y, z := Print(f.left), f.gap.before, f.gap.after;
    var s, w := Print(f), f.op.Word();
    var r := Print(f.right);
    assert s == x + y + w + z + r by { assert x + (y + w + z) + r == x + y + w + z + r; }
    j := |x| + |y|;
    if y == "" {
      k := |x| - 1;
    } else if z == "" {
      k := j + |w|;
    } else {
      k := j + f.op.Length();
      assert s[j - 1] == y[|y| - 1] && s[k] == z[0];
      WordFacts(f.op, z + r);
      assert s[j..] == w + (z + r);
    }
  }

  lemma FusedParts(f: Expr)
    requires IsExpression(f) && f.Fused?
    ensures f.gap.Spaced? && Print(f) == Print(f.left) + (f.gap.before + f.op.Word() + f.gap.after) + Print(f.right)
    ensures All(f.gap.before, IsSpace) && All(f.gap.after, IsSpace)
    ensures Print(f.left) != "" && (f.gap.before == "" ==> EndsClosed(Print(f.left)))
    ensures Print(f.right) != "" && (f.gap.after == "" ==> StartsOpen(Print(f.right)))
  {
    hide IsSpace, KeywordFree;
    PrintTrimmed(f.left);
    PrintTrimmed(f.right);
  }

  lemma PrefixWorded(op: Operator, x: string, y: string, j: nat)
    requires x <= y && j + op.Length() < |x|
    ensures Worded(op, x, j) == Worded(op, y, j)
  {
    hide IsSpace;
    if j < |x| {
      assert forall i :: 0 <= i < |x| - j ==> x[j..][i] == y[j..][i];
    }
  }

  lemma FusedIsNoId(f: Expr, id: string)
    requires IsExpression(f) && f.Fused? && IsAtom(id)
    ensures TrimEnd(Print(f), IsPlus) != TrimEnd(id, IsPlus) && Print(f) != TrimEnd(id, IsPlus)
  {
    hide IsExpression, Print, IsSpace, KeywordFree, TrimEnd, Worded;
    var s, a := Print(f), TrimEnd(id, IsPlus);
    var k, j := FusedPlace(f);
    TrimKeeps(s, k);
    var c := TrimEnd(s, IsPlus);
    AtomNotWorded(f.op, id, true, j);
    if k < |a| {
      assert a[k] == id[k] && !IsPunctuation(id[k]);
      if !IsPunctuation(s[k]) {
        PrefixWorded(f.op, a, id, j);
        PrefixWorded(f.op, c, s, j);
      }
    }
  }

  // ----- Allow lists of stripped identifiers.

  predicate Bare(allow: set<string>) {
    forall x :: x in allow ==> TrimEnd(x, IsPlus) == x
  }

  lemma TrimTwice(id: string)
    ensures TrimEnd(TrimEnd(id, IsPlus), IsPlus) == TrimEnd(id, IsPlus)
  {
  }

  lemma AllowedBare(id: string, allow: set<string>)
    requires Bare(allow)
    ensures Allowed(id, allow) <==> TrimEnd(id, IsPlus) in allow
  {
  }

  function IdSet(t: Expr): set<string> {
    set x | x in Ids(t)
  }

  lemma {:induction false} IdSetBare(t: Expr)
    ensures Bare(IdSet(t))
  {
    hide TrimEnd;
    match t
    case Atom(id) => TrimTwice(id);
    case Group(_, inner, _) => IdSetBare(inner);
    case _ =>
      IdSetBare(t.left);
      IdSetBare(t.right);
      assert forall x :: x in Ids(t) ==> x in IdSet(t.left) || x in IdSet(t.right);
  }

  /** Only the identifiers of a tree matter; with none of them allowed it is false, with all true. */
  lemma {:induction false} EvalLocal(t: Expr, a: set<string>, b: set<string>)
    requires IsText(t) && Bare(a) && Bare(b)
    ensures (forall x :: x in Ids(t) ==> (x in a <==> x in b)) ==> Eval(t, a) == Eval(t, b)
    ensures (forall x :: x in Ids(t) ==> x !in a) ==> !Eval(t, a)
    ensures (forall x :: x in Ids(t) ==> x in a) ==> Eval(t, a)
  {
    hide IsAtom, SetOff, IsSpace, TrimEnd, Allowed, Bare;
    match t
    case Atom(id) =>
      AllowedBare(id, a);
      AllowedBare(id, b);
      assert TrimEnd(id, IsPlus) in Ids(t);
    case Group(_, inner, _) => EvalLocal(inner, a, b);
    case Join(_, left, _, right) =>
      EvalLocal(left, a, b);
      EvalLocal(right, a, b);
  }

  /** When no licence is named twice, every one of them can decide. */
  lemma {:induction false} EachDecides(t: Expr, x: string) returns (allow: set<string>)
    requires IsText(t) && NamesOnce(t) && x in Ids(t)
    ensures allow <= IdSet(t) && x !in allow && Bare(allow) && Bare(allow + {x})
    ensures !Eval(t, allow) && Eval(t, allow + {x})
  {
    hide IsAtom, SetOff, IsSpace, TrimEnd, Allowed, Bare, Eval;
    IdSetBare(t);
    match t
    case Atom(id) =>
      allow := {};
      BareWithin(allow, x, t);
      EvalLocal(t, allow, allow + {x});
      EvalLocal(t, allow + {x}, allow);
    case Group(_, inner, _) =>
      assert NamesOnce(inner);
      allow := EachDecides(inner, x);
      EvalGroup(t, allow, x);
    case Join(_, left, _, right) =>
      NamesOnceParts(t);
      var e, other := if x in Ids(left) then left else right, if x in Ids(left) then right else left;
      var some := EachDecides(e, x);
      allow := if t.op == OR then some else some + IdSet(other);
      BareWithin(allow, x, t);
      EvalLocal(e, allow, some);
      EvalLocal(e, allow + {x}, some + {x});
      EvalLocal(other, allow, allow);
      EvalLocal(other, allow + {x}, allow);
      EvalJoin(t, allow);
      EvalJoin(t, allow + {x});
  }

  lemma BareWithin(allow: set<string>, x: string, t: Expr)
    requires allow <= IdSet(t) && x in Ids(t)
    ensures Bare(allow) && Bare(allow + {x})
  {
    IdSetBare(t);
    hide TrimEnd;
    assert x in IdSet(t);
  }

  lemma EvalGroup(t: Expr, allow: set<string>, x: string)
    requires t.Group?
    ensures Eval(t, allow) == Eval(t.inner, allow) && Eval(t, allow + {x}) == Eval(t.inner, allow + {x})
  {
  }

  lemma EvalJoin(t: Expr, allow: set<string>)
    requires t.Join?
    ensures Eval(t, allow) <==> if t.op == OR then Eval(t.left, allow) || Eval(t.right, allow)
                                else Eval(t.left, allow) && Eval(t.right, allow)
  {
  }

  lemma NamesOnceParts(t: Expr)
    requires NamesOnce(t) && t.Join?
    ensures NamesOnce(t.left) && NamesOnce(t.right)
    ensures forall x :: x in Ids(t.left) ==> x !in Ids(t.right)
  {
    forall x | x in Ids(t.left) || x in Ids(t.right) ensures Ids(t.left)[x] + Ids(t.right)[x] == 1 {
      assert x in Ids(t);
    }
  }

  /** An identifier that is looked up nowhere decides nothing. */
  lemma {:induction false} EvalWithout(t: Expr, allow: set<string>, id: string)
    requires IsExpression(t) && IsAtom(id) && TrimEnd(id, IsPlus) !in Free(t)
    requires Bare(allow) && Bare(allow + {TrimEnd(id, IsPlus)})
    ensures Eval(t, allow) == Eval(t, allow + {TrimEnd(id, IsPlus)})
  {
    hide IsAtom, SetOff, Seen, IsSpace, TrimEnd, Bare, Allowed, Print;
    var x := TrimEnd(id, IsPlus);
    match t
    case Atom(other) =>
      AllowedBare(other, allow);
      AllowedBare(other, allow + {x});
      assert TrimEnd(other, IsPlus) in Free(t);
    case Group(_, inner, _) => EvalWithout(inner, allow, id);
    case Join(_, left, _, right) =>
      EvalWithout(left, allow, id);
      EvalWithout(right, allow, id);
    case Fused(_, _, _, _) =>
      FusedIsNoId(t, id);
      AllowedBare(Print(t), allow);
      AllowedBare(Print(t), allow + {x});
  }

  lemma {:induction false} IdOf(t: Expr, x: string) returns (id: string)
    requires IsText(t) && x in Ids(t)
    ensures IsAtom(id) && TrimEnd(id, IsPlus) == x
  {
    hide IsAtom, SetOff, IsSpace, TrimEnd;
    match t
    case Atom(i) => id := i;
    case Group(_, inner, _) => id := IdOf(inner, x);
    case Join(_, left, _, right) =>
      if x in Ids(left) {
        id := IdOf(left, x);
      } else {
        id := IdOf(right, x);
      }
  }

  // ----- Main results.

  /** For any expression that names no licence twice and puts parentheses where the precedence needs
      them: its text satisfies exactly the allow lists that its meaning does, if and only if the
      scanner sees all of its operators. */
  lemma MeaningKeptIff(t: Expr)
    requires IsText(t) && Binds(t) && NamesOnce(t)
    ensures (forall allow :: Satisfied(Print(t), allow) == Eval(t, allow)) <==> AllSeen(t)
  {
    hide *;
    if AllSeen(t) {
      SeenIsExpression(t);
      forall allow ensures Satisfied(Print(t), allow) == Eval(t, allow) {
        EvaluatorAgrees(t, allow);
      }
    } else {
      var allow, x := Deceived(t);
      assert Satisfied(Print(t), allow) != Eval(t, allow) || Satisfied(Print(t), allow + {x}) != Eval(t, allow + {x});
    }
  }

  /** An identifier caught in fused text decides the meaning, but not the outcome. */
  lemma Deceived(t: Expr) returns (allow: set<string>, x: string)
    requires IsText(t) && NamesOnce(t) && !AllSeen(t)
    ensures Eval(t, allow) != Eval(t, allow + {x}) && Satisfied(Print(t), allow) == Satisfied(Print(t), allow + {x})
  {
    hide *;
    var f := Fuse(t);
    FuseIds(t);
    FuseOk(t);
    FreeWithin(f);
    x := Caught(f, t);
    allow := EachDecides(t, x);
    var id := IdOf(t, x);
    EvalWithout(f, allow, id);
    FusedAgrees(t, allow);
    FusedAgrees(t, allow + {x});
  }

  lemma Caught(f: Expr, t: Expr) returns (x: string)
    requires Free(f) <= Ids(f) && |Free(f)| < |Ids(f)| && Ids(f) == Ids(t) && NamesOnce(t)
    ensures x in Ids(t) && x !in Free(f)
  {
    hide Ids, Free;
    var rest := Ids(f) - Free(f);
    assert |rest| > 0;
    x :| x in rest;
  }

  /** `A OR (A AND (B OR C))` with a line break before the inner OR: naming A twice hides that this
      operator is not seen, so the condition on names cannot be dropped. */
  function Repeating(a: string, b: string, c: string): Expr {
    var inner := Group("", Join(OR, Atom(b), Spaced("\n", " "), Atom(c)), "");
    Join(OR, Atom(a), Spaced(" ", " "), Group("", Join(AND, Atom(a), Spaced(" ", " "), inner), ""))
  }

  lemma RepeatedNameHides(a: string, b: string, c: string, allow: set<string>)
    requires IsAtom(a) && IsAtom(b) && IsAtom(c)
    ensures var t := Repeating(a, b, c);
            IsText(t) && Binds(t) && !AllSeen(t) && Satisfied(Print(t), allow) == Eval(t, allow)
  {
    hide Satisfied, IsAtom, Allowed;
    var t := Repeating(a, b, c);
    var inner := t.right.inner.right;
    var f := Group("", Fused(OR, Atom(b), Spaced("\n", " "), Atom(c)), "");
    var g := Group("", Join(AND, Atom(a), Spaced(" ", " "), f), "");
    RepeatingIsText(a, b, c);
    hide IsText, Seen;
    FuseTwo(OR, Atom(b), Spaced("\n", " "), Atom(c));
    FuseTwo(AND, Atom(a), Spaced(" ", " "), inner);
    FuseTwo(OR, Atom(a), Spaced(" ", " "), t.right);
    assert Operands(inner) == Last(f) && Operands(t.right) == Last(g);
    assert Fuse(t) == Join(OR, Atom(a), Spaced(" ", " "), g);
    FusedAgrees(t, allow);
    Absorbs(Fuse(t), allow);
    Absorbs(t, allow);
  }

  lemma Absorbs(t: Expr, allow: set<string>)
    requires t.Join? && t.op == OR && t.right.Group? && t.right.inner.Join? && t.right.inner.op == AND
    requires t.right.inner.left == t.left
    ensures Eval(t, allow) == Eval(t.left, allow)
  {
    EvalJoin(t, allow);
    EvalJoin(t.right.inner, allow);
    EvalGroup(t.right, allow, "");
  }

  /** Fusing two operands and an operator. */
  lemma FuseTwo(op: Operator, e: Expr, gap: Gap, h: Expr)
    requires !e.Join? && !h.Join?
    ensures var x, y := Operands(e).operand, Operands(h).operand;
            var j := if Seen(x, gap) then Join(op, x, gap, y) else Fused(op, x, gap, y);
            && Operands(h) == Last(y) && Fuse(Join(op, e, gap, h)) == j
            && Operands(Group("", Join(op, e, gap, h), "")) == Last(Group("", j, ""))
  {
    hide Seen;
    var x, y := Operands(e).operand, Operands(h).operand;
    assert Operands(e) == Last(x) && Operands(h) == Last(y) && !y.Join?;
    var l := More(x, op, gap, Last(y));
    assert Operands(Join(op, e, gap, h)) == l;
    assert Glue(Last(y)) == Last(y) && Build(Last(y)) == y;
    assert Glue(l) == if Seen(x, gap) then l else Last(Fused(op, x, gap, y));
    hide Operands, Glue;
    assert Build(Glue(l)) == if Seen(x, gap) then Join(op, x, gap, y) else Fused(op, x, gap, y);
    OperandsOfGroup(Join(op, e, gap, h));
  }

  lemma OperandsOfGroup(t: Expr)
    ensures Operands(Group("", t, "")) == Last(Group("", Fuse(t), "")) && Fuse(t) == Build(Glue(Operands(t)))
  {
  }

  lemma RepeatingIsText(a: string, b: string, c: string)
    requires IsAtom(a) && IsAtom(b) && IsAtom(c)
    ensures var t := Repeating(a, b, c);
            && IsText(t) && Binds(t) && !AllSeen(t)
            && Seen(Atom(a), Spaced(" ", " ")) && !Seen(Atom(b), Spaced("\n", " "))
  {
    hide IsAtom;
    AtomEnds(b);
    assert HasBlank(" ") by { assert " "[0] == ' '; }
    assert !HasBlank("\n");
    var or := Join(OR, Atom(b), Spaced("\n", " "), Atom(c));
    assert SetOff(OR, or.left, or.gap, or.right) && !Seen(or.left, or.gap);
    var and := Join(AND, Atom(a), Spaced(" ", " "), Group("", or, ""));
    assert SetOff(AND, and.left, and.gap, and.right) && SetOff(OR, and.left, and.gap, Group("", and, ""));
    hide SetOff, Seen, Print, EndsClosed, StartsOpen, HasBlank;
    JoinOf(or);
    GroupOf(or);
    JoinOf(and);
    GroupOf(and);
    JoinOf(Repeating(a, b, c));
  }

  lemma JoinOf(t: Expr)
    requires t.Join?
    ensures Binds(t) <==> Binds(t.left) && Binds(t.right) && (t.op == AND ==> !IsOr(t.left) && !IsOr(t.right))
    ensures AllSeen(t) <==> AllSeen(t.left) && AllSeen(t.right) && Seen(t.left, t.gap)
    ensures t.left.Atom? ==> Binds(t.left) && AllSeen(t.left)
    ensures t.right.Atom? ==> Binds(t.right) && AllSeen(t.right)
  {
  }

  lemma GroupOf(t: Expr)
    ensures var g := Group("", t, "");
            (IsText(g) <==> IsText(t)) && (Binds(g) <==> Binds(t)) && (AllSeen(g) <==> AllSeen(t))
  {
  }

  lemma AtomEnds(id: string)
    requires IsAtom(id)
    ensures !EndsClosed(id) && !StartsOpen(id)
  {
    hide KeywordFree, IsSpace;
    assert !IsPunctuation(id[0]) && !IsPunctuation(id[|id| - 1]);
  }
}
