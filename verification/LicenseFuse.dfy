/** What the evaluator makes of an expression whose operators are set off in any way at all: it
    evaluates the expression in which the operators it does not see are part of an identifier. */
module LicenseFuse {
  import opened Text
  import opened LicenseSplit
  import opened LicenseAudit
  import opened LicenseGrammar
  import opened LicenseJoin

  /** An expression read from left to right: operands with operators between them. */
  datatype Line =
    | Last(operand: Expr)
    | More(operand: Expr, op: Operator, gap: Gap, rest: Line)

  function PrintLine(l: Line): string {
    match l
    case Last(e) => Print(e)
    case More(e, op, gap, rest) => Print(e) + GapText(op, gap) + PrintLine(rest)
  }

  function Append(l: Line, op: Operator, gap: Gap, m: Line): Line {
    match l
    case Last(e) => More(e, op, gap, m)
    case More(e, o, g, rest) => More(e, o, g, Append(rest, op, gap, m))
  }

  function Final(l: Line): Expr {
    match l
    case Last(e) => e
    case More(_, _, _, rest) => Final(rest)
  }

  /** The operands of a tree at the top, in order, with the insides of groups fused already. */
  function Operands(t: Expr): Line {
    match t
    case Group(lead, inner, trail) => Last(Group(lead, Build(Glue(Operands(inner))), trail))
    case Join(op, left, gap, right) => Append(Operands(left), op, gap, Operands(right))
    case _ => Last(t)
  }

  /** Operators that are not seen fuse the operands on both sides into one. */
  function Glue(l: Line): Line {
    match l
    case Last(_) => l
    case More(e, op, gap, rest) =>
      var m := Glue(rest);
      if Seen(e, gap) then More(e, op, gap, m)
      else
        match m
        case Last(h) => Last(Fused(op, e, gap, h))
        case More(h, o, g, n) => More(Fused(op, e, gap, h), o, g, n)
  }

  /** The operators that are left bind as usual, OR loosest. */
  function Build(l: Line): Expr {
    match l
    case Last(e) => e
    case More(e, op, gap, rest) =>
      var b := Build(rest);
      if op == AND && IsOr(b) then Join(OR, Join(AND, e, gap, b.left), b.gap, b.right) else Join(op, e, gap, b)
  }

  /** The expression that the evaluator reads where `t` was written. */
  function Fuse(t: Expr): Expr {
    Build(Glue(Operands(t)))
  }

  /** A tree as people may write it: any atoms, any parentheses or none, any precedence, and between
      two operands anything that sets the operator off. */
  predicate IsText(t: Expr) {
    match t
    case Atom(id) => IsAtom(id)
    case Group(lead, inner, trail) => All(lead, IsSpace) && IsText(inner) && All(trail, IsSpace)
    case Join(op, left, gap, right) => IsText(left) && IsText(right) && SetOff(op, left, gap, right)
    case Fused(_, _, _, _) => false
  }

  // ----- Lines.

  predicate IsOperand(e: Expr) {
    IsExpression(e) && !e.Join?
  }

  /** A line of operands, each operator set off, and, if `seen`, all of them seen. */
  predicate LineOk(l: Line, seen: bool) {
    match l
    case Last(e) => IsOperand(e)
    case More(e, op, gap, rest) =>
      IsOperand(e) && SetOff(op, e, gap, rest.operand) && (seen ==> Seen(e, gap)) && LineOk(rest, seen)
  }

  lemma EndsOfConcat(x: string, y: string, z: string)
    requires x != "" && z != ""
    ensures StartsOpen(x + y + z) == StartsOpen(x) && EndsClosed(x + y + z) == EndsClosed(z) && x + y + z != ""
  {
    assert (x + y + z)[|x + y + z| - 1] == z[|z| - 1];
  }

  lemma {:induction false} LineEnds(l: Line, seen: bool)
    requires LineOk(l, seen)
    ensures PrintLine(l) != "" && IsOperand(Final(l)) && IsOperand(l.operand)
    ensures StartsOpen(PrintLine(l)) == StartsOpen(Print(l.operand))
    ensures EndsClosed(PrintLine(l)) == EndsClosed(Print(Final(l)))
  {
    hide IsExpression, Print, SetOff, Seen, GapText, StartsOpen, EndsClosed;
    PrintTrimmed(l.operand);
    if l.More? {
      LineEnds(l.rest, seen);
      EndsOfConcat(Print(l.operand), GapText(l.op, l.gap), PrintLine(l.rest));
    }
  }

  lemma {:induction false} AppendOk(l: Line, op: Operator, gap: Gap, m: Line)
    requires LineOk(l, false) && LineOk(m, false) && SetOff(op, Final(l), gap, m.operand)
    ensures var a := Append(l, op, gap, m);
            && LineOk(a, false) && PrintLine(a) == PrintLine(l) + GapText(op, gap) + PrintLine(m)
            && a.operand == l.operand && Final(a) == Final(m)
  {
    hide IsExpression, Print, SetOff, Seen, GapText;
    if l.More? {
      AppendOk(l.rest, op, gap, m);
      var x, y := Print(l.operand), GapText(l.op, l.gap);
      var g, z := GapText(op, gap), PrintLine(m);
      assert x + y + (PrintLine(l.rest) + g + z) == x + y + PrintLine(l.rest) + g + z;
    }
  }

  lemma SetOffSame(op: Operator, left: Expr, gap: Gap, right: Expr, l: Expr, r: Expr)
    requires SetOff(op, left, gap, right)
    requires EndsClosed(Print(left)) == EndsClosed(Print(l)) && StartsOpen(Print(right)) == StartsOpen(Print(r))
    ensures SetOff(op, l, gap, r) && Seen(l, gap) == Seen(left, gap)
  {
    hide Print, EndsClosed, StartsOpen;
  }

  // ----- Fusing and building change nothing of the text, and leave an expression.

  lemma {:induction false} GlueOk(l: Line)
    requires LineOk(l, false)
    ensures LineOk(Glue(l), true) && PrintLine(Glue(l)) == PrintLine(l)
    ensures StartsOpen(Print(Glue(l).operand)) == StartsOpen(Print(l.operand))
  {
    hide SetOff, Seen, GapText, StartsOpen, EndsClosed, IsExpression, Print;
    if l.More? {
      var e, op, gap, m := l.operand, l.op, l.gap, Glue(l.rest);
      var h := m.operand;
      GlueOk(l.rest);
      SetOffSame(op, e, gap, l.rest.operand, e, h);
      if !Seen(e, gap) {
        FusedOk(op, e, gap, h);
        if m.More? {
          SetOffSame(m.op, h, m.gap, m.rest.operand, Fused(op, e, gap, h), m.rest.operand);
          assert Print(e) + GapText(op, gap) + (Print(h) + GapText(m.op, m.gap) + PrintLine(m.rest))
              == Print(e) + GapText(op, gap) + Print(h) + GapText(m.op, m.gap) + PrintLine(m.rest);
        }
      }
    }
  }

  lemma FusedOk(op: Operator, e: Expr, gap: Gap, h: Expr)
    requires IsOperand(e) && IsOperand(h) && SetOff(op, e, gap, h) && !Seen(e, gap)
    ensures var f := Fused(op, e, gap, h);
            && IsOperand(f) && Print(f) == Print(e) + GapText(op, gap) + Print(h)
            && StartsOpen(Print(f)) == StartsOpen(Print(e)) && EndsClosed(Print(f)) == EndsClosed(Print(h))
  {
    hide SetOff, Seen, GapText, StartsOpen, EndsClosed;
    PrintTrimmed(e);
    PrintTrimmed(h);
    EndsOfConcat(Print(e), GapText(op, gap), Print(h));
  }

  lemma JoinOk(op: Operator, left: Expr, gap: Gap, right: Expr)
    requires IsExpression(left) && IsExpression(right) && GapOk(op, left, gap, right)
    requires op == AND ==> !IsOr(left) && !IsOr(right)
    ensures var j := Join(op, left, gap, right);
            && IsExpression(j) && Print(j) == Print(left) + GapText(op, gap) + Print(right)
            && StartsOpen(Print(j)) == StartsOpen(Print(left)) && EndsClosed(Print(j)) == EndsClosed(Print(right))
  {
    hide SetOff, Seen, GapText, StartsOpen, EndsClosed;
    PrintTrimmed(left);
    PrintTrimmed(right);
    EndsOfConcat(Print(left), GapText(op, gap), Print(right));
  }

  lemma {:induction false} BuildOk(l: Line)
    requires LineOk(l, true)
    ensures var b := Build(l);
            && IsExpression(b) && Print(b) == PrintLine(l) && (IsOr(b) ==> !IsOr(b.left))
            && StartsOpen(Print(b)) == StartsOpen(Print(l.operand))
  {
    hide SetOff, Seen, GapText, StartsOpen, EndsClosed, IsExpression, Print;
    if l.More? {
      var e, op, gap, b := l.operand, l.op, l.gap, Build(l.rest);
      BuildOk(l.rest);
      if op == AND && IsOr(b) {
        var x, y := b.left, b.right;
        OrParts(b);
        SetOffSame(AND, e, gap, l.rest.operand, e, x);
        JoinOk(AND, e, gap, x);
        SetOffSame(OR, x, b.gap, y, Join(AND, e, gap, x), y);
        JoinOk(OR, Join(AND, e, gap, x), b.gap, y);
        assert Print(e) + GapText(AND, gap) + (Print(x) + GapText(OR, b.gap) + Print(y))
            == Print(e) + GapText(AND, gap) + Print(x) + GapText(OR, b.gap) + Print(y);
      } else {
        SetOffSame(op, e, gap, l.rest.operand, e, b);
        JoinOk(op, e, gap, b);
      }
    }
  }

  lemma OrParts(b: Expr)
    requires IsExpression(b) && IsOr(b)
    ensures IsExpression(b.left) && IsExpression(b.right) && GapOk(OR, b.left, b.gap, b.right)
    ensures Print(b) == Print(b.left) + GapText(OR, b.gap) + Print(b.right)
    ensures StartsOpen(Print(b)) == StartsOpen(Print(b.left))
  {
    hide SetOff, Seen, GapText, StartsOpen, EndsClosed;
    PrintTrimmed(b.left);
    PrintTrimmed(b.right);
    EndsOfConcat(Print(b.left), GapText(OR, b.gap), Print(b.right));
  }

  lemma {:induction false} OperandsOk(t: Expr)
    requires IsText(t)
    ensures LineOk(Operands(t), false) && PrintLine(Operands(t)) == Print(t)
  {
    hide SetOff, Seen, StartsOpen, EndsClosed, IsSpace, KeywordFree, GapText;
    match t
    case Atom(_) =>
    case Group(lead, inner, trail) =>
      OperandsOk(inner);
      GlueOk(Operands(inner));
      BuildOk(Glue(Operands(inner)));
    case Join(op, left, gap, right) =>
      OperandsOk(left);
      OperandsOk(right);
      var l, m := Operands(left), Operands(right);
      LineEnds(l, false);
      LineEnds(m, false);
      SetOffSame(op, left, gap, right, Final(l), m.operand);
      AppendOk(l, op, gap, m);
  }

  /** Fusing keeps the text and yields an expression all of whose operators are seen. */
  lemma FuseOk(t: Expr)
    requires IsText(t)
    ensures IsExpression(Fuse(t)) && Print(Fuse(t)) == Print(t)
  {
    hide *;
    OperandsOk(t);
    GlueOk(Operands(t));
    BuildOk(Glue(Operands(t)));
    assert Fuse(t) == Build(Glue(Operands(t))) by { FuseIs(t); }
  }

  lemma FuseIs(t: Expr)
    ensures Fuse(t) == Build(Glue(Operands(t)))
  {
  }

  // ----- Main results.

  /** The exact meaning of every text made of identifiers, parentheses and operators, however the
      operators are set off: operators that are seen work, with OR loosest, and the others make one
      identifier of what stands around them. */
  lemma FusedAgrees(t: Expr, allow: set<string>)
    requires IsText(t)
    ensures Satisfied(Print(t), allow) == Eval(Fuse(t), allow)
  {
    hide *;
    FuseOk(t);
    EvaluatorAgrees(Fuse(t), allow);
  }

  /** Fusing does nothing to the meaning of an expression whose operators are all seen. */
  lemma FuseKeepsMeaning(t: Expr, allow: set<string>)
    requires IsText(t) && IsExpression(t)
    ensures Eval(Fuse(t), allow) == Eval(t, allow)
  {
    hide *;
    FusedAgrees(t, allow);
    EvaluatorAgrees(t, allow);
  }

  /** An identifier as long as `x` is needed to satisfy anything when only `x` is allowed. */
  lemma {:induction false} AllowedFits(t: Expr, x: string)
    requires IsText(t) && Eval(t, {x})
    ensures |x| <= |Print(t)|
  {
    hide IsAtom, IsSpace, SetOff;
    match t
    case Atom(_) =>
    case Group(_, inner, _) => AllowedFits(inner, x);
    case Join(_, left, _, right) =>
      if Eval(left, {x}) {
        AllowedFits(left, x);
      } else {
        AllowedFits(right, x);
      }
  }

  /** Two operands and an operator: the evaluator takes the text for what it says, whatever is
      allowed, if and only if the operator is seen. */
  lemma OneOperatorIff(op: Operator, left: Expr, gap: Gap, right: Expr)
    requires IsText(left) && IsText(right) && IsExpression(left) && IsExpression(right) && SetOff(op, left, gap, right)
    requires !left.Join? && !right.Join?
    ensures var t := Join(op, left, gap, right);
            (forall allow :: Satisfied(Print(t), allow) == Eval(t, allow)) <==> Seen(left, gap)
  {
    hide Satisfied, IsExpression, IsText, Fuse, Seen, SetOff, Allowed, Eval, Print;
    var t := Join(op, left, gap, right);
    assert IsText(t) by { TwoOperands(op, left, gap, right); }
    if Seen(left, gap) {
      assert IsExpression(t) by { JoinOk(op, left, gap, right); }
      forall allow ensures Satisfied(Print(t), allow) == Eval(t, allow) {
        EvaluatorAgrees(t, allow);
      }
    } else {
      var x := Print(t);
      FusedAgrees(t, {x});
      FusedTwo(op, left, gap, right);
      TwoOperands(op, left, gap, right);
      assert Satisfied(Print(t), {x}) != Eval(t, {x});
    }
  }

  lemma TwoOperands(op: Operator, left: Expr, gap: Gap, right: Expr)
    requires IsText(left) && IsText(right) && SetOff(op, left, gap, right)
    requires IsExpression(left) && IsExpression(right)
    ensures var t := Join(op, left, gap, right); IsText(t) && !Eval(t, {Print(t)})
  {
    hide IsExpression, SetOff;
    var t := Join(op, left, gap, right);
    PrintTrimmed(left);
    PrintTrimmed(right);
    var x := Print(t);
    if Eval(left, {x}) {
      AllowedFits(left, x);
    }
    if Eval(right, {x}) {
      AllowedFits(right, x);
    }
  }

  lemma FusedTwo(op: Operator, left: Expr, gap: Gap, right: Expr)
    requires IsText(left) && IsText(right) && IsExpression(left) && IsExpression(right)
    requires !left.Join? && !right.Join? && !Seen(left, gap) && SetOff(op, left, gap, right)
    ensures var t := Join(op, left, gap, right); Eval(Fuse(t), {Print(t)})
  {
    hide IsExpression, SetOff, Seen, IsText, Print, EndsClosed, StartsOpen, LineOk;
    var t := Join(op, left, gap, right);
    TwoOperands(op, left, gap, right);
    FuseOk(t);
    OperandsOk(left);
    var l := Operands(left).operand;
    SetOffSame(op, left, gap, right, l, right);
    assert Glue(Operands(t)) == Last(Fused(op, l, gap, Operands(right).operand));
  }

  /** A parenthesis that touches the operator: MIT is allowed, yet the expression is turned down. */
  lemma TouchingCounterexample()
    ensures var t := Join(OR, Atom("MIT"), Spaced(" ", ""), Group("", Atom("ISC"), ""));
            && IsText(t) && Print(t) == "MIT OR(ISC)"
            && !Satisfied("MIT OR(ISC)", {"MIT"}) && Eval(t, {"MIT"})
  {
    hide Satisfied, Fuse, IsExpression;
    var t := Join(OR, Atom("MIT"), Spaced(" ", ""), Group("", Atom("ISC"), ""));
    LineBreakCounterexample();
    assert Print(t.right) == "(" + ("" + "ISC" + "") + ")" == "(ISC)";
    assert Print(t) == "MIT" + (" " + "OR" + "") + "(ISC)" == "MIT OR(ISC)";
    FusedAgrees(t, {"MIT"});
    TouchingFused(t);
    var e := "MIT OR(ISC)";
    assert e[|e| - 1] == ')' && TrimEnd(e, IsPlus) == e;
    assert |e| == 11;
  }

  lemma TouchingFused(t: Expr)
    requires t == Join(OR, Atom("MIT"), Spaced(" ", ""), Group("", Atom("ISC"), ""))
    ensures Fuse(t) == Fused(OR, t.left, t.gap, t.right)
  {
    assert Operands(t.right) == Last(t.right);
  }

}
