/** Concrete inputs and what becomes of them, down to the last character. */
module WorkedExamples {
  import opened Options
  import opened LicenseSplit
  import opened LicenseScan
  import opened LicenseAudit
  import opened LicenseGrammar
  import LicenseMeaning
  import opened ManagedBlocks
  import opened CompletionUpsert
  import CompletionWrite
  import ShellQuoting
  import Decimal

  // ----- Licences: what binds, what groups, and what a slash and a plus mean.

  lemma Letters()
    ensures IsAtom("A") && IsAtom("B") && IsAtom("C")
  {
  }

  function Spaced1(op: Operator, left: Expr, right: Expr): Expr {
    Join(op, left, Spaced(" ", " "), right)
  }

  /** `A OR B AND C` is `A OR (B AND C)`. */
  lemma OrBindsLoosest(allow: set<string>)
    ensures Satisfied("A OR B AND C", allow) <==> "A" in allow || ("B" in allow && "C" in allow)
  {
    hide Satisfied, IsAtom;
    Letters();
    var t := Spaced1(OR, Atom("A"), Spaced1(AND, Atom("B"), Atom("C")));
    assert HasBlank(" ") by { assert " "[0] == ' '; }
    assert Print(t.right) == "B AND C";
    assert Print(t) == "A OR B AND C";
    EvaluatorAgrees(t, allow);
    LicenseMeaning.EvalJoin(t, allow);
    LicenseMeaning.EvalJoin(t.right, allow);
    SingleLetters(allow);
  }

  /** `(A OR B) AND C` is what it says. */
  lemma GroupsFirst(allow: set<string>)
    ensures Satisfied("(A OR B) AND C", allow) <==> ("A" in allow || "B" in allow) && "C" in allow
  {
    hide Satisfied, IsAtom;
    Letters();
    var or := Spaced1(OR, Atom("A"), Atom("B"));
    var t := Spaced1(AND, Group("", or, ""), Atom("C"));
    assert HasBlank(" ") by { assert " "[0] == ' '; }
    assert Print(or) == "A OR B";
    assert Print(t.left) == "(" + ("" + Print(or) + "") + ")" == "(A OR B)";
    assert Print(t) == "(A OR B) AND C";
    EvaluatorAgrees(t, allow);
    LicenseMeaning.EvalJoin(t, allow);
    LicenseMeaning.EvalGroup(t.left, allow, "");
    LicenseMeaning.EvalJoin(or, allow);
    SingleLetters(allow);
  }

  /** `A/B` is the old way to write `A OR B`. */
  lemma SlashIsOr(allow: set<string>)
    ensures Satisfied("A/B", allow) <==> "A" in allow || "B" in allow
    ensures Satisfied("( A / B )", allow) <==> "A" in allow || "B" in allow
  {
    hide Satisfied, IsAtom;
    Letters();
    var t := Join(OR, Atom("A"), Slashed("", ""), Atom("B"));
    assert Print(t) == "A" + ("" + "/" + "") + "B" == "A/B";
    EvaluatorAgrees(t, allow);
    SingleLetters(allow);
    var or := Join(OR, Atom("A"), Slashed(" ", " "), Atom("B"));
    var u := Group(" ", or, " ");
    assert Print(or) == "A" + (" " + "/" + " ") + "B" == "A / B";
    assert Print(u) == "(" + (" " + Print(or) + " ") + ")" == "( A / B )";
    EvaluatorAgrees(u, allow);
    LicenseMeaning.EvalGroup(u, allow, "");
    LicenseMeaning.EvalJoin(or, allow);
  }

  lemma SingleLetters(allow: set<string>)
    ensures Allowed("A", allow) <==> "A" in allow
    ensures Allowed("B", allow) <==> "B" in allow
    ensures Allowed("C", allow) <==> "C" in allow
  {
  }

  // ----- The managed block, appended and replaced.

  function Block(body: string): string {
    "# >>> comemory completions >>>" + "\n" + body + "\n" + "# <<< comemory completions <<<"
  }

  lemma BlockIs(body: string)
    ensures BlockText(body) == Block(body)
  {
  }

  lemma FrameIs(s: string, before: string)
    requires Blocks(s) == Some([]) && before == s + Padding(s)
    ensures FrameOf(s) == Some(Frame(before, "\n"))
  {
    BlocksExact(s, []);
    hide Blocks;
  }

  /** Into an empty file goes the block alone, and behind text it stands after an empty line. */
  lemma Appended(body: string)
    ensures Upsert("", body) == Some(Block(body) + "\n")
    ensures Upsert("a", body) == Some("a\n\n" + Block(body) + "\n")
    ensures Upsert("a\n", body) == Some("a\n\n" + Block(body) + "\n")
  {
    NoBlocks();
    hide Blocks, FrameOf, BlockText, Block;
    BlockIs(body);
    assert "a" + "\n\n" == "a\n\n" && "a\n" + "\n" == "a\n\n" && "" + "" == "";
    FrameIs("", "");
    FrameIs("a", "a\n\n");
    FrameIs("a\n", "a\n\n");
    assert "" + Block(body) + "\n" == Block(body) + "\n";
  }

  lemma NoBlocks()
    ensures Blocks("") == Some([]) && Blocks("a") == Some([]) && Blocks("a\n") == Some([])
  {
    hide Marker;
    assert |Marker(Start)| == |Marker(End)| == 30;
    assert Marks("", 0) == [] && Marks("a", 1) == [] && Marks("a", 0) == [];
    assert Marks("a\n", 2) == [] && Marks("a\n", 1) == [] && Marks("a\n", 0) == [];
  }

  /** A second write takes the place of the first. */
  lemma Replaced(before: string, body: string)
    requires MarkFree(before)
    ensures Upsert("a\n\n" + Block(before) + "\n", body) == Some("a\n\n" + Block(body) + "\n")
  {
    NoBlocks();
    Appended(before);
    Appended(body);
    hide Blocks, FrameOf, MarkFree, BlockText, Block, Framed;
    FrameIs("a", "a" + Padding("a"));
    LinesSuffice("a", []);
    LastWriteWins("a", before, body);
  }

  // ----- Quoting, names and numbers.

  lemma Quoted()
    ensures ShellQuoting.QuotePath("it's", ShellQuoting.POSIX_APOSTROPHE_ESCAPE) == "'it'\\''s'"
    ensures ShellQuoting.QuotePath("it's", ShellQuoting.POWERSHELL_APOSTROPHE_ESCAPE) == "'it''s'"
  {
    var p, w := ShellQuoting.POSIX_APOSTROPHE_ESCAPE, ShellQuoting.POWERSHELL_APOSTROPHE_ESCAPE;
    assert "it's"[1..] == "t's" && "t's"[1..] == "'s" && "'s"[1..] == "s" && "s"[1..] == "";
    assert ShellQuoting.Replace("'s", p) == "'\\''s" && ShellQuoting.Replace("'s", w) == "''s";
    assert ShellQuoting.Replace("it's", p) == "it'\\''s" && ShellQuoting.Replace("it's", w) == "it''s";
  }

  lemma Printed()
    ensures Decimal.Print(0) == "0" && Decimal.Print(7) == "7"
    ensures Decimal.Print(10) == "10" && Decimal.Print(907) == "907"
    ensures Decimal.Value("007") == 7 && Decimal.Value("120") == 120
  {
    assert Decimal.Print(9) == "9" && Decimal.Print(90) == "90";
    assert "007"[..2] == "00" && "00"[..1] == "0" && "120"[..2] == "12" && "12"[..1] == "1";
    assert Decimal.Value("00") == 0 && Decimal.Value("12") == 12;
  }

  lemma TemporaryName()
    ensures CompletionWrite.TempName("rc", 10, 7) == ".rc.tmp.10.7"
  {
    Printed();
  }
}
