/** Quoting a path for a startup file, and the shells that read it back. */
module ShellQuoting {
  import opened Options

  /** What a reader takes off the front of its input, and what it leaves. */
  datatype Lexed = Lexed(word: string, rest: string)

  const POSIX_APOSTROPHE_ESCAPE := "'\\''"
  const POWERSHELL_APOSTROPHE_ESCAPE := "''"

  /** `str::replace` of the apostrophe. */
  function Replace(s: string, escape: string): string {
    if s == "" then ""
    else (if s[0] == '\'' then escape else [s[0]]) + Replace(s[1..], escape)
  }

  function QuotePath(path: string, escape: string): string {
    "'" + Replace(path, escape) + "'"
  }

  lemma ReplaceFirst(path: string, escape: string, tail: string)
    requires path != ""
    ensures Replace(path, escape) + tail
         == (if path[0] == '\'' then escape else [path[0]]) + (Replace(path[1..], escape) + tail)
  {
    var head := if path[0] == '\'' then escape else [path[0]];
    assert Replace(path, escape) == head + Replace(path[1..], escape);
    Reassociate(head, Replace(path[1..], escape), tail);
    hide Replace;
  }

  lemma Reassociate(a: string, b: string, c: string)
    ensures a + b + c == a + (b + c)
  {
  }

  // ----- The POSIX shell: POSIX.1-2017, Shell Command Language, sections 2.2.1, 2.2.2 and 2.3.

  /** A blank, a newline or the first character of an operator ends an unquoted word. */
  predicate EndsWord(c: char) {
    || c == ' ' || c == '\t' || c == '\n'
    || c == '|' || c == '&' || c == ';' || c == '<' || c == '>' || c == '(' || c == ')'
  }

  lemma EndsWordIff(c: char)
    ensures EndsWord(c) <==> c in " \t\n|&;<>()"
  {
  }

  /** Characters that start an expansion or another form of quoting, which this reader does not do. */
  predicate IsSpecial(c: char) {
    c == '"' || c == '$' || c == '`' || c == '*' || c == '?' || c == '[' || c == '#' || c == '~' || c == '=' || c == '%'
  }

  /** Reads one word. Outside quotes a backslash preserves the next character, and with a newline it
      is a line continuation; between apostrophes every character stands for itself. */
  function ReadWord(s: string, quoted: bool): Option<Lexed>
    decreases |s|
  {
    if quoted then
      if s == "" then None
      else if s[0] == '\'' then ReadWord(s[1..], false)
      else Push(s[0], ReadWord(s[1..], true))
    else if s == "" || EndsWord(s[0]) then Some(Lexed("", s))
    else if s[0] == '\'' then ReadWord(s[1..], true)
    else if s[0] == '\\' then
      if |s| == 1 then None
      else if s[1] == '\n' then ReadWord(s[2..], false)
      else Push(s[1], ReadWord(s[2..], false))
    else if IsSpecial(s[0]) then None
    else Push(s[0], ReadWord(s[1..], false))
  }

  function Push(c: char, r: Option<Lexed>): Option<Lexed> {
    match r
    case None => None
    case Some(l) => Some(Lexed([c] + l.word, l.rest))
  }

  lemma {:induction false} ReadQuoted(path: string, rest: string)
    requires rest == "" || EndsWord(rest[0])
    ensures ReadWord(Replace(path, POSIX_APOSTROPHE_ESCAPE) + ("'" + rest), true) == Some(Lexed(path, rest))
  {
    var tail := "'" + rest;
    if path == "" {
      assert Replace(path, POSIX_APOSTROPHE_ESCAPE) + tail == tail && tail[1..] == rest;
    } else {
      hide Replace;
      var after := Replace(path[1..], POSIX_APOSTROPHE_ESCAPE) + tail;
      ReplaceFirst(path, POSIX_APOSTROPHE_ESCAPE, tail);
      ReadQuoted(path[1..], rest);
      assert [path[0]] + path[1..] == path;
      if path[0] == '\'' {
        ReadEscape(after);
      } else {
        assert ([path[0]] + after)[1..] == after;
      }
    }
  }

  lemma ReadEscape(after: string)
    ensures ReadWord("'\\''" + after, true) == Push('\'', ReadWord(after, true))
  {
    var s := "'\\''" + after;
    var t, u := "\\''" + after, "'" + after;
    assert s[1..] == t && t[2..] == u && u[1..] == after;
    assert ReadWord(u, false) == ReadWord(after, true);
    assert ReadWord(t, false) == Push('\'', ReadWord(u, false));
  }

  /** For every path, and before anything that may follow a word, the shell reads the quoted path
      as one word, and the word is the path. */
  lemma PosixRoundTrip(path: string, rest: string)
    requires rest == "" || EndsWord(rest[0])
    ensures ReadWord(QuotePath(path, POSIX_APOSTROPHE_ESCAPE) + rest, false) == Some(Lexed(path, rest))
  {
    var inner := Replace(path, POSIX_APOSTROPHE_ESCAPE);
    ReadQuoted(path, rest);
    var s := QuotePath(path, POSIX_APOSTROPHE_ESCAPE) + rest;
    assert s[1..] == inner + ("'" + rest);
  }

  // ----- PowerShell: verbatim strings, section 2.3.5.2 of the PowerShell language reference.

  predicate IsTypographic(c: char) {
    '\U{2018}' <= c <= '\U{201b}'
  }

  /** PowerShell accepts the typographic single quotes for the apostrophe. */
  predicate IsSingleQuote(c: char) {
    c == '\'' || IsTypographic(c)
  }

  lemma SingleQuotes(c: char)
    ensures IsSingleQuote(c) <==> c in "'\U{2018}\U{2019}\U{201a}\U{201b}"
  {
  }

  /** Reads a verbatim string behind its opening quote. Two quote characters stand for one; which
      of the two is kept only matters for mixed pairs, so both readings are covered. */
  function ReadVerbatim(s: string, keepFirst: bool): Option<Lexed> {
    if s == "" then None
    else if !IsSingleQuote(s[0]) then Push(s[0], ReadVerbatim(s[1..], keepFirst))
    else if |s| > 1 && IsSingleQuote(s[1]) then Push(if keepFirst then s[0] else s[1], ReadVerbatim(s[2..], keepFirst))
    else Some(Lexed("", s[1..]))
  }

  function ReadLiteral(s: string, keepFirst: bool): Option<Lexed> {
    if s != "" && IsSingleQuote(s[0]) then ReadVerbatim(s[1..], keepFirst) else None
  }

  predicate Plain(path: string) {
    forall i :: 0 <= i < |path| ==> !IsTypographic(path[i])
  }

  lemma ReadPair(after: string, keepFirst: bool)
    ensures ReadVerbatim("''" + after, keepFirst) == Push('\'', ReadVerbatim(after, keepFirst))
  {
    assert ("''" + after)[2..] == after;
  }

  lemma ReadPlain(c: char, after: string, keepFirst: bool)
    requires !IsSingleQuote(c)
    ensures ReadVerbatim([c] + after, keepFirst) == Push(c, ReadVerbatim(after, keepFirst))
  {
    assert ([c] + after)[1..] == after;
  }

  lemma ReadClose(rest: string, keepFirst: bool)
    requires rest == "" || !IsSingleQuote(rest[0])
    ensures ReadVerbatim("'" + rest, keepFirst) == Some(Lexed("", rest))
  {
    assert ("'" + rest)[1..] == rest;
  }

  lemma {:induction false} ReadDoubled(path: string, rest: string, keepFirst: bool)
    requires Plain(path) && (rest == "" || !IsSingleQuote(rest[0]))
    ensures ReadVerbatim(Replace(path, POWERSHELL_APOSTROPHE_ESCAPE) + ("'" + rest), keepFirst)
         == Some(Lexed(path, rest))
  {
    hide ReadVerbatim;
    var tail := "'" + rest;
    if path == "" {
      ReadClose(rest, keepFirst);
      assert Replace(path, POWERSHELL_APOSTROPHE_ESCAPE) + tail == tail;
    } else {
      var after := Replace(path[1..], POWERSHELL_APOSTROPHE_ESCAPE) + tail;
      ReplaceFirst(path, POWERSHELL_APOSTROPHE_ESCAPE, tail);
      hide Replace;
      ReadDoubled(path[1..], rest, keepFirst);
      assert [path[0]] + path[1..] == path && !IsTypographic(path[0]);
      if path[0] == '\'' {
        ReadPair(after, keepFirst);
      } else {
        ReadPlain(path[0], after, keepFirst);
      }
    }
  }

  ghost function Quotes(s: string): nat {
    if s == "" then 0 else (if IsSingleQuote(s[0]) then 1 else 0) + Quotes(s[1..])
  }

  ghost function Typographic(s: string): nat {
    if s == "" then 0 else (if IsTypographic(s[0]) then 1 else 0) + Typographic(s[1..])
  }

  lemma {:induction false} TypographicNone(s: string)
    ensures Typographic(s) == 0 <==> Plain(s)
  {
    if s != "" {
      TypographicNone(s[1..]);
    }
  }

  /** A literal that takes up the whole input spends two quotes on each it yields, and one to close. */
  lemma {:induction false} ReadVerbatimQuotes(s: string, keepFirst: bool)
    requires ReadVerbatim(s, keepFirst).Some? && ReadVerbatim(s, keepFirst).value.rest == ""
    ensures Quotes(s) == 2 * Quotes(ReadVerbatim(s, keepFirst).value.word) + 1
  {
    if !IsSingleQuote(s[0]) {
      ReadVerbatimQuotes(s[1..], keepFirst);
      PushQuotes(s[0], ReadVerbatim(s[1..], keepFirst).value);
    } else if |s| > 1 && IsSingleQuote(s[1]) {
      ReadVerbatimQuotes(s[2..], keepFirst);
      PushQuotes(if keepFirst then s[0] else s[1], ReadVerbatim(s[2..], keepFirst).value);
      assert s[1..][1..] == s[2..];
    } else {
      assert s[1..] == "";
    }
  }

  lemma PushQuotes(c: char, l: Lexed)
    ensures Quotes([c] + l.word) == (if IsSingleQuote(c) then 1 else 0) + Quotes(l.word)
  {
    assert ([c] + l.word)[1..] == l.word;
  }

  lemma {:induction false} ReplaceQuotes(path: string)
    ensures Quotes(Replace(path, POWERSHELL_APOSTROPHE_ESCAPE) + "'") == 2 * Quotes(path) - Typographic(path) + 1
  {
    if path == "" {
      assert "'"[1..] == "" && Replace(path, POWERSHELL_APOSTROPHE_ESCAPE) + "'" == "'";
    } else {
      var after := Replace(path[1..], POWERSHELL_APOSTROPHE_ESCAPE) + "'";
      ReplaceQuotes(path[1..]);
      if path[0] == '\'' {
        var s := "''" + after;
        assert Replace(path, POWERSHELL_APOSTROPHE_ESCAPE) + "'" == s && s[1..][1..] == after;
      } else {
        var s := [path[0]] + after;
        assert Replace(path, POWERSHELL_APOSTROPHE_ESCAPE) + "'" == s && s[1..] == after;
      }
    }
  }

  /** PowerShell reads the quoted path back as the path exactly when the path holds none of the
      typographic single quotes, which the quoting does not double. */
  lemma PowerShellRoundTripIff(path: string, keepFirst: bool)
    ensures ReadLiteral(QuotePath(path, POWERSHELL_APOSTROPHE_ESCAPE), keepFirst) == Some(Lexed(path, ""))
        <==> Plain(path)
  {
    var s := Replace(path, POWERSHELL_APOSTROPHE_ESCAPE) + "'";
    assert QuotePath(path, POWERSHELL_APOSTROPHE_ESCAPE)[1..] == s;
    assert "'" + "" == "'";
    if Plain(path) {
      ReadDoubled(path, "", keepFirst);
    }
    if ReadVerbatim(s, keepFirst) == Some(Lexed(path, "")) {
      ReadVerbatimQuotes(s, keepFirst);
      ReplaceQuotes(path);
      TypographicNone(path);
    }
  }
}
