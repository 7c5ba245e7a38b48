/** Duration strings in the configuration: a number and a unit. */
module Durations {
  import opened Text
  import opened Decimal

  const U64_MAX := 0xffff_ffff_ffff_ffff

  datatype Error = Empty | MissingUnit | MissingNumber | BadNumber | BadUnit | Overflow

  /** A duration in milliseconds, or the refusal. */
  datatype Result = Ok(millis: nat) | Err(error: Error)

  datatype Unit = Ms | S | M | H | D

  /** White space as Rust's `str::trim` understands it. */
  predicate IsWhite(c: char) {
    || '\t' <= c <= '\r'
    || c == ' ' || c == '\U{85}' || c == '\U{a0}' || c == '\U{1680}'
    || '\U{2000}' <= c <= '\U{200a}'
    || c == '\U{2028}' || c == '\U{2029}' || c == '\U{202f}' || c == '\U{205f}' || c == '\U{3000}'
  }

  function LowerChar(c: char): char {
    if 'A' <= c <= 'Z' then (c as int + 32) as char else c
  }

  function Lower(s: string): (r: string)
    ensures |r| == |s| && forall i :: 0 <= i < |s| ==> r[i] == LowerChar(s[i])
  {
    seq(|s|, i requires 0 <= i < |s| => LowerChar(s[i]))
  }

  function Name(unit: Unit): string {
    match unit
    case Ms => "ms"
    case S => "s"
    case M => "m"
    case H => "h"
    case D => "d"
  }

  /** Seconds in one unit; milliseconds are not counted in seconds. */
  function Seconds(unit: Unit): nat {
    match unit
    case Ms => 1
    case S => 1
    case M => 60
    case H => 3600
    case D => 86400
  }

  function Millis(unit: Unit): nat {
    if unit == Ms then 1 else 1000 * Seconds(unit)
  }

  /** Length of the leading digits. */
  function Digits(s: string): (n: nat)
    ensures n <= |s| && (forall i :: 0 <= i < n ==> IsDigit(s[i])) && (n < |s| ==> !IsDigit(s[n]))
  {
    if s != "" && IsDigit(s[0]) then
      var n := Digits(s[1..]);
      assert forall i :: 1 <= i < n + 1 ==> s[i] == s[1..][i - 1];
      n + 1
    else 0
  }

  function CheckedMul(n: nat, factor: nat): Result {
    if n * factor > U64_MAX then Err(Overflow) else Ok(1000 * (n * factor))
  }

  /** `parse_duration`. */
  function ParseDuration(raw: string): Result {
    var trimmed := Trim(raw, IsWhite);
    if trimmed == "" then Err(Empty)
    else
      var split := Digits(trimmed);
      if split == |trimmed| then Err(MissingUnit)
      else
        var num, unit := trimmed[..split], Lower(trimmed[split..]);
        if num == "" then Err(MissingNumber)
        else
          var n := Value(num);
          if n > U64_MAX then Err(BadNumber)
          else if unit == "ms" then Ok(n)
          else if unit == "s" then Ok(1000 * n)
          else if unit == "m" then CheckedMul(n, 60)
          else if unit == "h" then CheckedMul(n, 3600)
          else if unit == "d" then CheckedMul(n, 86_400)
          else Err(BadUnit)
  }

  // ----- The language.

  /** `raw` is, apart from white space around it, the digits `num` and a spelling of `unit`. */
  ghost predicate Spells(raw: string, num: string, name: string, unit: Unit) {
    && Trim(raw, IsWhite) == num + name
    && num != "" && AllDigits(num) && Lower(name) == Name(unit)
  }

  lemma NameSplits(num: string, name: string, unit: Unit)
    requires AllDigits(num) && Lower(name) == Name(unit)
    ensures name != "" && Digits(num + name) == |num|
    ensures (num + name)[..|num|] == num && (num + name)[|num|..] == name
  {
    assert |name| == |Name(unit)|;
    assert !IsDigit(name[0]) by { assert LowerChar(name[0]) == Name(unit)[0]; }
    DigitsStop(num, name);
  }

  lemma {:induction false} DigitsStop(num: string, rest: string)
    requires AllDigits(num) && rest != "" && !IsDigit(rest[0])
    ensures Digits(num + rest) == |num|
  {
    if num == "" {
      assert num + rest == rest;
    } else {
      assert (num + rest)[1..] == num[1..] + rest;
      DigitsStop(num[1..], rest);
    }
  }

  /** What the parser does with a well-spelt duration: the number times the unit, or one of the two
      refusals for numbers that do not fit. */
  lemma ParseSpelled(raw: string, num: string, name: string, unit: Unit)
    requires Spells(raw, num, name, unit)
    ensures ParseDuration(raw)
         == if Value(num) > U64_MAX then Err(BadNumber)
            else if Value(num) * Seconds(unit) > U64_MAX then Err(Overflow)
            else Ok(Value(num) * Millis(unit))
  {
    hide Trim, Value, Digits;
    NameSplits(num, name, unit);
  }

  /** `raw` is a well-spelt duration of `millis` milliseconds that fits in 64 bits. */
  ghost predicate Denotes(raw: string, num: string, name: string, unit: Unit, millis: nat) {
    && Spells(raw, num, name, unit)
    && Value(num) <= U64_MAX && Value(num) * Seconds(unit) <= U64_MAX && millis == Value(num) * Millis(unit)
  }

  /** The parser accepts exactly the well-spelt durations that fit in 64 bits, and returns the
      number times the unit. */
  lemma AcceptsExactly(raw: string, millis: nat)
    ensures ParseDuration(raw) == Ok(millis) <==> exists num, name, unit :: Denotes(raw, num, name, unit, millis)
  {
    hide ParseDuration, Denotes;
    if ParseDuration(raw) == Ok(millis) {
      AcceptedDenotes(raw, millis);
    }
    if num, name, unit :| Denotes(raw, num, name, unit, millis) {
      DenotedAccepts(raw, num, name, unit, millis);
    }
  }

  lemma DenotedAccepts(raw: string, num: string, name: string, unit: Unit, millis: nat)
    requires Denotes(raw, num, name, unit, millis)
    ensures ParseDuration(raw) == Ok(millis)
  {
    hide ParseDuration, Trim, Value;
    ParseSpelled(raw, num, name, unit);
  }

  lemma AcceptedDenotes(raw: string, millis: nat)
    requires ParseDuration(raw) == Ok(millis)
    ensures exists num, name, unit :: Denotes(raw, num, name, unit, millis)
  {
    hide Trim, Value;
    var t := Trim(raw, IsWhite);
    var num, name := t[..Digits(t)], t[Digits(t)..];
    assert t == num + name;
    assert Denotes(raw, num, name, UnitNamed(Lower(name)), millis);
  }

  ghost function UnitNamed(name: string): Unit {
    if name == "ms" then Ms else if name == "s" then S else if name == "m" then M else if name == "h" then H else D
  }

  /** A printed number and unit, in either case and with white space around, parse back. */
  lemma PrintedParses(pre: string, n: nat, name: string, unit: Unit, post: string)
    requires All(pre, IsWhite) && All(post, IsWhite) && Lower(name) == Name(unit)
    requires n <= U64_MAX && n * Seconds(unit) <= U64_MAX
    ensures ParseDuration(pre + (Print(n) + name) + post) == Ok(n * Millis(unit))
  {
    hide Trim, Value, Print, IsWhite;
    var core := Print(n) + name;
    NameSplits(Print(n), name, unit);
    CoreTrimmed(Print(n), name, unit);
    TrimPadded(pre, core, post, IsWhite);
    ValuePrint(n);
    ParseSpelled(pre + core + post, Print(n), name, unit);
  }

  lemma CoreTrimmed(num: string, name: string, unit: Unit)
    requires num != "" && AllDigits(num) && name != "" && Lower(name) == Name(unit)
    ensures Trimmed(num + name, IsWhite)
  {
    assert IsDigit(num[0]) && |name| == |Name(unit)|;
    assert LowerChar(name[|name| - 1]) == Name(unit)[|name| - 1];
  }

  /** Each unit in lower and upper case, with its factor in milliseconds; the product of minutes,
      hours and days with their seconds must fit in 64 bits, that of plain seconds need not. */
  lemma EachUnit(n: nat)
    requires n <= 18446744073709551615
    ensures ParseDuration(Print(n) + "ms") == ParseDuration(Print(n) + "MS") == Ok(n)
    ensures ParseDuration(Print(n) + "s") == ParseDuration(Print(n) + "S") == Ok(1000 * n)
    ensures var r := if 60 * n <= 18446744073709551615 then Ok(60000 * n) else Err(Overflow);
            ParseDuration(Print(n) + "m") == ParseDuration(Print(n) + "M") == r
    ensures var r := if 3600 * n <= 18446744073709551615 then Ok(3600000 * n) else Err(Overflow);
            ParseDuration(Print(n) + "h") == ParseDuration(Print(n) + "H") == r
    ensures var r := if 86400 * n <= 18446744073709551615 then Ok(86400000 * n) else Err(Overflow);
            ParseDuration(Print(n) + "d") == ParseDuration(Print(n) + "D") == r
  {
    hide ParseDuration, Print;
    LowerNames();
    hide Lower;
    OneUnit(n, "ms", Ms);
    OneUnit(n, "MS", Ms);
    OneUnit(n, "s", S);
    OneUnit(n, "S", S);
    OneUnit(n, "m", M);
    OneUnit(n, "M", M);
    OneUnit(n, "h", H);
    OneUnit(n, "H", H);
    OneUnit(n, "d", D);
    OneUnit(n, "D", D);
  }

  lemma LowerNames()
    ensures Lower("MS") == "ms" && Lower("ms") == "ms" && Lower("S") == "s" && Lower("s") == "s"
    ensures Lower("M") == "m" && Lower("m") == "m" && Lower("H") == "h" && Lower("h") == "h"
    ensures Lower("D") == "d" && Lower("d") == "d"
  {
  }

  lemma OneUnit(n: nat, name: string, unit: Unit)
    requires n <= U64_MAX && Lower(name) == Name(unit)
    ensures ParseDuration(Print(n) + name)
         == if n * Seconds(unit) > U64_MAX then Err(Overflow) else Ok(n * Millis(unit))
  {
    hide ParseDuration, Trim, Value, Print, IsWhite;
    var core := Print(n) + name;
    NameSplits(Print(n), name, unit);
    CoreTrimmed(Print(n), name, unit);
    TrimPadded("", core, "", IsWhite);
    assert "" + core + "" == core;
    ValuePrint(n);
    ParseSpelled(core, Print(n), name, unit);
  }

  // ----- The refusals.

  /** `raw` is, apart from white space around it, digits followed by something else. */
  ghost predicate Splits(raw: string, num: string, name: string) {
    && Trim(raw, IsWhite) == num + name
    && num != "" && AllDigits(num) && name != "" && !IsDigit(name[0])
  }

  /** What stands before and after the digits decides the refusal; the number is looked at before the
      unit, and the unit before the product. */
  lemma RefusedSplit(raw: string, num: string, name: string)
    requires Splits(raw, num, name)
    ensures ParseDuration(raw) == Err(BadNumber) <==> Value(num) > 18446744073709551615
    ensures ParseDuration(raw) == Err(BadUnit)
       <==> Value(num) <= 18446744073709551615 && forall unit :: Lower(name) != Name(unit)
  {
    hide Trim, Value;
    DigitsStop(num, name);
    assert (num + name)[..|num|] == num && (num + name)[|num|..] == name;
    assert Name(Ms) == "ms" && Name(S) == "s" && Name(M) == "m" && Name(H) == "h" && Name(D) == "d";
  }

  /** Texts that do not split are refused for the part that is missing. */
  lemma RefusedUnsplit(raw: string)
    ensures ParseDuration(raw) == Err(Empty) <==> Trim(raw, IsWhite) == ""
    ensures ParseDuration(raw) == Err(MissingUnit) <==> Trim(raw, IsWhite) != "" && AllDigits(Trim(raw, IsWhite))
    ensures ParseDuration(raw) == Err(MissingNumber) <==> Trim(raw, IsWhite) != "" && !IsDigit(Trim(raw, IsWhite)[0])
  {
    hide Trim, Value;
    var t := Trim(raw, IsWhite);
    assert t[..Digits(t)] == "" <==> Digits(t) == 0;
  }

  /** The white space that is trimmed, character by character. */
  lemma WhiteSpace(c: char)
    ensures IsWhite(c)
       <==> c in "\t\n\U{b}\U{c}\r \U{85}\U{a0}\U{1680}\U{2000}\U{2001}\U{2002}\U{2003}\U{2004}\U{2005}\U{2006}"
              || c in "\U{2007}\U{2008}\U{2009}\U{200a}\U{2028}\U{2029}\U{202f}\U{205f}\U{3000}"
  {
  }
}
