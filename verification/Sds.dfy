/** Quoting a byte string for the command line and splitting such a line into arguments. */
module Sds {
  import opened Basics
  import opened Decimal

  // ---------- characters ----------

  predicate IsByte(c: char) { c as int < 256 }

  /** isprint in the C locale. */
  predicate IsPrint(c: char) { ' ' <= c <= '~' }

  const BELL: char := 7 as char
  const BACKSPACE: char := 8 as char

  function HexDigit(n: nat): (c: char)
    requires n < 16
    ensures IsHexDigit(c) && HexValue(c) == n && c != '\0'
  {
    if n < 10 then (48 + n) as char else (87 + n) as char
  }

  predicate IsHexDigit(c: char) { '0' <= c <= '9' || 'a' <= c <= 'f' || 'A' <= c <= 'F' }

  function HexValue(c: char): (n: nat)
    ensures n < 16
  {
    if '0' <= c <= '9' then c as int - 48
    else if 'a' <= c <= 'f' then c as int - 87
    else if 'A' <= c <= 'F' then c as int - 55
    else 0
  }

  // ---------- sdscatrepr ----------

  datatype Mode = Plain | InDouble | InSingle

  function Escaped(c: char): (r: string)
    requires IsByte(c)
    ensures r != "" && r[0] != '\"'
  {
    if c == '\\' || c == '\"' then ['\\', c]
    else if c == '\n' then "\\n"
    else if c == '\r' then "\\r"
    else if c == '\t' then "\\t"
    else if c == BELL then "\\a"
    else if c == BACKSPACE then "\\b"
    else if IsPrint(c) then [c]
    else ['\\', 'x', HexDigit(c as int / 16), HexDigit(c as int % 16)]
  }

  /** The characters that can be written in each way: any byte between double quotes, anything
      but the terminator between single ones, and neither blanks nor quotes without any. */
  predicate CharOk(c: char, mode: Mode) {
    match mode
    case InDouble => IsByte(c)
    case InSingle => c != '\0'
    case Plain => c != '\0' && !EndsBare(c) && c != '\"' && c != '\''
  }

  predicate EndsBare(c: char) { c == ' ' || c == '\n' || c == '\r' || c == '\t' }

  ghost predicate TextOk(s: string, mode: Mode) { forall i :: 0 <= i < |s| ==> CharOk(s[i], mode) }

  function WriteChar(c: char, mode: Mode): string
    requires CharOk(c, mode)
  {
    match mode
    case InDouble => Escaped(c)
    case InSingle => if c == '\'' then "\\'" else [c]
    case Plain => [c]
  }

  function Body(s: string, mode: Mode): string
    requires TextOk(s, mode)
  {
    if s == "" then "" else Body(s[..|s| - 1], mode) + WriteChar(s[|s| - 1], mode)
  }

  function Repr(s: string): string
    requires TextOk(s, InDouble)
  {
    "\"" + Body(s, InDouble) + "\""
  }

  method CatRepr(s: string, p: string) returns (r: string)
    requires TextOk(p, InDouble)
    ensures r == s + Repr(p)
  {
    hide Escaped;
    r := s + "\"";
    for i := 0 to |p|
      invariant r == s + "\"" + Body(p[..i], InDouble)
    {
      assert p[..i + 1][..i] == p[..i];
      var e := CatChar(p[i]);
      r := r + e;
    }
    assert p[..|p|] == p;
    r := r + "\"";
  }

  /** The branches of the loop of sdscatrepr. */
  method CatChar(c: char) returns (e: string)
    requires IsByte(c)
    ensures e == Escaped(c)
  {
    if c == '\\' || c == '\"' {
      e := ['\\', c];
    } else if c == '\n' {
      e := "\\n";
    } else if c == '\r' {
      e := "\\r";
    } else if c == '\t' {
      e := "\\t";
    } else if c == BELL {
      e := "\\a";
    } else if c == BACKSPACE {
      e := "\\b";
    } else if IsPrint(c) {
      e := [c];
    } else {
      e := ['\\', 'x', HexDigit(c as int / 16), HexDigit(c as int % 16)];
    }
  }

  // ---------- sdssplitargs ----------

  /** The character at p; the terminator stands behind the last one. */
  function At(line: string, p: nat): char { if p < |line| then line[p] else '\0' }

  function Unescaped(c: char): char {
    match c
    case 'n' => '\n'
    case 'r' => '\r'
    case 't' => '\t'
    case 'b' => BACKSPACE
    case 'a' => BELL
    case _ => c
  }

  predicate IsHexEscape(line: string, p: nat) {
    && At(line, p) == '\\' && At(line, p + 1) == 'x'
    && IsHexDigit(At(line, p + 2)) && IsHexDigit(At(line, p + 3))
  }

  function HexByte(line: string, p: nat): char {
    (16 * HexValue(At(line, p + 2)) + HexValue(At(line, p + 3))) as char
  }

  /** A closing quote must be followed by a blank or nothing. */
  predicate Closes(line: string, p: nat) { At(line, p + 1) == '\0' || IsSpace(At(line, p + 1)) }

  /** What one character does to a token. */
  datatype Act = Fail | Finish(next: nat) | Take(c: char, next: nat) | Switch(mode: Mode, next: nat)

  function Look(line: string, p: nat, mode: Mode): (a: Act)
    ensures a.Take? || a.Switch? ==> p < a.next <= |line|
    ensures a.Finish? ==> p <= a.next && (p < |line| ==> a.next <= |line|) && (At(line, p) != '\0' ==> p < a.next)
  {
    var c := At(line, p);
    match mode
    case InDouble =>
      if IsHexEscape(line, p) then Take(HexByte(line, p), p + 4)
      else if c == '\\' && At(line, p + 1) != '\0' then Take(Unescaped(At(line, p + 1)), p + 2)
      else if c == '\"' then (if Closes(line, p) then Finish(p + 1) else Fail)
      else if c == '\0' then Fail
      else Take(c, p + 1)
    case InSingle =>
      if c == '\\' && At(line, p + 1) == '\'' then Take('\'', p + 2)
      else if c == '\'' then (if Closes(line, p) then Finish(p + 1) else Fail)
      else if c == '\0' then Fail
      else Take(c, p + 1)
    case Plain =>
      if c == '\0' then Finish(p)
      else if EndsBare(c) then Finish(p + 1)
      else if c == '\"' then Switch(InDouble, p + 1)
      else if c == '\'' then Switch(InSingle, p + 1)
      else Take(c, p + 1)
  }

  /** A token from p on: the text and where the scan stops, or None for bad quoting. */
  function Token(line: string, p: nat, mode: Mode, cur: string): (r: Option<(string, nat)>)
    ensures r.Some? ==> p <= r.value.1
    ensures r.Some? && p <= |line| ==> r.value.1 <= |line|
    decreases |line| - p
  {
    match Look(line, p, mode)
    case Fail => None
    case Finish(next) => Some((cur, next))
    case Take(c, next) => Token(line, next, mode, cur + [c])
    case Switch(mode', next) => Token(line, next, mode', cur)
  }

  function SkipBlanks(line: string, p: nat): (r: nat)
    ensures p <= r && (p <= |line| ==> r <= |line|)
    ensures !IsSpace(At(line, r))
    decreases |line| - p
  {
    if At(line, p) != '\0' && IsSpace(At(line, p)) then SkipBlanks(line, p + 1) else p
  }

  function SplitFrom(line: string, p: nat, tokens: seq<string>): Option<seq<string>>
    requires p <= |line|
    decreases |line| - p
  {
    var q := SkipBlanks(line, p);
    if At(line, q) == '\0' then Some(tokens)
    else
      match Token(line, q, Plain, "")
      case None => None
      case Some((text, next)) =>
        if next <= q then None else SplitFrom(line, next, tokens + [text])
  }

  lemma TokenAdvances(line: string, q: nat)
    requires At(line, q) != '\0' && !IsSpace(At(line, q)) && Token(line, q, Plain, "").Some?
    ensures Token(line, q, Plain, "").value.1 > q
  {
  }

  method SplitArgs(line: string) returns (r: Option<seq<string>>)
    ensures r == SplitFrom(line, 0, [])
  {
    hide Token, Look;
    var p: nat := 0;
    var tokens := [];
    while true
      invariant p <= |line| && SplitFrom(line, p, tokens) == SplitFrom(line, 0, [])
      decreases |line| - p
    {
      ghost var start := p;
      while At(line, p) != '\0' && IsSpace(At(line, p))
        invariant start <= p <= |line| && SkipBlanks(line, p) == SkipBlanks(line, start)
        decreases |line| - p
      {
        p := p + 1;
      }
      if At(line, p) == '\0' { return Some(tokens); }
      var t := GetToken(line, p);
      if t.None? { return None; }
      TokenAdvances(line, p);
      tokens := tokens + [t.value.0];
      p := t.value.1;
    }
  }

  /** The inner loop over the characters of a token. */
  method GetToken(line: string, start: nat) returns (r: Option<(string, nat)>)
    ensures r == Token(line, start, Plain, "")
  {
    hide Look;
    var p, mode, current := start, Plain, "";
    while true
      invariant Token(line, p, mode, current) == Token(line, start, Plain, "")
      decreases |line| - p
    {
      var act := OneChar(line, p, mode);
      match act {
        case Fail => return None;
        case Finish(next) => return Some((current, next));
        case Take(c, next) =>
          current := current + [c];
          p := next;
        case Switch(m, next) =>
          mode := m;
          p := next;
      }
    }
  }

  /** One turn of the inner loop: the cursor moves as the branch says, and then past the character
      it stands on unless that is the terminator. */
  method OneChar(line: string, start: nat, mode: Mode) returns (act: Act)
    ensures act == Look(line, start, mode)
  {
    var p := start;
    var taken: Option<char> := None;
    var done := false;
    var next := mode;
    match mode {
      case InDouble =>
        if At(line, p) == '\\' && At(line, p + 1) == 'x'
           && IsHexDigit(At(line, p + 2)) && IsHexDigit(At(line, p + 3)) {
          taken := Some((HexValue(At(line, p + 2)) * 16 + HexValue(At(line, p + 3))) as char);
          p := p + 3;
        } else if At(line, p) == '\\' && At(line, p + 1) != '\0' {
          p := p + 1;
          taken := Some(Unescaped(At(line, p)));
        } else if At(line, p) == '\"' {
          if At(line, p + 1) != '\0' && !IsSpace(At(line, p + 1)) { return Fail; }
          done := true;
        } else if At(line, p) == '\0' {
          return Fail;
        } else {
          taken := Some(At(line, p));
        }
      case InSingle =>
        if At(line, p) == '\\' && At(line, p + 1) == '\'' {
          p := p + 1;
          taken := Some('\'');
        } else if At(line, p) == '\'' {
          if At(line, p + 1) != '\0' && !IsSpace(At(line, p + 1)) { return Fail; }
          done := true;
        } else if At(line, p) == '\0' {
          return Fail;
        } else {
          taken := Some(At(line, p));
        }
      case Plain =>
        if EndsBare(At(line, p)) || At(line, p) == '\0' {
          done := true;
        } else if At(line, p) == '\"' {
          next := InDouble;
        } else if At(line, p) == '\'' {
          next := InSingle;
        } else {
          taken := Some(At(line, p));
        }
    }
    if At(line, p) != '\0' { p := p + 1; }
    return if done then Finish(p) else if taken.Some? then Take(taken.value, p) else Switch(next, p);
  }

  // ---------- what is written is read back ----------

  /** Text that stands at a position of a line. */
  ghost predicate Stands(line: string, p: nat, text: string) {
    p + |text| <= |line| && line[p..p + |text|] == text
  }

  lemma StandsAt(line: string, p: nat, text: string, i: nat)
    requires Stands(line, p, text) && i < |text|
    ensures At(line, p + i) == text[i]
  {
  }

  lemma StandsParts(line: string, p: nat, a: string, b: string)
    requires Stands(line, p, a + b)
    ensures Stands(line, p, a) && Stands(line, p + |a|, b)
  {
    assert line[p..p + |a|] == (a + b)[..|a|] && line[p + |a|..p + |a| + |b|] == (a + b)[|a|..];
  }

  /** A backslash between single quotes stands for itself unless a single quote comes next. */
  ghost predicate Clear(line: string, next: nat, c: char, mode: Mode) {
    mode == InSingle && c == '\\' ==> At(line, next) != '\''
  }

  lemma EscapeReads(line: string, p: nat, c: char)
    requires IsByte(c) && Stands(line, p, Escaped(c))
    ensures Look(line, p, InDouble) == Take(c, p + |Escaped(c)|)
  {
    var e := Escaped(c);
    StandsAt(line, p, e, 0);
    if |e| > 1 { StandsAt(line, p, e, 1); }
    if |e| > 2 {
      StandsAt(line, p, e, 2);
      StandsAt(line, p, e, 3);
    }
  }

  /** One written character is read back as itself. */
  lemma CharReads(line: string, p: nat, c: char, mode: Mode)
    requires CharOk(c, mode) && Stands(line, p, WriteChar(c, mode))
    requires Clear(line, p + |WriteChar(c, mode)|, c, mode)
    ensures Look(line, p, mode) == Take(c, p + |WriteChar(c, mode)|)
  {
    var e := WriteChar(c, mode);
    if mode == InDouble {
      EscapeReads(line, p, c);
    } else {
      StandsAt(line, p, e, 0);
      if |e| > 1 { StandsAt(line, p, e, 1); }
    }
  }

  lemma TakeStep(line: string, p: nat, c: char, mode: Mode, cur: string)
    requires CharOk(c, mode) && Stands(line, p, WriteChar(c, mode))
    requires Clear(line, p + |WriteChar(c, mode)|, c, mode)
    ensures Token(line, p, mode, cur) == Token(line, p + |WriteChar(c, mode)|, mode, cur + [c])
  {
    hide Look, WriteChar, Stands, Clear, CharOk;
    CharReads(line, p, c, mode);
  }

  lemma NoQuoteFirst(line: string, p: nat, c: char, mode: Mode)
    requires CharOk(c, mode) && Stands(line, p, WriteChar(c, mode))
    ensures mode == InSingle ==> At(line, p) != '\''
  {
  }

  /** A written text is taken over character by character. */
  lemma {:induction false} BodyReads(line: string, p: nat, s: string, mode: Mode, cur: string)
    requires TextOk(s, mode) && Stands(line, p, Body(s, mode))
    requires s != "" ==> Clear(line, p + |Body(s, mode)|, s[|s| - 1], mode)
    ensures Token(line, p, mode, cur) == Token(line, p + |Body(s, mode)|, mode, cur + s)
    decreases |s|
  {
    hide Token, WriteChar, Stands, CharOk, At;
    if s == "" {
      assert cur + s == cur;
    } else {
      var n := |s| - 1;
      var head, last := Body(s[..n], mode), WriteChar(s[n], mode);
      StandsParts(line, p, head, last);
      NoQuoteFirst(line, p + |head|, s[n], mode);
      BodyReads(line, p, s[..n], mode, cur);
      TakeStep(line, p + |head|, s[n], mode, cur + s[..n]);
      assert cur + s[..n] + [s[n]] == cur + s;
    }
  }

  // ---------- single characters ----------

  /** Exactly the bytes from the blank to the tilde, other than backslash and double quote, are quoted as
      themselves. */
  lemma StandsForItself(c: char)
    requires IsByte(c)
    ensures Repr([c]) == "\"" + [c] + "\"" <==> 32 <= c as int <= 126 && c != '\\' && c != '\"'
  {
    assert [c][..0] == "" && Body([c], InDouble) == "" + Escaped(c) == Escaped(c);
    if |Escaped(c)| > 1 { assert |Repr([c])| > 3; }
  }

  /** What a character does between two letters outside of quotes: four blanks end the argument, the
      terminator ends the line, a quote opens and is not closed, and anything else is taken over. */
  lemma BareCharacter(c: char)
    ensures SplitFrom("a" + [c] + "b", 0, []) ==
            if c in " \n\r\t" then Some(["a", "b"])
            else if c == '\0' then Some(["a"])
            else if c in "\"\'" then None
            else Some(["a" + [c] + "b"])
  {
    hide Token;
    var line := "a" + [c] + "b";
    assert line[0] == 'a' && line[1] == c && line[2] == 'b' && |line| == 3;
    BareToken(line);
    assert [] + ["a"] == ["a"] && ["a"] + ["b"] == ["a", "b"] && [] + [line] == [line];
    assert SkipBlanks(line, 0) == 0 && SkipBlanks(line, 2) == 2 && SkipBlanks(line, 3) == 3;
    assert SplitFrom(line, 3, ["a", "b"]) == Some(["a", "b"]) && SplitFrom(line, 3, [line]) == Some([line]);
    assert SplitFrom(line, 2, ["a"]) == SplitFrom(line, 3, ["a", "b"]);
    if c == '\0' { assert SkipBlanks(line, 1) == 1 && SplitFrom(line, 1, ["a"]) == Some(["a"]); }
  }

  lemma BareToken(line: string)
    requires |line| == 3 && line[0] == 'a' && line[2] == 'b'
    ensures Token(line, 2, Plain, "") == Some(("b", 3))
    ensures var c, t := line[1], Token(line, 0, Plain, "");
            t == if c in " \n\r\t" then Some(("a", 2))
                 else if c == '\0' then Some(("a", 1))
                 else if c in "\"\'" then None
                 else Some((line, 3))
  {
    var c := line[1];
    assert c in " \n\r\t" <==> c == ' ' || c == '\n' || c == '\r' || c == '\t' by {
      assert " \n\r\t" == [' ', '\n', '\r', '\t'];
    }
    assert c in "\"\'" <==> c == '\"' || c == '\'' by { assert "\"\'" == ['\"', '\'']; }
    assert "" + ['a'] == "a" && "" + ['b'] == "b" && "a" + [c] + ['b'] == line && "a" + ['b'] == "ab";
    assert Look(line, 0, Plain) == Take('a', 1) && Look(line, 2, Plain) == Take('b', 3);
    assert Look(line, 3, Plain) == Finish(3);
    assert Token(line, 3, Plain, "b") == Some(("b", 3)) && Token(line, 3, Plain, line) == Some((line, 3));
    assert Token(line, 0, Plain, "") == Token(line, 1, Plain, "a");
    if c == '\"' {
      assert Look(line, 1, Plain) == Switch(InDouble, 2) && Look(line, 2, InDouble) == Take('b', 3);
      assert Look(line, 3, InDouble) == Fail && Token(line, 3, InDouble, "ab").None?;
      assert Token(line, 1, Plain, "a") == Token(line, 2, InDouble, "a") == Token(line, 3, InDouble, "ab");
    } else if c == '\'' {
      assert Look(line, 1, Plain) == Switch(InSingle, 2) && Look(line, 2, InSingle) == Take('b', 3);
      assert Look(line, 3, InSingle) == Fail && Token(line, 3, InSingle, "ab").None?;
      assert Token(line, 1, Plain, "a") == Token(line, 2, InSingle, "a") == Token(line, 3, InSingle, "ab");
    } else if c != '\0' && c !in " \n\r\t" {
      assert Token(line, 2, Plain, "a" + [c]) == Token(line, 3, Plain, line);
    }
  }

  const LOWER := "0123456789abcdef"
  const UPPER := "0123456789ABCDEF"

  lemma HexDigits(c: char, i: nat)
    requires i < 16 && (c == LOWER[i] || c == UPPER[i])
    ensures IsHexDigit(c) && HexValue(c) == i && c != '\0'
  {
  }

  /** A byte written with two hexadecimal digits, in either case, is read as that byte. */
  lemma HexReads(i: nat, j: nat, high: char, low: char)
    requires i < 16 && (high == LOWER[i] || high == UPPER[i])
    requires j < 16 && (low == LOWER[j] || low == UPPER[j])
    ensures SplitFrom("\"\\x" + [high, low] + "\"", 0, []) == Some([[(16 * i + j) as char]])
  {
    hide Token, IsHexDigit, HexValue;
    var line, c := "\"\\x" + [high, low] + "\"", (16 * i + j) as char;
    HexDigits(high, i);
    HexDigits(low, j);
    assert line[0] == '\"' && line[1] == '\\' && line[2] == 'x' && line[3] == high && line[4] == low && line[5] == '\"';
    HexToken(line, c);
    assert [] + [[c]] == [[c]];
  }

  lemma HexToken(line: string, c: char)
    requires |line| == 6 && line[0] == '\"' && IsHexEscape(line, 1) && HexByte(line, 1) == c && line[5] == '\"'
    ensures Token(line, 0, Plain, "") == Some(([c], 6))
  {
    hide IsHexEscape, HexByte;
    assert Look(line, 0, Plain) == Switch(InDouble, 1);
    assert Look(line, 1, InDouble) == Take(c, 5);
    assert !IsHexEscape(line, 5) by { NoEscapeAt(line, 5); }
    assert Look(line, 5, InDouble) == Finish(6);
    assert Token(line, 5, InDouble, [c]) == Some(([c], 6));
    assert "" + [c] == [c];
    assert Token(line, 1, InDouble, "") == Token(line, 5, InDouble, [c]);
  }

  lemma HexDigitsOnly(c: char)
    ensures IsHexDigit(c) <==> c in LOWER || c in UPPER
  {
    if IsHexDigit(c) {
      var i := HexValue(c);
      assert LOWER[i] == c || UPPER[i] == c;
    }
  }

  /** Without two hexadecimal digits behind it, the x stands for itself and so do the characters. */
  lemma NoHexReads(a: char, b: char)
    requires a !in {'\0', '\"', '\\'} && b !in {'\0', '\"', '\\'}
    requires !((a in LOWER || a in UPPER) && (b in LOWER || b in UPPER))
    ensures SplitFrom("\"\\x" + [a, b] + "\"", 0, []) == Some(["x" + [a, b]])
  {
    hide Token, IsHexDigit;
    var line, text := "\"\\x" + [a, b] + "\"", "x" + [a, b];
    HexDigitsOnly(a);
    HexDigitsOnly(b);
    assert line[0] == '\"' && line[1] == '\\' && line[2] == 'x' && line[3] == a && line[4] == b && line[5] == '\"';
    NoHexToken(line);
    assert [] + [text] == [text];
  }

  lemma NoHexToken(line: string)
    requires |line| == 6 && line[0] == '\"' && line[1] == '\\' && line[2] == 'x' && line[5] == '\"'
    requires forall i :: 3 <= i < 5 ==> line[i] != '\0' && line[i] != '\"' && line[i] != '\\'
    requires !IsHexEscape(line, 1)
    ensures Token(line, 0, Plain, "") == Some(("x" + [line[3], line[4]], 6))
  {
    hide IsHexEscape;
    NoEscapeAt(line, 3);
    NoEscapeAt(line, 4);
    NoEscapeAt(line, 5);
    assert Look(line, 0, Plain) == Switch(InDouble, 1) && Look(line, 1, InDouble) == Take('x', 3);
    assert Look(line, 3, InDouble) == Take(line[3], 4) && Look(line, 4, InDouble) == Take(line[4], 5);
    assert Look(line, 5, InDouble) == Finish(6);
    var text := "x" + [line[3], line[4]];
    assert Token(line, 5, InDouble, text) == Some((text, 6));
    assert "x" + [line[3]] + [line[4]] == text && "" + ['x'] == "x";
    assert Token(line, 4, InDouble, "x" + [line[3]]) == Token(line, 5, InDouble, text);
    assert Token(line, 3, InDouble, "x") == Token(line, 4, InDouble, "x" + [line[3]]);
    assert Token(line, 1, InDouble, "") == Token(line, 3, InDouble, "x");
  }

  lemma NoEscapeAt(line: string, p: nat)
    requires At(line, p) != '\\'
    ensures !IsHexEscape(line, p)
  {
  }

  // ---------- whole lines ----------

  /** An argument as somebody may type it: its text, the quotes around it, and the blanks behind it. */
  datatype Arg = Arg(text: string, mode: Mode, gap: string)

  ghost predicate Blank(s: string) { forall i :: 0 <= i < |s| ==> IsSpace(s[i]) }

  ghost predicate Good(a: Arg) {
    && TextOk(a.text, a.mode) && Blank(a.gap)
    && (a.mode == Plain ==> a.text != "" && !IsSpace(a.text[0]) && (a.gap != "" ==> EndsBare(a.gap[0])))
    && (a.mode == InSingle && a.text != "" ==> a.text[|a.text| - 1] != '\\')
  }

  function Quote(mode: Mode): string {
    match mode
    case Plain => ""
    case InDouble => "\""
    case InSingle => "'"
  }

  ghost function Written(a: Arg): string
    requires TextOk(a.text, a.mode)
  {
    Quote(a.mode) + Body(a.text, a.mode) + Quote(a.mode)
  }

  /** Every argument but the last is followed by a blank. */
  ghost predicate Listed(args: seq<Arg>) {
    && (forall i :: 0 <= i < |args| ==> Good(args[i]))
    && (forall i :: 0 <= i < |args| - 1 ==> args[i].gap != "")
  }

  ghost function Line(args: seq<Arg>): string
    requires Listed(args)
  {
    if args == [] then "" else Written(args[0]) + args[0].gap + Line(args[1..])
  }

  ghost function Texts(args: seq<Arg>): seq<string> {
    if args == [] then [] else [args[0].text] + Texts(args[1..])
  }

  lemma {:induction false} SkipGap(line: string, p: nat, q: nat)
    requires p <= q <= |line| && (forall i :: p <= i < q ==> IsSpace(line[i]))
    ensures SkipBlanks(line, p) == SkipBlanks(line, q)
    decreases q - p
  {
    if p < q { SkipGap(line, p + 1, q); }
  }

  lemma BlankStands(line: string, p: nat, gap: string)
    requires Stands(line, p, gap) && Blank(gap)
    ensures forall i :: p <= i < p + |gap| ==> IsSpace(line[i])
  {
    forall i | p <= i < p + |gap| ensures IsSpace(line[i]) {
      StandsAt(line, p, gap, i - p);
    }
  }

  /** An opening quote and a written text lead to the place behind the text. */
  lemma QuotedReads(line: string, p: nat, s: string, mode: Mode)
    requires mode != Plain && TextOk(s, mode) && Stands(line, p, Quote(mode) + Body(s, mode))
    requires s != "" ==> Clear(line, p + 1 + |Body(s, mode)|, s[|s| - 1], mode)
    ensures Token(line, p, Plain, "") == Token(line, p + 1 + |Body(s, mode)|, mode, s)
    ensures At(line, p) == Quote(mode)[0]
  {
    hide Stands, Body, TextOk;
    StandsParts(line, p, Quote(mode), Body(s, mode));
    StandsAt(line, p, Quote(mode), 0);
    assert Look(line, p, Plain) == Switch(mode, p + 1);
    BodyReads(line, p + 1, s, mode, "");
    assert "" + s == s;
  }

  /** Where the token of an argument ends. */
  ghost predicate Ends(line: string, p: nat, a: Arg)
    requires TextOk(a.text, a.mode)
  {
    && At(line, p) != '\0' && !IsSpace(At(line, p))
    && Token(line, p, Plain, "").Some? && Token(line, p, Plain, "").value.0 == a.text
    && p + |Written(a)| <= Token(line, p, Plain, "").value.1 <= p + |Written(a)| + |a.gap|
  }

  lemma GapFollows(line: string, p: nat, gap: string)
    requires Stands(line, p, gap) && Blank(gap) && (gap == "" ==> p == |line|)
    ensures At(line, p) == if gap == "" then '\0' else gap[0]
    ensures At(line, p) == '\0' || IsSpace(At(line, p))
  {
  }

  lemma QuotedEnds(line: string, p: nat, a: Arg)
    requires Good(a) && a.mode != Plain && Stands(line, p, Written(a) + a.gap)
    requires a.gap == "" ==> p + |Written(a)| == |line|
    ensures Ends(line, p, a)
  {
    hide Stands, Body, TextOk, Blank, Token;
    var open := Quote(a.mode) + Body(a.text, a.mode);
    StandsParts(line, p, Written(a), a.gap);
    StandsParts(line, p, open, Quote(a.mode));
    StandsAt(line, p + |open|, Quote(a.mode), 0);
    GapFollows(line, p + |Written(a)|, a.gap);
    QuotedReads(line, p, a.text, a.mode);
    CloseStep(line, p + |open|, a.mode, a.text);
  }

  lemma CloseStep(line: string, p: nat, mode: Mode, cur: string)
    requires mode != Plain && At(line, p) == Quote(mode)[0]
    ensures Token(line, p, mode, cur) == if Closes(line, p) then Some((cur, p + 1)) else None
  {
  }

  lemma BareEnds(line: string, p: nat, a: Arg)
    requires Good(a) && a.mode == Plain && Stands(line, p, Written(a) + a.gap)
    requires a.gap == "" ==> p + |Written(a)| == |line|
    ensures Ends(line, p, a)
  {
    hide Stands, Blank, Token, Body;
    var q := p + |Written(a)|;
    StandsParts(line, p, Written(a), a.gap);
    assert Written(a) == Body(a.text, Plain);
    GapFollows(line, q, a.gap);
    BodyReads(line, p, a.text, Plain, "");
    assert "" + a.text == a.text;
    BodyFirst(a.text);
    StandsAt(line, p, Written(a), 0);
    BareStep(line, q, a.text);
  }

  lemma BareStep(line: string, q: nat, cur: string)
    requires At(line, q) == '\0' || EndsBare(At(line, q))
    ensures Token(line, q, Plain, cur) == Some((cur, if At(line, q) == '\0' then q else q + 1))
  {
  }

  lemma {:induction false} BodyFirst(s: string)
    requires TextOk(s, Plain) && s != ""
    ensures Body(s, Plain) != "" && Body(s, Plain)[0] == s[0]
    decreases |s|
  {
    if |s| > 1 { BodyFirst(s[..|s| - 1]); }
  }

  /** One written argument is split off. */
  lemma ArgReads(line: string, p: nat, a: Arg, tokens: seq<string>)
    requires Good(a) && Stands(line, p, Written(a) + a.gap)
    requires a.gap == "" ==> p + |Written(a)| == |line|
    ensures SplitFrom(line, p, tokens) == SplitFrom(line, p + |Written(a)| + |a.gap|, tokens + [a.text])
  {
    hide Token, Body;
    if a.mode == Plain { BareEnds(line, p, a); } else { QuotedEnds(line, p, a); }
    var t, w, q := Token(line, p, Plain, ""), |Written(a)|, p + |Written(a)| + |a.gap|;
    StandsParts(line, p, Written(a), a.gap);
    BlankStands(line, p + w, a.gap);
    SkipGap(line, t.value.1, q);
    TokenAdvances(line, p);
  }

  lemma {:induction false} ArgsRead(line: string, p: nat, args: seq<Arg>, tokens: seq<string>)
    requires Listed(args) && Stands(line, p, Line(args))
    requires args != [] && args[|args| - 1].gap == "" ==> p + |Line(args)| == |line|
    ensures SplitFrom(line, p, tokens) == SplitFrom(line, p + |Line(args)|, tokens + Texts(args))
    decreases |args|
  {
    hide SplitFrom, Written;
    if args == [] {
      assert tokens + Texts(args) == tokens;
    } else {
      var a, rest := args[0], args[1..];
      StandsParts(line, p, Written(a) + a.gap, Line(rest));
      assert rest == [] ==> Line(rest) == "";
      ArgReads(line, p, a, tokens);
      ArgsRead(line, p + |Written(a) + a.gap|, rest, tokens + [a.text]);
      assert tokens + [a.text] + Texts(rest) == tokens + Texts(args);
    }
  }

  /** A line of arguments, each quoted in any way that fits it and set apart by any blanks, splits into
      exactly those arguments. */
  lemma SplitsBack(lead: string, args: seq<Arg>)
    requires Blank(lead) && Listed(args)
    ensures SplitFrom(lead + Line(args), 0, []) == Some(Texts(args))
  {
    hide Line, Texts;
    var line := lead + Line(args);
    assert Stands(line, 0, lead) && Stands(line, |lead|, Line(args));
    SkipLead(line, lead, []);
    ArgsRead(line, |lead|, args, []);
    assert [] + Texts(args) == Texts(args);
  }

  /** Bad quoting at the end of a line: a quoted text that is never closed, or one whose closing quote
      has a character right behind it. */
  ghost predicate BadTail(bad: string, s: string, mode: Mode, tail: string) {
    && mode != Plain && TextOk(s, mode) && bad == Quote(mode) + Body(s, mode) + tail
    && (tail == "" || (|tail| > 1 && tail[0] == Quote(mode)[0] && tail[1] != '\0' && !IsSpace(tail[1])))
    && (mode == InSingle && s != "" && tail != "" ==> s[|s| - 1] != '\\')
  }

  /** Whatever arguments come first, bad quoting behind them spoils the whole line. */
  lemma BadQuotes(lead: string, args: seq<Arg>, bad: string, s: string, mode: Mode, tail: string)
    requires Blank(lead) && Listed(args) && (args != [] ==> args[|args| - 1].gap != "")
    requires BadTail(bad, s, mode, tail)
    ensures SplitFrom(lead + Line(args) + bad, 0, []) == None
  {
    hide Line, Texts, SplitFrom, Stands, Listed, Blank, BadTail;
    var line := lead + Line(args) + bad;
    StandsThree(lead, Line(args), bad);
    SkipLead(line, lead, []);
    ArgsRead(line, |lead|, args, []);
    BadFrom(line, |lead| + |Line(args)|, bad, s, mode, tail, [] + Texts(args));
  }

  lemma StandsThree(a: string, b: string, c: string)
    ensures Stands(a + b + c, 0, a) && Stands(a + b + c, |a|, b) && Stands(a + b + c, |a| + |b|, c)
  {
  }

  lemma SkipLead(line: string, lead: string, tokens: seq<string>)
    requires Blank(lead) && Stands(line, 0, lead)
    ensures SplitFrom(line, 0, tokens) == SplitFrom(line, |lead|, tokens)
  {
    BlankStands(line, 0, lead);
    SkipGap(line, 0, |lead|);
  }

  lemma BadFrom(line: string, p: nat, bad: string, s: string, mode: Mode, tail: string, tokens: seq<string>)
    requires BadTail(bad, s, mode, tail) && p + |bad| == |line| && Stands(line, p, bad)
    ensures SplitFrom(line, p, tokens) == None
  {
    hide Body, Token, TextOk, Stands;
    var open := Quote(mode) + Body(s, mode);
    StandsParts(line, p, open, tail);
    if tail != "" {
      StandsAt(line, p + |open|, tail, 0);
      StandsAt(line, p + |open|, tail, 1);
    }
    QuotedReads(line, p, s, mode);
    BadEnd(line, p + |open|, mode, s);
  }

  lemma BadEnd(line: string, p: nat, mode: Mode, cur: string)
    requires mode != Plain
    requires At(line, p) == '\0' || (At(line, p) == Quote(mode)[0] && !Closes(line, p))
    ensures Token(line, p, mode, cur) == None
  {
  }

  /** What sdscatrepr writes, sdssplitargs reads back, for every string of bytes. */
  lemma ReprSplits(s: string)
    requires TextOk(s, InDouble)
    ensures SplitFrom(Repr(s), 0, []) == Some([s])
  {
    hide SplitFrom;
    var a := Arg(s, InDouble, "");
    SplitsBack("", [a]);
    assert "" + Line([a]) == Repr(s) && Texts([a]) == [s];
  }
}
