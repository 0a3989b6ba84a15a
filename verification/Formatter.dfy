/** The three command formatters of hiredis. */
module Formatter {
  import opened Basics
  import opened Decimal
  import opened Resp
  import opened RespEncoding

  // ---------- lengths ----------

  lemma DecLength(v: nat)
    ensures v < 10 ==> |Dec(v)| == 1
    ensures 10 <= v < 100 ==> |Dec(v)| == 2
    ensures 100 <= v < 1000 ==> |Dec(v)| == 3
    ensures 1000 <= v < 10000 ==> |Dec(v)| == 4
    ensures v >= 10000 ==> |Dec(v)| == 4 + |Dec(v / 10000)|
  {
    hide Dec;
    OneDigitLess(v);
    OneDigitLess(v / 10);
    OneDigitLess(v / 100);
    OneDigitLess(v / 1000);
    assert v / 10 / 10 == v / 100 && v / 100 / 10 == v / 1000 && v / 1000 / 10 == v / 10000;
  }

  lemma OneDigitLess(v: nat)
    ensures |Dec(v)| == if v < 10 then 1 else 1 + |Dec(v / 10)|
  {
  }

  /** countDigits agrees with the numeral that is printed. */
  method CountDigits(n: nat) returns (result: nat)
    ensures result == |Dec(n)|
  {
    var v := n;
    result := 1;
    while true
      invariant result >= 1 && result - 1 + |Dec(v)| == |Dec(n)|
      decreases v
    {
      DecLength(v);
      if v < 10 { return result; }
      if v < 100 { return result + 1; }
      if v < 1000 { return result + 2; }
      if v < 10000 { return result + 3; }
      v := v / 10000;
      result := result + 4;
    }
  }

  method BulkLen(len: nat) returns (r: nat)
    ensures r == 1 + |Dec(len)| + 2 + len + 2
  {
    var digits := CountDigits(len);
    return 1 + digits + 2 + len + 2;
  }

  // ---------- the command text ----------

  /** A command is the array of its arguments. */
  function AsReply(args: seq<string>): (r: Reply)
    ensures r.Arr? && |r.elems| == |args|
  {
    Arr(seq(|args|, i requires 0 <= i < |args| => Str(args[i])))
  }

  function Command(args: seq<string>): string { Encode(AsReply(args)) }

  function Bulk(arg: string): string { LineOf('$', Dec(|arg|)) + arg + "\r\n" }

  /** The command text built argument by argument. */
  function Prefix(argc: nat, args: seq<string>): string {
    if args == [] then LineOf('*', Dec(argc))
    else Prefix(argc, args[..|args| - 1]) + Bulk(args[|args| - 1])
  }

  lemma {:induction false} EncodeAllSnoc(rs: seq<Reply>, r: Reply)
    ensures EncodeAll(rs + [r]) == EncodeAll(rs) + Encode(r)
    decreases |rs|
  {
    hide Encode;
    if rs == [] {
      assert [] + [r] == [r] && [r][1..] == [];
      assert EncodeAll([r]) == Encode(r) + "";
    } else {
      assert (rs + [r])[1..] == rs[1..] + [r];
      EncodeAllSnoc(rs[1..], r);
    }
  }

  lemma {:induction false} PrefixIs(argc: nat, args: seq<string>)
    ensures Prefix(argc, args) == LineOf('*', Dec(argc)) + EncodeAll(AsReply(args).elems)
    decreases |args|
  {
    hide Dec, Encode;
    if args == [] {
      assert EncodeAll([]) == "";
    } else {
      var n := |args| - 1;
      var front := AsReply(args[..n]).elems;
      PrefixIs(argc, args[..n]);
      AsReplySnoc(args);
      EncodeAllSnoc(front, Str(args[n]));
      BulkIsEncoded(args[n]);
      Regroup(LineOf('*', Dec(argc)), EncodeAll(front), Bulk(args[n]));
    }
  }

  lemma BulkIsEncoded(arg: string)
    ensures Encode(Str(arg)) == Bulk(arg)
  {
  }

  lemma AsReplySnoc(args: seq<string>)
    requires args != []
    ensures AsReply(args).elems == AsReply(args[..|args| - 1]).elems + [Str(args[|args| - 1])]
  {
  }

  lemma CommandIs(args: seq<string>)
    ensures Command(args) == Prefix(|args|, args)
  {
    PrefixIs(|args|, args);
  }

  function TotalLength(argc: nat, args: seq<string>): nat {
    if args == [] then 1 + |Dec(argc)| + 2
    else TotalLength(argc, args[..|args| - 1]) + 1 + |Dec(|args[|args| - 1]|)| + 2 + |args[|args| - 1]| + 2
  }

  lemma {:induction false} LengthPredicted(argc: nat, args: seq<string>)
    ensures |Prefix(argc, args)| == TotalLength(argc, args)
    decreases |args|
  {
    if args != [] { LengthPredicted(argc, args[..|args| - 1]); }
  }

  lemma {:induction false} LengthGrows(argc: nat, args: seq<string>, i: nat)
    requires i <= |args|
    ensures TotalLength(argc, args[..i]) <= TotalLength(argc, args)
    decreases |args| - i
  {
    if i == |args| {
      assert args[..i] == args;
    } else {
      assert args[..i + 1][..i] == args[..i];
      LengthGrows(argc, args, i + 1);
    }
  }

  /** No 64-bit number has more than 20 digits. */
  lemma DigitsOf64Bits(v: nat)
    requires v < TWO_TO_64
    ensures |Dec(v)| <= 20
  {
    hide Dec;
    var a := v / 10000;
    var b := a / 10000;
    var c := b / 10000;
    var d := c / 10000;
    assert d < 10000;
    DecLength(v);
    DecLength(a);
    DecLength(b);
    DecLength(c);
    DecLength(d);
  }

  // ---------- numerals in place ----------

  const LLSTR_SIZE := 21

  function Reversed(s: string): (r: string)
    ensures |r| == |s|
    ensures forall i :: 0 <= i < |s| ==> r[i] == s[|s| - 1 - i]
  {
    seq(|s|, i requires 0 <= i < |s| => s[|s| - 1 - i])
  }

  lemma ReversedDigit(v: nat)
    ensures v >= 10 ==> Reversed(Dec(v)) == [DigitChar(v % 10)] + Reversed(Dec(v / 10))
    ensures v < 10 ==> Reversed(Dec(v)) == [DigitChar(v)]
  {
  }

  lemma ReversedTwice(s: string)
    ensures Reversed(Reversed(s)) == s
  {
  }

  /** The digit loop: least significant digit first. */
  method WriteDigits(s: array<char>, value: nat) returns (p: nat)
    requires |Dec(value)| < s.Length
    modifies s
    ensures p == |Dec(value)| && s[..p] == Reversed(Dec(value))
  {
    hide Dec, Reversed;
    var v, more := value, true;
    p := 0;
    ghost var goal := Reversed(Dec(value));
    ghost var tail := goal;
    while more
      invariant 0 <= p <= |goal| && s[..p] + tail == goal
      invariant if more then tail == Reversed(Dec(v)) else tail == []
      decreases more, v
    {
      ReversedDigit(v);
      ghost var before := s[..p];
      ghost var rest := if v < 10 then [] else Reversed(Dec(v / 10));
      Regroup(before, [DigitChar(v % 10)], rest);
      s[p] := DigitChar(v % 10);
      assert s[..p + 1] == before + [DigitChar(v % 10)];
      p := p + 1;
      more := v / 10 != 0;
      v := v / 10;
      tail := rest;
    }
  }

  /** sdsull2str: the digits are produced backwards and then reversed in place. */
  method Ull2Str(s: array<char>, value: nat) returns (l: nat)
    requires |Dec(value)| < s.Length
    modifies s
    ensures l == |Dec(value)| && s[..l] == Dec(value) && s[l] == '\0'
  {
    hide Dec, Reversed;
    l := WriteDigits(s, value);
    s[l] := '\0';
    assert s[..l] == Reversed(Dec(value));
    ReverseInPlace(s, l);
    ReversedTwice(Dec(value));
    assert s[l] == s[l..][0];
  }

  method ReverseInPlace(s: array<char>, n: nat)
    requires n <= s.Length
    modifies s
    ensures s[..n] == Reversed(old(s[..n])) && s[n..] == old(s[n..])
  {
    var i, j := 0, n - 1;
    while i < j
      invariant 0 <= i && j == n - 1 - i && i <= j + 2
      invariant forall k :: 0 <= k < n ==> s[k] == if i <= k <= j then old(s[k]) else old(s[n - 1 - k])
      invariant s[n..] == old(s[n..])
    {
      s[i], s[j] := s[j], s[i];
      i, j := i + 1, j - 1;
    }
  }

  // ---------- the formatters ----------

  /** memcpy to a position of a buffer. */
  method Copy(a: array<char>, pos: nat, s: string)
    requires pos + |s| <= a.Length
    modifies a
    ensures a[..pos] == old(a[..pos]) && a[pos..pos + |s|] == s && a[pos + |s|..] == old(a[pos + |s|..])
  {
    forall i | 0 <= i < |s| { a[pos + i] := s[i]; }
  }

  method Append(a: array<char>, pos: nat, s: string, ghost done: string) returns (next: nat)
    requires pos + |s| <= a.Length && a[..pos] == done
    modifies a
    ensures next == pos + |s| && a[..next] == done + s
  {
    Copy(a, pos, s);
    next := pos + |s|;
    assert a[..next] == a[..pos] + a[pos..next];
  }

  method Measure(args: seq<string>) returns (totlen: nat)
    ensures totlen == TotalLength(|args|, args)
  {
    var digits := CountDigits(|args|);
    totlen := 1 + digits + 2;
    assert args[..0] == [];
    for j := 0 to |args|
      invariant totlen == TotalLength(|args|, args[..j])
    {
      assert args[..j + 1][..j] == args[..j];
      var n := BulkLen(|args[j]|);
      totlen := totlen + n;
    }
    assert args[..|args|] == args;
  }

  method AppendBulk(a: array<char>, pos: nat, arg: string, ghost done: string) returns (next: nat)
    requires pos + |Bulk(arg)| <= a.Length && a[..pos] == done
    modifies a
    ensures next == pos + |Bulk(arg)| && a[..next] == done + Bulk(arg)
  {
    hide Dec;
    var line := LineOf('$', Dec(|arg|));
    next := Append(a, pos, line, done);
    next := Append(a, next, arg, done + line);
    next := Append(a, next, "\r\n", done + line + arg);
    assert done + line + arg + "\r\n" == done + Bulk(arg);
  }

  /** Writes the command into a buffer of the predicted size; the closing assertion of the source holds. */
  method Build(args: seq<string>, totlen: nat) returns (cmd: array<char>)
    requires totlen == TotalLength(|args|, args)
    ensures fresh(cmd) && cmd.Length == totlen + 1
    ensures cmd[..totlen] == Command(args) && cmd[totlen] == '\0'
  {
    hide Dec, TotalLength, Prefix, Bulk, Command;
    var argc := |args|;
    var size := totlen + 1;
    cmd := new char[size];
    FitsSoFar(args, 0);
    PrefixEmpty(argc);
    assert args[..0] == [];
    var pos := Append(cmd, 0, LineOf('*', Dec(argc)), "");
    assert "" + LineOf('*', Dec(argc)) == LineOf('*', Dec(argc));
    for j := 0 to argc
      invariant cmd.Length == totlen + 1
      invariant 0 <= pos <= totlen
      invariant cmd[..pos] == Prefix(argc, args[..j])
    {
      PrefixSnoc(argc, args, j);
      FitsSoFar(args, j + 1);
      pos := AppendBulk(cmd, pos, args[j], cmd[..pos]);
    }
    assert args[..argc] == args;
    LengthPredicted(argc, args);
    assert pos == totlen;
    cmd[pos] := '\0';
    CommandIs(args);
  }

  lemma FitsSoFar(args: seq<string>, j: nat)
    requires j <= |args|
    ensures |Prefix(|args|, args[..j])| <= TotalLength(|args|, args)
  {
    LengthPredicted(|args|, args[..j]);
    LengthGrows(|args|, args, j);
  }

  lemma PrefixEmpty(argc: nat)
    ensures Prefix(argc, []) == LineOf('*', Dec(argc))
  {
  }

  lemma PrefixSnoc(argc: nat, args: seq<string>, j: nat)
    requires j < |args|
    ensures Prefix(argc, args[..j + 1]) == Prefix(argc, args[..j]) + Bulk(args[j])
  {
    assert args[..j + 1][..j] == args[..j];
  }

  method FormatCommandArgv(args: seq<string>) returns (cmd: array<char>, totlen: nat)
    ensures cmd.Length == totlen + 1 && cmd[..totlen] == Command(args) && cmd[totlen] == '\0'
  {
    totlen := Measure(args);
    cmd := Build(args, totlen);
  }

  /** The sds variant appends to a string whose numerals come from Ull2Str. */
  method FormatSdsCommandArgv(args: seq<string>) returns (cmd: string, totlen: nat)
    requires |args| < TWO_TO_64 && forall i :: 0 <= i < |args| ==> |args[i]| < TWO_TO_64
    ensures cmd == Command(args) && totlen == |cmd|
  {
    hide Dec;
    totlen := Measure(args);
    var argc := |args|;
    var n := Numeral(argc);
    cmd := "*" + n + "\r\n";
    assert args[..0] == [] && cmd == LineOf('*', n);
    for j := 0 to argc
      invariant cmd == Prefix(argc, args[..j])
    {
      PrefixSnoc(argc, args, j);
      n := Numeral(|args[j]|);
      ghost var was := cmd;
      cmd := cmd + ("$" + n + "\r\n");
      cmd := cmd + args[j];
      cmd := cmd + "\r\n";
      assert cmd == was + Bulk(args[j]);
    }
    assert args[..argc] == args;
    LengthPredicted(argc, args);
    CommandIs(args);
  }

  /** The fixed buffer is large enough for every 64-bit number and its terminator. */
  method Numeral(v: nat) returns (s: string)
    requires v < TWO_TO_64
    ensures s == Dec(v)
  {
    DigitsOf64Bits(v);
    var buf := new char[LLSTR_SIZE];
    var l := Ull2Str(buf, v);
    return buf[..l];
  }

  // ---------- the printf-like formatter ----------

  /** The arguments a format describes.  Parts holds the strings for %s and %b in order; other
      conversions are not part of this model. */
  datatype Scan = Scan(argv: seq<string>, cur: string, touched: bool, used: nat) {
    /** A blank ends an argument that was touched. */
    function Flush(): Scan { if touched then Scan(argv + [cur], "", false, used) else this }

    function Add(s: string): Scan { Scan(argv, cur + s, true, used) }
  }

  /** Every % is the last character or introduces s, b or %. */
  predicate Supported(fmt: string) {
    if fmt == [] then true
    else if fmt[0] == '%' && |fmt| > 1 then fmt[1] in "sb%" && Supported(fmt[2..])
    else Supported(fmt[1..])
  }

  function Conversions(fmt: string): nat {
    if fmt == [] then 0
    else if fmt[0] == '%' && |fmt| > 1 then (if fmt[1] in "sb" then 1 else 0) + Conversions(fmt[2..])
    else Conversions(fmt[1..])
  }

  function ScanFormat(fmt: string, parts: seq<string>, st: Scan): Scan
    requires Supported(fmt) && st.used + Conversions(fmt) <= |parts|
    decreases |fmt|
  {
    if fmt == [] then st.Flush()
    else if fmt[0] != '%' || |fmt| == 1 then
      ScanFormat(fmt[1..], parts, if fmt[0] == ' ' then st.Flush() else st.Add(fmt[..1]))
    else if fmt[1] == '%' then ScanFormat(fmt[2..], parts, st.Add("%"))
    else ScanFormat(fmt[2..], parts, st.Add(parts[st.used]).(used := st.used + 1))
  }

  const EMPTY_SCAN := Scan([], "", false, 0)

  method FormatCommand(fmt: string, parts: seq<string>) returns (cmd: array<char>, totlen: nat)
    requires Supported(fmt) && Conversions(fmt) <= |parts|
    ensures cmd.Length == totlen + 1 && cmd[totlen] == '\0'
    ensures cmd[..totlen] == Command(ScanFormat(fmt, parts, EMPTY_SCAN).argv)
  {
    hide ScanFormat, Supported, Conversions;
    var st := ScanAll(fmt, parts);
    totlen := Measure(st.argv);
    cmd := Build(st.argv, totlen);
  }

  /** The loop over the format that gathers the arguments. */
  method ScanAll(fmt: string, parts: seq<string>) returns (st: Scan)
    requires Supported(fmt) && Conversions(fmt) <= |parts|
    ensures st == ScanFormat(fmt, parts, EMPTY_SCAN)
  {
    hide ScanFormat, Supported, Conversions;
    st := EMPTY_SCAN;
    var c := 0;
    assert fmt[0..] == fmt;
    while c < |fmt|
      invariant 0 <= c <= |fmt| && ScansFrom(fmt, c, parts, st)
      invariant ScanFormat(fmt[c..], parts, st) == ScanFormat(fmt, parts, EMPTY_SCAN)
    {
      ScanStep(fmt, c, parts, st);
      if fmt[c] != '%' || c + 1 == |fmt| {
        st := if fmt[c] == ' ' then st.Flush() else st.Add([fmt[c]]);
      } else {
        if fmt[c + 1] == '%' {
          st := st.Add("%");
        } else {
          st := st.Add(parts[st.used]).(used := st.used + 1);
        }
        c := c + 1;
      }
      c := c + 1;
    }
    assert fmt[c..] == "";
    ScanEnds(parts, st);
    st := st.Flush();
  }

  /** The rest of the format is understood and has its arguments. */
  ghost predicate ScansFrom(fmt: string, c: nat, parts: seq<string>, st: Scan)
    requires c <= |fmt|
  {
    Supported(fmt[c..]) && st.used + Conversions(fmt[c..]) <= |parts|
  }

  /** One turn of the loop. */
  lemma ScanStep(fmt: string, c: nat, parts: seq<string>, st: Scan)
    requires c < |fmt| && ScansFrom(fmt, c, parts, st)
    ensures var f := fmt[c];
            if f != '%' || c + 1 == |fmt| then
              var next := if f == ' ' then st.Flush() else st.Add([f]);
              && ScansFrom(fmt, c + 1, parts, next)
              && ScanFormat(fmt[c..], parts, st) == ScanFormat(fmt[c + 1..], parts, next)
            else
              && (fmt[c + 1] != '%' ==> st.used < |parts|)
              && var next := if fmt[c + 1] == '%' then st.Add("%") else st.Add(parts[st.used]).(used := st.used + 1);
                 && ScansFrom(fmt, c + 2, parts, next)
                 && ScanFormat(fmt[c..], parts, st) == ScanFormat(fmt[c + 2..], parts, next)
  {
    assert fmt[c..][1..] == fmt[c + 1..] && fmt[c..][..1] == [fmt[c]];
    if c + 2 <= |fmt| { assert fmt[c..][2..] == fmt[c + 2..]; }
  }

  lemma ScanEnds(parts: seq<string>, st: Scan)
    requires st.used <= |parts|
    ensures Supported("") && Conversions("") == 0 && ScanFormat("", parts, st) == st.Flush()
  {
  }

  /** The format with one binary conversion per argument. */
  function BinaryFormat(n: nat): string {
    if n == 0 then "" else if n == 1 then "%b" else "%b " + BinaryFormat(n - 1)
  }

  /** With one %b per argument the printf-like formatter sees exactly the given arguments, so all
      three formatters write the same bytes. */
  lemma {:induction false} BinaryFormatArgs(n: nat, args: seq<string>, argv: seq<string>)
    requires n <= |args| && argv == args[..|args| - n]
    ensures Supported(BinaryFormat(n)) && Conversions(BinaryFormat(n)) == n
    ensures ScanFormat(BinaryFormat(n), args, Scan(argv, "", false, |args| - n)).argv == args
    decreases n
  {
    var st := Scan(argv, "", false, |args| - n);
    if n == 0 {
      assert args[..|args|] == args;
    } else {
      var i := |args| - n;
      var next := Scan(argv + [args[i]], "", false, i + 1);
      assert argv + [args[i]] == args[..i + 1] && "" + args[i] == args[i];
      if n == 1 {
        assert "%b"[2..] == "";
        assert ScanFormat("%b", args, st) == ScanFormat("", args, st.Add(args[i]).(used := i + 1));
      } else {
        var more := BinaryFormat(n - 1);
        BinaryFormatArgs(n - 1, args, next.argv);
        var fmt := "%b " + more;
        assert fmt[2..] == " " + more && (" " + more)[1..] == more;
        assert Supported(" " + more) && Conversions(" " + more) == n - 1;
        assert ScanFormat(" " + more, args, st.Add(args[i]).(used := i + 1)) == ScanFormat(more, args, next);
      }
    }
  }

  /** Any list of binary strings, formatted and fed to the reader in any pieces, comes back as one
      array of exactly those strings, and every byte is consumed. */
  lemma CommandRoundTrip(args: seq<string>, chunks: seq<string>)
    requires Concat(chunks) == Command(args)
    ensures FeedAll(chunks) == Drained([AsReply(args)], None, [ROOT], "")
  {
    hide Encode;
    var r := AsReply(args);
    assert [r][1..] == [] && EncodeAll([r]) == Encode(r) + "" == Encode(r);
    ChunkedRoundTrip([r], chunks);
  }
}
