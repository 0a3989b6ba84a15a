/**
 The slave's side of the link: the tokenizer and the command parsers that turn the master's bytes
 back into keys, values and lifetimes.
 */
module SlaveParser {
  import opened Basics
  import opened Decimal
  import opened MsetParser
  import opened Wire

  /** str.find_first_of(set, pos) for a set of characters. */
  function FindAny(s: string, chars: string, pos: nat): (p: int)
    ensures p == NPOS || pos <= p < |s|
    decreases |s| - pos
  {
    if pos >= |s| then NPOS else if s[pos] in chars then pos else FindAny(s, chars, pos + 1)
  }

  ghost predicate NoneEmpty(tokens: seq<string>) {
    forall i :: 0 <= i < |tokens| ==> tokens[i] != []
  }

  predicate StopsAtTen(tokens: seq<string>) {
    |tokens| == 10 && (tokens[2] == "mset" || tokens[2] == "MSET")
  }

  /** GentRedis::Split from position last; the mset command stops it after ten tokens. */
  function Split(s: string, last: nat, tokens: seq<string>): (r: seq<string>)
    requires NoneEmpty(tokens)
    ensures NoneEmpty(r)
    decreases |s| + 2 - last
  {
    var p := FindBreak(s, last);
    if p == NPOS then tokens
    else
      var tokens' := if p == last then tokens else tokens + [s[last..p]];
      if StopsAtTen(tokens') then tokens' else Split(s, p + 2, tokens')
  }

  method SplitLoop(s: string) returns (v: seq<string>)
    ensures v == Split(s, 0, [])
  {
    v := [];
    var last := 0;
    var pos := FindBreak(s, last);
    while pos != NPOS
      invariant pos == FindBreak(s, last) && NoneEmpty(v)
      invariant Split(s, last, v) == Split(s, 0, [])
      decreases |s| + 2 - last
    {
      if pos == last {
        last := last + 2;
      } else {
        v := v + [s[last..pos]];
        last := pos + 2;
      }
      if StopsAtTen(v) { break; }
      pos := FindBreak(s, last);
    }
  }

  /** Skips n line breaks from pos on; NPOS when they are not all there. */
  function SkipLines(s: string, pos: nat, n: nat): (r: int)
    ensures r == NPOS || pos <= r
    decreases n
  {
    if n == 0 then pos
    else
      var p := FindBreak(s, pos);
      if p == NPOS then NPOS else SkipLines(s, p + 2, n - 1)
  }

  /** The loop by which the parsers find the end of a header. */
  method SkipLoop(s: string, start: nat, n: nat) returns (pos: int)
    ensures pos == SkipLines(s, start, n)
  {
    pos := start;
    var i := n;
    while i > 0
      invariant 0 <= i && 0 <= pos && SkipLines(s, pos, i) == SkipLines(s, start, n)
    {
      pos := FindBreak(s, pos);
      if pos == NPOS { return NPOS; }
      pos := pos + 2;
      i := i - 1;
    }
  }

  /** What a parser made of the first read.  Value: a set or setex that still waits for `remaining`
      bytes.  Items: the arguments of an mset.  Endless: an mset with a negative count, which asks for
      more whatever arrives.  Crash: an access outside the tokens or the data. */
  datatype Parsed =
    | Reject(code: int)
    | Crash
    | Other
    | Value(key: string, content: string, rlbytes: nat, remaining: nat, expire: int)
    | Deletes(key: string)
    | Items(setNum: nat, data: string)
    | Endless

  /** Field i + 1 cut to the length announced in field i. */
  function Arg(tokens: seq<string>, i: nat): string
    requires i + 1 < |tokens| && tokens[i] != []
  {
    Substr(tokens[i + 1], 0, GetLength(tokens[i]))
  }

  function TakeValue(key: string, data: string, pos: nat, rlbytes: nat, expire: int): Parsed {
    if pos > |data| then Crash
    else
      var content := data[pos..];
      if rlbytes < |content| then Value(key, content[..rlbytes], rlbytes, 0, expire)
      else Value(key, content, rlbytes, rlbytes - |content|, expire)
  }

  function SetParse(tokens: seq<string>, data: string): Parsed
    requires NoneEmpty(tokens)
  {
    if |tokens| < 5 then Reject(-1)
    else if |Arg(tokens, 3)| >= 250 then Reject(-3)
    else
      var start := FindAny(data, "*3", 0);
      if start == NPOS then Reject(-1)
      else
        var pos := SkipLines(data, start, 6);
        if pos == NPOS then Reject(-1)
        else if |tokens| == 5 then Crash
        else TakeValue(Arg(tokens, 3), data, pos, GetLength(tokens[5]), 0)
  }

  function SetexParse(tokens: seq<string>, data: string, now: nat): Parsed
    requires NoneEmpty(tokens)
  {
    if |tokens| < 7 then Reject(-1)
    else if |Arg(tokens, 3)| >= 250 then Reject(-3)
    else
      var start := FindAny(data, "*4", 0);
      if start == NPOS then Reject(-1)
      else
        var pos := SkipLines(data, start, 8);
        if pos == NPOS then Reject(-1)
        else if |tokens| == 7 then Crash
        else TakeValue(Arg(tokens, 3), data, pos, GetLength(tokens[7]), Atoi(tokens[6]) + now)
  }

  function MsetParse(tokens: seq<string>, data: string): Parsed
    requires |tokens| >= 3 && NoneEmpty(tokens)
  {
    var fieldNum := Atoi(tokens[0][1..]);
    if (fieldNum - 1) % 2 != 0 then Reject(-1)
    else
      var start := FindAny(data, tokens[0], 0);
      if start == NPOS then Reject(-1)
      else
        var pos := SkipLines(data, start, 3);
        if pos == NPOS then Reject(-1)
        else if pos > |data| then Crash
        else if fieldNum < 1 then Endless
        else Items((fieldNum - 1) / 2, data[pos..])
  }

  function DelParse(tokens: seq<string>): Parsed
    requires NoneEmpty(tokens)
  {
    if |tokens| != 5 then Reject(-1) else Deletes(Arg(tokens, 3))
  }

  /** ParseCommand on the commands that travel on the replication link. */
  function ParseCommand(data: string, now: nat): Parsed {
    var tokens := Split(data, 0, []);
    if |tokens| < 3 then Reject(-1)
    else if tokens[2] == "set" then SetParse(tokens, data)
    else if tokens[2] == "setex" then SetexParse(tokens, data, now)
    else if tokens[2] == "mset" then MsetParse(tokens, data)
    else if tokens[2] == "del" then DelParse(tokens)
    else Other
  }

  // ---------- lines ----------

  ghost predicate IsLine(s: string) {
    s != [] && forall i :: 0 <= i < |s| ==> !IsBreak(s[i])
  }

  ghost predicate AreLines(lines: seq<string>) {
    forall i :: 0 <= i < |lines| ==> IsLine(lines[i])
  }

  lemma FirstBreak(s: string, pos: nat, line: string)
    requires IsLine(line) && pos + |line| < |s| && s[pos..pos + |line|] == line && s[pos + |line|] == '\r'
    ensures FindBreak(s, pos) == pos + |line|
  {
  }

  lemma {:induction false} SkipsLines(s: string, pos: nat, lines: seq<string>)
    requires AreLines(lines) && pos <= |s| && JoinLines(lines) <= s[pos..]
    ensures SkipLines(s, pos, |lines|) == pos + |JoinLines(lines)|
    decreases |lines|
  {
    if lines != [] {
      HeadLine(s, pos, lines[0], JoinLines(lines[1..]));
      FirstBreak(s, pos, lines[0]);
      SkipsLines(s, pos + |lines[0]| + 2, lines[1..]);
    }
  }

  lemma SplitOne(s: string, pos: nat, line: string, tokens: seq<string>)
    requires IsLine(line) && pos + |line| < |s| && s[pos..pos + |line|] == line && s[pos + |line|] == '\r'
    requires NoneEmpty(tokens) && |tokens| < 9
    ensures NoneEmpty(tokens + [line])
    ensures Split(s, pos, tokens) == Split(s, pos + |line| + 2, tokens + [line])
  {
  }

  /** Well-formed header lines are tokenized one by one, whatever follows them. */
  lemma {:induction false} SplitsLines(s: string, pos: nat, lines: seq<string>, tokens: seq<string>)
    requires AreLines(lines) && NoneEmpty(tokens) && |tokens| + |lines| < 10
    requires pos <= |s| && JoinLines(lines) <= s[pos..]
    ensures NoneEmpty(tokens + lines)
    ensures Split(s, pos, tokens) == Split(s, pos + |JoinLines(lines)|, tokens + lines)
    decreases |lines|
  {
    hide Split;
    if lines == [] {
      assert tokens + lines == tokens;
    } else {
      var next, more := pos + |lines[0]| + 2, tokens + [lines[0]];
      HeadLine(s, pos, lines[0], JoinLines(lines[1..]));
      ShiftHead(tokens, lines);
      assert next + |JoinLines(lines[1..])| == pos + |JoinLines(lines)|;
      assert Split(s, pos, tokens) == Split(s, next, more) by { SplitOne(s, pos, lines[0], tokens); }
      SplitsLines(s, next, lines[1..], more);
    }
  }

  lemma ShiftHead<T>(a: seq<T>, b: seq<T>)
    requires b != []
    ensures a + [b[0]] + b[1..] == a + b
  {
  }

  lemma HeadLine(s: string, pos: nat, line: string, more: string)
    requires pos <= |s| && line + "\r\n" + more <= s[pos..]
    ensures pos + |line| + 2 <= |s| && s[pos..pos + |line|] == line && s[pos + |line|] == '\r'
    ensures more <= s[pos + |line| + 2..]
  {
  }

  lemma {:induction false} SplitExtends(s: string, last: nat, tokens: seq<string>)
    requires NoneEmpty(tokens)
    ensures tokens <= Split(s, last, tokens)
    decreases |s| + 2 - last
  {
    var p := FindBreak(s, last);
    if p != NPOS {
      var tokens' := if p == last then tokens else tokens + [s[last..p]];
      if !StopsAtTen(tokens') { SplitExtends(s, p + 2, tokens'); }
    }
  }

  /** Data that begins with header lines: they come out as the first tokens, and skipping as many
      lines leads behind them. */
  lemma HeaderTokens(data: string, lines: seq<string>)
    requires AreLines(lines) && |lines| < 10 && JoinLines(lines) <= data
    ensures lines <= Split(data, 0, []) && SkipLines(data, 0, |lines|) == |JoinLines(lines)|
    ensures data == JoinLines(lines) ==> Split(data, 0, []) == lines
  {
    assert data[0..] == data && [] + lines == lines;
    SkipsLines(data, 0, lines);
    SplitsLines(data, 0, lines, []);
    SplitExtends(data, |JoinLines(lines)|, lines);
  }

  // ---------- the master's messages ----------

  /** A key that survives the line tokenizer and the length check of set and setex. */
  ghost predicate LineKey(key: string) {
    '\0' !in key && IsLine(key)
  }

  lemma LengthLine(c: char, n: nat)
    requires !IsBreak(c)
    ensures IsLine([c] + Dec(n))
  {
  }

  lemma LengthOf(c: char, n: nat)
    requires n < TWO_TO_64
    ensures GetLength([c] + Dec(n)) == n
  {
    assert ([c] + Dec(n))[1..] == Dec(n);
    AtoiDec(n);
  }

  /** The value is taken from the rest of the first read and completed by the next bytes. */
  lemma ValueTaken(key: string, header: string, value: string, first: string, rest: string, expire: int)
    requires first + rest == header + value + "\r\n" && |header| <= |first|
    ensures var p := TakeValue(key, first, |header|, |value|, expire);
            && p.Value? && p.key == key && p.rlbytes == |value| && p.expire == expire
            && p.remaining <= |rest| && p.content + rest[..p.remaining] == value
  {
    var all := first + rest;
    var content := first[|header|..];
    assert all[|header|..|header| + |value|] == value;
    assert all[|header|..] == content + rest;
    assert (content + rest)[..|value|] == value;
  }

  /** A set command survives the link: key and value come back whatever part of the value the first
      read holds. */
  lemma SetRoundTrip(key: string, value: string, now: nat, first: string, rest: string)
    requires LineKey(key) && |key| < 250 && |value| <= INT_MAX
    requires |JoinLines(SetLines(key, value))| < REPLY_BUFFER
    requires first + rest == MsgText(SetMsg(key, value)) && |JoinLines(SetLines(key, value))| <= |first|
    ensures var p := ParseCommand(first, now);
            && p.Value? && p.key == key && p.rlbytes == |value| && p.expire == 0
            && p.remaining <= |rest| && p.content + rest[..p.remaining] == value
  {
    var lines := SetLines(key, value);
    var header := JoinLines(lines);
    SetLinesAreLines(key, value);
    assert first + rest == header + value + "\r\n" == header + (value + "\r\n");
    BeginsWith(first, rest, header, value + "\r\n");
    HeaderTokens(first, lines);
    SetParsed(Split(first, 0, []), lines, first, key, value);
    assert first[0] == '*' by { HeaderStar(lines, first); }
    ValueTaken(key, header, value, first, rest, 0);
  }

  lemma SetLinesAreLines(key: string, value: string)
    requires LineKey(key)
    ensures AreLines(SetLines(key, value))
  {
  }

  lemma HeaderStar(lines: seq<string>, data: string)
    requires lines != [] && lines[0] != [] && JoinLines(lines) <= data
    ensures |data| > 0 && data[0] == lines[0][0]
  {
  }

  lemma SetParsed(tokens: seq<string>, lines: seq<string>, data: string, key: string, value: string)
    requires NoneEmpty(tokens) && lines == SetLines(key, value) && lines <= tokens
    requires '\0' !in key && |key| < 250 && |value| < TWO_TO_64
    requires data != [] && data[0] == '*' && SkipLines(data, 0, 6) >= 0
    ensures tokens[2] == "set"
    ensures SetParse(tokens, data) == TakeValue(key, data, SkipLines(data, 0, 6), |value|, 0)
  {
    hide SkipLines, Split, TakeValue;
    LengthOf('$', |key|);
    LengthOf('$', |value|);
    assert tokens[3] == lines[3] && tokens[4] == key && tokens[5] == lines[5];
    assert Arg(tokens, 3) == key;
  }

  lemma BeginsWith(first: string, rest: string, header: string, tail: string)
    requires first + rest == header + tail && |header| <= |first|
    ensures header <= first
  {
    assert (first + rest)[..|header|] == first[..|header|];
  }

  lemma SetexLinesAreLines(key: string, ttl: nat, value: string)
    requires LineKey(key)
    ensures AreLines(SetexLines(key, Dec(ttl), value))
  {
  }

  lemma SetexParsed(tokens: seq<string>, lines: seq<string>, data: string, key: string, ttl: nat, value: string,
                    now: nat)
    requires NoneEmpty(tokens) && lines == SetexLines(key, Dec(ttl), value) && lines <= tokens
    requires '\0' !in key && |key| < 250 && |value| < TWO_TO_64
    requires data != [] && data[0] == '*' && SkipLines(data, 0, 8) >= 0
    ensures tokens[2] == "setex"
    ensures SetexParse(tokens, data, now) == TakeValue(key, data, SkipLines(data, 0, 8), |value|, ttl + now)
  {
    hide SkipLines, Split, TakeValue;
    LengthOf('$', |key|);
    LengthOf('$', |value|);
    AtoiDec(ttl);
    assert tokens[3] == lines[3] && tokens[4] == key && tokens[6] == lines[6] && tokens[7] == lines[7];
    assert Arg(tokens, 3) == key;
  }

  /** A setex command survives the link, and the slave's expiry is its clock plus the life sent. */
  lemma SetexRoundTrip(key: string, ttl: nat, value: string, now: nat, first: string, rest: string)
    requires LineKey(key) && |key| < 250 && |value| <= INT_MAX && ttl <= INT_MAX && |Dec(ttl)| < EXPIRE_BUFFER
    requires |JoinLines(SetexLines(key, Dec(ttl), value))| < REPLY_BUFFER
    requires first + rest == MsgText(SetexMsg(key, ttl, value))
    requires |JoinLines(SetexLines(key, Dec(ttl), value))| <= |first|
    ensures var p := ParseCommand(first, now);
            && p.Value? && p.key == key && p.rlbytes == |value| && p.expire == ttl + now
            && p.remaining <= |rest| && p.content + rest[..p.remaining] == value
  {
    var lines := SetexLines(key, Dec(ttl), value);
    var header := JoinLines(lines);
    SetexLinesAreLines(key, ttl, value);
    assert first + rest == header + value + "\r\n" == header + (value + "\r\n");
    BeginsWith(first, rest, header, value + "\r\n");
    HeaderTokens(first, lines);
    assert first[0] == '*' by { HeaderStar(lines, first); }
    SetexParsed(Split(first, 0, []), lines, first, key, ttl, value, now);
    ValueTaken(key, header, value, first, rest, ttl + now);
  }

  /** A del command survives the link when it arrives in one read. */
  lemma DelRoundTrip(key: string, now: nat)
    requires LineKey(key) && |JoinLines(DelLines(key))| < REPLY_BUFFER
    ensures ParseCommand(MsgText(DelMsg(key)), now) == Deletes(key)
  {
    hide JoinLines, Split;
    var lines := DelLines(key);
    LengthLine('$', |key|);
    HeaderTokens(JoinLines(lines), lines);
    assert |key| <= |JoinLines(lines)| by { JoinHolds(lines, 4); }
    DelParsed(lines, key);
  }

  lemma DelParsed(lines: seq<string>, key: string)
    requires lines == DelLines(key) && '\0' !in key && |key| < TWO_TO_64 && NoneEmpty(lines)
    ensures lines[2] == "del" && DelParse(lines) == Deletes(key)
  {
    LengthOf('$', |key|);
    assert lines[3] == "$" + Dec(|key|) && lines[4] == key;
    assert Arg(lines, 3) == key;
  }

  lemma {:induction false} JoinHolds(lines: seq<string>, i: nat)
    requires i < |lines|
    ensures |lines[i]| <= |JoinLines(lines)|
    decreases i
  {
    if i > 0 { JoinHolds(lines[1..], i - 1); }
  }

  // ---------- mset ----------

  lemma MsetParsed(first: string, rest: string, num: nat, items: string, now: nat)
    requires 2 * num + 1 <= INT_MAX
    requires first + rest == JoinLines(MsetLines(num)) + items && |JoinLines(MsetLines(num))| <= |first|
    ensures ParseCommand(first, now) == Items(num, first[|JoinLines(MsetLines(num))|..])
  {
    var lines := MsetLines(num);
    LengthLine('*', 2 * num + 1);
    BeginsWith(first, rest, JoinLines(lines), items);
    HeaderTokens(first, lines);
    HeaderStar(lines, first);
    var tokens := Split(first, 0, []);
    assert tokens[0] == lines[0] && tokens[2] == "mset";
    AtoiDec(2 * num + 1);
    assert tokens[0][1..] == Dec(2 * num + 1);
    assert FindAny(first, tokens[0], 0) == 0;
    MsetParsedFrom(tokens, first, num);
  }

  lemma MsetParsedFrom(tokens: seq<string>, data: string, num: nat)
    requires |tokens| >= 3 && NoneEmpty(tokens) && Atoi(tokens[0][1..]) == 2 * num + 1
    requires FindAny(data, tokens[0], 0) == 0 && 0 <= SkipLines(data, 0, 3) <= |data|
    ensures MsetParse(tokens, data) == Items(num, data[SkipLines(data, 0, 3)..])
  {
    hide SkipLines, Atoi, FindAny;
  }

  /** An mset whose first line announces some count: an even one is refused, one below 1 never ends, and
      any other makes the items that follow the header its arguments. */
  lemma MsetCounted(data: string, count: string, items: string, now: nat)
    requires IsLine("*" + count) && data == JoinLines(["*" + count, "$4", "mset"]) + items
    ensures ParseCommand(data, now) ==
            if Atoi(count) % 2 == 0 then Reject(-1)
            else if Atoi(count) < 1 then Endless
            else Items(Atoi(count) / 2, items)
  {
    hide Atoi, SkipLines, Split, JoinLines;
    var lines := ["*" + count, "$4", "mset"];
    HeaderTokens(data, lines);
    HeaderStar(lines, data);
    var tokens := Split(data, 0, []);
    assert tokens[0] == lines[0] && tokens[2] == lines[2];
    assert tokens[0][1..] == count;
    assert data[|JoinLines(lines)|..] == items;
    assert FindAny(data, tokens[0], 0) == 0;
  }

  /** One printed item is exactly its encoding just when its key has no NUL byte and its header fits. */
  lemma ItemTextExact(key: string, value: string)
    ensures ItemText(key, value) == EncItem(key, value)
            <==> '\0' !in key && |ItemHeader(key, value)| < ITEM_BUFFER
  {
  }
}
