/**
 Which keys and values survive the link: the exact condition for one item, and what happens to an
 item whose key the printer cuts.
 */
module LinkExact {
  import opened Basics
  import opened Decimal
  import opened Wire
  import opened MsetParser
  import opened SlaveParser
  import opened Link

  const EMPTY := Fresh(map[], 1)

  lemma ShortLength(n: nat)
    requires n <= INT_MAX
    ensures |LengthText(n)| <= 13
  {
    assert Pow10(5) == 100000 && Pow10(10) == 100000 * 100000;
    DecBound(n, 10);
  }

  /** What the printer leaves of an item's header. */
  function CutHeader(k: string, v: string): string { Snprintf(ITEM_BUFFER, ItemHeader(k, v)) }

  lemma HeaderParts(k: string, v: string)
    ensures ItemHeader(k, v) == LengthText(|k|) + (CStr(k) + ("\r\n" + LengthText(|v|)))
  {
    hide CStr, Dec;
    assert "\r\n$" == "\r\n" + "$";
    Grouped("$", Dec(|k|), "\r\n", CStr(k), "\r\n$", Dec(|v|));
  }

  lemma Grouped(x: string, a: string, n: string, b: string, m: string, d: string)
    requires m == n + x
    ensures x + a + n + b + m + d + n == (x + a + n) + (b + (n + (x + d + n)))
  {
    var p, q := x + a + n, n + (x + d + n);
    assert m + d + n == q;
    assert p + b + m + d + n == p + b + (m + d + n);
    Regroup(p, b, q);
  }

  /** The length of the key is read from what is left of the header. */
  lemma KeyLengthRead(k: string, v: string)
    requires |k| <= INT_MAX && |v| <= INT_MAX
    ensures LengthText(|k|) <= CutHeader(k, v)
    ensures LengthField(ItemText(k, v), 0) == Got(|LengthText(|k|)|, |k|)
  {
    hide LengthText, LengthField, CStr;
    ShortLength(|k|);
    HeaderParts(k, v);
    var text, len := ItemText(k, v), LengthText(|k|);
    assert len <= CutHeader(k, v);
    assert text == len + text[|len|..] && text[0..] == text;
    LengthFieldRead(text, 0, |k|, text[|len|..]);
  }

  /** What it takes to store the one item (k, v) whose key length stands in front. */
  ghost predicate StoredFrom(data: string, a: nat, k: string, v: string, p: int) {
    var end := a + |k| + 2;
    && end < p < |data| && FindBreak(data, end) == p && p + 2 <= |data|
    && data[a..a + |k|] == k
    && var len := GetLength(data[end..p]);
       Substr(data, p + 2, len) == v && Sum64(p + 2, len + 2) <= |data|
  }

  lemma SameSingleton(k: string, v: string, k': string, v': string)
    requires map[k := v] == map[k' := v']
    ensures k == k' && v == v'
  {
    assert k in map[k' := v'];
  }

  /** The parser is done with one item and holds these pairs. */
  predicate Stored(data: string, kv: Store) {
    ItemParse(data, EMPTY).0 == Complete && ItemParse(data, EMPTY).1.keysValues == kv
  }

  lemma OneStore(data: string, kv: Store)
    ensures Stored(data, kv) ==> ItemStep(data, EMPTY).Stores? && ItemStep(data, EMPTY).md.keysValues == kv
  {
    hide ItemStep;
  }

  lemma KeyStep(data: string, a: nat, n: nat)
    requires LengthField(data, 0) == Got(a, n) && a + n + 2 < TWO_TO_64
    ensures ItemStep(data, EMPTY).Stores? ==>
              && a + n <= |data|
              && var key, end := data[a..a + n], a + n + 2;
                 ItemStep(data, EMPTY) == ContentStep(data, EMPTY.(curKey := key, curKeyEnd := end), key, end)
  {
    hide ContentStep, LengthField, Sum64;
    SmallSum(a, n);
    SmallSum(a, n + 2);
  }

  lemma ValueStep(data: string, md: MsetData, key: string, end: nat)
    requires md.setNum == 1 && md.keysValues == map[] && md.curContentLen == 0 && |data| + 2 < TWO_TO_64
    requires ContentStep(data, md, key, end).Stores?
    ensures var p := FindBreak(data, end);
            && end < p && p + 2 <= |data|
            && var len := GetLength(data[end..p]);
               && ContentStep(data, md, key, end).md.keysValues == map[key := Substr(data, p + 2, len)]
               && Sum64(p + 2, len + 2) <= |data|
  {
    hide FindBreak, GetLength;
    var p := FindBreak(data, end);
    if p != NPOS { SmallSum(p, 2); }
  }

  lemma StoredNeeds(data: string, a: nat, k: string, v: string)
    requires LengthField(data, 0) == Got(a, |k|) && a + |k| + 2 < TWO_TO_64 && |data| + 2 < TWO_TO_64
    ensures Stored(data, map[k := v]) ==> StoredFrom(data, a, k, v, FindBreak(data, a + |k| + 2))
  {
    hide FindBreak, GetLength, Stored, ItemStep, ContentStep, Sum64, LengthField, Substr;
    OneStore(data, map[k := v]);
    if Stored(data, map[k := v]) {
      KeyStep(data, a, |k|);
      var key, end := data[a..a + |k|], a + |k| + 2;
      ValueStep(data, EMPTY.(curKey := key, curKeyEnd := end), key, end);
      var p := FindBreak(data, end);
      SameSingleton(k, v, key, Substr(data, p + 2, GetLength(data[end..p])));
    }
  }

  /** The text ends too early for that: the second length would have to end within the cut header. */
  lemma BreakInHeader(k: string, v: string, a: nat, p: int)
    requires StoredFrom(ItemText(k, v), a, k, v, p) && |ItemText(k, v)| + 2 < TWO_TO_64
    ensures var len := GetLength(ItemText(k, v)[a + |k| + 2..p]);
            p + 2 <= |CutHeader(k, v)| || (p == |CutHeader(k, v)| && len > |v|)
  {
    hide FindBreak, GetLength, Snprintf, ItemHeader;
    var data := ItemText(k, v);
    var len := GetLength(data[a + |k| + 2..p]);
    assert |data| == |CutHeader(k, v)| + |v| + 2;
    if len <= |data| - (p + 2) { SmallSum(p + 2, len + 2); }
  }

  lemma {:induction false} CStrStops(s: string)
    requires |CStr(s)| < |s|
    ensures s[|CStr(s)|] == '\0'
  {
    if s[0] != '\0' { CStrStops(s[1..]); }
  }

  lemma TextBegins(k: string, v: string, i: nat)
    requires i < |CutHeader(k, v)|
    ensures i < |ItemHeader(k, v)| && ItemText(k, v)[i] == CutHeader(k, v)[i] == ItemHeader(k, v)[i]
  {
    hide ItemHeader;
  }

  /** A key with a NUL byte is not found in the text: a line break stands in place of the byte. */
  lemma NulIsLost(k: string, v: string, p: int)
    requires |k| <= INT_MAX && |v| <= INT_MAX && p <= |CutHeader(k, v)|
    requires StoredFrom(ItemText(k, v), |LengthText(|k|)|, k, v, p)
    ensures '\0' !in k
  {
    hide FindBreak, GetLength, LengthText, CutHeader, ItemText, ItemHeader;
    if '\0' in k {
      var a, n := |LengthText(|k|)|, |CStr(k)|;
      CStrStops(k);
      TextBegins(k, v, a + n);
      HeaderParts(k, v);
      SecondOf(LengthText(|k|), CStr(k), "\r\n" + LengthText(|v|));
    }
  }

  lemma SecondOf(a: string, b: string, c: string)
    ensures c != "" ==> (a + (b + c))[|a| + |b|] == c[0]
    ensures (a + (b + c))[|a| + |b|..] == c
  {
  }

  /** The bytes of a header behind its key, without NUL. */
  lemma ValueLengthPart(k: string, v: string)
    requires '\0' !in k
    ensures var end := |LengthText(|k|)| + |k| + 2;
            |ItemHeader(k, v)| == end + |LengthText(|v|)| && ItemHeader(k, v)[end..] == LengthText(|v|)
  {
    hide LengthText, ItemHeader;
    HeaderParts(k, v);
    var a := LengthText(|k|) + k;
    assert ItemHeader(k, v) == a + ("\r\n" + LengthText(|v|)) by {
      Regroup(LengthText(|k|), k, "\r\n" + LengthText(|v|));
    }
    SecondOf(a, "\r\n", LengthText(|v|));
  }

  lemma LengthTextBreak(n: nat, i: nat)
    requires i < |LengthText(n)|
    ensures IsBreak(LengthText(n)[i]) <==> i >= 1 + |Dec(n)|
  {
  }

  /** A header that is cut cannot be followed by its value. */
  lemma CutIsLost(k: string, v: string, p: int)
    requires '\0' !in k && |k| <= INT_MAX && |v| <= INT_MAX
    requires StoredFrom(ItemText(k, v), |LengthText(|k|)|, k, v, p)
    requires var len := GetLength(ItemText(k, v)[|LengthText(|k|)| + |k| + 2..p]);
             p + 2 <= |CutHeader(k, v)| || (p == |CutHeader(k, v)| && len > |v|)
    ensures |ItemHeader(k, v)| < ITEM_BUFFER
  {
    hide FindBreak, LengthText, ItemText, ItemHeader, GetLength;
    var data, header, h := ItemText(k, v), ItemHeader(k, v), |CutHeader(k, v)|;
    var end := |LengthText(|k|)| + |k| + 2;
    ValueLengthPart(k, v);
    if |header| >= ITEM_BUFFER {
      if p + 2 <= h {
        TextBegins(k, v, p);
        LengthTextSize(|v|);
        assert header[p] == header[end..][p - end];
        LengthTextBreak(|v|, p - end);
      } else {
        CutNumeral(k, v, end);
      }
    }
  }

  lemma LengthTextSize(n: nat)
    ensures |LengthText(n)| == |Dec(n)| + 3
  {
  }

  /** The numeral cut by the end of the buffer reads as a number no greater than the length. */
  lemma CutNumeral(k: string, v: string, end: nat)
    requires |ItemHeader(k, v)| >= ITEM_BUFFER && |v| <= INT_MAX
    requires end < |CutHeader(k, v)| && ItemHeader(k, v)[end..] == LengthText(|v|)
    requires FindBreak(ItemText(k, v), end) == |CutHeader(k, v)| <= |ItemText(k, v)|
    ensures GetLength(ItemText(k, v)[end..|CutHeader(k, v)|]) <= |v|
  {
    hide LengthText, ItemHeader, Atoi;
    var data, h := ItemText(k, v), |CutHeader(k, v)|;
    var n := h - end - 1;
    if n > |Dec(|v|)| {
      var i := end + 1 + |Dec(|v|)|;
      TextBegins(k, v, i);
      LengthTextSize(|v|);
      LengthTextBreak(|v|, i - end);
    }
    var field := data[end..h];
    assert field == ItemHeader(k, v)[end..][..h - end];
    assert field[1..] == Dec(|v|)[..n] by { NumeralOf(|v|, n); }
    DecPrefix(|v|, n);
  }

  lemma NumeralOf(n: nat, j: nat)
    requires j <= |Dec(n)|
    ensures |LengthText(n)| > j && LengthText(n)[..j + 1][1..] == Dec(n)[..j]
  {
  }

  lemma MsetHead(num: nat)
    requires num <= 4
    ensures |JoinLines(MsetLines(num))| == 14 && MsetHeader(num) == JoinLines(MsetLines(num))
  {
    var lines := MsetLines(num);
    assert lines[1..] == ["$4", "mset"] && lines[1..][1..] == ["mset"] && ["mset"][1..] == [];
    assert JoinLines(["mset"]) == "mset\r\n" + JoinLines([]);
  }

  lemma SingleText(k: string, v: string)
    ensures MsgText(MsetMsg([(k, v)])) == JoinLines(MsetLines(1)) + ItemText(k, v)
  {
    hide JoinLines, ItemText;
    MsetHead(1);
    ItemsTextSnoc([], k, v);
    assert [] + [(k, v)] == [(k, v)];
  }

  lemma SingleFeed(data: string)
    ensures FeedAll(EMPTY, [data]) == ItemParse(data, EMPTY)
  {
    hide ItemParse;
    assert [data][..0] == [] && "" + data == data;
  }

  lemma SingleReceived(k: string, v: string, now: nat)
    ensures Receive(map[], [MsgText(MsetMsg([(k, v)]))], now) ==
            var (ret, md) := ItemParse(ItemText(k, v), EMPTY);
            if ret == Complete then Some(map[] + Entries(md.keysValues)) else None
  {
    hide JoinLines, ItemText, ParseCommand, ItemParse, FeedAll, MsetLines, Entries;
    SingleText(k, v);
    var text, head := MsgText(MsetMsg([(k, v)])), JoinLines(MsetLines(1));
    assert text + "" == head + ItemText(k, v);
    MsetParsed(text, "", 1, ItemText(k, v), now);
    assert text[|head|..] == ItemText(k, v);
    assert [ItemText(k, v)] + [text][1..] == [ItemText(k, v)];
    SingleFeed(ItemText(k, v));
  }

  lemma SingleSendable(k: string, v: string)
    requires |k| <= INT_MAX && |v| <= INT_MAX && Printable(k, v)
    ensures Sendable(MsetMsg([(k, v)]))
  {
    hide JoinLines, ItemHeader;
    MsetHead(1);
    ShortLength(|k|);
    ShortLength(|v|);
    assert [(k, v)][1..] == [];
    assert Enc([(k, v)]) == EncItem(k, v) + Enc([]);
  }

  lemma EntriesInjective(kv: Store, k: string, v: string)
    requires map[] + Entries(kv) == map[k := Entry(v, 0)]
    ensures kv == map[k := v]
  {
    var e, one: Db := Entries(kv), map[k := Entry(v, 0)];
    assert map[] + e == e;
    assert forall x :: x in kv <==> x in e;
    assert k in one && one[k] == Entry(v, 0);
  }

  /** The exact condition: an item reaches the slave, as the only one of its command and in one read, if
      and only if its key has no NUL byte and its header fits the buffer of the printer. */
  lemma ItemDeliveredExact(k: string, v: string, now: nat)
    requires |k| <= INT_MAX && |v| <= INT_MAX
    ensures Receive(map[], [MsgText(MsetMsg([(k, v)]))], now) == Some(map[k := Entry(v, 0)]) <==> Printable(k, v)
  {
    hide Receive, MsgText, Printable, ItemParse, Entries;
    if Printable(k, v) {
      SingleSendable(k, v);
      WholeIsCut(MsetMsg([(k, v)]));
      MsetDelivered(map[], [(k, v)], [MsgText(MsetMsg([(k, v)]))], now);
      SinglePut(k, v);
    }
    if Receive(map[], [MsgText(MsetMsg([(k, v)]))], now) == Some(map[k := Entry(v, 0)]) {
      SingleReceived(k, v, now);
      EntriesInjective(ItemParse(ItemText(k, v), EMPTY).1.keysValues, k, v);
      OnlyPrintable(k, v);
    }
  }

  lemma SinglePut(k: string, v: string)
    ensures map[] + Entries(PutPairs(map[], [(k, v)])) == map[k := Entry(v, 0)]
  {
    assert PutPairs(map[], [(k, v)]) == map[k := v];
  }

  lemma OnlyPrintable(k: string, v: string)
    requires |k| <= INT_MAX && |v| <= INT_MAX
    ensures Stored(ItemText(k, v), map[k := v]) ==> Printable(k, v)
  {
    hide Stored, ItemHeader, LengthText, StoredFrom, FindBreak, LengthField, GetLength;
    var a, data := |LengthText(|k|)|, ItemText(k, v);
    ShortLength(|k|);
    KeyLengthRead(k, v);
    StoredNeeds(data, a, k, v);
    if Stored(data, map[k := v]) {
      var p := FindBreak(data, a + |k| + 2);
      BreakInHeader(k, v, a, p);
      NulIsLost(k, v, p);
      CutIsLost(k, v, p);
    }
  }

  /** A key that is cut and not made up for by the bytes behind it leaves the slave waiting, however the
      command arrives. */
  lemma LongKeyStalls(db: Db, k: string, v: string, parts: seq<string>, now: nat)
    requires |k| <= INT_MAX && |v| <= INT_MAX && |ItemText(k, v)| < |LengthText(|k|)| + |k|
    requires IsCut(parts, MsetMsg([(k, v)]))
    ensures Receive(db, parts, now) == None
  {
    hide JoinLines, MsetLines, ParseCommand, ItemText, FeedAll, Concat, Enc, LengthText;
    SingleText(k, v);
    var text := ItemText(k, v);
    ConcatCons(parts);
    MsetParsed(parts[0], Concat(parts[1..]), 1, text, now);
    ChunksHold(parts, 1, text);
    var other := OtherKey(k, v);
    PrefixOfOther(k, v, other);
    AnyCut(map[], [(other, "")], ItemChunks(parts, 1));
  }

  /** A key of the same length that begins with what the slave gets to see. */
  ghost function OtherKey(k: string, v: string): (other: string)
    requires |k| <= INT_MAX && |v| <= INT_MAX && |ItemText(k, v)| < |LengthText(|k|)| + |k|
    ensures |other| == |k| && ItemText(k, v) < LengthText(|k|) + other
  {
    hide LengthField, LengthText, ItemText;
    KeyLengthRead(k, v);
    LengthFirst(k, v);
    var a, text := |LengthText(|k|)|, ItemText(k, v);
    assert text == LengthText(|k|) + text[a..];
    text[a..] + seq(|k| - (|text| - a), _ => 'x')
  }

  lemma LengthFirst(k: string, v: string)
    requires LengthText(|k|) <= CutHeader(k, v)
    ensures LengthText(|k|) <= ItemText(k, v)
  {
  }

  lemma PrefixOfOther(k: string, v: string, other: string)
    requires |k| <= INT_MAX && |other| == |k| && ItemText(k, v) < LengthText(|k|) + other
    ensures ItemText(k, v) < Enc([(other, "")]) && IntSized([(other, "")])
  {
    hide ItemText, LengthText;
    ShortLength(|k|);
    ShortLength(0);
    assert [(other, "")][1..] == [];
    assert Enc([(other, "")]) == EncItem(other, "") + Enc([]);
    assert EncItem(other, "") == LengthText(|k|) + other + ("\r\n" + LengthText(0) + "" + "\r\n");
  }

  // ---------- deletions ----------

  /** Tokens are non-empty, without line breaks, and made of the bytes of the data. */
  ghost predicate TokensOf(tokens: seq<string>, s: string) {
    AreLines(tokens) && forall i :: 0 <= i < |tokens| ==> Within(tokens[i], s)
  }

  ghost predicate Within(token: string, s: string) { forall j :: 0 <= j < |token| ==> token[j] in s }

  lemma {:induction false} SplitTokens(s: string, last: nat, tokens: seq<string>)
    requires NoneEmpty(tokens) && TokensOf(tokens, s)
    ensures TokensOf(Split(s, last, tokens), s)
    decreases |s| + 2 - last
  {
    var p := FindBreak(s, last);
    if p != NPOS {
      var more := if p == last then tokens else tokens + [s[last..p]];
      if p != last { assert IsLine(s[last..p]) && Within(s[last..p], s); }
      if !StopsAtTen(more) { SplitTokens(s, p + 2, more); }
    }
  }

  lemma DelTextClean(key: string)
    ensures '\0' !in JoinLines(DelLines(key))
  {
    hide CStr;
    assert forall i :: 0 <= i < |DelLines(key)| ==> '\0' !in DelLines(key)[i];
    JoinClean(DelLines(key));
  }

  lemma {:induction false} JoinClean(lines: seq<string>)
    requires forall i :: 0 <= i < |lines| ==> '\0' !in lines[i]
    ensures '\0' !in JoinLines(lines)
  {
    if lines != [] {
      JoinClean(lines[1..]);
      assert '\0' !in lines[0] + "\r\n";
    }
  }

  /** Removing the empty key cannot be said on the wire: the slave counts one token too few. */
  lemma EmptyKeyRefused(now: nat)
    ensures ParseCommand(MsgText(DelMsg("")), now) == Reject(-1)
  {
    hide JoinLines, Split;
    var lines, text := ["*2", "$3", "del", "$0"], JoinLines(DelLines(""));
    assert Dec(0) == "0" && "$" + Dec(0) == "$0" && CStr("") == "";
    assert DelLines("") == lines + [""];
    JoinSnoc(lines, "");
    FourLines(lines);
    assert "" + "\r\n" == "\r\n";
    EmptyLineAtEnd(lines);
  }

  lemma EmptyLineAtEnd(lines: seq<string>)
    requires AreLines(lines) && |lines| < 10
    ensures Split(JoinLines(lines) + "\r\n", 0, []) == lines
  {
    hide JoinLines, Split;
    var head := JoinLines(lines);
    var text := head + "\r\n";
    assert text[0..] == text && [] + lines == lines;
    SplitsLines(text, 0, lines, []);
    SplitEnds(text, |head|, lines);
  }

  lemma SplitEnds(text: string, pos: nat, tokens: seq<string>)
    requires |text| == pos + 2 && IsBreak(text[pos]) && NoneEmpty(tokens) && |tokens| < 10
    ensures Split(text, pos, tokens) == tokens
  {
    assert FindBreak(text, pos) == pos && FindBreak(text, pos + 2) == NPOS;
    assert Split(text, pos + 2, tokens) == tokens;
  }

  lemma {:induction false} JoinSnoc(lines: seq<string>, last: string)
    ensures JoinLines(lines + [last]) == JoinLines(lines) + (last + "\r\n")
  {
    if lines == [] {
      assert [last][1..] == [];
      assert last + "\r\n" + JoinLines([]) == last + "\r\n" == "" + (last + "\r\n");
    } else {
      JoinSnoc(lines[1..], last);
      assert (lines + [last])[1..] == lines[1..] + [last];
    }
  }

  lemma FourLines(lines: seq<string>)
    requires |lines| == 4
    ensures |JoinLines(lines)| == |lines[0]| + |lines[1]| + |lines[2]| + |lines[3]| + 8
  {
    assert lines[1..][1..] == lines[2..] && lines[2..][1..] == lines[3..] && lines[3..][1..] == [];
    assert |JoinLines(lines[3..])| == |lines[3]| + 2;
    assert |JoinLines(lines[2..])| == |lines[2]| + 2 + |JoinLines(lines[3..])|;
    assert |JoinLines(lines[1..])| == |lines[1]| + 2 + |JoinLines(lines[2..])|;
  }

  /** A deletion that fits the printer's buffer names its key to the slave if and only if the key is a
      line: not empty, without NUL and without line breaks. */
  lemma DelDeliveredExact(key: string, now: nat)
    requires |JoinLines(DelLines(key))| < REPLY_BUFFER
    ensures ParseCommand(MsgText(DelMsg(key)), now) == Deletes(key) <==> LineKey(key)
  {
    if LineKey(key) { DelRoundTrip(key, now); }
    if ParseCommand(MsgText(DelMsg(key)), now) == Deletes(key) {
      EmptyKeyRefused(now);
      DelTextClean(key);
      SplitTokens(MsgText(DelMsg(key)), 0, []);
      DeletedIsLine(MsgText(DelMsg(key)), key, now);
    }
  }

  lemma DeletedIsLine(text: string, key: string, now: nat)
    requires ParseCommand(text, now) == Deletes(key) && TokensOf(Split(text, 0, []), text) && '\0' !in text
    ensures '\0' !in key && forall i :: 0 <= i < |key| ==> !IsBreak(key[i])
  {
    hide Split;
    var token := Split(text, 0, [])[4];
    assert key <= token && Within(token, text) && IsLine(token);
  }
}
