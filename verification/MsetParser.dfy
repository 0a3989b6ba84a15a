/** The MSET argument parser, which resumes from saved offsets after any cut in the stream. */
module MsetParser {
  import opened Basics
  import opened Decimal
  import opened Wire

  predicate IsBreak(c: char) { c == '\r' || c == '\n' }

  const NPOS := -1

  /** data.find_first_of("\r\n", pos) */
  function FindBreak(data: string, pos: nat): (p: int)
    ensures p == NPOS ==> forall i :: pos <= i < |data| ==> !IsBreak(data[i])
    ensures p != NPOS ==> pos <= p < |data| && IsBreak(data[p]) && forall i :: pos <= i < p ==> !IsBreak(data[i])
    decreases |data| - pos
  {
    if pos >= |data| then NPOS
    else if IsBreak(data[pos]) then pos
    else FindBreak(data, pos + 1)
  }

  datatype MsetData = MsetData(keysValues: map<string, string>, content: string, curKey: string, curKeyEnd: nat,
                               curContentLen: nat, curContentStart: nat, setNum: nat)
  {
    /** mset_data::set: one item is complete. */
    function Stored(key: string, value: string): MsetData
      requires setNum > 0
    {
      MsetData(keysValues[key := value], "", "", 0, 0, 0, setNum - 1)
    }
  }

  /** GetLength: the number after the type byte, converted to an unsigned 64-bit length.
      On an empty field substr(1) throws. */
  function GetLength(field: string): (n: nat)
    requires field != []
    ensures n < TWO_TO_64
  {
    Atoi(field[1..]) % TWO_TO_64
  }

  function Sum64(a: nat, b: nat): nat { (a + b) % TWO_TO_64 }

  lemma SmallSum(a: nat, b: nat)
    requires a + b < TWO_TO_64
    ensures Sum64(a, b) == a + b
  {
  }

  /** std::string::substr with a count, for a start inside the string. */
  function Substr(s: string, pos: nat, n: nat): string
    requires pos <= |s|
  {
    if n <= |s| - pos then s[pos..pos + n] else s[pos..]
  }

  /** Outcomes of the parser; Throw is std::out_of_range from substr. */
  datatype Ret = Complete | NeedMore | Throw

  datatype Field = Wait | Bad | Got(start: nat, len: nat)

  /** A length field at pos: its line break may not have arrived yet. */
  function LengthField(data: string, pos: nat): Field {
    var p := FindBreak(data, pos);
    if p == NPOS then Wait
    else if p == pos then Bad
    else Got(Sum64(p, 2), GetLength(data[pos..p]))
  }

  datatype Step = Waits(md: MsetData) | Throws | Stores(md: MsetData, rest: string)

  /** One turn of the loop, from the key on. */
  function ItemStep(data: string, md: MsetData): (r: Step)
    requires md.setNum > 0
    ensures r.Stores? ==> r.md.setNum == md.setNum - 1
  {
    if md.curKey != "" then ContentStep(data, md, md.curKey, md.curKeyEnd)
    else
      match LengthField(data, 0)
      case Wait => Waits(md.(content := data))
      case Bad => Throws
      case Got(start, len) =>
        if |data| < Sum64(start, len) then Waits(md.(content := data))
        else if start > |data| then Throws
        else
          var key := Substr(data, start, len);
          var end := Sum64(start, len + 2);
          ContentStep(data, md.(curKey := key, curKeyEnd := end), key, end)
  }

  /** The second half of a turn: the value of a key that is known. */
  function ContentStep(data: string, md: MsetData, key: string, keyEnd: nat): (r: Step)
    requires md.setNum > 0
    ensures r.Stores? ==> r.md.setNum == md.setNum - 1
  {
    if md.curContentLen > 0 then StoreStep(data, md, key, md.curContentStart, md.curContentLen)
    else
      match LengthField(data, keyEnd)
      case Wait => Waits(md.(content := data))
      case Bad => Throws
      case Got(start, len) =>
        StoreStep(data, md.(curContentLen := len, curContentStart := start), key, start, len)
  }

  function StoreStep(data: string, md: MsetData, key: string, start: nat, len: nat): (r: Step)
    requires md.setNum > 0
    ensures r.Stores? ==> r.md.setNum == md.setNum - 1
  {
    if |data| < Sum64(start, len + 2) then Waits(md.(content := data))
    else if start > |data| then Throws
    else Stores(md.Stored(key, Substr(data, start, len)), data[Sum64(start, len + 2)..])
  }

  function ItemParse(data: string, md: MsetData): (Ret, MsetData)
    decreases md.setNum
  {
    if md.setNum == 0 then (Complete, md)
    else
      match ItemStep(data, md)
      case Waits(md') => (NeedMore, md')
      case Throws => (Throw, md)
      case Stores(md', rest) => ItemParse(rest, md')
  }

  // ---------- the encoding ----------

  function LengthText(n: nat): string { "$" + Dec(n) + "\r\n" }

  function EncItem(k: string, v: string): string {
    LengthText(|k|) + k + "\r\n" + LengthText(|v|) + v + "\r\n"
  }

  function Enc(pairs: seq<(string, string)>): string {
    if pairs == [] then "" else EncItem(pairs[0].0, pairs[0].1) + Enc(pairs[1..])
  }

  function KeyEnd(k: string): nat { |LengthText(|k|)| + |k| + 2 }

  function ContentStart(k: string, v: string): nat { KeyEnd(k) + |LengthText(|v|)| }

  /** The saved fields are unset or describe the current item. */
  ghost predicate SavedAt(md: MsetData, k: string, v: string, keyEnd: nat, contentStart: nat) {
    && (md.curKey != "" ==> md.curKey == k && md.curKeyEnd == keyEnd)
    && (md.curContentLen != 0 ==> md.curContentLen == |v| && md.curContentStart == contentStart)
  }

  ghost predicate SavedFor(md: MsetData, k: string, v: string) {
    SavedAt(md, k, v, KeyEnd(k), ContentStart(k, v))
  }

  /** A length field that begins at pos is read as soon as its carriage return is there. */
  lemma LengthFieldRead(data: string, pos: nat, n: nat, tail: string)
    requires pos <= |data| && data[pos..] <= LengthText(n) + tail
    requires pos + |LengthText(n)| < TWO_TO_64 && n < TWO_TO_64
    ensures LengthField(data, pos) ==
            if |data| - pos < |LengthText(n)| - 1 then Wait else Got(pos + |LengthText(n)|, n)
  {
    var h := 1 + |Dec(n)|;
    var text := LengthText(n) + tail;
    assert text[0] == '$' && text[1..h] == Dec(n) && text[h] == '\r';
    forall i | pos <= i < |data| && i < pos + h
      ensures !IsBreak(data[i])
    {
      assert data[i] == data[pos..][i - pos] == text[i - pos];
      assert i > pos ==> text[i - pos] == Dec(n)[i - pos - 1];
    }
    if |data| - pos > h {
      assert data[pos + h] == data[pos..][h] == text[h];
      assert FindBreak(data, pos) == pos + h;
      assert data[pos..pos + h][1..] == Dec(n) by {
        assert data[pos..pos + h] == data[pos..][..h] == text[..h];
      }
      AtoiDec(n);
    }
  }

  lemma ItemLayout(k: string, v: string)
    ensures var e := EncItem(k, v);
            var a, b, c := |LengthText(|k|)|, KeyEnd(k), ContentStart(k, v);
            && a < b < c && |e| == c + |v| + 2
            && e[a..a + |k|] == k && e[b..] == LengthText(|v|) + (v + "\r\n") && e[c..c + |v|] == v
            && e == LengthText(|k|) + (k + "\r\n" + LengthText(|v|) + v + "\r\n")
  {
    hide LengthText;
    assert |LengthText(|v|)| > 0 by { LengthTextNotEmpty(|v|); }
    Layout(LengthText(|k|), k, "\r\n", LengthText(|v|), v);
  }

  lemma LengthTextNotEmpty(n: nat)
    ensures |LengthText(n)| > 0
  {
  }

  lemma Layout(a: string, k: string, n: string, c: string, v: string)
    ensures var e := a + k + n + c + v + n;
            && e[|a|..|a| + |k|] == k
            && e[|a| + |k| + |n|..] == c + (v + n)
            && e[|a| + |k| + |n| + |c|..|a| + |k| + |n| + |c| + |v|] == v
            && e == a + (k + n + c + v + n)
  {
  }

  /** What the scans find in data that begins with the item: a, b and c are where its key, its
      value's length and its value start. */
  ghost predicate Reads(data: string, k: string, v: string, a: nat, b: nat, c: nat) {
    && b == a + |k| + 2 && b < c && c + |v| + 2 < TWO_TO_64
    && LengthField(data, 0) == (if |data| < a - 1 then Wait else Got(a, |k|))
    && LengthField(data, b) == (if |data| < c - 1 then Wait else Got(c, |v|))
    && (|data| >= a + |k| ==> data[a..a + |k|] == k)
    && (|data| >= c + |v| ==> data[c..c + |v|] == v)
  }

  lemma FieldReads(data: string, e: string, more: string, pos: nat, n: nat, tail: string)
    requires data <= e + more && pos <= |e| && e[pos..] == LengthText(n) + tail
    requires pos + |LengthText(n)| < TWO_TO_64 && n < TWO_TO_64
    ensures LengthField(data, pos) ==
            if |data| < pos + |LengthText(n)| - 1 then Wait else Got(pos + |LengthText(n)|, n)
  {
    if pos <= |data| {
      PrefixSlices(data, e, more, pos, pos);
      assert LengthText(n) + tail + more == LengthText(n) + (tail + more);
      LengthFieldRead(data, pos, n, tail + more);
    }
  }

  lemma PrefixReads(data: string, k: string, v: string, more: string)
    requires data <= EncItem(k, v) + more && |EncItem(k, v)| < TWO_TO_64
    ensures Reads(data, k, v, |LengthText(|k|)|, KeyEnd(k), ContentStart(k, v))
  {
    hide LengthText, EncItem, LengthField;
    ItemLayout(k, v);
    var e := EncItem(k, v);
    var a, b, c := |LengthText(|k|)|, KeyEnd(k), ContentStart(k, v);
    PrefixSlices(data, e, more, a, a + |k|);
    PrefixSlices(data, e, more, c, c + |v|);
    assert e[0..] == e;
    FieldReads(data, e, more, 0, |k|, k + "\r\n" + LengthText(|v|) + v + "\r\n");
    FieldReads(data, e, more, b, |v|, v + "\r\n");
  }

  lemma PrefixSlices(data: string, e: string, more: string, i: nat, j: nat)
    requires data <= e + more && i <= j <= |e|
    ensures j <= |data| ==> data[i..j] == e[i..j]
    ensures i <= |data| ==> data[i..] <= e[i..] + more
  {
  }

  lemma StoreOnPrefix(data: string, md: MsetData, k: string, v: string, a: nat, b: nat, c: nat)
    requires md.setNum > 0 && Reads(data, k, v, a, b, c)
    ensures StoreStep(data, md, k, c, |v|) ==
            if |data| < c + |v| + 2 then Waits(md.(content := data))
            else Stores(md.Stored(k, v), data[c + |v| + 2..])
  {
    hide LengthField, Sum64;
    SmallSum(c, |v| + 2);
  }

  lemma ContentOnPrefix(data: string, md: MsetData, k: string, v: string, a: nat, b: nat, c: nat)
    requires md.setNum > 0 && Reads(data, k, v, a, b, c)
    requires md.curContentLen != 0 ==> md.curContentLen == |v| && md.curContentStart == c
    ensures var r := ContentStep(data, md, k, b);
            if |data| < c + |v| + 2 then
              || r == Waits(md.(content := data))
              || r == Waits(md.(content := data, curContentLen := |v|, curContentStart := c))
            else r == Stores(md.Stored(k, v), data[c + |v| + 2..])
  {
    hide LengthField, StoreStep;
    if md.curContentLen > 0 {
      StoreOnPrefix(data, md, k, v, a, b, c);
    } else {
      StoreOnPrefix(data, md.(curContentLen := |v|, curContentStart := c), k, v, a, b, c);
    }
  }

  lemma StepOnPrefix(data: string, md: MsetData, k: string, v: string, a: nat, b: nat, c: nat)
    requires md.setNum > 0 && Reads(data, k, v, a, b, c) && SavedAt(md, k, v, b, c)
    ensures var r := ItemStep(data, md);
            if |data| < c + |v| + 2 then
              r.Waits? && SavedAt(r.md, k, v, b, c) && r.md.content == data && r.md.setNum == md.setNum
              && r.md.keysValues == md.keysValues
            else r == Stores(md.Stored(k, v), data[c + |v| + 2..])
  {
    hide LengthField, Sum64, ContentStep;
    if md.curKey != "" {
      ContentOnPrefix(data, md, k, v, a, b, c);
    } else {
      SmallSum(a, |k|);
      SmallSum(a, |k| + 2);
      if |data| >= a + |k| {
        var md1 := md.(curKey := k, curKeyEnd := b);
        assert ItemStep(data, md) == ContentStep(data, md1, k, b);
        ContentOnPrefix(data, md1, k, v, a, b, c);
      } else {
        assert ItemStep(data, md) == Waits(md.(content := data));
      }
    }
  }

  /** One turn of the loop on any prefix of the stream. */
  lemma ItemOnPrefix(data: string, md: MsetData, k: string, v: string, more: string)
    requires md.setNum > 0 && data <= EncItem(k, v) + more && |EncItem(k, v)| < TWO_TO_64
    requires SavedFor(md, k, v)
    ensures var r := ItemStep(data, md);
            if |data| < |EncItem(k, v)| then
              r.Waits? && SavedFor(r.md, k, v) && r.md.content == data && r.md.setNum == md.setNum
              && r.md.keysValues == md.keysValues
            else r == Stores(md.Stored(k, v), data[|EncItem(k, v)|..])
  {
    PrefixReads(data, k, v, more);
    ItemLayout(k, v);
    StepOnPrefix(data, md, k, v, |LengthText(|k|)|, KeyEnd(k), ContentStart(k, v));
  }

  // ---------- any cut ----------

  /** Every number on the wire fits the int that atoi returns. */
  ghost predicate IntSized(pairs: seq<(string, string)>) {
    && |Enc(pairs)| < TWO_TO_64 && 2 * |pairs| + 1 <= INT_MAX
    && forall i :: 0 <= i < |pairs| ==> |pairs[i].0| <= INT_MAX && |pairs[i].1| <= INT_MAX
  }

  /** The state after the bytes fed so far: complete items are stored, the rest is saved. */
  ghost predicate Resumes(md: MsetData, kv: map<string, string>, pairs: seq<(string, string)>, fed: string) {
    && md.setNum <= |pairs|
    && var j := |pairs| - md.setNum;
       && md.keysValues == PutPairs(kv, pairs[..j])
       && Enc(pairs[..j]) + md.content == fed
       && (j < |pairs| ==> SavedFor(md, pairs[j].0, pairs[j].1)
                           && |md.content| < |EncItem(pairs[j].0, pairs[j].1)|)
       && (j == |pairs| ==> md.content == "")
  }

  lemma ResumesCons(md: MsetData, kv: map<string, string>, pairs: seq<(string, string)>, rest: string)
    requires pairs != [] && Resumes(md, kv[pairs[0].0 := pairs[0].1], pairs[1..], rest)
    ensures Resumes(md, kv, pairs, EncItem(pairs[0].0, pairs[0].1) + rest)
  {
    var j := |pairs| - md.setNum;
    var e := EncItem(pairs[0].0, pairs[0].1);
    assert pairs[..j][1..] == pairs[1..][..j - 1];
    assert e + Enc(pairs[1..][..j - 1]) + md.content == e + (Enc(pairs[1..][..j - 1]) + md.content);
  }

  lemma {:induction false} ParseOnPrefix(data: string, md: MsetData, pairs: seq<(string, string)>)
    requires md.setNum == |pairs| && data <= Enc(pairs) && IntSized(pairs)
    requires pairs != [] ==> SavedFor(md, pairs[0].0, pairs[0].1)
    requires pairs == [] ==> md.content == ""
    ensures var (ret, md') := ItemParse(data, md);
            && Resumes(md', md.keysValues, pairs, data)
            && ret == if |data| == |Enc(pairs)| then Complete else NeedMore
    decreases |pairs|
  {
    if pairs != [] {
      var (k, v) := pairs[0];
      var e, tail := EncItem(k, v), Enc(pairs[1..]);
      ItemOnPrefix(data, md, k, v, tail);
      if |data| >= |e| {
        var rest := data[|e|..];
        RestOfPrefix(data, e, tail);
        ParseOnPrefix(rest, md.Stored(k, v), pairs[1..]);
        ResumesCons(ItemParse(rest, md.Stored(k, v)).1, md.keysValues, pairs, rest);
      } else {
        assert pairs[..0] == [];
      }
    }
  }

  lemma RestOfPrefix(data: string, e: string, tail: string)
    requires data <= e + tail && |data| >= |e|
    ensures data == e + data[|e|..] && data[|e|..] <= tail
  {
  }

  lemma {:induction false} ResumesAppend(md: MsetData, kv: map<string, string>, pairs: seq<(string, string)>,
                                         j: nat, data: string)
    requires j <= |pairs| && Resumes(md, PutPairs(kv, pairs[..j]), pairs[j..], data)
    ensures Resumes(md, kv, pairs, Enc(pairs[..j]) + data)
    decreases j
  {
    hide EncItem, Resumes;
    if j == 0 {
      assert pairs[0..] == pairs && pairs[..0] == [] && "" + data == data;
    } else {
      var kv1 := kv[pairs[0].0 := pairs[0].1];
      var t := pairs[1..];
      assert t[..j - 1] == pairs[..j][1..] && t[j - 1..] == pairs[j..];
      ResumesAppend(md, kv1, t, j - 1, data);
      ResumesCons(md, kv, pairs, Enc(t[..j - 1]) + data);
      Regroup(EncItem(pairs[0].0, pairs[0].1), Enc(t[..j - 1]), data);
    }
  }

  lemma {:induction false} EncSplit(pairs: seq<(string, string)>, j: nat)
    requires j <= |pairs|
    ensures Enc(pairs) == Enc(pairs[..j]) + Enc(pairs[j..])
    decreases j
  {
    hide EncItem;
    if j == 0 {
      assert pairs[0..] == pairs && pairs[..0] == [] && "" + Enc(pairs) == Enc(pairs);
    } else {
      var t := pairs[1..];
      EncSplit(t, j - 1);
      assert t[..j - 1] == pairs[..j][1..] && t[j - 1..] == pairs[j..] && pairs[..j][0] == pairs[0];
      Regroup(EncItem(pairs[0].0, pairs[0].1), Enc(t[..j - 1]), Enc(t[j - 1..]));
    }
  }

  /** ContinueParser: the saved bytes and the new chunk are parsed together. */
  function ContinueParse(md: MsetData, chunk: string): (Ret, MsetData) {
    ItemParse(md.content + chunk, md)
  }

  /** One more chunk of the stream. */
  lemma ContinueOnPrefix(md: MsetData, kv: map<string, string>, pairs: seq<(string, string)>, fed: string,
                         chunk: string)
    requires Resumes(md, kv, pairs, fed) && fed + chunk <= Enc(pairs) && IntSized(pairs)
    ensures var (ret, md') := ContinueParse(md, chunk);
            && Resumes(md', kv, pairs, fed + chunk)
            && ret == if fed + chunk == Enc(pairs) then Complete else NeedMore
  {
    var j := |pairs| - md.setNum;
    var data := md.content + chunk;
    UnfinishedPart(md, kv, pairs, fed, chunk);
    ParseOnPrefix(data, md, pairs[j..]);
    ResumesAppend(ItemParse(data, md).1, kv, pairs, j, data);
  }

  lemma UnfinishedPart(md: MsetData, kv: map<string, string>, pairs: seq<(string, string)>, fed: string, chunk: string)
    requires Resumes(md, kv, pairs, fed) && fed + chunk <= Enc(pairs)
    ensures var j := |pairs| - md.setNum;
            var data := md.content + chunk;
            && data <= Enc(pairs[j..]) && |Enc(pairs[j..])| <= |Enc(pairs)|
            && Enc(pairs[..j]) + data == fed + chunk
            && (data == Enc(pairs[j..]) <==> fed + chunk == Enc(pairs))
  {
    var j := |pairs| - md.setNum;
    var head, data := Enc(pairs[..j]), md.content + chunk;
    EncSplit(pairs, j);
    assert head + md.content + chunk == head + data;
    RestOfPrefix(head + data, head, Enc(pairs[j..]));
    assert (head + data)[|head|..] == data;
  }

  /** The parser's state and last answer after a list of chunks. */
  function FeedAll(md: MsetData, chunks: seq<string>): (Ret, MsetData) {
    if chunks == [] then (NeedMore, md)
    else ContinueParse(FeedAll(md, chunks[..|chunks| - 1]).1, chunks[|chunks| - 1])
  }

  function Fresh(kv: map<string, string>, n: nat): MsetData { MsetData(kv, "", "", 0, 0, 0, n) }

  /** However the encoding of a list of pairs is cut, and however much of it has arrived, the parser
      asks for more exactly until the last byte, and then holds the pairs; on the way the saved bytes
      and offsets describe the unfinished item. */
  lemma {:induction false} AnyCut(kv: map<string, string>, pairs: seq<(string, string)>, chunks: seq<string>)
    requires chunks != [] && Concat(chunks) <= Enc(pairs) && IntSized(pairs)
    ensures var (ret, md) := FeedAll(Fresh(kv, |pairs|), chunks);
            && Resumes(md, kv, pairs, Concat(chunks))
            && (ret == if Concat(chunks) == Enc(pairs) then Complete else NeedMore)
            && (ret == Complete ==> md.keysValues == PutPairs(kv, pairs))
  {
    var md0 := Fresh(kv, |pairs|);
    var front, last := chunks[..|chunks| - 1], chunks[|chunks| - 1];
    if front != [] {
      AnyCut(kv, pairs, front);
    } else {
      assert pairs[..0] == [] && "" + "" == "";
      if pairs != [] { assert |EncItem(pairs[0].0, pairs[0].1)| > 0; }
      assert Resumes(md0, kv, pairs, "");
    }
    ContinueOnPrefix(FeedAll(md0, front).1, kv, pairs, Concat(front), last);
    CompleteHasAll(FeedAll(md0, chunks).1, kv, pairs);
  }

  lemma UnfinishedIsShorter(md: MsetData, kv: map<string, string>, pairs: seq<(string, string)>, fed: string)
    requires Resumes(md, kv, pairs, fed) && md.setNum > 0
    ensures |fed| < |Enc(pairs)|
  {
    EncSplit(pairs, |pairs| - md.setNum);
  }

  lemma CompleteHasAll(md: MsetData, kv: map<string, string>, pairs: seq<(string, string)>)
    ensures Resumes(md, kv, pairs, Enc(pairs)) ==> md.keysValues == PutPairs(kv, pairs)
  {
    if Resumes(md, kv, pairs, Enc(pairs)) {
      if md.setNum > 0 { UnfinishedIsShorter(md, kv, pairs, Enc(pairs)); }
      assert pairs[..|pairs|] == pairs;
    }
  }

  class GentMset {
    var mdata: MsetData

    constructor (fieldNum: nat)
      ensures mdata == Fresh(map[], fieldNum)
    {
      mdata := Fresh(map[], fieldNum);
    }

    method ItemParser(input: string) returns (ret: Ret)
      modifies this
      ensures ret == ItemParse(input, old(mdata)).0
      ensures ret != Throw ==> mdata == ItemParse(input, old(mdata)).1
    {
      hide ItemStep;
      var data := input;
      while mdata.setNum > 0
        invariant ItemParse(data, mdata) == ItemParse(input, old(mdata))
        decreases mdata.setNum
      {
        var step := OneItem(data);
        match step {
          case Waits(md) =>
            mdata := md;
            return NeedMore;
          case Throws => return Throw;
          case Stores(md, rest) =>
            mdata := md;
            data := rest;
        }
      }
      return Complete;
    }

    method OneItem(data: string) returns (r: Step)
      requires mdata.setNum > 0
      ensures r == ItemStep(data, mdata)
    {
      hide ContentStep;
      var md := mdata;
      var key, clpos := md.curKey, md.curKeyEnd;
      if md.curKey == "" {
        var p := FindBreak(data, 0);
        if p == NPOS { return Waits(md.(content := data)); }
        if p == 0 { return Throws; }
        var keyLen := GetLength(data[0..p]);
        var start := Sum64(p, 2);
        if |data| < Sum64(start, keyLen) { return Waits(md.(content := data)); }
        if start > |data| { return Throws; }
        key := Substr(data, start, keyLen);
        clpos := Sum64(start, keyLen + 2);
        md := md.(curKey := key, curKeyEnd := clpos);
      }
      r := FinishItem(data, md, key, clpos);
    }

    static method FinishItem(data: string, mdata: MsetData, key: string, clpos: nat) returns (r: Step)
      requires mdata.setNum > 0
      ensures r == ContentStep(data, mdata, key, clpos)
    {
      var md := mdata;
      var cpos, cLen := md.curContentStart, md.curContentLen;
      if md.curContentLen <= 0 {
        var p := FindBreak(data, clpos);
        if p == NPOS { return Waits(md.(content := data)); }
        if p == clpos { return Throws; }
        cLen := GetLength(data[clpos..p]);
        cpos := Sum64(p, 2);
        md := md.(curContentLen := cLen, curContentStart := cpos);
      }
      if |data| < Sum64(cpos, cLen + 2) { return Waits(md.(content := data)); }
      if cpos > |data| { return Throws; }
      return Stores(md.Stored(key, Substr(data, cpos, cLen)), data[Sum64(cpos, cLen + 2)..]);
    }

    method ContinueParser(chunk: string) returns (ret: Ret)
      modifies this
      ensures ret == ContinueParse(old(mdata), chunk).0
      ensures ret != Throw ==> mdata == ContinueParse(old(mdata), chunk).1
    {
      ret := ItemParser(mdata.content + chunk);
    }
  }
}
