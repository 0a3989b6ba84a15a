/** The wire form of replies, and the proof that the reader inverts it for every reply tree. */
module RespEncoding {
  import opened Basics
  import opened Decimal
  import opened Resp

  function Signed(n: int): string { if n < 0 then "-" + Dec(-n) else Dec(n) }

  function LineOf(c: char, body: string): string { [c] + body + "\r\n" }

  function Encode(r: Reply): string
    decreases r
  {
    match r
    case Str(text) => LineOf('$', Dec(|text|)) + text + "\r\n"
    case Status(text) => LineOf('+', text)
    case Error(text) => LineOf('-', text)
    case Int(n) => LineOf(':', Signed(n))
    case Nil => LineOf('$', "-1")
    case Arr(elems) => LineOf('*', Dec(|elems|)) + EncodeAll(elems)
    case BadArr(n) => LineOf('*', Signed(n))
  }

  function EncodeAll(rs: seq<Reply>): string
    decreases rs
  {
    if rs == [] then "" else Encode(rs[0]) + EncodeAll(rs[1..])
  }

  ghost predicate OneLine(text: string) {
    forall i, j :: 0 <= i < j < |text| && j == i + 1 ==> !(text[i] == '\r' && text[j] == '\n')
  }

  /** A reply that can stand at stack level ridx: arrays stop at the nesting limit, and status and
      error lines contain no line break. */
  ghost predicate Readable(r: Reply, ridx: nat)
    decreases r
  {
    match r
    case Str(_) => true
    case Int(_) => true
    case Nil => true
    case Status(text) => OneLine(text)
    case Error(text) => OneLine(text)
    case Arr(elems) => ridx < MAX_DEPTH && forall i :: 0 <= i < |elems| ==> Readable(elems[i], ridx + 1)
    case BadArr(n) => ridx < MAX_DEPTH && n < -1
  }

  // ---------- numbers and lines ----------

  lemma {:induction false} ScanDec(n: nat, rest: string)
    ensures ScanDigits(Dec(n) + rest, 0) == ScanDigits(rest, n)
  {
    if n < 10 {
      assert ([DigitChar(n)] + rest)[1..] == rest;
    } else {
      var tail := [DigitChar(n % 10)] + rest;
      assert Dec(n) + rest == Dec(n / 10) + tail;
      ScanDec(n / 10, tail);
      assert tail[1..] == rest;
    }
  }

  lemma ReadSigned(n: int)
    ensures ReadLongLong(Signed(n)) == n
  {
    if n < 0 {
      ScanDec(-n, "");
      assert Dec(-n) + "" == Dec(-n) && Signed(n)[1..] == Dec(-n);
    } else {
      ScanDec(n, "");
      assert Dec(n) + "" == Dec(n) && IsDigit(Dec(n)[0]);
    }
  }

  lemma {:induction false} LineEnds(text: string, rest: string)
    requires OneLine(text)
    ensures FindCrLf(text + "\r\n" + rest) == |text|
  {
    var s := text + "\r\n" + rest;
    if text != [] {
      assert s[1..] == text[1..] + "\r\n" + rest;
      LineEnds(text[1..], rest);
    }
  }

  lemma SignedOneLine(n: int)
    ensures OneLine(Signed(n))
  {
  }

  // ---------- one item ----------

  /** The two moves that read the type byte and the item of a top task. */
  lemma TwoMoves(stack: seq<Task>, c: char, s: string)
    requires WellFormed(stack) && stack[|stack| - 1].kind == Unknown && KindOf(c) != Unknown
    ensures GetOne(stack, [c] + s) == GetOne(Typed(stack, KindOf(c)), s)
  {
  }

  /** Finishing the top task only looks at its index. */
  lemma MoveIgnoresTop(a: seq<Task>, b: seq<Task>, obj: Reply)
    requires WellFormed(a) && WellFormed(b) && |a| == |b|
    requires var top := |a| - 1; a[..top] == b[..top] && a[top].idx == b[top].idx
    ensures MoveToNext(a, obj) == MoveToNext(b, obj)
  {
    var top := |a| - 1;
    if top > 0 {
      assert a[top - 1] == a[..top][top - 1] == b[..top][top - 1] == b[top - 1];
      assert Holds(a[top - 1], a[top]);
      if a[top].idx != a[top - 1].elements - 1 {
        assert Advanced(a, obj) == Advanced(b, obj);
      }
    }
  }

  lemma ItemRead(stack: seq<Task>, c: char, body: string, obj: Reply, rest: string)
    requires WellFormed(stack) && stack[|stack| - 1].kind == Unknown && KindOf(c) != Unknown
    requires ReadItem(KindOf(c), |stack| - 1, body + rest) == Got(obj, |body|)
    ensures GetOne(stack, [c] + body + rest) == After(stack, obj, rest)
  {
    hide ReadItem, MoveToNext, GetOne;
    assert [c] + body + rest == [c] + (body + rest);
    TwoMoves(stack, c, body + rest);
    MoveIgnoresTop(Typed(stack, KindOf(c)), stack, obj);
    assert (body + rest)[|body|..] == rest;
    FoundByItem(Typed(stack, KindOf(c)), body + rest);
  }

  lemma BulkRead(n: string, text: string, rest: string)
    requires OneLine(n) && ReadLongLong(n) == |text|
    ensures BulkItem(n + "\r\n" + text + "\r\n" + rest) == Got(Str(text), |n| + 2 + |text| + 2)
  {
    hide FindCrLf, ReadLongLong, OneLine;
    var s := n + "\r\n" + text + "\r\n" + rest;
    assert s == n + "\r\n" + (text + "\r\n" + rest);
    LineRead(n, text + "\r\n" + rest);
    assert s[|n| + 2..|n| + 2 + |text|] == text;
  }

  /** A line item: the text up to the line break, whatever follows. */
  lemma LineRead(body: string, rest: string)
    requires OneLine(body)
    ensures var s := body + "\r\n" + rest;
            FindCrLf(s) == |body| && s[..|body|] == body
  {
    LineEnds(body, rest);
  }

  // ---------- whole trees ----------

  /** The stack while an array with the given children is read and its first i children are there. */
  function InArray(stack: seq<Task>, elems: seq<Reply>, i: nat): (r: seq<Task>)
    requires WellFormed(stack) && |stack| <= MAX_DEPTH && i < |elems|
    ensures WellFormed(r)
  {
    var top := |stack| - 1;
    stack[top := stack[top].(kind := KArray, elements := |elems|, done := elems[..i])] + [Task(Unknown, -1, i, [])]
  }

  lemma ArrayOpens(stack: seq<Task>, elems: seq<Reply>, rest: string)
    requires WellFormed(stack) && stack[|stack| - 1].kind == Unknown && |stack| <= MAX_DEPTH && elems != []
    ensures GetOne(stack, LineOf('*', Dec(|elems|)) + rest) == GetOne(InArray(stack, elems, 0), rest)
  {
    hide FindCrLf, ReadLongLong, MoveToNext, GetOne, Dec, OneLine, Signed;
    var n := Dec(|elems|);
    var s := n + "\r\n" + rest;
    SignedOfNat(|elems|);
    SignedOneLine(|elems|);
    ReadSigned(|elems|);
    LineRead(n, rest);
    assert ReadItem(KArray, |stack| - 1, s) == Opens(|elems|, |n| + 2);
    assert LineOf('*', n) + rest == ['*'] + s;
    TwoMoves(stack, '*', s);
    assert s[|n| + 2..] == rest;
    FoundByItem(Typed(stack, KArray), s);
    OpenedIs(stack, elems);
  }

  lemma OpenedIs(stack: seq<Task>, elems: seq<Reply>)
    requires WellFormed(stack) && |stack| <= MAX_DEPTH && elems != []
    ensures Opened(Typed(stack, KArray), |elems|) == InArray(stack, elems, 0)
  {
  }

  /** A child that is not the last one. */
  lemma NextChild(stack: seq<Task>, elems: seq<Reply>, i: nat)
    requires WellFormed(stack) && |stack| <= MAX_DEPTH && i + 1 < |elems|
    ensures MoveToNext(InArray(stack, elems, i), elems[i]) == Goes(InArray(stack, elems, i + 1))
  {
    var a := InArray(stack, elems, i);
    assert elems[..i] + [elems[i]] == elems[..i + 1];
    assert Advanced(a, elems[i]) == InArray(stack, elems, i + 1);
  }

  lemma LastChild(stack: seq<Task>, elems: seq<Reply>)
    requires WellFormed(stack) && |stack| <= MAX_DEPTH && elems != []
    ensures MoveToNext(InArray(stack, elems, |elems| - 1), elems[|elems| - 1]) == MoveToNext(stack, Arr(elems))
  {
    hide MoveToNext;
    var n := |elems| - 1;
    var a := InArray(stack, elems, n);
    SplitLast(elems);
    assert a[|a| - 2].done == elems[..n] && a[|a| - 1].idx == n;
    MovesUp(a, elems[n]);
    var below := a[..|stack|];
    assert below[..|stack| - 1] == stack[..|stack| - 1];
    MoveIgnoresTop(below, stack, Arr(elems));
  }

  lemma SplitLast<T>(s: seq<T>)
    requires s != []
    ensures s[..|s| - 1] + [s[|s| - 1]] == s
  {
  }

  lemma MovesUp(stack: seq<Task>, obj: Reply)
    requires WellFormed(stack) && |stack| > 1 && stack[|stack| - 1].idx == stack[|stack| - 2].elements - 1
    ensures WellFormed(stack[..|stack| - 1])
    ensures MoveToNext(stack, obj) == MoveToNext(stack[..|stack| - 1], Arr(stack[|stack| - 2].done + [obj]))
  {
  }

  lemma {:induction false} ReadsBack(stack: seq<Task>, r: Reply, rest: string)
    requires WellFormed(stack) && stack[|stack| - 1].kind == Unknown && Readable(r, |stack| - 1)
    ensures GetOne(stack, Encode(r) + rest) == After(stack, r, rest)
    decreases r, 1, 0
  {
    match r
    case Arr(elems) =>
      if elems == [] {
        EmptyArrayReads(stack, rest);
      } else {
        var all := EncodeAll(elems);
        assert Encode(r) + rest == LineOf('*', Dec(|elems|)) + (all + rest);
        ArrayOpens(stack, elems, all + rest);
        assert elems[0..] == elems;
        ReadsChildren(stack, r, 0, rest);
      }
    case _ => LeafReads(stack, r, rest);
  }

  lemma {:induction false} ReadsChildren(stack: seq<Task>, r: Reply, i: nat, rest: string)
    requires WellFormed(stack) && r.Arr? && i < |r.elems| && Readable(r, |stack| - 1)
    ensures GetOne(InArray(stack, r.elems, i), EncodeAll(r.elems[i..]) + rest) == After(stack, r, rest)
    decreases r, 0, |r.elems| - i
  {
    hide MoveToNext, Encode;
    var elems := r.elems;
    var here := InArray(stack, elems, i);
    var tail := EncodeAll(elems[i + 1..]) + rest;
    assert elems[i..][0] == elems[i] && elems[i..][1..] == elems[i + 1..];
    assert EncodeAll(elems[i..]) + rest == Encode(elems[i]) + tail;
    ReadsBack(here, elems[i], tail);
    if i + 1 < |elems| {
      NextChild(stack, elems, i);
      ReadsChildren(stack, r, i + 1, rest);
    } else {
      LastChild(stack, elems);
      assert elems[i + 1..] == [] && tail == rest;
    }
  }

  lemma EmptyArrayReads(stack: seq<Task>, rest: string)
    requires WellFormed(stack) && stack[|stack| - 1].kind == Unknown && |stack| <= MAX_DEPTH
    ensures GetOne(stack, Encode(Arr([])) + rest) == After(stack, Arr([]), rest)
  {
    hide GetOne, MoveToNext;
    LeafLine(stack, '*', Dec(0), Arr([]), rest);
    assert LineOf('*', Dec(0)) + EncodeAll([]) == LineOf('*', Dec(0));
  }

  /** The array object of a count that opens nothing. */
  function Childless(n: int): Reply { if n == -1 then Nil else if n == 0 then Arr([]) else BadArr(n) }

  /** Items that are one line. */
  lemma LeafLine(stack: seq<Task>, c: char, body: string, r: Reply, rest: string)
    requires WellFormed(stack) && stack[|stack| - 1].kind == Unknown && KindOf(c) != Unknown
    requires OneLine(body)
    requires match c
             case '$' => ReadLongLong(body) < 0 && r == Nil
             case '*' => |stack| <= MAX_DEPTH && ReadLongLong(body) <= 0 && r == Childless(ReadLongLong(body))
             case _ => r == LineReply(KindOf(c), body)
    ensures GetOne(stack, LineOf(c, body) + rest) == After(stack, r, rest)
  {
    hide FindCrLf, ReadLongLong, GetOne, MoveToNext, OneLine;
    var line := body + "\r\n";
    assert LineOf(c, body) + rest == [c] + line + rest;
    LineRead(body, rest);
    assert ReadItem(KindOf(c), |stack| - 1, line + rest) == Got(r, |line|);
    ItemRead(stack, c, line, r, rest);
  }

  lemma LeafReads(stack: seq<Task>, r: Reply, rest: string)
    requires WellFormed(stack) && stack[|stack| - 1].kind == Unknown && Readable(r, |stack| - 1) && !r.Arr?
    ensures GetOne(stack, Encode(r) + rest) == After(stack, r, rest)
  {
    hide FindCrLf, ReadLongLong, GetOne, MoveToNext, OneLine, Signed, Dec;
    match r
    case Str(text) =>
      var n := Signed(|text|);
      SignedOneLine(|text|);
      ReadSigned(|text|);
      StrReads(stack, n, text, rest);
      SignedOfNat(|text|);
    case Nil =>
      ReadSigned(-1);
      SignedOneLine(-1);
      MinusOne();
      LeafLine(stack, '$', Signed(-1), Nil, rest);
    case BadArr(n) =>
      ReadSigned(n);
      SignedOneLine(n);
      LeafLine(stack, '*', Signed(n), r, rest);
    case Int(n) =>
      ReadSigned(n);
      SignedOneLine(n);
      LeafLine(stack, ':', Signed(n), r, rest);
    case Status(text) => LeafLine(stack, '+', text, r, rest);
    case Error(text) => LeafLine(stack, '-', text, r, rest);
  }

  lemma SignedOfNat(n: nat)
    ensures Signed(n) == Dec(n)
  {
  }

  lemma MinusOne()
    ensures Signed(-1) == "-1"
  {
  }

  lemma StrReads(stack: seq<Task>, n: string, text: string, rest: string)
    requires WellFormed(stack) && stack[|stack| - 1].kind == Unknown
    requires OneLine(n) && ReadLongLong(n) == |text|
    ensures GetOne(stack, LineOf('$', n) + text + "\r\n" + rest) == After(stack, Str(text), rest)
  {
    hide FindCrLf, ReadLongLong, GetOne, MoveToNext, OneLine;
    var body := n + "\r\n" + text + "\r\n";
    assert LineOf('$', n) + text + "\r\n" + rest == ['$'] + body + rest;
    BulkRead(n, text, rest);
    ItemRead(stack, '$', body, Str(text), rest);
  }

  // ---------- headers and refusals ----------

  /** What an array header leads to, for every count: -1 is the null array, 0 the empty one, any other
      negative count an array object without children, and a positive count opens a level. */
  lemma ArrayHeader(stack: seq<Task>, n: int, rest: string)
    requires WellFormed(stack) && stack[|stack| - 1].kind == Unknown && |stack| <= MAX_DEPTH
    ensures var f := GetOne(stack, LineOf('*', Signed(n)) + rest);
            && (n == -1 ==> f == After(stack, Nil, rest))
            && (n == 0 ==> f == After(stack, Arr([]), rest))
            && (n < -1 ==> f == After(stack, BadArr(n), rest))
            && (forall elems: seq<Reply> :: |elems| == n > 0 ==> f == GetOne(InArray(stack, elems, 0), rest))
  {
    hide FindCrLf, ReadLongLong, GetOne, MoveToNext, OneLine, Signed, Dec;
    ReadSigned(n);
    SignedOneLine(n);
    if n <= 0 {
      LeafLine(stack, '*', Signed(n), Childless(n), rest);
    } else {
      forall elems: seq<Reply> | |elems| == n
        ensures GetOne(stack, LineOf('*', Signed(n)) + rest) == GetOne(InArray(stack, elems, 0), rest)
      {
        SignedOfNat(n);
        ArrayOpens(stack, elems, rest);
      }
    }
  }

  /** What the reader finds when it gives up: no reply, the reason, and nothing kept. */
  function Refused(why: Failure): Found { Found(None, Some(why), [ROOT], "") }

  lemma TypeBytes(c: char)
    ensures KindOf(c) == Unknown <==> c !in "+-:$*"
  {
    var types := "+-:$*";
    assert types[0] == '+' && types[1] == '-' && types[2] == ':' && types[3] == '$' && types[4] == '*';
  }

  lemma ItemFails(kind: Kind, ridx: int, s: string)
    requires kind != Unknown
    ensures ReadItem(kind, ridx, s).Fails? ==> ReadItem(kind, ridx, s).error == TooDeep
  {
  }

  /** A first byte that is no type is refused by name, and no type byte ever is. */
  lemma FirstByte(stack: seq<Task>, c: char, rest: string)
    requires WellFormed(stack) && stack[|stack| - 1].kind == Unknown
    ensures GetOne(stack, [c] + rest) == Refused(BadType(c)) <==> c !in "+-:$*"
  {
    hide ReadItem, MoveToNext, KindOf, Typed;
    TypeBytes(c);
    BadTypeOnly(stack, [c] + rest);
  }

  lemma {:induction false} BadTypeOnly(stack: seq<Task>, s: string)
    requires WellFormed(stack)
    ensures var e := GetOne(stack, s).err;
            e.Some? && e.value.BadType? ==> KindOf(e.value.byte) == Unknown
    decreases |s|
  {
    hide ReadItem, MoveToNext, KindOf, Typed;
    if stack[|stack| - 1].kind != Unknown {
      ItemFails(stack[|stack| - 1].kind, |stack| - 1, s);
    }
    match Step(stack, s)
    case Go(Goes(stack'), used) => BadTypeOnly(stack', s[used..]);
    case _ =>
  }

  /** The depth of arrays in a reply. */
  function Depth(r: Reply): nat
    decreases r
  {
    match r
    case Arr(elems) => 1 + DepthAll(elems)
    case BadArr(_) => 1
    case _ => 0
  }

  function DepthAll(rs: seq<Reply>): (d: nat)
    ensures forall i :: 0 <= i < |rs| ==> Depth(rs[i]) <= d
    decreases rs
  {
    if rs == [] then 0
    else
      var a, b := Depth(rs[0]), DepthAll(rs[1..]);
      assert forall i :: 0 < i < |rs| ==> rs[i] == rs[1..][i - 1];
      if a < b then b else a
  }

  /** A reply whose lines are lines, at whatever depth. */
  ghost predicate Plain(r: Reply)
    decreases r
  {
    match r
    case Status(text) => OneLine(text)
    case Error(text) => OneLine(text)
    case Arr(elems) => forall i :: 0 <= i < |elems| ==> Plain(elems[i])
    case BadArr(n) => n < -1
    case _ => true
  }

  /** Whether a reply is readable is a matter of its depth alone. */
  lemma {:induction false} ReadableByDepth(r: Reply, ridx: nat)
    requires Plain(r)
    ensures Readable(r, ridx) <==> Depth(r) == 0 || ridx + Depth(r) <= MAX_DEPTH
    decreases r
  {
    if r.Arr? {
      forall i | 0 <= i < |r.elems|
        ensures Readable(r.elems[i], ridx + 1)
                <==> Depth(r.elems[i]) == 0 || ridx + 1 + Depth(r.elems[i]) <= MAX_DEPTH
      {
        ReadableByDepth(r.elems[i], ridx + 1);
      }
      DeepestChild(r.elems);
    }
  }

  lemma {:induction false} DeepestChild(rs: seq<Reply>)
    ensures rs == [] ==> DepthAll(rs) == 0
    ensures rs != [] ==> exists i :: 0 <= i < |rs| && Depth(rs[i]) == DepthAll(rs)
  {
    if rs != [] {
      DeepestChild(rs[1..]);
      assert rs[0] == rs[0];
      if rs[1..] != [] {
        var i :| 0 <= i < |rs| - 1 && Depth(rs[1..][i]) == DepthAll(rs[1..]);
        assert rs[i + 1] == rs[1..][i];
      }
    }
  }

  lemma DeepHeader(stack: seq<Task>, rest: string)
    requires WellFormed(stack) && stack[|stack| - 1].kind == Unknown && |stack| == MAX_DEPTH + 1
    ensures GetOne(stack, ['*'] + rest) == Refused(TooDeep)
  {
    TwoMoves(stack, '*', rest);
  }

  /** A reply nested too deep is refused, whatever its siblings are and whatever follows. */
  lemma {:induction false} TooDeepRefused(stack: seq<Task>, r: Reply, rest: string)
    requires WellFormed(stack) && stack[|stack| - 1].kind == Unknown
    requires Plain(r) && !Readable(r, |stack| - 1)
    ensures GetOne(stack, Encode(r) + rest) == Refused(TooDeep)
    decreases r, 1, 0
  {
    if |stack| == MAX_DEPTH + 1 {
      var tail := (Encode(r) + rest)[1..];
      assert Encode(r) + rest == ['*'] + tail;
      DeepHeader(stack, tail);
    } else {
      var elems := r.elems;
      var all := EncodeAll(elems);
      assert Encode(r) + rest == LineOf('*', Dec(|elems|)) + (all + rest);
      ArrayOpens(stack, elems, all + rest);
      assert elems[0..] == elems;
      DeepChildRefused(stack, r, 0, rest);
    }
  }

  lemma {:induction false} DeepChildRefused(stack: seq<Task>, r: Reply, i: nat, rest: string)
    requires WellFormed(stack) && |stack| <= MAX_DEPTH && r.Arr? && i < |r.elems| && Plain(r)
    requires exists k :: i <= k < |r.elems| && !Readable(r.elems[k], |stack|)
    ensures GetOne(InArray(stack, r.elems, i), EncodeAll(r.elems[i..]) + rest) == Refused(TooDeep)
    decreases r, 0, |r.elems| - i
  {
    hide MoveToNext, Encode;
    var elems := r.elems;
    var here := InArray(stack, elems, i);
    var tail := EncodeAll(elems[i + 1..]) + rest;
    assert elems[i..][0] == elems[i] && elems[i..][1..] == elems[i + 1..];
    assert EncodeAll(elems[i..]) + rest == Encode(elems[i]) + tail;
    if Readable(elems[i], |stack|) {
      ReadsBack(here, elems[i], tail);
      NextChild(stack, elems, i);
      DeepChildRefused(stack, r, i + 1, rest);
    } else {
      TooDeepRefused(here, elems[i], tail);
    }
  }

  /** Exactly the replies of depth at most eight come back from a fresh reader. */
  lemma ReadsBackExactly(r: Reply, rest: string)
    requires Plain(r)
    ensures GetOne([ROOT], Encode(r) + rest)
            == if Depth(r) <= MAX_DEPTH then Found(Some(r), None, [ROOT], rest) else Refused(TooDeep)
  {
    hide Encode, GetOne, Readable, MoveToNext;
    ReadableByDepth(r, 0);
    if Readable(r, 0) {
      ReadsBack([ROOT], r, rest);
      MoveRoot(r);
    } else {
      TooDeepRefused([ROOT], r, rest);
    }
  }

  // ---------- streams ----------

  /** Every stream of readable replies is read back, reply by reply, and every byte is consumed. */
  lemma {:induction false} StreamRoundTrip(rs: seq<Reply>)
    requires forall i :: 0 <= i < |rs| ==> Readable(rs[i], 0)
    ensures Drain([ROOT], EncodeAll(rs)) == Drained(rs, None, [ROOT], "")
  {
    hide MoveToNext, Encode;
    if rs != [] {
      var rest := EncodeAll(rs[1..]);
      ReadsBack([ROOT], rs[0], rest);
      assert After([ROOT], rs[0], rest) == Found(Some(rs[0]), None, [ROOT], rest) by { MoveRoot(rs[0]); }
      StreamRoundTrip(rs[1..]);
    }
  }

  lemma MoveRoot(r: Reply)
    ensures MoveToNext([ROOT], r) == Done(r)
  {
  }

  /** With any chunking. */
  lemma ChunkedRoundTrip(rs: seq<Reply>, chunks: seq<string>)
    requires forall i :: 0 <= i < |rs| ==> Readable(rs[i], 0)
    requires Concat(chunks) == EncodeAll(rs)
    ensures FeedAll(chunks) == Drained(rs, None, [ROOT], "")
  {
    AnyChunking(chunks);
    StreamRoundTrip(rs);
  }
}
