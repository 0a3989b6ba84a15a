/** What the master writes on the replication link, compared with the command encoding of the client
    library: the hand-written printf formats spell out commands, exactly as long as no buffer cuts them. */
module LinkCommands {
  import opened Basics
  import opened Decimal
  import opened Wire
  import opened Replication
  import opened Resp
  import opened RespEncoding
  import opened Formatter
  import Link

  // ---------- commands as lines ----------

  function ArgLines(args: seq<string>): seq<string> {
    if args == [] then [] else ["$" + Dec(|args[0]|), args[0]] + ArgLines(args[1..])
  }

  lemma {:induction false} JoinAppend(a: seq<string>, b: seq<string>)
    ensures JoinLines(a + b) == JoinLines(a) + JoinLines(b)
  {
    if a == [] {
      assert [] + b == b && "" + JoinLines(b) == JoinLines(b);
    } else {
      assert (a + b)[1..] == a[1..] + b;
      JoinAppend(a[1..], b);
      Regroup(a[0] + "\r\n", JoinLines(a[1..]), JoinLines(b));
    }
  }

  lemma TwoLines(a: string, b: string)
    ensures JoinLines([a, b]) == a + "\r\n" + b + "\r\n"
  {
    assert [a, b][1..] == [b] && [b][1..] == [];
    assert JoinLines([b]) == b + "\r\n";
  }

  lemma OneLineText(a: string)
    ensures JoinLines([a]) == a + "\r\n"
  {
  }

  lemma {:induction false} ArgsJoined(args: seq<string>)
    ensures EncodeAll(AsReply(args).elems) == JoinLines(ArgLines(args))
  {
    hide Encode;
    if args != [] {
      var rest := args[1..];
      assert AsReply(args).elems[1..] == AsReply(rest).elems && AsReply(args).elems[0] == Str(args[0]);
      ArgsJoined(rest);
      BulkIsEncoded(args[0]);
      TwoLines("$" + Dec(|args[0]|), args[0]);
      JoinAppend(["$" + Dec(|args[0]|), args[0]], ArgLines(rest));
    }
  }

  lemma CommandJoined(args: seq<string>)
    ensures Command(args) == JoinLines(["*" + Dec(|args|)] + ArgLines(args))
  {
    ArgsJoined(args);
    OneLineText("*" + Dec(|args|));
    JoinAppend(["*" + Dec(|args|)], ArgLines(args));
  }

  // ---------- what the printer cuts ----------

  /** Printing a key between two texts with a bounded printf changes nothing exactly when the key has no
      terminator in it and everything fits. */
  lemma CutExactly(size: nat, before: string, key: string, after: string, tail: string)
    requires size > 0
    ensures var cut := Snprintf(size, before + CStr(key) + after) + tail;
            && |cut| <= |before + key + after + tail|
            && (cut == before + key + after + tail <==> '\0' !in key && |before + CStr(key) + after| < size)
            && (|cut| == |before + key + after + tail| <==> '\0' !in key && |before + CStr(key) + after| < size)
  {
    assert CStr(key) <= key;
  }

  /** The words of a message. */
  function Words(m: Msg): seq<string> {
    match m
    case MsetMsg(pairs) => ["mset"] + Flat(pairs)
    case DelMsg(key) => ["del", key]
    case SetMsg(key, value) => ["set", key, value]
    case SetexMsg(key, ttl, value) => ["setex", key, Dec(ttl), value]
  }

  function Flat(pairs: seq<(string, string)>): seq<string> {
    if pairs == [] then [] else Flat(pairs[..|pairs| - 1]) + [pairs[|pairs| - 1].0, pairs[|pairs| - 1].1]
  }

  /** No key has a terminator in it and every buffer is large enough. */
  predicate Fits(m: Msg) {
    match m
    case MsetMsg(pairs) =>
      Link.HeaderLength(m) < HEAD_BUFFER && forall i :: 0 <= i < |pairs| ==> Link.Printable(pairs[i].0, pairs[i].1)
    case SetexMsg(key, ttl, _) =>
      '\0' !in key && |Dec(ttl)| < EXPIRE_BUFFER && Link.HeaderLength(m) < REPLY_BUFFER
    case _ => '\0' !in m.key && Link.HeaderLength(m) < REPLY_BUFFER
  }

  lemma Spliced(front: seq<string>, line: string, back: seq<string>)
    ensures JoinLines(front + [line] + back) == JoinLines(front) + line + ("\r\n" + JoinLines(back))
  {
    JoinAppend(front + [line], back);
    JoinAppend(front, [line]);
    OneLineText(line);
    Regroup(JoinLines(front), line, "\r\n");
    Regroup(JoinLines(front) + line, "\r\n", JoinLines(back));
  }

  lemma Digits()
    ensures "*" + Dec(2) == "*2" && "*" + Dec(3) == "*3" && "*" + Dec(4) == "*4"
    ensures "$" + Dec(3) == "$3" && "$" + Dec(4) == "$4" && "$" + Dec(5) == "$5"
  {
    assert Dec(2) == "2" && Dec(3) == "3" && Dec(4) == "4" && Dec(5) == "5";
  }

  /** The lines of a command before its first argument. */
  function Front(cmd: string, argc: nat, key: string): seq<string> {
    ["*" + Dec(argc), "$" + Dec(|cmd|), cmd, "$" + Dec(|key|)]
  }

  lemma KeyCommand(cmd: string, key: string, more: seq<string>)
    ensures Command([cmd, key] + more)
            == JoinLines(Front(cmd, 2 + |more|, key)) + key + ("\r\n" + JoinLines(ArgLines(more)))
  {
    hide Dec, Command, JoinLines, ArgLines;
    var args := [cmd, key] + more;
    CommandJoined(args);
    TwoThenRest(cmd, key, more);
    ArgLinesCons(cmd, [key] + more);
    ArgLinesCons(key, more);
    FiveThenRest("*" + Dec(|args|), "$" + Dec(|cmd|), cmd, "$" + Dec(|key|), key, ArgLines(more));
    Spliced(Front(cmd, 2 + |more|, key), key, ArgLines(more));
  }

  lemma ArgLinesCons(arg: string, more: seq<string>)
    ensures ArgLines([arg] + more) == ["$" + Dec(|arg|), arg] + ArgLines(more)
  {
    hide Dec;
    assert ([arg] + more)[1..] == more;
  }

  lemma TwoThenRest<T>(a: T, b: T, rest: seq<T>)
    ensures [a, b] + rest == [a] + ([b] + rest)
  {
  }

  lemma Ends<T>(a: T, b: T)
    ensures [b] + [] == [b] && [a, b] + [] == [a, b] == [a] + [b]
  {
  }

  lemma FiveThenRest<T>(a: T, b: T, c: T, d: T, e: T, rest: seq<T>)
    ensures [a] + ([b, c] + ([d, e] + rest)) == [a, b, c, d] + [e] + rest
  {
  }

  lemma DelCommand(key: string)
    ensures MsgText(DelMsg(key)) == Command(["del", key]) <==> Fits(DelMsg(key))
  {
    hide Dec, Command, JoinLines, CStr;
    Digits();
    var front := Front("del", 2, key);
    KeyCommand("del", key, []);
    Ends("del", key);
    assert DelLines(key) == front + [CStr(key)] + [];
    Spliced(front, CStr(key), []);
    NoLines();
    CutExactly(REPLY_BUFFER, JoinLines(front), key, "\r\n", "");
  }

  lemma NoLines()
    ensures ArgLines([]) == [] && "\r\n" + JoinLines([]) == "\r\n"
    ensures forall a: string :: a + "" == a
  {
  }

  lemma SetCommand(key: string, value: string)
    ensures MsgText(SetMsg(key, value)) == Command(["set", key, value]) <==> Fits(SetMsg(key, value))
  {
    hide Dec, Command, JoinLines, CStr;
    Digits();
    var front, len := Front("set", 3, key), ["$" + Dec(|value|)];
    KeyCommand("set", key, [value]);
    assert ["set", key] + [value] == ["set", key, value];
    assert SetLines(key, value) == front + [CStr(key)] + len;
    Spliced(front, CStr(key), len);
    LastArgument(value);
    var after := "\r\n" + JoinLines(len);
    CutExactly(REPLY_BUFFER, JoinLines(front), key, after, value + "\r\n");
    Regroup(JoinLines(front) + key, after, value + "\r\n");
    Regroup("\r\n", JoinLines(len), value + "\r\n");
    Regroup(Snprintf(REPLY_BUFFER, JoinLines(SetLines(key, value))), value, "\r\n");
  }

  /** The command setex with some text for the seconds. */
  lemma SetexPrinted(key: string, t: string, value: string)
    ensures var printed := Snprintf(REPLY_BUFFER, JoinLines(SetexLines(key, t, value))) + value + "\r\n";
            var whole := Command(["setex", key, t, value]);
            && |printed| <= |whole|
            && (printed == whole <==> '\0' !in key && |JoinLines(SetexLines(key, t, value))| < REPLY_BUFFER)
  {
    hide Dec, Command, JoinLines, CStr, ArgLines;
    Digits();
    var front, len := Front("setex", 4, key), ["$" + Dec(|value|)];
    var lines := ["$" + Dec(|t|), t] + len;
    KeyCommand("setex", key, [t, value]);
    assert ["setex", key] + [t, value] == ["setex", key, t, value];
    assert SetexLines(key, t, value) == front + [CStr(key)] + lines;
    Spliced(front, CStr(key), lines);
    SecondsThenValue(t, value);
    var after := "\r\n" + JoinLines(lines);
    CutExactly(REPLY_BUFFER, JoinLines(front), key, after, value + "\r\n");
    Regroup(JoinLines(front) + key, after, value + "\r\n");
    Regroup("\r\n", JoinLines(lines), value + "\r\n");
    Regroup(Snprintf(REPLY_BUFFER, JoinLines(SetexLines(key, t, value))), value, "\r\n");
  }

  lemma SecondsThenValue(t: string, value: string)
    ensures JoinLines(ArgLines([t, value]))
            == JoinLines(["$" + Dec(|t|), t] + ["$" + Dec(|value|)]) + (value + "\r\n")
  {
    hide Dec, JoinLines, ArgLines;
    var two, len := ["$" + Dec(|t|), t], ["$" + Dec(|value|)];
    Ends(t, value);
    ArgLinesCons(t, [value]);
    JoinAppend(two, ArgLines([value]));
    LastArgument(value);
    JoinAppend(two, len);
    Regroup(JoinLines(two), JoinLines(len), value + "\r\n");
  }

  lemma SetexLonger(key: string, t: string, t': string, value: string)
    requires |t| < |t'| && |Dec(|t|)| <= |Dec(|t'|)|
    ensures |Command(["setex", key, t, value])| < |Command(["setex", key, t', value])|
  {
    hide Dec, Command, JoinLines, ArgLines;
    KeyCommand("setex", key, [t, value]);
    KeyCommand("setex", key, [t', value]);
    assert ["setex", key] + [t, value] == ["setex", key, t, value];
    assert ["setex", key] + [t', value] == ["setex", key, t', value];
    ArgLinesLength(t, value);
    ArgLinesLength(t', value);
  }

  lemma ArgLinesLength(t: string, value: string)
    ensures |JoinLines(ArgLines([t, value]))| == |Dec(|t|)| + |t| + 5 + |JoinLines(ArgLines([value]))|
  {
    hide Dec, JoinLines, ArgLines;
    Ends(t, value);
    ArgLinesCons(t, [value]);
    TwoLines("$" + Dec(|t|), t);
    JoinAppend(["$" + Dec(|t|), t], ArgLines([value]));
  }

  lemma SetexCommand(key: string, ttl: nat, value: string)
    ensures MsgText(SetexMsg(key, ttl, value)) == Command(["setex", key, Dec(ttl), value])
            <==> Fits(SetexMsg(key, ttl, value))
  {
    hide Command, JoinLines, CStr, SetexLines;
    var cut := Snprintf(EXPIRE_BUFFER, Dec(ttl));
    SetexPrinted(key, cut, value);
    if |Dec(ttl)| >= EXPIRE_BUFFER {
      assert |Dec(19)| == 2 && |Dec(|Dec(ttl)|)| >= 2;
      SetexLonger(key, cut, Dec(ttl), value);
    }
  }

  lemma LastArgument(value: string)
    ensures JoinLines(ArgLines([value])) == JoinLines(["$" + Dec(|value|)]) + (value + "\r\n")
  {
    hide Dec, JoinLines, ArgLines;
    Ends("$" + Dec(|value|), value);
    ArgLinesCons(value, []);
    NoLines();
    JoinAppend(["$" + Dec(|value|)], [value]);
    OneLineText(value);
  }

  // ---------- mset ----------

  lemma ItemCommand(key: string, value: string)
    ensures var whole := JoinLines(ArgLines([key, value]));
            && |ItemText(key, value)| <= |whole|
            && (ItemText(key, value) == whole <==> Link.Printable(key, value))
            && (|ItemText(key, value)| == |whole| <==> Link.Printable(key, value))
  {
    hide Dec, JoinLines, CStr, ArgLines;
    var before, after := "$" + Dec(|key|) + "\r\n", "\r\n$" + Dec(|value|) + "\r\n";
    SecondsThenValue(key, value);
    TwoLines("$" + Dec(|key|), key);
    OneLineText("$" + Dec(|value|));
    JoinAppend(["$" + Dec(|key|), key], ["$" + Dec(|value|)]);
    CutExactly(ITEM_BUFFER, before, key, after, value + "\r\n");
    assert before + CStr(key) + after == ItemHeader(key, value);
    assert JoinLines(["$" + Dec(|key|), key] + ["$" + Dec(|value|)]) == before + key + after;
  }

  lemma {:induction false} ItemsCommand(pairs: seq<(string, string)>)
    ensures var whole := JoinLines(ArgLines(Flat(pairs)));
            var fits := forall i :: 0 <= i < |pairs| ==> Link.Printable(pairs[i].0, pairs[i].1);
            && |ItemsText(pairs)| <= |whole|
            && (fits ==> ItemsText(pairs) == whole)
            && (!fits ==> |ItemsText(pairs)| < |whole|)
  {
    hide Dec, JoinLines, CStr, ArgLines, ItemText, Link.Printable;
    if pairs == [] {
      NoLines();
    } else {
      var n := |pairs| - 1;
      var (key, value) := pairs[n];
      ItemsCommand(pairs[..n]);
      ItemCommand(key, value);
      ArgLinesAppend(Flat(pairs[..n]), [key, value]);
      JoinAppend(ArgLines(Flat(pairs[..n])), ArgLines([key, value]));
    }
  }

  lemma {:induction false} ArgLinesAppend(a: seq<string>, b: seq<string>)
    ensures ArgLines(a + b) == ArgLines(a) + ArgLines(b)
  {
    hide Dec;
    if a == [] {
      assert [] + b == b;
    } else {
      assert (a + b)[1..] == a[1..] + b;
      ArgLinesAppend(a[1..], b);
    }
  }

  lemma {:induction false} FlatLength(pairs: seq<(string, string)>)
    ensures |Flat(pairs)| == 2 * |pairs|
  {
    if pairs != [] { FlatLength(pairs[..|pairs| - 1]); }
  }

  lemma MsetCommand(pairs: seq<(string, string)>)
    ensures MsgText(MsetMsg(pairs)) == Command(["mset"] + Flat(pairs)) <==> Fits(MsetMsg(pairs))
  {
    hide Dec, Command, JoinLines, ArgLines, Flat, ItemsText, Link.Printable;
    Digits();
    var args := ["mset"] + Flat(pairs);
    var head := MsetLines(|pairs|);
    FlatLength(pairs);
    CommandJoined(args);
    ArgLinesCons("mset", Flat(pairs));
    assert ["*" + Dec(|args|)] + (["$4", "mset"] + ArgLines(Flat(pairs))) == head + ArgLines(Flat(pairs));
    JoinAppend(head, ArgLines(Flat(pairs)));
    ItemsCommand(pairs);
    HeadCut(JoinLines(head), ItemsText(pairs), JoinLines(ArgLines(Flat(pairs))));
  }

  lemma HeadCut(head: string, items: string, whole: string)
    requires |items| <= |whole|
    ensures Snprintf(HEAD_BUFFER, head) + items == head + whole <==> |head| < HEAD_BUFFER && items == whole
  {
    if |head| < HEAD_BUFFER && head + items == head + whole {
      assert items == (head + items)[|head|..] && whole == (head + whole)[|head|..];
    }
  }

  /** The bytes on the link are the command of the message's words, as the client library would write it,
      exactly when the message fits its buffers. */
  lemma MessageIsCommand(m: Msg)
    ensures MsgText(m) == Command(Words(m)) <==> Fits(m)
  {
    hide MsgText, Command, Fits;
    match m
    case MsetMsg(pairs) => MsetCommand(pairs);
    case DelMsg(key) => DelCommand(key);
    case SetMsg(key, value) => SetCommand(key, value);
    case SetexMsg(key, ttl, value) => SetexCommand(key, ttl, value);
  }

  /** So every message that the slave can take is such a command. */
  lemma SendableIsCommand(m: Msg)
    requires Link.Sendable(m)
    ensures MsgText(m) == Command(Words(m))
  {
    hide MsgText, Command, Link.HeaderLength, Dec;
    MessageIsCommand(m);
  }

  // ---------- control answers ----------

  function Answer(word: string): string { Command(["reply", word]) }

  lemma AnswerText(word: string)
    ensures Answer(word) == "*2\r\n$5\r\nreply\r\n" + ("$" + Dec(|word|)) + "\r\n" + word + "\r\n"
  {
    hide Dec, Command, JoinLines;
    Digits();
    KeyCommand("reply", word, []);
    Ends("reply", word);
    NoLines();
    AnswerFront("$" + Dec(|word|));
  }

  lemma AnswerFront(len: string)
    ensures JoinLines(["*2", "$5", "reply", len]) == "*2\r\n$5\r\nreply\r\n" + len + "\r\n"
  {
    hide JoinLines;
    Pairs("*2", "$5", "reply", len);
    JoinAppend(["*2", "$5"], ["reply", len]);
    TwoLines("*2", "$5");
    TwoLines("reply", len);
    var head, mid := "*2\r\n$5\r\n", "reply\r\n";
    assert "*2" + "\r\n" + "$5" + "\r\n" == head && "reply" + "\r\n" == mid;
    assert head + mid == "*2\r\n$5\r\nreply\r\n";
    Regroup(head, mid, len);
    Regroup(head, mid + len, "\r\n");
  }

  lemma Pairs<T>(a: T, b: T, c: T, d: T)
    ensures [a, b, c, d] == [a, b] + [c, d]
  {
  }

  lemma AnswersSpelled()
    ensures AUTH_OK == Answer("authok") && AUTH_ERROR == Answer("autherror") && CLOSE == Answer("close")
  {
    hide Answer;
    AnswerText("authok");
    AnswerText("autherror");
    AnswerText("close");
    assert Dec(6) == "6" && Dec(9) == "9" && Dec(5) == "5";
  }

  /** "auth" is answered with the command "reply" "authok" and nothing else is; "autherror" likewise with
      "autherror"; and every message but these two, "ok" and "data" is answered with "close".  A control answer
      leaves the queues as they are. */
  lemma ControlAnswers(r: Rep, msg: string, db: Db, now: nat)
    ensures var (t, sent) := StartSpec(r, msg, db, now);
            && (sent == Control(Answer("authok")) <==> msg == "auth")
            && (sent == Control(Answer("autherror")) <==> msg == "autherror")
            && (sent == Control(Answer("close")) <==> msg !in {"auth", "autherror", "ok", "data"})
            && (sent.Control? ==> t == r)
  {
    hide ServeSpec, Answer;
    AnswersSpelled();
    ServeControlsNothing(r, msg == "ok", db, now);
    assert AUTH_OK != AUTH_ERROR && AUTH_OK != CLOSE && AUTH_ERROR != CLOSE by { DifferentAnswers(); }
  }

  lemma ServeControlsNothing(r: Rep, ok: bool, db: Db, now: nat)
    ensures !ServeSpec(r, ok, db, now).1.Control?
  {
    hide Batch;
  }

  lemma DifferentAnswers()
    ensures AUTH_OK != AUTH_ERROR && AUTH_OK != CLOSE && AUTH_ERROR != CLOSE
  {
    assert AUTH_OK[16] == '6' && AUTH_ERROR[16] == '9' && CLOSE[16] == '5';
  }
}
