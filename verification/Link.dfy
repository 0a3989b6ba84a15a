/**
 From the master's message to the slave's store, over the bytes on the link: whatever way the
 command is cut into reads after its header, executing it has the effect of the message.
 */
module Link {
  import opened Basics
  import opened Decimal
  import opened Wire
  import opened MsetParser
  import opened SlaveParser

  /** The slave's database after a command that arrives in the given reads; None when the slave refuses
      the command or still waits for more of it, and so does not answer "ok". */
  function Receive(db: Db, parts: seq<string>, now: nat): Option<Db>
    requires parts != []
  {
    match ParseCommand(parts[0], now)
    case Value(key, content, rlbytes, remaining, expire) =>
      var rest := Concat(parts[1..]);
      if remaining > |rest| then None
      else Some(db[key := Entry(Substr(content + rest[..remaining], 0, rlbytes), expire % TWO_TO_64)])
    case Deletes(key) => Some(db - {key})
    case Items(n, data) =>
      var (ret, md) := FeedAll(Fresh(map[], n), [data] + parts[1..]);
      if ret == Complete then Some(db + Entries(md.keysValues)) else None
    case _ => None
  }

  function HeaderLength(m: Msg): nat {
    match m
    case MsetMsg(pairs) => |JoinLines(MsetLines(|pairs|))|
    case DelMsg(key) => |JoinLines(DelLines(key))|
    case SetMsg(key, value) => |JoinLines(SetLines(key, value))|
    case SetexMsg(key, ttl, value) => |JoinLines(SetexLines(key, Dec(ttl), value))|
  }

  /** An item that the printer does not cut. */
  predicate Printable(key: string, value: string) {
    '\0' !in key && |ItemHeader(key, value)| < ITEM_BUFFER
  }

  /** The reads in which a message arrives: any cut that leaves the header in the first one. */
  ghost predicate IsCut(parts: seq<string>, m: Msg) {
    parts != [] && Concat(parts) == MsgText(m) && HeaderLength(m) <= |parts[0]|
  }

  /** The message fits the print buffers, and its keys survive the parsers of the slave. */
  ghost predicate Sendable(m: Msg) {
    match m
    case MsetMsg(pairs) =>
      && HeaderLength(m) < HEAD_BUFFER && IntSized(pairs)
      && forall i :: 0 <= i < |pairs| ==> Printable(pairs[i].0, pairs[i].1)
    case DelMsg(key) => LineKey(key) && HeaderLength(m) < REPLY_BUFFER
    case SetMsg(key, value) =>
      LineKey(key) && |key| < 250 && |value| <= INT_MAX && HeaderLength(m) < REPLY_BUFFER
    case SetexMsg(key, ttl, value) =>
      && LineKey(key) && |key| < 250 && |value| <= INT_MAX && ttl <= INT_MAX
      && |Dec(ttl)| < EXPIRE_BUFFER && HeaderLength(m) < REPLY_BUFFER
  }

  lemma {:induction false} ItemsTextEnc(pairs: seq<(string, string)>)
    requires forall i :: 0 <= i < |pairs| ==> Printable(pairs[i].0, pairs[i].1)
    ensures ItemsText(pairs) == Enc(pairs)
  {
    if pairs != [] {
      var n := |pairs| - 1;
      ItemsTextEnc(pairs[..n]);
      ItemTextExact(pairs[n].0, pairs[n].1);
      EncSplit(pairs, n);
      assert pairs[n..] == [pairs[n]];
      assert Enc([pairs[n]]) == EncItem(pairs[n].0, pairs[n].1) + "";
    }
  }

  lemma MsetDelivered(db: Db, pairs: seq<(string, string)>, parts: seq<string>, now: nat)
    requires Sendable(MsetMsg(pairs)) && IsCut(parts, MsetMsg(pairs))
    ensures Receive(db, parts, now) == Some(db + Entries(PutPairs(map[], pairs)))
  {
    hide JoinLines, MsetLines, ParseCommand, FeedAll, Enc, ItemsText, Concat, Entries, PutPairs;
    var rest := Concat(parts[1..]);
    ItemsTextEnc(pairs);
    ConcatCons(parts);
    MsetParsed(parts[0], rest, |pairs|, Enc(pairs), now);
    var chunks := ItemChunks(parts, |pairs|);
    ChunksHold(parts, |pairs|, Enc(pairs));
    AnyCut(map[], pairs, chunks);
  }

  /** The reads without the header of an mset command. */
  function ItemChunks(parts: seq<string>, num: nat): seq<string>
    requires parts != [] && |JoinLines(MsetLines(num))| <= |parts[0]|
  {
    [parts[0][|JoinLines(MsetLines(num))|..]] + parts[1..]
  }

  lemma ChunksHold(parts: seq<string>, num: nat, items: string)
    requires parts != [] && |JoinLines(MsetLines(num))| <= |parts[0]|
    requires Concat(parts) == JoinLines(MsetLines(num)) + items
    ensures Concat(ItemChunks(parts, num)) == items
  {
    hide JoinLines, MsetLines, Concat;
    var h := |JoinLines(MsetLines(num))|;
    var chunks := ItemChunks(parts, num);
    ConcatCons(parts);
    var rest := Concat(parts[1..]);
    assert chunks[1..] == parts[1..];
    assert (parts[0] + rest)[h..] == parts[0][h..] + rest;
    assert (JoinLines(MsetLines(num)) + items)[h..] == items;
    ConcatCons(chunks);
  }

  /** The bytes of a sendable message, cut anywhere behind its header, have the effect of the
      message on the slave's database, expiry included; a deletion has to arrive in one read. */
  lemma Delivered(db: Db, m: Msg, parts: seq<string>, now: nat)
    requires Sendable(m) && IsCut(parts, m) && now + INT_MAX < TWO_TO_64
    ensures Receive(db, parts, now) == Some(Apply(db, m, now))
  {
    hide JoinLines, SetLines, SetexLines, DelLines, ParseCommand, Dec, PutPairs, Entries;
    var rest := Concat(parts[1..]);
    ConcatCons(parts);
    match m
    case MsetMsg(pairs) => MsetDelivered(db, pairs, parts, now);
    case DelMsg(key) =>
      assert parts[0] == MsgText(m);
      DelRoundTrip(key, now);
    case SetMsg(key, value) =>
      SetRoundTrip(key, value, now, parts[0], rest);
      assert value[0..|value|] == value;
    case SetexMsg(key, ttl, value) =>
      SetexRoundTrip(key, ttl, value, now, parts[0], rest);
      assert value[0..|value|] == value;
  }

  /** Arriving in one piece is such a cut. */
  lemma WholeIsCut(m: Msg)
    requires Sendable(m)
    ensures IsCut([MsgText(m)], m)
  {
    hide JoinLines, SetLines, SetexLines, DelLines, MsetLines, ItemsText, Dec;
    var text := MsgText(m);
    ConcatCons([text]);
    assert [text][1..] == [] && text + "" == text;
    assert HeaderLength(m) <= |text|;
  }
}
