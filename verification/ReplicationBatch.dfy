/** What a batch carries, item by item. */
module ReplicationBatch {
  import opened Wire
  import opened Replication

  /** Present for good: what one mset command may carry. */
  predicate Live(it: Item, db: Db) { it.kind == ADD && it.name in db && db[it.name].expire == 0 }

  /** The length of the leading run of items that are present for good. */
  function LiveRun(items: seq<Item>, db: Db): (n: nat)
    ensures n <= |items| && (forall i :: 0 <= i < n ==> Live(items[i], db))
    ensures n < |items| ==> !Live(items[n], db)
  {
    if items == [] || !Live(items[0], db) then 0 else 1 + LiveRun(items[1..], db)
  }

  /** Their keys and values, leaving out the empty name. */
  function LivePairs(items: seq<Item>, db: Db): seq<(string, string)>
    requires forall i :: 0 <= i < |items| ==> Live(items[i], db)
  {
    if items == [] then [] else LivePair(items[0], db) + LivePairs(items[1..], db)
  }

  function LivePair(it: Item, db: Db): seq<(string, string)>
    requires Live(it, db)
  {
    if it.name == "" then [] else [(it.name, db[it.name].value)]
  }

  /** The message for an item that goes by itself: the key is removed when the item says so or when it
      is gone or lapsed on the master; otherwise it is sent with the life it has left, and without an expiry
      when it lapses in this very second. */
  ghost predicate AloneFor(msg: Msg, it: Item, db: Db, now: nat) {
    if it.kind == ADD && it.name in db && now <= db[it.name].expire then
      if now == db[it.name].expire then msg == SetMsg(it.name, db[it.name].value)
      else msg.SetexMsg? && msg.key == it.name && msg.value == db[it.name].value && now + msg.ttl == db[it.name].expire
    else msg == DelMsg(it.name)
  }

  ghost predicate BatchShape(items: seq<Item>, db: Db, now: nat, acc: seq<(string, string)>, b: (Msg, nat)) {
    var n := LiveRun(items, db);
    var pairs := acc + LivePairs(items[..n], db);
    if pairs == [] && n < |items| then b.1 == n + 1 && AloneFor(b.0, items[n], db, now)
    else b == (MsetMsg(pairs), n)
  }

  /** A batch carries the whole leading run of present keys in one mset command, in order; only when
      that run has nothing to say does the item behind it go out, alone. */
  lemma {:induction false} BatchIs(items: seq<Item>, db: Db, now: nat, acc: seq<(string, string)>)
    ensures BatchShape(items, db, now, acc, Batch(items, db, now, acc))
    decreases |items|
  {
    hide AloneFor;
    if items == [] || !Live(items[0], db) {
      assert acc + LivePairs([], db) == acc;
      if items != [] && acc == [] { AloneIs(items, db, now); }
    } else {
      BatchIs(items[1..], db, now, acc + LivePair(items[0], db));
      GatherStep(items, db, now, acc);
      ShapeGrows(items, db, now, acc, Batch(items[1..], db, now, acc + LivePair(items[0], db)));
    }
  }

  lemma AloneIs(items: seq<Item>, db: Db, now: nat)
    requires items != [] && !Live(items[0], db)
    ensures Batch(items, db, now, []).1 == 1 && AloneFor(Batch(items, db, now, []).0, items[0], db, now)
  {
  }

  lemma GatherStep(items: seq<Item>, db: Db, now: nat, acc: seq<(string, string)>)
    requires items != [] && Live(items[0], db)
    ensures var b := Batch(items[1..], db, now, acc + LivePair(items[0], db));
            Batch(items, db, now, acc) == (b.0, 1 + b.1)
  {
    assert AddPair(acc, items[0].name, db[items[0].name].value) == acc + LivePair(items[0], db);
  }

  lemma ShapeGrows(items: seq<Item>, db: Db, now: nat, acc: seq<(string, string)>, b: (Msg, nat))
    requires items != [] && Live(items[0], db)
    requires BatchShape(items[1..], db, now, acc + LivePair(items[0], db), b)
    ensures BatchShape(items, db, now, acc, (b.0, 1 + b.1))
  {
    hide AloneFor;
    var n := LiveRun(items[1..], db);
    assert items[..n + 1][1..] == items[1..][..n] && items[..n + 1][0] == items[0];
    var one, rest := LivePair(items[0], db), LivePairs(items[1..][..n], db);
    assert LivePairs(items[..n + 1], db) == one + rest;
    assert acc + (one + rest) == acc + one + rest;
  }
}
