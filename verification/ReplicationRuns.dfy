/**
 Replication as a protocol: client writes, the request handler on the master, the bytes on the link
 and the slave that parses them, taken in any order.  A store write and its Push are one step; the
 link delivers in order; stored values carry no expiry.
 */
module ReplicationRuns {
  import opened Basics
  import opened Link
  import SlaveParser
  import MsetParser
  import LinkExact
  import opened Wire
  import opened Replication

  function Look(db: Db, k: string): Option<Entry> {
    if k in db then Some(db[k]) else None
  }

  /** Quiet: nothing on the link.  Out: a batch travels to the slave.  Acked: its "ok" travels back.
      Waiting: the slave has the bytes but does not answer. */
  datatype Phase = Quiet | Out(msg: Msg) | Acked | Waiting

  /** wake: a handler run is due, after a slave's poll or a Push into empty queues. */
  datatype System = System(master: Db, rep: Rep, slave: Db, phase: Phase, wake: bool) {
    /** The slave's store once the batch on the link has arrived. */
    function View(): Db { if phase.Out? then Apply(slave, phase.msg, 0) else slave }

    function Stale(): nat { Marked(rep.Active()) }

    /** Items that are not part of an outstanding batch. */
    function Pending(): seq<Item> {
      if phase.Quiet? || Stale() > |rep.Backlog()| then rep.Backlog() else rep.Backlog()[Stale()..]
    }
  }

  datatype Action =
    | Write(key: string, value: string)   // set or one pair of mset on the master
    | Remove(key: string)                 // del on the master
    | Handle(now: nat)                    // the handler serves a "data", or a wake-up
    | Deliver(parts: seq<string>, now: nat)   // the batch arrives in these reads
    | Ack(now: nat)                       // the handler serves the "ok"
    | Lose                                // the link breaks; the slave connects again and polls

  function Pushed(s: System, kind: OpType, key: string): System {
    s.(rep := PushSpec(s.rep, kind, key), wake := s.wake || s.rep.length == 0)
  }

  /** The handler is given the slave's message. */
  function Serve(s: System, msg: string, now: nat): System {
    var (rep', sent) := StartSpec(s.rep, msg, s.master, now);
    s.(rep := rep', phase := if sent.Sends? then Out(sent.msg) else Quiet, wake := false)
  }

  /** The number of items the next batch would cover. */
  function BatchSize(r: Rep, db: Db, now: nat): nat {
    var q := Refresh(r).Active();
    Batch(q[..Min(|q|, SYNC_NUM)], db, now, []).1
  }

  /** A pair that the link can carry: it is printed whole. */
  ghost predicate Writable(key: string, value: string) {
    Printable(key, value) && |value| <= INT_MAX
  }

  /** Clients write pairs that the link can carry, or the empty key, which is never sent; they remove keys
      that can be named in a deletion; bytes arrive in a cut that leaves the header in the first read; and a
      poll is served when no more marks are left from a lost batch than the next batch covers. */
  ghost predicate Enabled(s: System, a: Action) {
    match a
    case Write(key, value) => key == "" || Writable(key, value)
    case Remove(key) => SlaveParser.LineKey(key) || key !in s.master
    case Handle(now) => s.phase.Quiet? && s.wake && s.Stale() <= BatchSize(s.rep, s.master, now)
    case Deliver(parts, now) => s.phase.Out? && IsCut(parts, s.phase.msg) && now + INT_MAX < TWO_TO_64
    case Ack(_) => s.phase.Acked?
    case Lose => true
  }

  /** The slave parses the bytes; without an answer the master waits. */
  function Delivery(s: System, parts: seq<string>, now: nat): System
    requires parts != []
  {
    match Receive(s.slave, parts, now)
    case Some(db) => s.(slave := db, phase := Acked)
    case None => s.(phase := Waiting)
  }

  function Next(s: System, a: Action): System {
    match a
    case Write(key, value) => Pushed(s.(master := s.master[key := Entry(value, 0)]), ADD, key)
    case Remove(key) =>
      if key in s.master then Pushed(s.(master := s.master - {key}), DEL, key) else s
    case Handle(now) => Serve(s, "data", now)
    case Deliver(parts, now) => if parts == [] then s else Delivery(s, parts, now)
    case Ack(now) => Serve(s, "ok", now)
    case Lose => s.(phase := Quiet, wake := true)
  }

  /** Attaching a slave: every key of the master goes to the full-sync queue, the slave is empty. */
  ghost predicate Attached(s: System) {
    && s.rep.Valid() && s.rep.isUpdateQue && s.rep.status == 0 && s.rep.mainQue == []
    && s.slave == map[] && s.phase.Quiet? && s.wake
    && (forall i :: 0 <= i < |s.rep.que| ==> s.rep.que[i].kind == ADD && !s.rep.que[i].isSync)
    && (forall i :: 0 <= i < |s.rep.que| ==> s.rep.que[i].name in s.master)
    && (forall k :: k in s.master ==> Named(s.rep.que, k))
    && Carried(s.master)
  }

  ghost predicate Named(q: seq<Item>, k: string) {
    exists i :: 0 <= i < |q| && q[i].name == k
  }

  ghost predicate Run(s: System, actions: seq<Action>)
    decreases |actions|
  {
    actions == [] || (Enabled(s, actions[0]) && Run(Next(s, actions[0]), actions[1..]))
  }

  function Final(s: System, actions: seq<Action>): System
    decreases |actions|
  {
    if actions == [] then s else Final(Next(s, actions[0]), actions[1..])
  }

  /** Every stored pair can travel, the empty key aside. */
  ghost predicate Carried(master: Db) {
    forall k :: k in master ==> master[k].expire == 0 && (k == "" || Writable(k, master[k].value))
  }

  ghost predicate Agree(a: Db, b: Db) {
    forall k :: k != "" ==> Look(a, k) == Look(b, k)
  }

  // ---------- the invariant ----------

  /** A queued deletion of a key that exists again is followed by a newer item for that key. */
  ghost predicate DeletionsSuperseded(q: seq<Item>, master: Db) {
    forall i :: 0 <= i < |q| && q[i].kind == DEL && q[i].name in master ==> Named(q[i + 1..], q[i].name)
  }

  /** A key on which master and slave differ is named by an item still to be sent. */
  ghost predicate Covered(master: Db, view: Db, pending: seq<Item>) {
    forall k :: k != "" && Look(master, k) != Look(view, k) ==> Named(pending, k)
  }

  /** An item that turns into a sendable message whatever happens to its key. */
  ghost predicate ItemOk(it: Item, master: Db) {
    if SlaveParser.LineKey(it.name) then |it.name| < ITEM_BUFFER else it.kind == ADD && it.name in master
  }

  ghost predicate ItemsOk(q: seq<Item>, master: Db) {
    forall i :: 0 <= i < |q| ==> ItemOk(q[i], master)
  }

  /** What runs without expiry put on the link. */
  ghost predicate OnLink(m: Msg) { (m.MsetMsg? || m.DelMsg?) && Sendable(m) }

  ghost predicate Inv(s: System) {
    && s.rep.Valid() && !s.phase.Waiting?
    && Carried(s.master) && ItemsOk(s.rep.Backlog(), s.master)
    && (s.phase.Out? ==> OnLink(s.phase.msg))
    && "" !in s.slave && "" !in s.View()
    && (!s.phase.Quiet? ==> s.rep.status == 1)
    && (s.phase.Quiet? && s.rep.Backlog() != [] ==> s.wake)
    && DeletionsSuperseded(s.rep.Backlog(), s.master)
    && Covered(s.master, s.slave, s.rep.Backlog())
    && Covered(s.master, s.View(), s.Pending())
  }

  // ---------- messages ----------

  ghost predicate FromMaster(pairs: seq<(string, string)>, master: Db) {
    forall i :: 0 <= i < |pairs| ==> Look(master, pairs[i].0) == Some(Entry(pairs[i].1, 0))
  }

  ghost predicate HasKey(pairs: seq<(string, string)>, k: string) {
    exists i :: 0 <= i < |pairs| && pairs[i].0 == k
  }

  lemma {:induction false} PutPairsLook(kv: Store, pairs: seq<(string, string)>, master: Db, k: string)
    requires FromMaster(pairs, master)
    ensures k in PutPairs(kv, pairs) <==> k in kv || HasKey(pairs, k)
    ensures k in PutPairs(kv, pairs) ==>
              if HasKey(pairs, k) then Look(master, k) == Some(Entry(PutPairs(kv, pairs)[k], 0))
              else PutPairs(kv, pairs)[k] == kv[k]
    decreases |pairs|
  {
    if pairs != [] {
      PutPairsLook(kv[pairs[0].0 := pairs[0].1], pairs[1..], master, k);
      if HasKey(pairs[1..], k) {
        var i :| 0 <= i < |pairs[1..]| && pairs[1..][i].0 == k;
        assert pairs[i + 1].0 == k;
      }
    }
  }

  lemma MsetLook(db: Db, pairs: seq<(string, string)>, master: Db, now: nat, k: string)
    requires FromMaster(pairs, master)
    ensures Look(Apply(db, MsetMsg(pairs), now), k) == if HasKey(pairs, k) then Look(master, k) else Look(db, k)
  {
    hide PutPairs, HasKey, FromMaster;
    PutPairsLook(map[], pairs, master, k);
  }

  /** Every key a batch touches ends up as on the master, unless the batch is a queued deletion. */
  lemma {:induction false} BatchMeans(items: seq<Item>, master: Db, now: nat, acc: seq<(string, string)>,
                                      s: Db, k: string)
    requires Carried(master) && FromMaster(acc, master) && k != ""
    ensures var (msg, n) := Batch(items, master, now, acc);
            var after := Look(Apply(s, msg, 0), k);
            || (after == Look(s, k) && !Named(items[..n], k) && !HasKey(acc, k))
            || (after == Look(master, k))
            || (n > 0 && items[n - 1] == Item(k, DEL, items[n - 1].isSync) && after == None)
  {
    hide Writable, PutPairs, Entries;
    var db := master;
    var (msg, n) := Batch(items, db, now, acc);
    if items == [] || Decide(items[0], db, now, acc != []).Flush? {
      MsetLook(s, acc, master, 0, k);
    } else if Decide(items[0], db, now, acc != []).Alone? {
      assert items[..1] == [items[0]];
    } else {
      var it := items[0];
      var acc' := AddPair(acc, it.name, db[it.name].value);
      assert FromMaster(acc', master);
      BatchMeans(items[1..], master, now, acc', s, k);
      GatherStep(items, n, acc, acc', k);
    }
  }

  /** The empty key is never sent as a value. */
  lemma {:induction false} BatchSkipsEmpty(items: seq<Item>, master: Db, now: nat, acc: seq<(string, string)>,
                                           s: Db)
    requires Carried(master) && "" !in s && !HasKey(acc, "") && ItemsOk(items, master)
    ensures "" !in Apply(s, Batch(items, master, now, acc).0, 0)
  {
    hide Writable, SlaveParser.LineKey;
    var db := master;
    if items == [] || Decide(items[0], db, now, acc != []).Flush? {
      PutPairsSkips(map[], acc);
    } else if Decide(items[0], db, now, acc != []).Gather? {
      BatchSkipsEmpty(items[1..], master, now, AddPair(acc, items[0].name, db[items[0].name].value), s);
    }
  }

  lemma {:induction false} PutPairsSkips(s: Store, pairs: seq<(string, string)>)
    requires "" !in s && !HasKey(pairs, "")
    ensures "" !in PutPairs(s, pairs)
    decreases |pairs|
  {
    if pairs != [] {
      PutPairsSkips(s[pairs[0].0 := pairs[0].1], pairs[1..]);
    }
  }

  lemma GatherStep(items: seq<Item>, n: nat, acc: seq<(string, string)>, acc': seq<(string, string)>, k: string)
    requires 1 <= n <= |items| && k != ""
    requires exists v :: acc' == AddPair(acc, items[0].name, v)
    ensures !Named(items[1..][..n - 1], k) && !HasKey(acc', k) ==> !Named(items[..n], k) && !HasKey(acc, k)
  {
    if HasKey(acc, k) {
      var i :| 0 <= i < |acc| && acc[i].0 == k;
      assert acc'[i].0 == k;
    }
    if Named(items[..n], k) {
      var i :| 0 <= i < n && items[i].name == k;
      if i == 0 {
        assert acc'[|acc|].0 == k;
      } else {
        assert items[1..][..n - 1][i - 1].name == k;
      }
    }
  }

  lemma NamedSplit(q: seq<Item>, n: nat, k: string)
    requires n <= |q| && Named(q, k)
    ensures Named(q[..n], k) || Named(q[n..], k)
  {
  }

  /** The batch built from the head of the backlog leaves every difference covered by what follows it. */
  lemma BatchCovers(backlog: seq<Item>, m: nat, master: Db, now: nat, slave: Db)
    requires m <= |backlog|
    requires Carried(master) && DeletionsSuperseded(backlog, master) && Covered(master, slave, backlog)
    ensures var (msg, n) := Batch(backlog[..m], master, now, []);
            Covered(master, Apply(slave, msg, 0), backlog[n..])
  {
    var items := backlog[..m];
    var (msg, n) := Batch(items, master, now, []);
    var view := Apply(slave, msg, 0);
    forall k | k != "" && Look(master, k) != Look(view, k)
      ensures Named(backlog[n..], k)
    {
      BatchMeans(items, master, now, [], slave, k);
      assert items[..n] == backlog[..n];
      if Look(view, k) == Look(slave, k) && !Named(items[..n], k) {
        NamedSplit(backlog, n, k);
      } else {
        assert backlog[n - 1].name == k;
      }
    }
  }

  /** Marking touches neither names nor kinds, and marks sit at the front of the backlog. */
  lemma BacklogMarked(r: Rep, n: nat)
    requires (!r.isUpdateQue ==> r.que == []) && n <= |r.Active()|
    ensures r.WithActive(MarkFirst(r.Active(), n)).Backlog() == MarkFirst(r.Backlog(), n)
    ensures r.Active() <= r.Backlog()
  {
  }

  lemma CoveredMarked(master: Db, view: Db, q: seq<Item>, n: nat)
    requires n <= |q| && Covered(master, view, q)
    ensures Covered(master, view, MarkFirst(q, n))
  {
  }

  lemma SupersededMarked(q: seq<Item>, n: nat, master: Db)
    requires n <= |q| && DeletionsSuperseded(q, master)
    ensures DeletionsSuperseded(MarkFirst(q, n), master)
  {
  }

  lemma SupersededSuffix(q: seq<Item>, n: nat, master: Db)
    requires n <= |q| && DeletionsSuperseded(q, master)
    ensures DeletionsSuperseded(q[n..], master)
  {
  }

  // ---------- every message can be sent ----------

  lemma ItemsOkParts(q: seq<Item>, m: nat, n: nat, master: Db)
    requires ItemsOk(q, master) && m <= |q| && n <= |q|
    ensures ItemsOk(q[..m], master) && ItemsOk(q[n..], master) && ItemsOk(MarkFirst(q, n), master)
  {
  }

  lemma WritableShort(key: string, value: string)
    requires Writable(key, value)
    ensures |key| < |ItemHeader(key, value)| < ITEM_BUFFER
  {
  }

  lemma DelSendable(key: string)
    requires SlaveParser.LineKey(key) && |key| < ITEM_BUFFER
    ensures Sendable(DelMsg(key))
  {
    hide JoinLines;
    var lines := DelLines(key);
    LinkExact.ShortLength(|key|);
    LinkExact.FourLines(lines[..4]);
    LinkExact.JoinSnoc(lines[..4], lines[4]);
    assert lines == lines[..4] + [lines[4]];
  }

  lemma {:induction false} EncSize(pairs: seq<(string, string)>)
    requires forall i :: 0 <= i < |pairs| ==> Writable(pairs[i].0, pairs[i].1)
    ensures |MsetParser.Enc(pairs)| <= |pairs| * (INT_MAX + 200)
  {
    hide Writable;
    if pairs != [] {
      var (k, v) := pairs[0];
      WritableSize(k, v);
      EncSize(pairs[1..]);
    }
  }

  lemma WritableSize(key: string, value: string)
    requires Writable(key, value)
    ensures |MsetParser.EncItem(key, value)| <= INT_MAX + 200 && |key| <= INT_MAX && |value| <= INT_MAX
  {
    WritableShort(key, value);
    LinkExact.ShortLength(|key|);
    LinkExact.ShortLength(|value|);
  }

  lemma MsetSendable(pairs: seq<(string, string)>)
    requires |pairs| <= SYNC_NUM && forall i :: 0 <= i < |pairs| ==> Writable(pairs[i].0, pairs[i].1)
    ensures Sendable(MsetMsg(pairs))
  {
    hide JoinLines, MsetParser.Enc;
    LinkExact.MsetHead(|pairs|);
    EncSize(pairs);
    forall i | 0 <= i < |pairs| ensures |pairs[i].0| <= INT_MAX && |pairs[i].1| <= INT_MAX {
      WritableSize(pairs[i].0, pairs[i].1);
    }
  }

  /** The next message always is one that the link can carry. */
  lemma {:induction false} BatchSendable(items: seq<Item>, master: Db, now: nat, acc: seq<(string, string)>)
    requires Carried(master) && ItemsOk(items, master) && |acc| + |items| <= SYNC_NUM
    requires forall i :: 0 <= i < |acc| ==> Writable(acc[i].0, acc[i].1)
    ensures OnLink(Batch(items, master, now, acc).0)
    decreases |items|
  {
    hide Sendable, Writable, SlaveParser.LineKey;
    if items == [] || Decide(items[0], master, now, acc != []).Flush? {
      MsetSendable(acc);
    } else if Decide(items[0], master, now, acc != []).Alone? {
      assert ItemOk(items[0], master);
      DelSendable(items[0].name);
    } else {
      BatchSendable(items[1..], master, now, AddPair(acc, items[0].name, master[items[0].name].value));
    }
  }
}
