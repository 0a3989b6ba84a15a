/** Where replication does not deliver: marks left by a lost batch, and keys that the printer cuts. */
module ReplicationFailures {
  import opened Basics
  import opened Wire
  import opened Link
  import opened Replication
  import opened ReplicationRuns
  import opened ReplicationSteps
  import opened ReplicationDrain
  import MsetParser
  import LinkExact

  // ---------- stale marks ----------

  /** After a send the marked items are exactly the ones in the message just when no more items
      than it covers carried a mark from an earlier, unacknowledged batch. */
  lemma MarksMatchMessage(r: Rep, db: Db, now: nat)
    requires r.Valid() && Refresh(r).Active() != []
    ensures Marked(StartSpec(r, "data", db, now).0.Active()) == BatchSize(r, db, now)
            <==> Marked(Refresh(r).Active()) <= BatchSize(r, db, now)
  {
    var q := Refresh(r).Active();
    var n := BatchSize(r, db, now);
    MarkedIs(MarkFirst(q, n), if n < Marked(q) then Marked(q) else n);
  }

  /** The items from n to m are popped without having been sent: nothing is lost when each of their keys
      agrees already or is named again behind them. */
  ghost predicate NothingLost(master: Db, view: Db, q: seq<Item>, n: nat, m: nat)
    requires m <= |q|
  {
    forall i :: n <= i < m ==>
      q[i].name == "" || Look(master, q[i].name) == Look(view, q[i].name) || Named(q[m..], q[i].name)
  }

  lemma LostExactly(master: Db, view: Db, q: seq<Item>, n: nat, m: nat)
    requires n <= m <= |q| && Covered(master, view, q[n..])
    ensures Covered(master, view, q[m..]) <==> NothingLost(master, view, q, n, m)
  {
    if NothingLost(master, view, q, n, m) {
      forall k | k != "" && Look(master, k) != Look(view, k) ensures Named(q[m..], k) {
        var i :| 0 <= i < |q[n..]| && q[n..][i].name == k;
        if n + i >= m { assert q[m..][n + i - m].name == k; } else { assert q[n + i].name == k; }
      }
    }
  }

  /** Names decide what is covered, marks do not. */
  lemma CoveredByNames(master: Db, view: Db, q: seq<Item>, q': seq<Item>)
    requires |q| == |q'| && forall i :: 0 <= i < |q| ==> q[i].name == q'[i].name
    ensures Covered(master, view, q) <==> Covered(master, view, q')
  {
    forall k ensures Named(q, k) <==> Named(q', k) {
      if Named(q, k) {
        var i :| 0 <= i < |q| && q[i].name == k;
        assert q'[i].name == k;
      }
      if Named(q', k) {
        var i :| 0 <= i < |q'| && q'[i].name == k;
        assert q[i].name == k;
      }
    }
  }

  /** A poll is served, whatever marks a lost batch left, and the answer is acknowledged. */
  function Repoll(s: System, now: nat, parts: seq<string>, later: nat): System {
    Next(Next(Next(s, Handle(now)), Deliver(parts, now)), Ack(later))
  }

  /** What serving a poll does whatever marks there are. */
  ghost predicate Served(s: System, h: System, n: nat) {
    && h.phase.Out? && OnLink(h.phase.msg) && h.master == s.master && h.slave == s.slave
    && h.rep.Valid() && h.rep.status == 1
    && n <= Marked(h.rep.Active()) <= |s.rep.Backlog()|
    && h.rep.Backlog() == MarkFirst(s.rep.Backlog(), n)
    && "" !in h.View() && Covered(s.master, h.View(), s.rep.Backlog()[n..])
  }

  lemma InvParts(s: System)
    requires Inv(s)
    ensures s.rep.Valid() && "" !in s.slave && Carried(s.master) && ItemsOk(s.rep.Backlog(), s.master)
    ensures DeletionsSuperseded(s.rep.Backlog(), s.master) && Covered(s.master, s.slave, s.rep.Backlog())
  {
  }

  lemma PollServed(s: System, now: nat)
    requires Inv(s) && s.phase.Quiet? && Polled(s.rep).Active() != []
    ensures Served(s, Next(s, Handle(now)), BatchSize(s.rep, s.master, now))
  {
    hide Batch, Apply, DeletionsSuperseded, Covered, MarksFormPrefix, Marked, Carried, ItemsOk, Sendable, SendSpec,
         Next, Polled, MarkFirst, Inv, OnLink;
    InvParts(s);
    PolledValid(s.rep);
    HandleServes(s, now);
    var r, q := Polled(s.rep), s.rep.Backlog();
    SendResult(r, s.master, now);
    var m, n := Min(|r.Active()|, SYNC_NUM), BatchSize(r, s.master, now);
    assert n == BatchSize(s.rep, s.master, now);
    NextBatch(q, m, s.master, now, s.slave);
    PopBacklog(Next(s, Handle(now)).rep);
  }

  /** The message built from the head of the backlog can be sent, leaves out the empty key, and leaves every
      difference covered by what follows it. */
  lemma NextBatch(q: seq<Item>, m: nat, master: Db, now: nat, slave: Db)
    requires m <= |q| && m <= SYNC_NUM && "" !in slave && Carried(master) && ItemsOk(q, master)
    requires DeletionsSuperseded(q, master) && Covered(master, slave, q)
    ensures var (msg, n) := Batch(q[..m], master, now, []);
            OnLink(msg) && "" !in Apply(slave, msg, 0) && Covered(master, Apply(slave, msg, 0), q[n..])
  {
    hide Batch, Apply, DeletionsSuperseded, Covered, Carried, ItemsOk, OnLink;
    BatchCovers(q, m, master, now, slave);
    ItemsOkParts(q, m, 0, master);
    BatchSkipsEmpty(q[..m], master, now, [], slave);
    BatchSendable(q[..m], master, now, []);
  }

  /** After an acknowledgement the invariant holds if and only if the differences are covered by what the
      pop leaves. */
  lemma AckExact(a: System, later: nat)
    requires a.phase.Acked? && a.rep.Valid() && a.rep.status == 1 && "" !in a.slave
    requires Carried(a.master) && ItemsOk(a.rep.Backlog(), a.master) && DeletionsSuperseded(a.rep.Backlog(), a.master)
    requires Marked(a.rep.Active()) <= |a.rep.Backlog()|
    ensures Inv(Next(a, Ack(later))) <==> Covered(a.master, a.slave, a.rep.Backlog()[Marked(a.rep.Active())..])
  {
    hide Batch, Apply, DeletionsSuperseded, Covered, MarksFormPrefix, Marked, Carried, ItemsOk, Sendable, SendSpec,
         Next, PopSpec, Inv;
    PopResult(a.rep);
    AckServes(a, later);
    var m, r := Marked(a.rep.Active()), Refresh(PopSpec(a.rep.(status := 0)));
    SupersededSuffix(a.rep.Backlog(), m, a.master);
    ItemsOkParts(a.rep.Backlog(), 0, m, a.master);
    if Covered(a.master, a.slave, r.Backlog()) {
      SendKeepsInv(a.(rep := r, phase := Quiet, wake := false), later);
    }
    if Inv(Next(a, Ack(later))) { InvCovers(a, r, later); }
  }

  lemma InvCovers(a: System, r: Rep, later: nat)
    requires r.Valid() && r.status == 0 && Refresh(r) == r && Inv(Next(a, Ack(later)))
    requires var (rep', sent) := SendSpec(r, a.master, later);
             Next(a, Ack(later)) ==
             a.(rep := rep', phase := if sent.Sends? then Out(sent.msg) else Quiet, wake := false)
    ensures Covered(a.master, a.slave, r.Backlog())
  {
    hide Batch, Covered, MarksFormPrefix, Marked, Next;
    if r.Active() != [] { SendResult(r, a.master, later); }
    CoveredByNames(a.master, a.slave, r.Backlog(), Next(a, Ack(later)).rep.Backlog());
  }

  /** The exact price of stale marks: after the round the invariant holds, and with it every later
      convergence, if and only if the items popped unsent lose nothing. */
  lemma RepollExact(s: System, now: nat, parts: seq<string>, later: nat)
    requires Inv(s) && s.phase.Quiet? && Polled(s.rep).Active() != [] && now + INT_MAX < TWO_TO_64
    requires Next(s, Handle(now)).phase.Out? ==> IsCut(parts, Next(s, Handle(now)).phase.msg)
    ensures var h := Next(s, Handle(now));
            var n, m := BatchSize(s.rep, s.master, now), Marked(h.rep.Active());
            && n <= m <= |s.rep.Backlog()|
            && (Inv(Repoll(s, now, parts, later)) <==> NothingLost(s.master, h.View(), s.rep.Backlog(), n, m))
  {
    hide Batch, Apply, Covered, MarksFormPrefix, Marked, Next, BatchSize, NothingLost, IsCut, Polled, Inv, OnLink,
         DeletionsSuperseded, Carried, ItemsOk, MarkFirst;
    InvParts(s);
    var h, q := Next(s, Handle(now)), s.rep.Backlog();
    var n, m := BatchSize(s.rep, s.master, now), Marked(h.rep.Active());
    PollServed(s, now);
    DeliverResult(h, parts, now);
    SupersededMarked(q, n, s.master);
    ItemsOkParts(q, 0, n, s.master);
    assert MarkFirst(q, n)[m..] == q[m..];
    AckExact(h.(slave := h.View(), phase := Acked), later);
    LostExactly(s.master, h.View(), q, n, m);
  }

  const TWO_KEYS: Db := map["a" := Entry("1", 0), "b" := Entry("2", 0)]
  const ONE_KEY: Db := map["b" := Entry("2", 0)]
  const BOTH_QUEUED := System(TWO_KEYS, Rep(0, true, [Item("a", ADD, false), Item("b", ADD, false)], [], 2),
                              map[], Quiet, true)
  const BOTH_MARKED := System(ONE_KEY, Rep(1, true, [Item("a", ADD, true), Item("b", ADD, true)],
                                           [Item("a", DEL, false)], 3), map[], Quiet, true)
  const DELIVER_DEL := Deliver([MsgText(DelMsg("a"))], 0)

  /** Without that condition convergence fails: both keys are sent and lost, one is then deleted,
      and the answer to the shorter second batch pops both items. */
  lemma StaleMarksLoseAKey()
    ensures Attached(BOTH_QUEUED)
    ensures var lost := Next(Next(Next(BOTH_QUEUED, Handle(0)), Lose), Remove("a"));
            && !Enabled(lost, Handle(0))
            && var t := Final(lost, [Handle(0), DELIVER_DEL, Ack(0), DELIVER_DEL, Ack(0)]);
               t.phase.Quiet? && t.rep.length == 0 && t.master == ONE_KEY && t.slave == map[]
  {
    hide Next, Final, Enabled, Attached;
    BothKeysAttached();
    BothSent();
    ShorterBatch();
  }

  lemma BothKeysAttached()
    ensures Attached(BOTH_QUEUED)
  {
    var q := BOTH_QUEUED.rep.que;
    assert q[0].name == "a" && q[1].name == "b";
    ShortPair("a", "1");
    ShortPair("b", "2");
  }

  lemma ShortPair(key: string, value: string)
    requires |key| == 1 && |value| == 1 && 'a' <= key[0] <= 'b'
    ensures Writable(key, value)
  {
    LinkExact.ShortLength(1);
  }

  lemma BothSent()
    ensures Next(Next(Next(BOTH_QUEUED, Handle(0)), Lose), Remove("a")) == BOTH_MARKED
  {
    var s := BOTH_QUEUED;
    var q := s.rep.que;
    TwoGathered(q[0], q[1], s.master);
    assert q[..2] == q;
    assert MarkFirst(q, 2) == [Item("a", ADD, true), Item("b", ADD, true)];
    assert TWO_KEYS - {"a"} == ONE_KEY;
  }

  /** Delivering the deletion to an empty slave. */
  lemma DelArrives(s: System)
    requires s.phase == Out(DelMsg("a")) && s.slave == map[]
    ensures Next(s, DELIVER_DEL) == s.(phase := Acked)
  {
    hide Receive, MsgText, Sendable;
    DelSendable("a");
    WholeIsCut(DelMsg("a"));
    Delivered(s.slave, DelMsg("a"), [MsgText(DelMsg("a"))], 0);
    assert s.slave - {"a"} == s.slave;
  }

  lemma ShorterBatch()
    ensures !Enabled(BOTH_MARKED, Handle(0))
    ensures Final(BOTH_MARKED, [Handle(0), DELIVER_DEL, Ack(0), DELIVER_DEL, Ack(0)]) ==
            System(ONE_KEY, Rep(0, false, [], [], 0), map[], Quiet, false)
  {
    hide Final;
    var s := BOTH_MARKED;
    var s1 := s.(phase := Out(DelMsg("a")), wake := false);
    ResentAlone();
    DelArrives(s1);
    var s2 := s1.(phase := Acked);
    OneDeletion(s2);
    var s3 := s2.(rep := Rep(1, false, [], [Item("a", DEL, true)], 1), phase := Out(DelMsg("a")));
    DelArrives(s3);
    LastAck(s3.(phase := Acked));
    FiveSteps(s, Handle(0), DELIVER_DEL, Ack(0), DELIVER_DEL, Ack(0));
  }

  lemma ResentAlone()
    ensures !Enabled(BOTH_MARKED, Handle(0))
    ensures Next(BOTH_MARKED, Handle(0)) == BOTH_MARKED.(phase := Out(DelMsg("a")), wake := false)
  {
    var q := BOTH_MARKED.rep.que;
    assert q[..2] == q && MarkFirst(q, 1) == q;
    MarkedIs(q, 2);
  }

  lemma OneDeletion(s: System)
    requires s == BOTH_MARKED.(phase := Acked, wake := false)
    ensures Next(s, Ack(0)) == s.(rep := Rep(1, false, [], [Item("a", DEL, true)], 1), phase := Out(DelMsg("a")))
  {
    MarkedIs(s.rep.que, 2);
    assert PopSpec(s.rep.(status := 0)) == Rep(0, true, [], s.rep.mainQue, 1);
    assert s.rep.mainQue[..1] == s.rep.mainQue;
    assert MarkFirst(s.rep.mainQue, 1) == [Item("a", DEL, true)];
  }

  lemma LastAck(s: System)
    requires s == System(ONE_KEY, Rep(1, false, [], [Item("a", DEL, true)], 1), map[], Acked, false)
    ensures Next(s, Ack(0)) == System(ONE_KEY, Rep(0, false, [], [], 0), map[], Quiet, false)
  {
    MarkedIs(s.rep.mainQue, 1);
    assert s.rep.mainQue[1..] == [];
  }

  lemma TwoGathered(a: Item, b: Item, db: Db)
    requires a.kind == ADD && b.kind == ADD && a.name != "" && b.name != ""
    requires a.name in db && b.name in db && db[a.name].expire == 0 && db[b.name].expire == 0
    ensures Batch([a, b], db, 0, []) == (MsetMsg([(a.name, db[a.name].value), (b.name, db[b.name].value)]), 2)
  {
    var x, y := (a.name, db[a.name].value), (b.name, db[b.name].value);
    assert [a, b][1..] == [b] && [b][1..] == [];
    assert Batch([b], db, 0, [x]) == (MsetMsg([x, y]), 1) by {
      assert [x] + [y] == [x, y];
      assert Batch([], db, 0, [x, y]) == (MsetMsg([x, y]), 0);
    }
    assert AddPair([], a.name, x.1) == [x];
  }

  lemma FiveSteps(s: System, a: Action, b: Action, c: Action, d: Action, e: Action)
    ensures Final(s, [a, b, c, d, e]) == Next(Next(Next(Next(Next(s, a), b), c), d), e)
  {
    hide Next;
    var l := [a, b, c, d, e];
    assert l[1..] == [b, c, d, e] && [b, c, d, e][1..] == [c, d, e] && [c, d, e][1..] == [d, e];
    assert [d, e][1..] == [e] && [e][1..] == [];
    var s2 := Next(Next(s, a), b);
    assert Final(s, l) == Final(Next(s, a), [b, c, d, e]) == Final(s2, [c, d, e]);
    assert Final(s2, [c, d, e]) == Final(Next(s2, c), [d, e]) == Final(Next(Next(s2, c), d), [e]);
  }

  // ---------- keys that do not fit the printer's buffer ----------

  /** Both databases empty, nothing queued. */
  const IDLE := System(map[], Rep(0, false, [], [], 0), map[], Quiet, false)

  /** A client writes one pair and the handler sends it. */
  function Sending(key: string, value: string): System { Next(Next(IDLE, Write(key, value)), Handle(0)) }

  lemma SendingIs(key: string, value: string)
    requires key != ""
    ensures Sending(key, value) ==
            System(map[key := Entry(value, 0)], Rep(1, false, [], [Item(key, ADD, true)], 1), map[],
                   Out(MsetMsg([(key, value)])), false)
  {
    var it := Item(key, ADD, false);
    var db: Db := map[key := Entry(value, 0)];
    assert [] + [it] == [it] && [it][..1] == [it] && [it][1..] == [];
    assert AddPair([], key, value) == [(key, value)];
    assert Batch([it], db, 0, []) == (MsetMsg([(key, value)]), 1) by {
      assert Batch([], db, 0, [(key, value)]) == (MsetMsg([(key, value)]), 0);
    }
    assert MarkFirst([it], 1) == [Item(key, ADD, true)];
  }

  /** One write, sent and delivered in one read: the slave has it if and only if the item is printed
      whole, that is, its key has no NUL byte and its header fits the printer's buffer. */
  lemma OneWriteExact(key: string, value: string, now: nat)
    requires key != "" && |key| <= INT_MAX && |value| <= INT_MAX
    ensures var s := Sending(key, value);
            var t := Next(s, Deliver([MsgText(MsetMsg([(key, value)]))], now));
            s.phase == Out(MsetMsg([(key, value)])) && (t.slave == t.master <==> Printable(key, value))
  {
    hide Sending, Receive, MsgText, Printable;
    SendingIs(key, value);
    LinkExact.ItemDeliveredExact(key, value, now);
    assert key in Sending(key, value).master;
  }

  /** A key of which the slave never sees the end: however the command arrives, it does not answer, the
      item stays queued and no step of the protocol is left. */
  lemma LongKeyStops(key: string, value: string, parts: seq<string>, now: nat)
    requires |key| <= INT_MAX && |value| <= INT_MAX
    requires |ItemText(key, value)| < |MsetParser.LengthText(|key|)| + |key|
    requires IsCut(parts, MsetMsg([(key, value)]))
    ensures var t := Next(Sending(key, value), Deliver(parts, now));
            t.slave == map[] && t.master == map[key := Entry(value, 0)] && t.rep.length == 1 && Halted(t)
  {
    hide Sending, Receive, ItemText, MsetParser.LengthText;
    assert key != "" by { NotEmpty(key, value); }
    SendingIs(key, value);
    LinkExact.LongKeyStalls(map[], key, value, parts, now);
    assert Next(Sending(key, value), Deliver(parts, now)) == Sending(key, value).(phase := Waiting);
  }

  lemma NotEmpty(key: string, value: string)
    requires |ItemText(key, value)| < |MsetParser.LengthText(|key|)| + |key| && |value| <= INT_MAX
    ensures key != ""
  {
    if key == "" {
      LinkExact.ShortLength(|value|);
      LinkExact.HeaderParts("", value);
    }
  }

  /** Such a key: 120 bytes, which set and mset accept from clients. */
  lemma LongKeyExists(value: string)
    requires |value| <= 10
    ensures var key := seq(120, _ => 'k');
            |key| < 250 && |ItemText(key, value)| < |MsetParser.LengthText(|key|)| + |key|
  {
  }
}
