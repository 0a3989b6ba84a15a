/** Every step of replication keeps the invariant. */
module ReplicationSteps {
  import opened Basics
  import opened Wire
  import opened Link
  import opened Replication
  import opened ReplicationRuns
  import SlaveParser

  function Max(a: nat, b: nat): nat { if a <= b then b else a }

  /** What sending does to the backlog; marks of a lost batch stay. */
  lemma SendResult(r: Rep, db: Db, now: nat)
    requires r.Valid() && r.status == 0 && Refresh(r) == r && r.Active() != []
    ensures var (r', sent) := SendSpec(r, db, now);
            var m := Min(|r.Active()|, SYNC_NUM);
            && r'.Valid() && r'.status == 1
            && m <= |r.Backlog()|
            && sent == Sends(Batch(r.Backlog()[..m], db, now, []).0)
            && Batch(r.Backlog()[..m], db, now, []).1 == BatchSize(r, db, now)
            && Marked(r'.Active()) == Max(Marked(r.Active()), BatchSize(r, db, now))
            && r'.Backlog() == MarkFirst(r.Backlog(), Batch(r.Backlog()[..m], db, now, []).1)
  {
    hide Batch, MarksFormPrefix, Marked, MarkFirst;
    SendKeepsValid(r, db, now);
    var q := r.Active();
    var m := Min(|q|, SYNC_NUM);
    var n := Batch(q[..m], db, now, []).1;
    BacklogMarked(r, n);
    assert q[..m] == r.Backlog()[..m];
    MarkedAfter(q, n);
  }

  lemma MarkedAfter(q: seq<Item>, n: nat)
    requires MarksFormPrefix(q) && n <= |q|
    ensures Marked(MarkFirst(q, n)) == Max(Marked(q), n)
  {
    MarkedIs(MarkFirst(q, n), Max(Marked(q), n));
  }

  lemma SendKeepsInv(s: System, now: nat)
    requires s.rep.Valid() && s.rep.status == 0 && Refresh(s.rep) == s.rep
    requires s.phase.Quiet? && !s.wake && "" !in s.slave
    requires Carried(s.master) && ItemsOk(s.rep.Backlog(), s.master)
    requires DeletionsSuperseded(s.rep.Backlog(), s.master)
    requires Covered(s.master, s.slave, s.rep.Backlog())
    requires s.rep.Active() != [] ==> s.Stale() <= BatchSize(s.rep, s.master, now)
    ensures var (rep', sent) := SendSpec(s.rep, s.master, now);
            Inv(s.(rep := rep', phase := if sent.Sends? then Out(sent.msg) else Quiet))
  {
    hide Batch, Apply, DeletionsSuperseded, Covered, MarksFormPrefix, Marked, Carried, ItemsOk, Sendable;
    var db := s.master;
    var r := s.rep;
    if r.Active() == [] {
      assert r.Backlog() == [];
    } else {
      SendResult(r, db, now);
      var m := Min(|r.Active()|, SYNC_NUM);
      var n := Batch(r.Backlog()[..m], db, now, []).1;
      BatchCovers(r.Backlog(), m, s.master, now, s.slave);
      ItemsOkParts(r.Backlog(), m, n, s.master);
      BatchSkipsEmpty(r.Backlog()[..m], s.master, now, [], s.slave);
      BatchSendable(r.Backlog()[..m], s.master, now, []);
      SupersededMarked(r.Backlog(), n, s.master);
      CoveredMarked(s.master, s.slave, r.Backlog(), n);
      assert MarkFirst(r.Backlog(), n)[n..] == r.Backlog()[n..];
    }
  }

  /** The state in which a poll is served. */
  function Polled(r: Rep): Rep { Refresh(r.(status := 0)) }

  lemma PolledValid(r: Rep)
    requires r.Valid()
    ensures Polled(r).Valid() && Polled(r).status == 0 && Refresh(Polled(r)) == Polled(r)
    ensures Polled(r).Backlog() == r.Backlog()
    ensures Polled(r).Active() == Refresh(r).Active() && Marked(Polled(r).Active()) <= Marked(r.Active())
  {
  }

  lemma HandleServes(s: System, now: nat)
    ensures var (rep', sent) := SendSpec(Polled(s.rep), s.master, now);
            Next(s, Handle(now)) ==
            s.(rep := rep', phase := if sent.Sends? then Out(sent.msg) else Quiet, wake := false)
  {
    hide SendSpec;
  }

  lemma HandleKeepsInv(s: System, now: nat)
    requires Inv(s) && Enabled(s, Handle(now))
    ensures Inv(Next(s, Handle(now)))
  {
    hide Batch, Covered, DeletionsSuperseded, MarksFormPrefix, SendSpec, Carried, ItemsOk, Sendable, Next, Marked,
         Polled;
    PolledValid(s.rep);
    assert BatchSize(Polled(s.rep), s.master, now) == BatchSize(s.rep, s.master, now);
    SendKeepsInv(s.(rep := Polled(s.rep), wake := false), now);
    HandleServes(s, now);
  }

  /** Acknowledging removes exactly the marked prefix of the backlog: one to SYNC_NUM items. */
  lemma PopResult(r: Rep)
    requires r.Valid() && r.status == 1
    ensures var r' := Refresh(PopSpec(r.(status := 0)));
            && r'.Valid() && r'.status == 0 && Refresh(r') == r' && Marked(r'.Active()) == 0
            && 1 <= Marked(r.Active()) <= |r.Backlog()|
            && Marked(r.Active()) <= SYNC_NUM
            && r'.Backlog() == r.Backlog()[Marked(r.Active())..]
  {
    PopClearsMarks(r.(status := 0));
    PopBacklog(r.(status := 0));
    RefreshKeeps(PopSpec(r.(status := 0)));
  }

  lemma PopBacklog(r: Rep)
    requires !r.isUpdateQue ==> r.que == []
    ensures Marked(r.Active()) <= |r.Backlog()|
    ensures PopSpec(r).Backlog() == r.Backlog()[Marked(r.Active())..]
  {
  }

  lemma RefreshKeeps(r: Rep)
    requires r.Valid() && r.status == 0 && Marked(r.Active()) == 0
    ensures var r' := Refresh(r);
            && r'.Valid() && Refresh(r') == r' && Marked(r'.Active()) == 0 && r'.Backlog() == r.Backlog()
  {
  }

  lemma AckKeepsInv(s: System, now: nat)
    requires Inv(s) && s.phase.Acked?
    ensures Inv(Next(s, Ack(now)))
  {
    hide Batch, Covered, DeletionsSuperseded, MarksFormPrefix, SendSpec, Carried, ItemsOk, Sendable, Next, Marked,
         PopSpec;
    PopResult(s.rep);
    SupersededSuffix(s.rep.Backlog(), Marked(s.rep.Active()), s.master);
    ItemsOkParts(s.rep.Backlog(), 0, Marked(s.rep.Active()), s.master);
    var r := Refresh(PopSpec(s.rep.(status := 0)));
    var t := s.(rep := r, phase := Quiet, wake := false);
    SendKeepsInv(t, now);
    AckServes(s, now);
  }

  lemma AckServes(s: System, now: nat)
    requires s.rep.status == 1
    ensures var (rep', sent) := SendSpec(Refresh(PopSpec(s.rep.(status := 0))), s.master, now);
            Next(s, Ack(now)) ==
            s.(rep := rep', phase := if sent.Sends? then Out(sent.msg) else Quiet, wake := false)
  {
  }

  /** What is queued, marks apart. */
  function Ops(q: seq<Item>): (r: seq<(string, OpType)>)
    ensures |r| == |q|
    ensures forall i :: 0 <= i < |q| ==> r[i] == (q[i].name, q[i].kind)
  {
    seq(|q|, i requires 0 <= i < |q| => (q[i].name, q[i].kind))
  }

  /** What a message does to the queues: only an "ok" while a batch is out removes anything, and then exactly
      the marked items at the front; "data" removes nothing whatever is out; other messages touch nothing.
      Silence is the answer just when one of the two finds nothing left. */
  lemma StartEffect(r: Rep, msg: string, db: Db, now: nat)
    requires r.Valid()
    ensures var (t, sent) := StartSpec(r, msg, db, now);
            if msg == "ok" || msg == "data" then
              var gone := if msg == "ok" && r.status == 1 then Marked(r.Active()) else 0;
              && gone <= |r.Backlog()| && Ops(t.Backlog()) == Ops(r.Backlog())[gone..]
              && t.length == r.length - gone
              && (sent.Silent? <==> t.Backlog() == []) && (sent.Sends? <==> t.Backlog() != [])
              && (t.status == 1 <==> sent.Sends?) && t.Valid()
            else
              t == r && sent.Control?
  {
    hide ServeSpec, Marked, Rep.Valid, Rep.Backlog;
    if msg == "ok" || msg == "data" { ServeEffect(r, msg == "ok", db, now); }
  }

  lemma ServeEffect(r: Rep, ok: bool, db: Db, now: nat)
    requires r.Valid()
    ensures var (t, sent) := ServeSpec(r, ok, db, now);
            var gone := if ok && r.status == 1 then Marked(r.Active()) else 0;
            && gone <= |r.Backlog()| && Ops(t.Backlog()) == Ops(r.Backlog())[gone..]
            && t.length == r.length - gone
            && (sent.Silent? <==> t.Backlog() == []) && (sent.Sends? <==> t.Backlog() != [])
            && (t.status == 1 <==> sent.Sends?) && t.Valid()
  {
    hide Batch, Marked, MarksFormPrefix, MarkFirst, SendSpec, PopSpec, Rep.Backlog;
    ServeKeepsValid(r, ok, db, now);
    var r1 := r.(status := 0);
    if r.status == 1 && ok {
      PopResult(r);
      SendEffect(Refresh(PopSpec(r1)), db, now);
      assert PopSpec(r1).length == r.length - Marked(r.Active()) by { PopLength(r1); }
    } else {
      RefreshBacklog(r);
      SendEffect(Refresh(r1), db, now);
      assert Ops(r.Backlog())[0..] == Ops(r.Backlog());
    }
  }

  lemma PopLength(r: Rep)
    ensures PopSpec(r).length == r.length - Marked(r.Active())
  {
  }

  lemma RefreshBacklog(r: Rep)
    requires !r.isUpdateQue ==> r.que == []
    ensures Refresh(r.(status := 0)).Backlog() == r.Backlog()
  {
  }

  /** Sending marks items; it changes neither what is queued nor in which order. */
  lemma SendEffect(r: Rep, db: Db, now: nat)
    requires Refresh(r) == r && r.status == 0 && (!r.isUpdateQue ==> r.que == [])
    ensures var (t, sent) := SendSpec(r, db, now);
            && Ops(t.Backlog()) == Ops(r.Backlog()) && t.length == r.length
            && (sent.Silent? <==> t.Backlog() == []) && (sent.Sends? <==> t.Backlog() != [])
            && (t.status == 1 <==> sent.Sends?)
  {
    hide Batch;
  }

  /** A wake-up is served with the last message that came in.  While no batch is out it does not matter
      which of the two that was. */
  lemma LastMessage(r: Rep, db: Db, now: nat)
    requires r.status != 1
    ensures StartSpec(r, "ok", db, now) == StartSpec(r, "data", db, now)
  {
    hide SendSpec;
  }

  /** Every acknowledged round removes at least one and at most SYNC_NUM items, whatever is stored and
      whenever it is served. */
  lemma AckProgress(r: Rep, db: Db, now: nat)
    requires r.Valid() && r.status == 1
    ensures var n := |r.Backlog()| - |StartSpec(r, "ok", db, now).0.Backlog()|; 1 <= n <= SYNC_NUM
    ensures var t := StartSpec(r, "ok", db, now).0; t.Valid() && (t.status == 1 || t.Backlog() == [])
  {
    hide Batch, PopSpec, MarksFormPrefix, Marked;
    PopResult(r);
    ServeKeepsValid(r, true, db, now);
    var p := Refresh(PopSpec(r.(status := 0)));
    if p.Active() != [] { SendResult(p, db, now); }
  }

  lemma PushKeepsInv(s: System, s0: System, kind: OpType, key: string)
    requires Inv(s0) && s == s0.(master := s.master)
    requires forall k :: k != key ==> Look(s.master, k) == Look(s0.master, k)
    requires kind == DEL ==> key !in s.master
    requires Carried(s.master) && ItemOk(Item(key, kind, false), s.master)
    ensures Inv(Pushed(s, kind, key))
  {
    hide Carried, OnLink, ItemOk, ItemsOk, Covered, DeletionsSuperseded, Apply, MarksFormPrefix, Marked;
    var it := Item(key, kind, false);
    PushKeepsValid(s.rep, kind, key);
    PushedPending(s, kind, key);
    ItemsOkPush(s.rep.Backlog(), it, s0.master, s.master);
    SupersededPush(s0.master, s.master, s.rep.Backlog(), it);
    CoveredPush(s0.master, s.master, s.slave, s.rep.Backlog(), it);
    CoveredPush(s0.master, s.master, s.View(), s.Pending(), it);
  }

  lemma ItemsOkPush(q: seq<Item>, it: Item, master0: Db, master: Db)
    requires ItemsOk(q, master0) && ItemOk(it, master)
    requires forall k :: k != it.name ==> Look(master, k) == Look(master0, k)
    ensures ItemsOk(q + [it], master)
  {
    hide SlaveParser.LineKey;
    forall i | 0 <= i < |q| ensures ItemOk(q[i], master) {
      assert ItemOk(q[i], master0);
      if q[i].name != it.name { assert Look(master, q[i].name) == Look(master0, q[i].name); }
    }
  }

  lemma CoveredPush(master0: Db, master: Db, view: Db, q: seq<Item>, it: Item)
    requires Covered(master0, view, q)
    requires forall k :: k != it.name ==> Look(master, k) == Look(master0, k)
    ensures Covered(master, view, q + [it])
  {
    forall k | k != "" && Look(master, k) != Look(view, k)
      ensures Named(q + [it], k)
    {
      if k == it.name {
        assert (q + [it])[|q|].name == k;
      } else {
        var i :| 0 <= i < |q| && q[i].name == k;
        assert (q + [it])[i].name == k;
      }
    }
  }

  lemma SupersededPush(master0: Db, master: Db, q: seq<Item>, it: Item)
    requires DeletionsSuperseded(q, master0)
    requires forall k :: k != it.name ==> Look(master, k) == Look(master0, k)
    requires it.kind == DEL ==> it.name !in master
    ensures DeletionsSuperseded(q + [it], master)
  {
    var q' := q + [it];
    forall i | 0 <= i < |q'| && q'[i].kind == DEL && q'[i].name in master
      ensures Named(q'[i + 1..], q'[i].name)
    {
      if q'[i].name == it.name {
        assert q'[i + 1..][|q| - i - 1].name == it.name;
      } else {
        assert Look(master, q[i].name) == Look(master0, q[i].name);
        var j :| 0 <= j < |q[i + 1..]| && q[i + 1..][j].name == q[i].name;
        assert q'[i + 1..][j].name == q'[i].name;
      }
    }
  }

  lemma PushedPending(s: System, kind: OpType, key: string)
    requires s.rep.Valid()
    ensures Pushed(s, kind, key).Pending() == s.Pending() + [Item(key, kind, false)]
    ensures Pushed(s, kind, key).rep.Backlog() == s.rep.Backlog() + [Item(key, kind, false)]
  {
    var t := Pushed(s, kind, key);
    MarkedIs(t.rep.Active(), Marked(s.rep.Active()));
    assert t.rep.Backlog() == s.rep.Backlog() + [Item(key, kind, false)];
  }

  lemma WriteKeepsInv(s: System, key: string, value: string)
    requires Inv(s) && Enabled(s, Write(key, value))
    ensures Inv(Next(s, Write(key, value)))
  {
    hide Inv, Writable, SlaveParser.LineKey;
    assert Carried(s.master) by { InvCarried(s); }
    if key != "" { WritableShort(key, value); } else { EmptyIsNoLine(); }
    PushKeepsInv(s.(master := s.master[key := Entry(value, 0)]), s, ADD, key);
  }

  lemma InvCarried(s: System)
    requires Inv(s)
    ensures Carried(s.master)
  {
  }

  lemma EmptyIsNoLine()
    ensures !SlaveParser.LineKey("")
  {
  }

  lemma RemoveKeepsInv(s: System, key: string)
    requires Inv(s) && Enabled(s, Remove(key))
    ensures Inv(Next(s, Remove(key)))
  {
    hide Inv, Writable, SlaveParser.LineKey;
    assert Carried(s.master) by { InvCarried(s); }
    if key in s.master {
      EmptyIsNoLine();
      WritableShort(key, s.master[key].value);
      PushKeepsInv(s.(master := s.master - {key}), s, DEL, key);
    }
  }

  /** However the bytes are cut, the slave ends up with the effect of the message, and answers. */
  lemma DeliverResult(s: System, parts: seq<string>, now: nat)
    requires s.phase.Out? && OnLink(s.phase.msg) && IsCut(parts, s.phase.msg) && now + INT_MAX < TWO_TO_64
    ensures Next(s, Deliver(parts, now)) == s.(slave := s.View(), phase := Acked)
  {
    hide Receive, Sendable;
    Delivered(s.slave, s.phase.msg, parts, now);
  }

  lemma AnsweredInv(s: System)
    requires Inv(s) && s.phase.Out?
    ensures Inv(s.(slave := s.View(), phase := Acked))
  {
    hide Apply, Sendable, Covered, DeletionsSuperseded, Carried, ItemsOk, MarksFormPrefix, Marked;
    if s.Stale() <= |s.rep.Backlog()| { CoveredWider(s.master, s.View(), s.rep.Backlog(), s.Stale()); }
  }

  lemma CoveredWider(master: Db, view: Db, q: seq<Item>, n: nat)
    requires n <= |q| && Covered(master, view, q[n..])
    ensures Covered(master, view, q)
  {
  }

  lemma LoseKeepsInv(s: System)
    requires Inv(s)
    ensures Inv(Next(s, Lose))
  {
  }
}
