/** Progress of replication when no client writes. */
module ReplicationDrain {
  import opened Wire
  import opened Link
  import opened Replication
  import opened ReplicationRuns
  import opened ReplicationSteps
  import opened Convergence

  predicate IsProtocol(a: Action) { a.Handle? || a.Deliver? || a.Ack? }

  function Acks(actions: seq<Action>): nat {
    if actions == [] then 0 else (if actions[0].Ack? then 1 else 0) + Acks(actions[1..])
  }

  /** A bound on the protocol steps left when no client writes. */
  function Measure(s: System): nat {
    3 * |s.rep.Backlog()| + if s.phase.Quiet? && s.wake then 2 else if s.phase.Out? then 1 else 0
  }

  /** A poll would be served: no more marks are left from a lost batch than the next one covers. */
  ghost predicate Servable(s: System) {
    s.phase.Quiet? ==> s.Stale() <= BatchSize(s.rep, s.master, 0)
  }

  /** No step of the protocol can be taken. */
  ghost predicate Halted(s: System) { forall a :: IsProtocol(a) ==> !Enabled(s, a) }

  /** Without expiry the clock does not matter to a batch. */
  lemma {:induction false} BatchIgnoresTime(items: seq<Item>, master: Db, now: nat, acc: seq<(string, string)>)
    requires Carried(master)
    ensures Batch(items, master, now, acc) == Batch(items, master, 0, acc)
    decreases |items|
  {
    hide Writable;
    if items != [] && Decide(items[0], master, now, acc != []).Gather? {
      BatchIgnoresTime(items[1..], master, now, AddPair(acc, items[0].name, master[items[0].name].value));
    }
  }

  lemma HandleResult(s: System, now: nat)
    requires Inv(s) && Enabled(s, Handle(now))
    ensures var t := Next(s, Handle(now));
            |t.rep.Backlog()| == |s.rep.Backlog()| && !t.wake && (t.phase.Quiet? ==> t.Stale() == 0)
  {
    hide Batch, Covered, DeletionsSuperseded, Carried, ItemsOk, Sendable, SendSpec, Next, Polled, Marked,
         MarksFormPrefix;
    PolledValid(s.rep);
    HandleServes(s, now);
    if Polled(s.rep).Active() == [] {
      NothingToSend(Polled(s.rep), s.master, now);
    } else {
      SendResult(Polled(s.rep), s.master, now);
    }
  }

  lemma NothingToSend(r: Rep, db: Db, now: nat)
    requires r.Active() == []
    ensures SendSpec(r, db, now) == (r, Silent) && Marked(r.Active()) == 0
  {
  }

  lemma AckLeavesNoWake(s: System, now: nat)
    requires Inv(s) && s.phase.Acked?
    ensures var t := Next(s, Ack(now));
            !t.wake && (t.phase.Quiet? ==> t.rep.Backlog() == [] && t.Stale() == 0)
  {
    hide Batch, PopSpec, DeletionsSuperseded, Covered, Carried, ItemsOk, Sendable;
    AckServes(s, now);
    PopResult(s.rep);
    AckKeepsInv(s, now);
  }

  /** Each protocol step brings the end nearer, each acknowledgement by at least one item. */
  lemma ProtocolStepShrinks(s: System, a: Action)
    requires Inv(s) && Enabled(s, a) && IsProtocol(a)
    ensures var t := Next(s, a);
            && Servable(t) && t.master == s.master
            && Measure(t) < Measure(s)
            && |t.rep.Backlog()| + Acks([a]) <= |s.rep.Backlog()|
  {
    hide Batch, DeletionsSuperseded, Covered, Carried, ItemsOk, Sendable, Marked, MarksFormPrefix;
    assert [a][1..] == [];
    match a
    case Handle(now) => HandleResult(s, now);
    case Deliver(parts, now) => DeliverResult(s, parts, now);
    case Ack(now) =>
      AckProgress(s.rep, s.master, now);
      AckLeavesNoWake(s, now);
  }

  /** Acknowledged rounds, each with its own store and time. */
  function Rounds(r: Rep, rounds: seq<(Db, nat)>): Rep {
    if rounds == [] then r
    else
      var (db, now) := rounds[|rounds| - 1];
      StartSpec(Rounds(r, rounds[..|rounds| - 1]), "ok", db, now).0
  }

  /** Whatever is stored and whenever the rounds are served, adds, deletions, missing, lapsed and expiring
      keys alike: each acknowledged round removes one or two of the n items, so that they are gone after at
      most n rounds, and not before half as many. */
  lemma {:induction false} RoundsDrain(r: Rep, rounds: seq<(Db, nat)>)
    requires r.Valid() && r.status == 1
    ensures var t, n, k := Rounds(r, rounds), |r.Backlog()|, |rounds|;
            && t.Valid() && (t.status == 1 || t.Backlog() == [])
            && |t.Backlog()| <= (if k <= n then n - k else 0)
            && n - SYNC_NUM * k <= |t.Backlog()|
            && (k >= n ==> t.length == 0)
    decreases |rounds|
  {
    hide StartSpec, MarksFormPrefix, Marked;
    if rounds != [] {
      var before := rounds[..|rounds| - 1];
      var (db, now) := rounds[|rounds| - 1];
      RoundsDrain(r, before);
      var p := Rounds(r, before);
      if p.status == 1 { AckProgress(p, db, now); } else { IdleRound(p, db, now); }
    }
  }

  /** With nothing queued a round does nothing. */
  lemma IdleRound(r: Rep, db: Db, now: nat)
    requires r.Valid() && r.status != 1 && r.Backlog() == []
    ensures var t := StartSpec(r, "ok", db, now).0; t.Valid() && t.Backlog() == []
  {
    ServeKeepsValid(r, true, db, now);
  }

  /** As long as something is queued or on the link, and a poll would be served, the protocol has a
      step to take. */
  lemma NoDeadlock(s: System)
    requires Inv(s) && Servable(s)
    requires !(s.phase.Quiet? && s.rep.length == 0)
    ensures !Halted(s)
  {
    hide Batch, DeletionsSuperseded, Covered, Carried, ItemsOk, Sendable;
    match s.phase
    case Quiet => assert IsProtocol(Handle(0)) && Enabled(s, Handle(0));
    case Out(msg) =>
      WholeIsCut(msg);
      assert IsProtocol(Deliver([MsgText(msg)], 0)) && Enabled(s, Deliver([MsgText(msg)], 0));
    case Acked => assert IsProtocol(Ack(0)) && Enabled(s, Ack(0));
    case Waiting =>
  }

  /** Without client writes every run of the protocol is short: n queued items take at most n
      acknowledged rounds, whatever way the bytes are cut; and when no step is left the stores agree. */
  lemma {:induction false} ProtocolRunsDrain(s: System, actions: seq<Action>)
    requires Inv(s) && Run(s, actions)
    requires forall i :: 0 <= i < |actions| ==> IsProtocol(actions[i])
    ensures |actions| <= Measure(s) <= 3 * |s.rep.Backlog()| + 2
    ensures Acks(actions) <= |s.rep.Backlog()|
    ensures var t := Final(s, actions);
            && t.master == s.master
            && (Servable(s) && Halted(t) ==> t.phase.Quiet? && t.rep.length == 0 && Agree(t.master, t.slave))
    decreases |actions|
  {
    hide Enabled, Next, Servable, Halted, IsProtocol, Measure, Inv;
    if actions == [] {
      MeasureBound(s);
      if Servable(s) && Halted(s) { HaltedAgree(s); }
    } else {
      StepKeepsInv(s, actions[0]);
      ProtocolStepShrinks(s, actions[0]);
      ProtocolRunsDrain(Next(s, actions[0]), actions[1..]);
      MeasureBound(s);
      assert Acks([actions[0]]) == if actions[0].Ack? then 1 else 0 by { assert [actions[0]][1..] == []; }
    }
  }

  lemma MeasureBound(s: System)
    ensures Measure(s) <= 3 * |s.rep.Backlog()| + 2
  {
  }

  lemma HaltedAgree(s: System)
    requires Inv(s) && Servable(s) && Halted(s)
    ensures s.phase.Quiet? && s.rep.length == 0 && Agree(s.master, s.slave)
  {
    hide Halted, Servable;
    if !(s.phase.Quiet? && s.rep.length == 0) { NoDeadlock(s); }
  }
}
