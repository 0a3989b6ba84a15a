/** The main safety result of replication, over whole runs and the bytes of the link. */
module Convergence {
  import opened Wire
  import opened Link
  import opened Replication
  import opened ReplicationRuns
  import opened ReplicationSteps

  /** Every enabled step keeps the invariant. */
  lemma StepKeepsInv(s: System, a: Action)
    requires Inv(s) && Enabled(s, a)
    ensures Inv(Next(s, a))
  {
    hide Next, Apply, Sendable, Covered, DeletionsSuperseded, Carried, ItemsOk, MarksFormPrefix, Marked, Batch;
    match a
    case Write(key, value) => WriteKeepsInv(s, key, value);
    case Remove(key) => RemoveKeepsInv(s, key);
    case Handle(now) => HandleKeepsInv(s, now);
    case Deliver(parts, now) =>
      DeliverResult(s, parts, now);
      AnsweredInv(s);
    case Ack(now) => AckKeepsInv(s, now);
    case Lose => LoseKeepsInv(s);
  }

  lemma AttachedInv(s: System)
    requires Attached(s)
    ensures Inv(s)
  {
    assert s.rep.Backlog() == s.rep.que;
    forall i | 0 <= i < |s.rep.que| ensures ItemOk(s.rep.que[i], s.master) {
      var it := s.rep.que[i];
      if it.name != "" { WritableShort(it.name, s.master[it.name].value); } else { EmptyIsNoLine(); }
    }
  }

  lemma {:induction false} RunKeepsInv(s: System, actions: seq<Action>)
    requires Inv(s) && Run(s, actions)
    ensures Inv(Final(s, actions))
    decreases |actions|
  {
    if actions != [] {
      StepKeepsInv(s, actions[0]);
      RunKeepsInv(Next(s, actions[0]), actions[1..]);
    }
  }

  /** Safety over whole runs, on the bytes of the link: a difference is always covered, so empty queues
      mean that the stores agree on every key but the empty one, which is never sent. */
  lemma Convergence(s: System, actions: seq<Action>)
    requires Attached(s) && Run(s, actions)
    ensures Inv(Final(s, actions))
    ensures var t := Final(s, actions);
            t.phase.Quiet? && t.rep.length == 0 ==>
              Agree(t.master, t.slave) && (t.slave == t.master <==> "" !in t.master)
  {
    AttachedInv(s);
    RunKeepsInv(s, actions);
    var t := Final(s, actions);
    if Agree(t.master, t.slave) && "" !in t.master {
      AgreeingStoresEqual(t.master, t.slave);
    }
  }

  lemma AgreeingStoresEqual(a: Db, b: Db)
    requires Agree(a, b) && "" !in a && "" !in b
    ensures a == b
  {
    forall k ensures k in a <==> k in b {
      assert Look(a, k) == Look(b, k);
    }
    forall k | k in a ensures a[k] == b[k] {
      assert Look(a, k) == Look(b, k);
    }
  }
}
