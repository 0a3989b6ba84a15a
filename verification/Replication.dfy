/**
 The master's side of replication for one slave: a full-sync queue, a live queue, and the
 request handler that acknowledges a batch and sends the next one.
 */
module Replication {
  import opened Wire

  datatype OpType = ADD | DEL

  datatype Item = Item(name: string, kind: OpType, isSync: bool)

  const SYNC_NUM: nat := 2

  /** The value of a GentReplication object. */
  datatype Rep = Rep(status: int, isUpdateQue: bool, que: seq<Item>, mainQue: seq<Item>, length: int) {
    function Active(): seq<Item> { if isUpdateQue then que else mainQue }

    function WithActive(q: seq<Item>): Rep {
      if isUpdateQue then this.(que := q) else this.(mainQue := q)
    }

    /** Every queued item in the order in which it will be sent. */
    function Backlog(): seq<Item> { que + mainQue }

    ghost predicate Valid() {
      && length == |que| + |mainQue|
      && (status == 0 || status == 1)
      && (!isUpdateQue ==> que == [])
      && (isUpdateQue ==> Marked(mainQue) == 0 && MarksFormPrefix(mainQue))
      && MarksFormPrefix(Active())
      && Marked(Active()) <= SYNC_NUM
      && (status == 1 ==> Marked(Active()) > 0)
    }
  }

  /** The length of the leading run of marked items. */
  function Marked(q: seq<Item>): (n: nat)
    ensures n <= |q|
    ensures forall i :: 0 <= i < n ==> q[i].isSync
    ensures n < |q| ==> !q[n].isSync
  {
    if q == [] || !q[0].isSync then 0 else 1 + Marked(q[1..])
  }

  ghost predicate MarksFormPrefix(q: seq<Item>) {
    forall i :: Marked(q) <= i < |q| ==> !q[i].isSync
  }

  function MarkFirst(q: seq<Item>, n: nat): (r: seq<Item>)
    requires n <= |q|
    ensures |r| == |q|
    ensures forall i :: 0 <= i < |q| ==> r[i] == if i < n then q[i].(isSync := true) else q[i]
  {
    seq(|q|, i requires 0 <= i < |q| => if i < n then q[i].(isSync := true) else q[i])
  }

  /** What the send loop does with one item. */
  datatype Decision =
    | Flush                     // send the pairs gathered so far, leave this item unmarked
    | Alone(msg: Msg)           // send this item by itself and mark it
    | Gather(value: string)     // add this item to the mset command and mark it

  function Decide(it: Item, db: Db, now: nat, gathered: bool): Decision {
    if it.kind != ADD then
      if gathered then Flush else Alone(DelMsg(it.name))
    else if it.name !in db || (db[it.name].expire != 0 && db[it.name].expire < now) then
      if gathered then Flush else Alone(DelMsg(it.name))
    else if db[it.name].expire != 0 then
      if gathered then Flush
      else Alone(AddMsg(it.name, db[it.name].value, db[it.name].expire - now))
    else Gather(db[it.name].value)
  }

  /** Reply(ADD): a remaining life of 0 seconds selects the plain set command. */
  function AddMsg(key: string, value: string, ttl: nat): Msg {
    if ttl == 0 then SetMsg(key, value) else SetexMsg(key, ttl, value)
  }

  /** An item with the empty name is marked but adds no pair. */
  function AddPair(acc: seq<(string, string)>, key: string, value: string): seq<(string, string)> {
    if key != "" then acc + [(key, value)] else acc
  }

  /** The message built from the items at the head of the queue, and how many of them it marks. */
  function Batch(items: seq<Item>, db: Db, now: nat, acc: seq<(string, string)>): (r: (Msg, nat))
    ensures r.1 <= |items|
  {
    if items == [] then (MsetMsg(acc), 0)
    else
      match Decide(items[0], db, now, acc != [])
      case Flush => (MsetMsg(acc), 0)
      case Alone(msg) => (msg, 1)
      case Gather(value) =>
        var rest := Batch(items[1..], db, now, AddPair(acc, items[0].name, value));
        (rest.0, 1 + rest.1)
  }

  datatype Sent = Silent | Control(text: string) | Sends(msg: Msg) {
    function Text(): string {
      match this
      case Silent => ""
      case Control(text) => text
      case Sends(msg) => MsgText(msg)
    }
  }

  const AUTH_OK := "*2\r\n$5\r\nreply\r\n$6\r\nauthok\r\n"
  const AUTH_ERROR := "*2\r\n$5\r\nreply\r\n$9\r\nautherror\r\n"
  const CLOSE := "*2\r\n$5\r\nreply\r\n$5\r\nclose\r\n"

  function Min(a: nat, b: nat): nat { if a <= b then a else b }

  /** A run of marked items at the front leaves the active queue. */
  function PopSpec(r: Rep): Rep {
    var n := Marked(r.Active());
    r.WithActive(r.Active()[n..]).(length := r.length - n)
  }

  /** An exhausted full-sync queue hands over to the live queue. */
  function Refresh(r: Rep): Rep {
    if r.isUpdateQue && r.que == [] then r.(isUpdateQue := false) else r
  }

  function SendSpec(r: Rep, db: Db, now: nat): (Rep, Sent) {
    var q := r.Active();
    if q == [] then (r, Silent)
    else
      var (msg, n) := Batch(q[..Min(|q|, SYNC_NUM)], db, now, []);
      (r.WithActive(MarkFirst(q, n)).(status := 1), Sends(msg))
  }

  /** A request for more: "ok" also acknowledges the batch that is out. */
  function ServeSpec(r: Rep, ok: bool, db: Db, now: nat): (Rep, Sent) {
    var r1 := r.(status := 0);
    var r2 := if r.status == 1 && ok then PopSpec(r1) else r1;
    SendSpec(Refresh(r2), db, now)
  }

  function StartSpec(r: Rep, msg: string, db: Db, now: nat): (Rep, Sent) {
    if msg == "auth" then (r, Control(AUTH_OK))
    else if msg == "autherror" then (r, Control(AUTH_ERROR))
    else if msg != "ok" && msg != "data" then (r, Control(CLOSE))
    else ServeSpec(r, msg == "ok", db, now)
  }

  function PushSpec(r: Rep, kind: OpType, key: string): Rep {
    r.(mainQue := r.mainQue + [Item(key, kind, false)], length := r.length + 1)
  }

  class GentReplication {
    var isRun: bool
    var status: int
    var isUpdateQue: bool
    var que: seq<Item>
    var mainQue: seq<Item>
    var mainQueLength: int

    function State(): Rep
      reads this
    {
      Rep(status, isUpdateQue, que, mainQue, mainQueLength)
    }

    /** needSyncAll: the slave record asks for a full copy and the slave wants one.  When it does
        not, the source leaves the queue flag uninitialised, here the parameter flag. */
    constructor (needSyncAll: bool, keys: seq<string>, flag: bool)
      ensures isRun && State().Valid() && status == 0
      ensures mainQue == []
      ensures needSyncAll ==> isUpdateQue && que == seq(|keys|, i requires 0 <= i < |keys| => Item(keys[i], ADD, false))
      ensures !needSyncAll ==> que == []
    {
      isRun, status, mainQueLength, isUpdateQue := true, 0, 0, flag;
      que, mainQue := [], [];
      new;
      if needSyncAll {
        isUpdateQue := true;
        for i := 0 to |keys|
          invariant isRun && status == 0 && isUpdateQue && mainQue == [] && mainQueLength == i
          invariant que == seq(i, j requires 0 <= j < i => Item(keys[j], ADD, false))
        {
          que := que + [Item(keys[i], ADD, false)];
          mainQueLength := mainQueLength + 1;
        }
      }
    }

    method Push(kind: OpType, key: string, connected: bool) returns (wake: bool)
      requires State().Valid()
      modifies this
      ensures State() == if isRun then PushSpec(old(State()), kind, key) else old(State())
      ensures State().Valid() && isRun == old(isRun)
      ensures wake <==> isRun && connected && old(mainQueLength) == 0
    {
      if !isRun { return false; }
      ghost var was := State();
      mainQue := mainQue + [Item(key, kind, false)];
      wake := mainQueLength == 0 && connected;
      mainQueLength := mainQueLength + 1;
      PushKeepsValid(was, kind, key);
    }

    method Pop()
      requires Marked(State().Active()) <= SYNC_NUM
      modifies this`que, this`mainQue, this`mainQueLength
      ensures State() == PopSpec(old(State()))
    {
      var n;
      if !isUpdateQue {
        mainQue, n := PopMarked(mainQue);
      } else {
        que, n := PopMarked(que);
      }
      mainQueLength := mainQueLength - n;
    }

    method FrontNums(num: nat) returns (ok: bool, dat: seq<Item>)
      modifies this`isUpdateQue
      ensures State() == Refresh(old(State()))
      ensures ok <==> State().Active() != []
      ensures dat == State().Active()[..Min(|State().Active()|, num)]
    {
      if isUpdateQue && que == [] { isUpdateQue := false; }
      var q := State().Active();
      return q != [], q[..Min(|q|, num)];
    }

    method Start(msg: string, db: Db, now: nat) returns (sent: bool, outstr: string, ghost out: Sent)
      requires State().Valid()
      modifies this`status, this`isUpdateQue, this`que, this`mainQue, this`mainQueLength
      ensures (State(), out) == StartSpec(old(State()), msg, db, now)
      ensures outstr == out.Text() && (sent <==> !out.Silent?)
      ensures State().Valid()
    {
      if msg == "auth" { return true, AUTH_OK, Control(AUTH_OK); }
      if msg == "autherror" { return true, AUTH_ERROR, Control(AUTH_ERROR); }
      if msg != "ok" && msg != "data" { return true, CLOSE, Control(CLOSE); }
      ServeKeepsValid(State(), msg == "ok", db, now);
      sent, outstr, out := Serve(msg == "ok", db, now);
    }

    method Serve(ok: bool, db: Db, now: nat) returns (sent: bool, outstr: string, ghost out: Sent)
      requires Marked(State().Active()) <= SYNC_NUM && (status == 0 || status == 1)
      modifies this`status, this`isUpdateQue, this`que, this`mainQue, this`mainQueLength
      ensures (State(), out) == ServeSpec(old(State()), ok, db, now)
      ensures outstr == out.Text() && (sent <==> !out.Silent?)
    {
      hide Batch, MsgText, MarkFirst;
      if status == 1 {
        status := 0;
        if ok { Pop(); }
      }
      var some, syncData := FrontNums(SYNC_NUM);
      if !some { return false, "", Silent; }
      status := 1;
      sent, outstr, out := SendFront(syncData, db, now);
    }

    /** Prints the batch and writes its marks through to the active queue. */
    method SendFront(syncData: seq<Item>, db: Db, now: nat) returns (sent: bool, outstr: string, ghost out: Sent)
      requires syncData <= State().Active()
      modifies this`que, this`mainQue
      ensures sent && out == Sends(Batch(syncData, db, now, []).0) && outstr == out.Text()
      ensures State() == old(State()).WithActive(MarkFirst(old(State().Active()), Batch(syncData, db, now, []).1))
    {
      var marked: seq<Item>;
      ghost var m: Msg;
      outstr, marked, m := SendBatch(syncData, db, now);
      MarkThenRest(State().Active(), |syncData|, Batch(syncData, db, now, []).1);
      if isUpdateQue {
        que := marked + que[|marked|..];
      } else {
        mainQue := marked + mainQue[|marked|..];
      }
      return true, outstr, Sends(m);
    }
  }

  /** The loop that frees the acknowledged items at the front of a queue. */
  method PopMarked(q: seq<Item>) returns (rest: seq<Item>, n: nat)
    requires Marked(q) <= SYNC_NUM
    ensures n == Marked(q) && rest == q[n..]
  {
    rest, n := q, 0;
    var num, max := 1, SYNC_NUM * 2;
    while num <= max
      invariant num == n + 1 && n <= Marked(q) && rest == q[n..]
    {
      if rest == [] || !rest[0].isSync { break; }
      rest, n, num := rest[1..], n + 1, num + 1;
    }
  }

  /** Prints the batch and marks the items it covers. */
  method SendBatch(syncData: seq<Item>, db: Db, now: nat) returns (outstr: string, marked: seq<Item>, ghost msg: Msg)
    ensures msg == Batch(syncData, db, now, []).0
    ensures outstr == MsgText(msg)
    ensures marked == MarkFirst(syncData, Batch(syncData, db, now, []).1)
  {
    hide MsetHeader, ItemText, DelText, Batch, MarkFirst;
    ghost var acc := [];
    outstr, marked := "", syncData;
    var msetNum := 0;
    for i := 0 to |syncData|
      invariant marked == MarkFirst(syncData, i)
      invariant msetNum == |acc| && outstr == ItemsText(acc)
      invariant Batch(syncData, db, now, []) ==
                (Batch(syncData[i..], db, now, acc).0, i + Batch(syncData[i..], db, now, acc).1)
    {
      MarkOneMore(syncData, i);
      BatchEnds(syncData, i, db, now, acc);
      var it := syncData[i];
      match Decide(it, db, now, msetNum != 0) {
        case Flush =>
          return MsetHeader(msetNum) + outstr, marked, MsetMsg(acc);
        case Alone(m) =>
          return MsgText(m), marked[i := it.(isSync := true)], m;
        case Gather(nr) =>
          if it.name != "" {
            ItemsTextSnoc(acc, it.name, nr);
            outstr := outstr + ItemText(it.name, nr);
            msetNum := msetNum + 1;
          }
          BatchGathers(syncData, i, db, now, acc);
          acc := AddPair(acc, it.name, nr);
          marked := marked[i := it.(isSync := true)];
      }
    }
    BatchEnds(syncData, |syncData|, db, now, acc);
    outstr := MsetHeader(msetNum) + outstr;
    msg := MsetMsg(acc);
  }

  /** Where the loop over the items stops. */
  lemma BatchEnds(items: seq<Item>, i: nat, db: Db, now: nat, acc: seq<(string, string)>)
    requires i <= |items|
    ensures i == |items| || Decide(items[i], db, now, acc != []).Flush? ==>
              Batch(items[i..], db, now, acc) == (MsetMsg(acc), 0)
    ensures i < |items| && Decide(items[i], db, now, acc != []).Alone? ==>
              Batch(items[i..], db, now, acc) == (Decide(items[i], db, now, acc != []).msg, 1)
  {
  }

  lemma BatchGathers(items: seq<Item>, i: nat, db: Db, now: nat, acc: seq<(string, string)>)
    requires i < |items| && Decide(items[i], db, now, acc != []).Gather?
    ensures var b := Batch(items[i + 1..], db, now,
                           AddPair(acc, items[i].name, Decide(items[i], db, now, acc != []).value));
            Batch(items[i..], db, now, acc) == (b.0, 1 + b.1)
  {
  }

  lemma MarkThenRest(q: seq<Item>, k: nat, n: nat)
    requires n <= k <= |q|
    ensures MarkFirst(q[..k], n) + q[k..] == MarkFirst(q, n)
  {
  }

  lemma {:induction false} MarkOneMore(q: seq<Item>, n: nat)
    requires n < |q|
    ensures MarkFirst(q, n)[n] == q[n]
    ensures MarkFirst(q, n + 1) == MarkFirst(q, n)[n := q[n].(isSync := true)]
  {
  }

  /** Marks are determined by any position that splits marked from unmarked items. */
  lemma {:induction false} MarkedIs(q: seq<Item>, n: nat)
    requires n <= |q|
    requires forall i :: 0 <= i < n ==> q[i].isSync
    requires n < |q| ==> !q[n].isSync
    ensures Marked(q) == n
  {
  }

  lemma PushKeepsValid(r: Rep, kind: OpType, key: string)
    requires r.Valid()
    ensures PushSpec(r, kind, key).Valid()
  {
    MarkedIs(PushSpec(r, kind, key).mainQue, Marked(r.mainQue));
  }

  /** An acknowledged batch leaves no mark behind. */
  lemma PopClearsMarks(r: Rep)
    requires r.Valid()
    ensures PopSpec(r).(status := 0).Valid()
    ensures Marked(PopSpec(r).Active()) == 0
  {
  }

  /** Whatever heads the queue, a batch covers at least one item. */
  lemma BatchProgress(items: seq<Item>, db: Db, now: nat)
    requires items != []
    ensures 1 <= Batch(items, db, now, []).1 <= |items|
  {
  }

  lemma MarkingKeepsValid(r: Rep, n: nat)
    requires r.Valid() && r.status == 0
    requires 1 <= n <= |r.Active()| && n <= SYNC_NUM
    ensures r.WithActive(MarkFirst(r.Active(), n)).(status := 1).Valid()
  {
    var q := r.Active();
    MarkedIs(MarkFirst(q, n), if n < Marked(q) then Marked(q) else n);
  }

  lemma SendKeepsValid(r: Rep, db: Db, now: nat)
    requires r.Valid() && r.status == 0
    ensures SendSpec(r, db, now).0.Valid()
  {
    hide Batch, MarkFirst, MarksFormPrefix, Marked;
    var q := r.Active();
    if q != [] {
      var items := q[..Min(|q|, SYNC_NUM)];
      BatchProgress(items, db, now);
      MarkingKeepsValid(r, Batch(items, db, now, []).1);
    }
  }

  lemma ServeKeepsValid(r: Rep, ok: bool, db: Db, now: nat)
    requires r.Valid()
    ensures ServeSpec(r, ok, db, now).0.Valid()
  {
    var r1 := r.(status := 0);
    PopClearsMarks(r1);
    var r2 := if r.status == 1 && ok then PopSpec(r1) else r1;
    SendKeepsValid(Refresh(r2), db, now);
  }
}
