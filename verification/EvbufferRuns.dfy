/** Whole runs over several buffers against plain byte strings. */
module EvbufferRuns {
  import opened Evbuffer

  /** Operations on one buffer. */
  datatype Act = Add(bytes: string) | Prepend(bytes: string) | Drain(len: nat) | Pullup(want: int) | Copyout(len: nat)

  /** An operation on the buffer with number at, or one that moves all of buffer from into it. */
  datatype Op = On(at: nat, act: Act) | AddBuffer(at: nat, from: nat) | PrependBuffer(at: nat, from: nat) {
    /** The buffers it names exist. */
    predicate In(n: nat) { at < n && (!On? ==> from < n) }
  }

  /** What an operation hands out: nothing, or the bytes it copied or made contiguous. */
  datatype Answer = Nothing | Bytes(bytes: string)

  /** The effect and the answer of an operation on a plain byte string. */
  function FlatAct(s: string, act: Act): (string, Answer) {
    match act
    case Add(bytes) => (s + bytes, Nothing)
    case Prepend(bytes) => (bytes + s, Nothing)
    case Drain(len) => (if len < |s| then s[len..] else "", Nothing)
    case Pullup(want) =>
      var size := if want < 0 then |s| else want;
      (s, if 0 < size <= |s| then Bytes(s[..size]) else Nothing)
    case Copyout(len) => (s, Bytes(if len < |s| then s[..len] else s))
  }

  function FlatOp(flats: seq<string>, op: Op): (r: (seq<string>, Answer))
    requires op.In(|flats|)
    ensures |r.0| == |flats|
  {
    match op
    case On(at, act) => var (s, a) := FlatAct(flats[at], act); (flats[at := s], a)
    case AddBuffer(at, from) =>
      (if at == from then flats else flats[at := flats[at] + flats[from]][from := ""], Nothing)
    case PrependBuffer(at, from) =>
      (if at == from then flats else flats[at := flats[from] + flats[at]][from := ""], Nothing)
  }

  ghost predicate AllIn(ops: seq<Op>, n: nat) { forall i :: 0 <= i < |ops| ==> ops[i].In(n) }

  ghost function FlatRun(n: nat, ops: seq<Op>): (r: (seq<string>, seq<Answer>))
    requires AllIn(ops, n)
    ensures |r.0| == n
  {
    if ops == [] then (seq(n, _ => ""), [])
    else
      var before := FlatRun(n, ops[..|ops| - 1]);
      var (flats, a) := FlatOp(before.0, ops[|ops| - 1]);
      (flats, before.1 + [a])
  }

  /** A buffer in good order that holds the given bytes. */
  ghost predicate Good(b: EvBuffer, flat: string)
    reads b
  {
    b.Valid() && Tidy(b.chains, b.lwd) && !b.freezeStart && !b.freezeEnd && b.Contents() == flat
  }

  ghost predicate Distinct(bs: seq<EvBuffer>) { forall i, j :: 0 <= i < j < |bs| ==> bs[i] != bs[j] }

  ghost predicate Hold(bs: seq<EvBuffer>, flats: seq<string>)
    reads bs
  {
    |bs| == |flats| && forall i :: 0 <= i < |bs| ==> Good(bs[i], flats[i])
  }

  method Perform(b: EvBuffer, act: Act, ghost flat: string) returns (a: Answer)
    requires Good(b, flat)
    modifies b
    ensures Good(b, FlatAct(flat, act).0) && a == FlatAct(flat, act).1
  {
    hide Flat, LastWithData, AddSpec, AddsRight;
    a := Nothing;
    var r, ok;
    match act {
      case Add(bytes) => r := b.Add(bytes);
      case Prepend(bytes) => r := b.Prepend(bytes);
      case Drain(len) => r := b.Drain(len);
      case Pullup(want) =>
        ok := b.Pullup(want);
        if ok { a := Bytes(b.chains[0].Data()[..if want < 0 then b.totalLen else want]); }
      case Copyout(len) =>
        var bytes;
        ok, bytes := b.Copyout(len);
        a := Bytes(bytes);
    }
  }

  /** Moving all of one buffer into another, in front or behind. */
  method Move(b: EvBuffer, other: EvBuffer, front: bool, ghost flat: string, ghost more: string)
    requires b != other && Good(b, flat) && Good(other, more)
    modifies b, other
    ensures Good(b, if front then more + flat else flat + more) && Good(other, "")
  {
    hide Flat, LastWithData;
    assert "" + flat == flat && flat + "" == flat;
    var r;
    if front { r := b.PrependBuffer(other); } else { r := b.AddBuffer(other); }
  }

  method PerformOn(bs: seq<EvBuffer>, op: Op, ghost flats: seq<string>) returns (a: Answer)
    requires Distinct(bs) && Hold(bs, flats) && op.In(|bs|)
    modifies bs
    ensures Hold(bs, FlatOp(flats, op).0) && a == FlatOp(flats, op).1
  {
    hide Good;
    a := Nothing;
    match op {
      case On(at, act) => a := Perform(bs[at], act, flats[at]);
      case AddBuffer(at, from) =>
        if at == from {
          Itself(bs[at], false, flats[at]);
        } else {
          Move(bs[at], bs[from], false, flats[at], flats[from]);
        }
      case PrependBuffer(at, from) =>
        if at == from {
          Itself(bs[at], true, flats[at]);
        } else {
          Move(bs[at], bs[from], true, flats[at], flats[from]);
        }
    }
  }

  /** Moving a buffer into itself changes nothing. */
  method Itself(b: EvBuffer, front: bool, ghost flat: string)
    requires Good(b, flat)
    modifies b
    ensures Good(b, flat)
  {
    hide Flat, LastWithData;
    var r;
    if front { r := b.PrependBuffer(b); } else { r := b.AddBuffer(b); }
  }

  method NewBuffers(n: nat) returns (bs: seq<EvBuffer>)
    ensures |bs| == n && Distinct(bs) && fresh(bs) && Hold(bs, seq(n, _ => ""))
  {
    hide Good;
    bs := [];
    for i := 0 to n
      invariant |bs| == i && Distinct(bs) && fresh(bs)
      invariant forall k :: 0 <= k < i ==> Good(bs[k], "")
    {
      var b := NewBuffer();
      bs := bs + [b];
    }
  }

  method NewBuffer() returns (b: EvBuffer)
    ensures fresh(b) && Good(b, "")
  {
    b := new EvBuffer();
  }

  /** Every run over any number of buffers has exactly the flat effect and gives the flat answers, with
      each stored length right and each pointer on the last chain with data. */
  method RunAll(n: nat, ops: seq<Op>) returns (bs: seq<EvBuffer>, answers: seq<Answer>)
    requires AllIn(ops, n)
    ensures |bs| == n && answers == FlatRun(n, ops).1
    ensures forall i :: 0 <= i < n ==>
              && bs[i].Valid() && Tidy(bs[i].chains, bs[i].lwd)
              && bs[i].Contents() == FlatRun(n, ops).0[i] && bs[i].totalLen == |FlatRun(n, ops).0[i]|
  {
    bs := NewBuffers(n);
    answers := [];
    for i := 0 to |ops|
      invariant |bs| == n && Distinct(bs) && fresh(bs)
      invariant Hold(bs, FlatRun(n, ops[..i]).0) && answers == FlatRun(n, ops[..i]).1
    {
      assert ops[..i + 1][..i] == ops[..i];
      var a := PerformOn(bs, ops[i], FlatRun(n, ops[..i]).0);
      answers := answers + [a];
    }
    assert ops[..|ops|] == ops;
  }
}
