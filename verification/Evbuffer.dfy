/**
 The chunked byte buffer of libevent.  The linked list of chains is a sequence; a pointer to a
 'next' field is the index of the chain it leads to, so that &buf->first is 0 and &chain->next is
 one more than the index of the chain.
 */
module Evbuffer {
  import opened Basics

  // ---------- chains ----------

  /** A chain: its memory, the unused bytes in front and the bytes in use. */
  datatype Chain = Chain(buffer: string, misalign: nat, off: nat) {
    ghost predicate Valid() { |buffer| > 0 && misalign + off <= |buffer| }

    function Data(): string
      requires misalign + off <= |buffer|
    {
      buffer[misalign..misalign + off]
    }

    function Room(): int { |buffer| - misalign - off }
  }

  /** Memory with bytes written at a position. */
  function Write(m: string, at: nat, bytes: string): (r: string)
    requires at + |bytes| <= |m|
    ensures |r| == |m| && r[at..at + |bytes|] == bytes
    ensures r[..at] == m[..at] && r[at + |bytes|..] == m[at + |bytes|..]
  {
    m[..at] + bytes + m[at + |bytes|..]
  }

  function Append(c: Chain, bytes: string): (r: Chain)
    requires c.Valid() && |bytes| <= c.Room()
    ensures r.Valid() && r.Data() == c.Data() + bytes && r.Room() == c.Room() - |bytes|
    ensures r.off == c.off + |bytes|
  {
    var r := Chain(Write(c.buffer, c.misalign + c.off, bytes), c.misalign, c.off + |bytes|);
    assert r.buffer[c.misalign..c.misalign + c.off] == c.Data();
    assert r.Data() == r.buffer[c.misalign..c.misalign + c.off] + bytes;
    r
  }

  function PutFront(c: Chain, bytes: string): (r: Chain)
    requires c.Valid() && |bytes| <= c.misalign
    ensures r.Valid() && r.Data() == bytes + c.Data()
    ensures r.off == c.off + |bytes| && r.misalign == c.misalign - |bytes|
  {
    var at := c.misalign - |bytes|;
    var r := Chain(Write(c.buffer, at, bytes), at, c.off + |bytes|);
    assert r.buffer[c.misalign..c.misalign + c.off] == c.Data();
    assert r.Data() == bytes + r.buffer[c.misalign..c.misalign + c.off];
    r
  }

  /** evbuffer_chain_align */
  function Align(c: Chain): (r: Chain)
    requires c.Valid()
    ensures r.Valid() && r.Data() == c.Data() && r.misalign == 0 && |r.buffer| == |c.buffer|
  {
    Chain(Write(c.buffer, 0, c.Data()), 0, c.off)
  }

  const MAX_TO_REALIGN := 2048

  predicate ShouldRealign(c: Chain, n: nat) {
    |c.buffer| - c.off >= n && c.off < |c.buffer| / 2 && c.off <= MAX_TO_REALIGN
  }

  /** Bytes taken from the front. */
  function Skip(c: Chain, n: nat): (r: Chain)
    requires c.Valid() && n <= c.off
    ensures r.Valid() && r.Data() == c.Data()[n..] && r.off == c.off - n
  {
    Chain(c.buffer, c.misalign + n, c.off - n)
  }

  const MIN_BUFFER_SIZE := 1024
  const CHAIN_SIZE := 48

  function Doubled(n: nat, wanted: nat): (r: nat)
    requires n > 0
    ensures r >= wanted && r >= n && (r == n || r < 2 * wanted)
    decreases wanted - n
  {
    if n >= wanted then n else Doubled(2 * n, wanted)
  }

  /** evbuffer_chain_new: the least doubling of the minimum that holds the header and the data. */
  function NewChain(size: nat): (c: Chain)
    ensures c.Valid() && c.misalign == 0 && c.off == 0 && size <= |c.buffer| && c.Data() == ""
  {
    Chain(seq(Doubled(MIN_BUFFER_SIZE, size + CHAIN_SIZE) - CHAIN_SIZE, _ => '\0'), 0, 0)
  }

  lemma {:induction false} DoubledIs(n: nat, wanted: nat) returns (k: nat)
    requires n > 0
    ensures Doubled(n, wanted) == n * Pow2(k)
    ensures k > 0 ==> n * Pow2(k - 1) < wanted
    decreases wanted - n
  {
    if n >= wanted {
      k := 0;
    } else {
      var j := DoubledIs(2 * n, wanted);
      k := j + 1;
      TwiceTimes(n, Pow2(j));
      if j > 0 { TwiceTimes(n, Pow2(j - 1)); }
    }
  }

  lemma TwiceTimes(a: nat, b: nat)
    ensures 2 * a * b == a * (2 * b)
  {
  }

  /** The size of a new chain with its header is the least doubling of the minimum that is enough. */
  lemma LeastDoubling(size: nat) returns (k: nat)
    ensures |NewChain(size).buffer| + CHAIN_SIZE == MIN_BUFFER_SIZE * Pow2(k) >= size + CHAIN_SIZE
    ensures k > 0 ==> MIN_BUFFER_SIZE * Pow2(k - 1) < size + CHAIN_SIZE
  {
    k := DoubledIs(MIN_BUFFER_SIZE, size + CHAIN_SIZE);
  }

  method AllocateChain(size: nat) returns (c: Chain)
    ensures c == NewChain(size)
  {
    var wanted := size + CHAIN_SIZE;
    var toAlloc := MIN_BUFFER_SIZE;
    while toAlloc < wanted
      invariant toAlloc >= MIN_BUFFER_SIZE
      invariant Doubled(toAlloc, wanted) == Doubled(MIN_BUFFER_SIZE, wanted)
    {
      toAlloc := 2 * toAlloc;
    }
    c := Chain(seq(toAlloc - CHAIN_SIZE, _ => '\0'), 0, 0);
  }

  // ---------- sequences of chains ----------

  ghost predicate AllValid(chains: seq<Chain>) {
    forall i :: 0 <= i < |chains| ==> chains[i].Valid()
  }

  function Flat(chains: seq<Chain>): string
    requires AllValid(chains)
  {
    if chains == [] then "" else chains[0].Data() + Flat(chains[1..])
  }

  lemma {:induction false} FlatConcat(a: seq<Chain>, b: seq<Chain>)
    requires AllValid(a) && AllValid(b)
    ensures AllValid(a + b) && Flat(a + b) == Flat(a) + Flat(b)
    decreases |a|
  {
    if a == [] {
      assert a + b == b;
    } else {
      assert (a + b)[1..] == a[1..] + b;
      FlatConcat(a[1..], b);
    }
  }

  lemma FlatOne(c: Chain)
    requires c.Valid()
    ensures Flat([c]) == c.Data()
  {
    assert [c][1..] == [];
  }

  lemma FlatCons(c: Chain, rest: seq<Chain>)
    requires c.Valid() && AllValid(rest)
    ensures AllValid([c] + rest) && Flat([c] + rest) == c.Data() + Flat(rest)
  {
    assert ([c] + rest)[1..] == rest;
  }

  lemma FlatSplit(chains: seq<Chain>, i: nat)
    requires AllValid(chains) && i <= |chains|
    ensures Flat(chains) == Flat(chains[..i]) + Flat(chains[i..])
  {
    assert chains == chains[..i] + chains[i..];
    FlatConcat(chains[..i], chains[i..]);
  }

  lemma {:induction false} FlatEmpties(chains: seq<Chain>)
    requires AllValid(chains) && forall i :: 0 <= i < |chains| ==> chains[i].off == 0
    ensures Flat(chains) == ""
    decreases |chains|
  {
    if chains != [] { FlatEmpties(chains[1..]); }
  }

  /** The last chain that holds data, or the first one. */
  ghost predicate LastWithData(chains: seq<Chain>, lwd: nat) {
    if chains == [] then lwd == 0
    else
      && lwd < |chains|
      && (lwd > 0 ==> chains[lwd].off > 0)
      && forall i :: lwd < i < |chains| ==> chains[i].off == 0
  }

  /** No chain follows the last one with data. */
  ghost predicate Tidy(chains: seq<Chain>, lwd: nat) { chains == [] || lwd == |chains| - 1 }

  // ---------- adding at the end ----------

  /** A list of chains with its pointer. */
  datatype List = List(chains: seq<Chain>, lwd: nat) {
    ghost predicate Valid() { AllValid(chains) && LastWithData(chains, lwd) }
  }

  function FirstEmpty(chains: seq<Chain>, i: nat): (r: nat)
    requires i <= |chains|
    ensures i <= r <= |chains|
    ensures r < |chains| ==> chains[r].off == 0
    ensures forall j :: i <= j < r ==> chains[j].off != 0
    decreases |chains| - i
  {
    if i == |chains| || chains[i].off == 0 then i else FirstEmpty(chains, i + 1)
  }

  /** evbuffer_chain_insert */
  function InsertSpec(l: List, c: Chain): List
    requires l.lwd <= |l.chains|
  {
    if l.lwd == |l.chains| then List([c], l.lwd)
    else
      var ch := FirstEmpty(l.chains, l.lwd);
      if ch == |l.chains| then List(l.chains + [c], if c.off > 0 then |l.chains| else l.lwd)
      else List(l.chains[..ch] + [c], l.lwd)
  }

  const MAX_AUTO_SIZE := 4096

  function GrowTo(c: Chain, n: nat): nat {
    var size := if |c.buffer| <= MAX_AUTO_SIZE / 2 then 2 * |c.buffer| else |c.buffer|;
    if n > size then n else size
  }

  predicate FitsLast(c: Chain, n: nat) { c.Room() >= n || ShouldRealign(c, n) }

  function PutIn(c: Chain, bytes: string): (r: Chain)
    requires c.Valid() && FitsLast(c, |bytes|)
    ensures r.Valid() && r.Data() == c.Data() + bytes && r.off == c.off + |bytes|
  {
    if c.Room() >= |bytes| then Append(c, bytes) else Append(Align(c), bytes)
  }

  /** evbuffer_add: into the last chain of the list, or into it and a new chain. */
  function AddSpec(l: List, bytes: string): List
    requires AllValid(l.chains) && l.lwd <= |l.chains|
  {
    var l0 := if l.chains == [] then InsertSpec(l, NewChain(|bytes|)) else l;
    var last := |l0.chains| - 1;
    var c := l0.chains[last];
    if FitsLast(c, |bytes|) then l0.(chains := l0.chains[last := PutIn(c, bytes)])
    else
      var room := c.Room();
      var tmp := Append(NewChain(GrowTo(c, |bytes|)), bytes[room..]);
      InsertSpec(l0.(chains := l0.chains[last := Append(c, bytes[..room])]), tmp)
  }

  lemma FlatLast(chains: seq<Chain>, c: Chain)
    requires AllValid(chains) && chains != [] && c.Valid()
    ensures AllValid(chains[|chains| - 1 := c])
    ensures Flat(chains[|chains| - 1 := c]) == Flat(chains[..|chains| - 1]) + c.Data()
    ensures Flat(chains) == Flat(chains[..|chains| - 1]) + chains[|chains| - 1].Data()
  {
    var n := |chains| - 1;
    FlatSplit(chains, n);
    FlatOne(chains[n]);
    FlatConcat(chains[..n], [c]);
    FlatOne(c);
    assert chains[n..] == [chains[n]] && chains[n := c] == chains[..n] + [c];
  }

  /** On a tidy list adding appends the bytes and keeps the pointer on the last chain with data. */
  lemma AddKeeps(l: List, bytes: string)
    requires l.Valid() && Tidy(l.chains, l.lwd)
    ensures var r := AddSpec(l, bytes);
            && r.Valid() && Tidy(r.chains, r.lwd)
            && Flat(r.chains) == Flat(l.chains) + bytes
  {
    if l.chains == [] {
      var c := NewChain(|bytes|);
      FlatOne(c);
      FlatOne(PutIn(c, bytes));
      assert AddSpec(l, bytes) == List([PutIn(c, bytes)], 0);
    } else {
      AddToLast(l, bytes);
    }
  }

  lemma InsertKeeps(l: List, c: Chain)
    requires l.Valid() && l.chains != [] && l.lwd == |l.chains| - 1 && c.Valid()
    ensures var r := InsertSpec(l, c);
            && r.Valid() && (c.off > 0 ==> Tidy(r.chains, r.lwd))
            && Flat(r.chains) == Flat(l.chains) + c.Data()
  {
    hide Flat;
    FlatOne(c);
    var last := |l.chains| - 1;
    if l.chains[last].off == 0 {
      assert last == 0 && FirstEmpty(l.chains, 0) == 0 && l.chains[..0] + [c] == [c];
      FlatEmpties(l.chains);
    } else {
      assert FirstEmpty(l.chains, last) == |l.chains|;
      FlatConcat(l.chains, [c]);
    }
  }

  /** A tidy list stays one when its last chain gets more bytes. */
  lemma GrowLast(l: List, c: Chain, bytes: string)
    requires l.Valid() && l.chains != [] && l.lwd == |l.chains| - 1 && c.Valid()
    requires c.Data() == l.chains[l.lwd].Data() + bytes && c.off == l.chains[l.lwd].off + |bytes|
    ensures var r := l.(chains := l.chains[l.lwd := c]);
            && r.Valid() && Flat(r.chains) == Flat(l.chains) + bytes
  {
    hide Flat;
    FlatLast(l.chains, c);
  }

  lemma AddToLast(l: List, bytes: string)
    requires l.Valid() && l.chains != [] && l.lwd == |l.chains| - 1
    ensures var r := AddSpec(l, bytes);
            && r.Valid() && Tidy(r.chains, r.lwd)
            && Flat(r.chains) == Flat(l.chains) + bytes
  {
    hide Flat, Append, PutIn, NewChain, InsertSpec, LastWithData;
    var c := l.chains[l.lwd];
    if FitsLast(c, |bytes|) {
      GrowLast(l, PutIn(c, bytes), bytes);
    } else {
      var room := c.Room();
      var c' := Append(c, bytes[..room]);
      var tmp := Append(NewChain(GrowTo(c, |bytes|)), bytes[room..]);
      GrowLast(l, c', bytes[..room]);
      InsertKeeps(l.(chains := l.chains[l.lwd := c']), tmp);
      assert bytes[..room] + bytes[room..] == bytes;
    }
  }

  // ---------- empty chains behind the data ----------

  /** What adding is for: the bytes are appended and the pointer is on the last chain with data. */
  ghost predicate AddsRight(l: List, bytes: string)
    requires l.Valid()
  {
    var r := AddSpec(l, bytes);
    r.Valid() && Flat(r.chains) == Flat(l.chains) + bytes
  }

  /** With empty chains behind the data (as reserving space leaves them) adding goes to the last chain
      of the list, not to the last one with data.  It comes out right exactly when the bytes overflow
      that chain and either it has no room and nothing is stored at all, or it has room and is the only
      empty chain behind stored data. */
  lemma AddExact(l: List, bytes: string)
    requires l.Valid() && bytes != "" && l.lwd + 1 < |l.chains|
    ensures var last := l.chains[|l.chains| - 1];
            AddsRight(l, bytes) <==>
            && !FitsLast(last, |bytes|)
            && if last.Room() == 0 then l.chains[l.lwd].off == 0
               else l.lwd + 2 == |l.chains| && l.chains[l.lwd].off > 0
  {
    var c := l.chains[|l.chains| - 1];
    if FitsLast(c, |bytes|) {
      FitsMisplaced(l, bytes);
    } else if c.Room() == 0 {
      FullLast(l, bytes);
    } else {
      RoomyLast(l, bytes);
    }
  }

  lemma FitsMisplaced(l: List, bytes: string)
    requires l.Valid() && bytes != "" && l.lwd + 1 < |l.chains|
    requires FitsLast(l.chains[|l.chains| - 1], |bytes|)
    ensures !LastWithData(AddSpec(l, bytes).chains, AddSpec(l, bytes).lwd)
  {
    hide PutIn;
    var last := |l.chains| - 1;
    assert AddSpec(l, bytes).chains[last].off > 0;
  }

  /** The list after the overflow of its last chain. */
  lemma Overflows(l: List, bytes: string, full: seq<Chain>, tmp: Chain)
    requires l.Valid() && l.lwd + 1 < |l.chains| && !FitsLast(l.chains[|l.chains| - 1], |bytes|)
    requires var c := l.chains[|l.chains| - 1];
             && full == l.chains[|l.chains| - 1 := Append(c, bytes[..c.Room()])]
             && tmp == Append(NewChain(GrowTo(c, |bytes|)), bytes[c.Room()..])
    ensures AddSpec(l, bytes) == InsertSpec(List(full, l.lwd), tmp)
  {
  }

  lemma FullLast(l: List, bytes: string)
    requires l.Valid() && l.lwd + 1 < |l.chains|
    requires var c := l.chains[|l.chains| - 1]; !FitsLast(c, |bytes|) && c.Room() == 0
    ensures AddsRight(l, bytes) <==> l.chains[l.lwd].off == 0
  {
    hide Flat, Append, NewChain;
    var last := |l.chains| - 1;
    var c := l.chains[last];
    var full := l.chains[last := Append(c, bytes[..0])];
    var tmp := Append(NewChain(GrowTo(c, |bytes|)), bytes[0..]);
    assert bytes[..c.Room()] == bytes[..0] && bytes[c.Room()..] == bytes[0..];
    Overflows(l, bytes, full, tmp);
    if l.chains[l.lwd].off == 0 {
      assert FirstEmpty(full, l.lwd) == 0 && full[..0] + [tmp] == [tmp];
      FlatEmpties(l.chains);
      FlatOne(tmp);
      assert "" + bytes == bytes[0..];
    } else {
      VictimMisplaced(full, l.lwd, tmp);
    }
  }

  lemma RoomyLast(l: List, bytes: string)
    requires l.Valid() && l.lwd + 1 < |l.chains|
    requires var c := l.chains[|l.chains| - 1]; !FitsLast(c, |bytes|) && c.Room() > 0
    ensures AddsRight(l, bytes) <==> l.lwd + 2 == |l.chains| && l.chains[l.lwd].off > 0
  {
    hide Flat, Append, NewChain, AddSpec, InsertSpec, ShouldRealign;
    var last := |l.chains| - 1;
    var c := l.chains[last];
    var room := c.Room();
    var c' := Append(c, bytes[..room]);
    var tmp := Append(NewChain(GrowTo(c, |bytes|)), bytes[room..]);
    Overflows(l, bytes, l.chains[last := c'], tmp);
    assert c.Valid() && c.off == 0;
    OverflowParts(c, bytes);
    RoomyInsert(l, c', tmp, bytes[..room], bytes[room..]);
  }

  /** What goes into the old chain, which was empty, and into the new one. */
  lemma OverflowParts(c: Chain, bytes: string)
    requires c.Valid() && c.off == 0 && !FitsLast(c, |bytes|) && c.Room() > 0
    ensures var room := c.Room();
            var c', tmp := Append(c, bytes[..room]), Append(NewChain(GrowTo(c, |bytes|)), bytes[room..]);
            && room < |bytes| && bytes[..room] + bytes[room..] == bytes
            && c'.Valid() && c'.off > 0 && c'.Data() == bytes[..room]
            && tmp.Valid() && tmp.off > 0 && tmp.Data() == bytes[room..]
  {
    hide NewChain, ShouldRealign;
    assert c.Data() == "" && "" + bytes[..c.Room()] == bytes[..c.Room()];
    assert "" + bytes[c.Room()..] == bytes[c.Room()..];
  }

  lemma RoomyInsert(l: List, c: Chain, tmp: Chain, head: string, tail: string)
    requires l.Valid() && l.lwd + 1 < |l.chains|
    requires c.Valid() && c.Data() == head && c.off > 0 && tmp.Valid() && tmp.Data() == tail && tmp.off > 0
    ensures var r := InsertSpec(List(l.chains[|l.chains| - 1 := c], l.lwd), tmp);
            r.Valid() && Flat(r.chains) == Flat(l.chains) + (head + tail)
            <==> l.lwd + 2 == |l.chains| && l.chains[l.lwd].off > 0
  {
    hide Flat, InsertSpec;
    var full := l.chains[|l.chains| - 1 := c];
    if l.chains[l.lwd].off == 0 {
      FlatEmpties(l.chains);
      FirstReplaced(full, l.lwd, tmp);
      assert |tail| < |"" + (head + tail)|;
    } else if l.lwd + 2 < |l.chains| {
      VictimMisplaced(full, l.lwd, tmp);
    } else {
      OverflowAppends(l, c, tmp, head, tail);
    }
  }

  /** An empty first chain is replaced together with everything behind it. */
  lemma FirstReplaced(chains: seq<Chain>, lwd: nat, c: Chain)
    requires lwd == 0 && chains != [] && chains[0].off == 0 && c.Valid()
    ensures InsertSpec(List(chains, lwd), c) == List([c], 0) && Flat([c]) == c.Data()
  {
    assert FirstEmpty(chains, 0) == 0 && chains[..0] + [c] == [c];
    FlatOne(c);
  }

  /** A chain with data that replaces an empty one behind the pointer is not pointed to. */
  lemma VictimMisplaced(chains: seq<Chain>, lwd: nat, c: Chain)
    requires lwd + 1 < |chains| && chains[lwd].off > 0 && chains[lwd + 1].off == 0 && c.off > 0
    ensures var r := InsertSpec(List(chains, lwd), c); !LastWithData(r.chains, r.lwd)
  {
    assert FirstEmpty(chains, lwd) == lwd + 1;
    assert InsertSpec(List(chains, lwd), c).chains[lwd + 1].off > 0;
  }

  lemma OverflowAppends(l: List, c: Chain, tmp: Chain, head: string, tail: string)
    requires l.Valid() && l.lwd + 2 == |l.chains| && l.chains[l.lwd].off > 0
    requires c.Valid() && c.Data() == head && c.off > 0 && tmp.Valid() && tmp.Data() == tail && tmp.off > 0
    ensures var r := InsertSpec(List(l.chains[l.lwd + 1 := c], l.lwd), tmp);
            r.Valid() && Flat(r.chains) == Flat(l.chains) + (head + tail)
  {
    hide Flat;
    var full := l.chains[l.lwd + 1 := c];
    assert FirstEmpty(full, l.lwd) == |full|;
    FlatLast(l.chains, c);
    FlatConcat(full, [tmp]);
    FlatOne(tmp);
  }

  // ---------- adding in front ----------

  /** An empty chain counts as empty at the beginning. */
  function FreeFront(c: Chain): (r: Chain)
    requires c.Valid()
    ensures r.Valid() && r.Data() == c.Data() && r.off == c.off && |r.buffer| == |c.buffer|
    ensures r.off == 0 ==> r.misalign == |r.buffer|
  {
    if c.off == 0 then c.(misalign := |c.buffer|) else c
  }

  /** A new chain that holds the bytes at its end. */
  function FullAtEnd(bytes: string): (c: Chain)
    ensures c.Valid() && c.Data() == bytes && c.off == |bytes|
  {
    PutFront(FreeFront(NewChain(|bytes|)), bytes)
  }

  /** evbuffer_prepend */
  function PrependSpec(l: List, bytes: string): List
    requires AllValid(l.chains) && l.lwd <= |l.chains|
  {
    var l0 := if l.chains == [] then InsertSpec(l, NewChain(|bytes|)) else l;
    var c := FreeFront(l0.chains[0]);
    if c.misalign >= |bytes| then l0.(chains := [PutFront(c, bytes)] + l0.chains[1..])
    else
      var n := |bytes| - c.misalign;
      List([FullAtEnd(bytes[..n]), PutFront(c, bytes[n..])] + l0.chains[1..], l0.lwd + 1)
  }

  lemma PrependKeeps(l: List, bytes: string)
    requires l.Valid()
    ensures var r := PrependSpec(l, bytes);
            && r.Valid() && (Tidy(l.chains, l.lwd) ==> Tidy(r.chains, r.lwd))
            && Flat(r.chains) == bytes + Flat(l.chains)
  {
    hide Flat, PutFront, FreeFront, NewChain, FullAtEnd;
    if l.chains == [] {
      var l0 := InsertSpec(l, NewChain(|bytes|));
      FlatOne(NewChain(|bytes|));
      FlatEmpties([]);
      PrependToFirst(l0, bytes);
      assert PrependSpec(l, bytes) == PrependSpec(l0, bytes);
    } else {
      PrependToFirst(l, bytes);
    }
  }

  lemma PrependToFirst(l: List, bytes: string)
    requires l.Valid() && l.chains != []
    ensures var r := PrependSpec(l, bytes);
            && r.Valid() && (Tidy(l.chains, l.lwd) ==> Tidy(r.chains, r.lwd))
            && Flat(r.chains) == bytes + Flat(l.chains)
  {
    hide Flat, PutFront, FreeFront, NewChain, FullAtEnd, LastWithData;
    var rest := l.chains[1..];
    var c := FreeFront(l.chains[0]);
    if c.misalign >= |bytes| {
      FrontReplaced(l, PutFront(c, bytes), bytes);
    } else {
      var n := |bytes| - c.misalign;
      var a, b := FullAtEnd(bytes[..n]), PutFront(c, bytes[n..]);
      FrontReplaced(l, b, bytes[n..]);
      FrontAdded(l.(chains := [b] + rest), a);
      assert [a] + ([b] + rest) == [a, b] + rest && bytes[..n] + bytes[n..] == bytes;
    }
  }

  /** The first chain gets more bytes in front. */
  lemma FrontReplaced(l: List, c: Chain, bytes: string)
    requires l.Valid() && l.chains != [] && c.Valid()
    requires c.Data() == bytes + l.chains[0].Data() && c.off == |bytes| + l.chains[0].off
    ensures var r := l.(chains := [c] + l.chains[1..]);
            r.Valid() && Flat(r.chains) == bytes + Flat(l.chains)
  {
    var rest := l.chains[1..];
    assert l.chains == [l.chains[0]] + rest;
    FlatCons(l.chains[0], rest);
    FlatCons(c, rest);
  }

  lemma FrontAdded(l: List, c: Chain)
    requires l.Valid() && l.chains != [] && l.chains[0].off > 0 && c.Valid()
    ensures var r := List([c] + l.chains, l.lwd + 1);
            r.Valid() && Flat(r.chains) == c.Data() + Flat(l.chains)
  {
    FlatCons(c, l.chains);
  }

  // ---------- pulling up ----------

  /** The first chain that is not emptied when `left` bytes are taken from chain i on, and what is
      still to be taken from it. */
  function Survivor(chains: seq<Chain>, i: nat, left: nat): (r: (nat, nat))
    requires i <= |chains|
    ensures i <= r.0 <= |chains| && r.1 <= left
    ensures r.0 < |chains| ==> r.1 < chains[r.0].off
    decreases |chains| - i
  {
    if i == |chains| || left < chains[i].off then (i, left) else Survivor(chains, i + 1, left - chains[i].off)
  }

  lemma SurvivorStep(chains: seq<Chain>, i: nat, left: nat)
    requires i <= |chains|
    ensures Survivor(chains, i, left) ==
            if i == |chains| || left < chains[i].off then (i, left) else Survivor(chains, i + 1, left - chains[i].off)
  {
  }

  lemma {:induction false} SurvivorFlat(chains: seq<Chain>, i: nat, left: nat)
    requires AllValid(chains) && i <= |chains| && left <= |Flat(chains[i..])|
    ensures var (j, rem) := Survivor(chains, i, left);
            && rem <= |Flat(chains[j..])|
            && Flat(chains[j..])[rem..] == Flat(chains[i..])[left..]
    decreases |chains| - i
  {
    if i < |chains| {
      assert chains[i..][1..] == chains[i + 1..];
      if left >= chains[i].off { SurvivorFlat(chains, i + 1, left - chains[i].off); }
    }
  }

  /** What is left of the list from the survivor on. */
  function Remainder(chains: seq<Chain>, j: nat, rem: nat): (r: seq<Chain>)
    requires AllValid(chains) && j <= |chains| && (j < |chains| ==> rem < chains[j].off)
    ensures AllValid(r)
  {
    if j == |chains| then [] else [Skip(chains[j], rem)] + chains[j + 1..]
  }

  lemma RemainderFlat(chains: seq<Chain>, j: nat, rem: nat)
    requires AllValid(chains) && j <= |chains| && (j < |chains| ==> rem < chains[j].off)
    requires rem <= |Flat(chains[j..])|
    ensures Flat(Remainder(chains, j, rem)) == Flat(chains[j..])[rem..]
  {
    hide Flat;
    if j < |chains| {
      var c, rest := chains[j], chains[j + 1..];
      assert chains[j..] == [c] + rest;
      FlatCons(c, rest);
      FlatCons(Skip(c, rem), rest);
      assert (c.Data() + Flat(rest))[rem..] == c.Data()[rem..] + Flat(rest);
    } else {
      assert chains[j..] == [];
      FlatEmpties([]);
    }
  }

  /** The pointer after chains start .. j - 1 were freed and a chain was put in front. */
  function PulledPointer(lwd: nat, start: nat, j: nat, chains: seq<Chain>): int {
    if start <= lwd < j then 0
    else if start <= lwd - 1 < j then (if |chains| > 1 && chains[1].off > 0 then 1 else 0)
    else lwd - (j - 1)
  }

  lemma PulledPointerRight(l: List, start: nat, j: nat, rem: nat, tmp: Chain)
    requires l.Valid() && l.chains != [] && start <= 1 && start <= j <= |l.chains|
    requires j < |l.chains| ==> rem < l.chains[j].off
    requires start == 0 ==> j > 0
    requires start == 1 ==> l.lwd > 0
    requires tmp.Valid() && tmp.off > 0
    ensures var chains := [tmp] + Remainder(l.chains, j, rem);
            var lwd := PulledPointer(l.lwd, start, j, chains);
            lwd >= 0 && LastWithData(chains, lwd) && (Tidy(l.chains, l.lwd) ==> Tidy(chains, lwd))
  {
    if l.lwd < j {
      assert j == |l.chains|;
    }
  }

  // ---------- the buffer ----------

  class EvBuffer {
    var chains: seq<Chain>
    var lwd: nat
    var totalLen: nat
    var freezeStart: bool
    var freezeEnd: bool

    ghost predicate Valid()
      reads this
    {
      && AllValid(chains)
      && totalLen == |Flat(chains)|
      && LastWithData(chains, lwd)
    }

    ghost function Contents(): string
      requires AllValid(chains)
      reads this
    {
      Flat(chains)
    }

    constructor ()
      ensures Valid() && Tidy(chains, lwd) && Contents() == "" && !freezeStart && !freezeEnd
    {
      chains, lwd, totalLen, freezeStart, freezeEnd := [], 0, 0, false, false;
    }

    /** evbuffer_chain_insert; where the source stops because a chain it is about to drop holds data,
        the model drops it, so that no later property can hold by accident. */
    method ChainInsert(c: Chain)
      requires lwd <= |chains|
      modifies this`chains, this`lwd, this`totalLen
      ensures List(chains, lwd) == InsertSpec(old(List(chains, lwd)), c)
      ensures totalLen == old(totalLen) + c.off
    {
      if lwd == |chains| {
        chains := [c];
      } else {
        var ch := lwd;
        while ch < |chains| && chains[ch].off != 0
          invariant lwd <= ch <= |chains| && FirstEmpty(chains, ch) == FirstEmpty(chains, lwd)
        {
          ch := ch + 1;
        }
        if ch == |chains| {
          if c.off > 0 { lwd := |chains|; }
          chains := chains + [c];
        } else {
          chains := chains[..ch] + [c];
        }
      }
      totalLen := totalLen + c.off;
    }

    /** evbuffer_add: right on every tidy list, and on the untidy ones that AddExact describes. */
    method Add(bytes: string) returns (result: int)
      requires Valid()
      modifies this`chains, this`lwd, this`totalLen
      ensures result == if freezeEnd then -1 else 0
      ensures freezeEnd ==> List(chains, lwd) == old(List(chains, lwd)) && totalLen == old(totalLen)
      ensures !freezeEnd ==> List(chains, lwd) == AddSpec(old(List(chains, lwd)), bytes)
      ensures !freezeEnd && old(AddsRight(List(chains, lwd), bytes)) ==>
                Valid() && Contents() == old(Contents()) + bytes
      ensures old(Tidy(chains, lwd)) ==>
                Valid() && Tidy(chains, lwd) && Contents() == old(Contents()) + if freezeEnd then "" else bytes
    {
      hide Flat, LastWithData, AddSpec;
      if freezeEnd {
        assert Contents() + "" == Contents();
        return -1;
      }
      ghost var l := List(chains, lwd);
      if Tidy(chains, lwd) { AddKeeps(l, bytes); }
      PointerInRange(l);
      AddBytes(bytes);
      return 0;
    }

    method AddBytes(bytes: string)
      requires AllValid(chains) && lwd <= |chains|
      modifies this`chains, this`lwd, this`totalLen
      ensures List(chains, lwd) == AddSpec(old(List(chains, lwd)), bytes)
      ensures totalLen == old(totalLen) + |bytes|
    {
      hide Flat, Append, NewChain;
      EnsureChain(|bytes|);
      var last := |chains| - 1;
      var c := chains[last];
      if c.Room() >= |bytes| {
        chains := chains[last := Append(c, bytes)];
        totalLen := totalLen + |bytes|;
        return;
      }
      if ShouldRealign(c, |bytes|) {
        chains := chains[last := Append(Align(c), bytes)];
        totalLen := totalLen + |bytes|;
        return;
      }
      Overflow(bytes);
    }

    /** The last chain is filled up and a new one takes the rest. */
    method Overflow(bytes: string)
      requires chains != [] && AllValid(chains) && lwd <= |chains| && !FitsLast(chains[|chains| - 1], |bytes|)
      modifies this`chains, this`lwd, this`totalLen
      ensures var last := |old(chains)| - 1;
              var c := old(chains)[last];
              var full := old(chains)[last := Append(c, bytes[..c.Room()])];
              List(chains, lwd) == InsertSpec(List(full, old(lwd)),
                                              Append(NewChain(GrowTo(c, |bytes|)), bytes[c.Room()..]))
      ensures totalLen == old(totalLen) + |bytes|
    {
      hide Append, NewChain, Flat;
      var last := |chains| - 1;
      var c := chains[last];
      var remain := |c.buffer| - c.misalign - c.off;
      var toAlloc := |c.buffer|;
      if toAlloc <= MAX_AUTO_SIZE / 2 { toAlloc := 2 * toAlloc; }
      if |bytes| > toAlloc { toAlloc := |bytes|; }
      var tmp := AllocateChain(toAlloc);
      chains := chains[last := Append(c, bytes[..remain])];
      totalLen := totalLen + remain;
      tmp := Append(tmp, bytes[remain..]);
      ChainInsert(tmp);
    }

    /** evbuffer_prepend */
    method Prepend(bytes: string) returns (result: int)
      requires Valid()
      modifies this`chains, this`lwd, this`totalLen
      ensures Valid() && (old(Tidy(chains, lwd)) ==> Tidy(chains, lwd))
      ensures if freezeStart then result == -1 && Contents() == old(Contents())
              else result == 0 && Contents() == bytes + old(Contents())
    {
      hide Flat, PrependSpec, LastWithData;
      if freezeStart { return -1; }
      PrependKeeps(List(chains, lwd), bytes);
      assert lwd <= |chains| by { PointerInRange(List(chains, lwd)); }
      PrependBytes(bytes);
      return 0;
    }

    method PrependBytes(bytes: string)
      requires AllValid(chains) && lwd <= |chains|
      modifies this`chains, this`lwd, this`totalLen
      ensures List(chains, lwd) == PrependSpec(old(List(chains, lwd)), bytes)
      ensures totalLen == old(totalLen) + |bytes|
    {
      hide Flat, PutFront, FreeFront, NewChain;
      EnsureChain(|bytes|);
      var c := FreeFront(chains[0]);
      if c.misalign >= |bytes| {
        chains := [PutFront(c, bytes)] + chains[1..];
        totalLen := totalLen + |bytes|;
        return;
      }
      var n := |bytes| - c.misalign;
      c := PutFront(c, bytes[n..]);
      totalLen := totalLen + |bytes| - n;
      var tmp := AllocateChain(n);
      tmp := PutFront(FreeFront(tmp), bytes[..n]);
      chains := [tmp, c] + chains[1..];
      lwd := lwd + 1;
      totalLen := totalLen + n;
    }

    /** A buffer without chains gets one that holds the coming bytes. */
    method EnsureChain(size: nat)
      requires AllValid(chains) && lwd <= |chains|
      modifies this`chains, this`lwd, this`totalLen
      ensures AllValid(chains) && chains != [] && lwd <= |chains| && totalLen == old(totalLen)
      ensures List(chains, lwd) ==
              if old(chains) == [] then InsertSpec(old(List(chains, lwd)), NewChain(size)) else old(List(chains, lwd))
    {
      hide NewChain;
      if chains == [] {
        var first := AllocateChain(size);
        ChainInsert(first);
      }
    }

    /** evbuffer_drain */
    method Drain(len: nat) returns (result: int)
      requires Valid()
      modifies this`chains, this`lwd, this`totalLen
      ensures Valid() && (old(Tidy(chains, lwd)) ==> Tidy(chains, lwd))
      ensures if freezeStart && old(totalLen) > 0 then result == -1 && Contents() == old(Contents())
              else result == 0 && Contents() == if len < old(totalLen) then old(Contents())[len..] else ""
    {
      hide Flat, LastWithData;
      if totalLen == 0 { return 0; }
      if freezeStart { return -1; }
      if len >= totalLen {
        FlatEmpties([]);
        NoChains();
        chains, lwd, totalLen := [], 0, 0;
        return 0;
      }
      totalLen := totalLen - len;
      DrainKeeps(List(chains, lwd), len);
      DropChains(len);
      return 0;
    }

    /** The loop that frees the drained chains. */
    method DropChains(len: nat)
      requires AllValid(chains) && Survivor(chains, 0, len).0 <= lwd < |chains|
      modifies this`chains, this`lwd
      ensures var (j, rem) := Survivor(old(chains), 0, len);
              List(chains, lwd) == List(Remainder(old(chains), j, rem), old(lwd) - j)
    {
      ghost var all, k := chains, 0;
      assert chains == all[0..];
      var remaining := len;
      while remaining >= chains[0].off
        invariant 0 <= k <= Survivor(all, 0, len).0 && chains == all[k..] && lwd == old(lwd) - k && remaining >= 0
        invariant Survivor(all, k, remaining) == Survivor(all, 0, len)
        decreases |chains|
      {
        remaining := remaining - chains[0].off;
        lwd := if lwd <= 1 then 0 else lwd - 1;
        chains := chains[1..];
        k := k + 1;
      }
      assert chains[1..] == all[k + 1..];
      chains := [Skip(chains[0], remaining)] + chains[1..];
    }

    /** evbuffer_copyout: None for a frozen start. */
    method Copyout(want: nat) returns (frozen: bool, bytes: string)
      requires Valid()
      ensures frozen ==> freezeStart && bytes == ""
      ensures !frozen ==> bytes == Contents()[..if want < totalLen then want else totalLen]
      ensures frozen <==> freezeStart && want > 0 && totalLen > 0
    {
      hide LastWithData, Flat;
      var datlen := if want >= totalLen then totalLen else want;
      if datlen == 0 { return false, ""; }
      if freezeStart { return true, ""; }
      bytes := CopyBytes(datlen);
      return false, bytes;
    }

    /** The loop of evbuffer_copyout over whole chains, and the part of the last one. */
    method CopyBytes(datlen: nat) returns (bytes: string)
      requires AllValid(chains) && datlen <= |Flat(chains)|
      ensures bytes == Flat(chains)[..datlen]
    {
      hide Flat;
      bytes := "";
      var left, i := datlen, 0;
      assert chains[0..] == chains;
      CopiedNothing(Flat(chains)[..datlen]);
      if datlen > 0 { HasChain(chains); }
      while left > 0 && left >= ChainAt(i).off
        invariant 0 <= i <= |chains| && 0 <= left <= |Flat(chains[i..])|
        invariant bytes + Flat(chains[i..])[..left] == Flat(chains)[..datlen]
        invariant left > 0 ==> i < |chains|
        decreases |chains| - i
      {
        CopyStep(chains, i, left);
        Regroup(bytes, chains[i].Data(), Flat(chains[i + 1..])[..left - chains[i].off]);
        bytes := bytes + chains[i].Data();
        left := left - chains[i].off;
        i := i + 1;
      }
      if left > 0 {
        CopyStep(chains, i, left);
        bytes := bytes + chains[i].Data()[..left];
      } else {
        assert Flat(chains[i..])[..0] == "" && bytes + "" == bytes;
      }
    }

    /** evbuffer_pullup: the first `want` bytes (all of them if negative) end up in one chain. */
    method Pullup(want: int) returns (ok: bool)
      requires Valid()
      modifies this`chains, this`lwd
      ensures Valid() && Contents() == old(Contents()) && (old(Tidy(chains, lwd)) ==> Tidy(chains, lwd))
      ensures var size := if want < 0 then totalLen else want;
              && (ok <==> 0 < size <= totalLen)
              && (ok ==> chains != [] && size <= chains[0].off && chains[0].Data()[..size] == Contents()[..size])
    {
      hide Flat, LastWithData;
      var size: nat := if want < 0 then totalLen else want;
      if size == 0 || size > totalLen { return false; }
      if chains == [] { FlatEmpties(chains); }
      FirstChain(List(chains, lwd));
      if chains[0].off >= size {
        assert Contents()[..size] == Contents()[..chains[0].off][..size];
        return true;
      }
      PullTogether(size);
      return true;
    }

    method PullTogether(size: nat)
      requires Valid() && chains != [] && chains[0].off < size <= totalLen
      modifies this`chains, this`lwd
      ensures Valid() && Contents() == old(Contents()) && (old(Tidy(chains, lwd)) ==> Tidy(chains, lwd))
      ensures chains != [] && chains[0].off == size && chains[0].Data() == Contents()[..size]
    {
      hide Flat, LastWithData, Append, NewChain, PulledPointer, Remainder, Survivor;
      var c := chains[0];
      var start := if |c.buffer| - c.misalign >= size then 1 else 0;
      PulledFlat(chains, start, size);
      var bytes, j, rem := Collect(start, if start == 1 then size - c.off else size);
      var tmp: Chain;
      if start == 1 {
        tmp := Append(c, bytes);
      } else {
        tmp := AllocateChain(size);
        tmp := Append(tmp, bytes);
      }
      PulledKeeps(List(chains, lwd), start, size, tmp);
      var list := [tmp] + Remainder(chains, j, rem);
      lwd := PulledPointer(lwd, start, j, list);
      chains := list;
    }

    /** The loop that copies whole chains and then a part of the next one. */
    method Collect(start: nat, size: nat) returns (bytes: string, j: nat, rem: nat)
      requires AllValid(chains) && start <= |chains| && size <= |Flat(chains[start..])|
      ensures bytes == Flat(chains[start..])[..size]
      ensures (j, rem) == Survivor(chains, start, size)
    {
      hide Flat, Survivor;
      bytes, j, rem := "", start, size;
      assert "" + Flat(chains[start..])[..size] == Flat(chains[start..])[..size];
      while j < |chains| && rem >= chains[j].off
        invariant start <= j <= |chains| && 0 <= rem <= |Flat(chains[j..])|
        invariant Survivor(chains, j, rem) == Survivor(chains, start, size)
        invariant bytes + Flat(chains[j..])[..rem] == Flat(chains[start..])[..size]
      {
        SurvivorStep(chains, j, rem);
        CopyStep(chains, j, rem);
        Regroup(bytes, chains[j].Data(), Flat(chains[j + 1..])[..rem - chains[j].off]);
        bytes := bytes + chains[j].Data();
        rem := rem - chains[j].off;
        j := j + 1;
      }
      SurvivorStep(chains, j, rem);
      if j < |chains| {
        CopyStep(chains, j, rem);
        bytes := bytes + chains[j].Data()[..rem];
      } else {
        assert chains[j..] == [];
        FlatEmpties([]);
        assert bytes + "" == bytes;
      }
    }

    /** evbuffer_add_buffer: every chain of the other buffer moves to the end of this one. */
    method AddBuffer(inbuf: EvBuffer) returns (result: int)
      requires Valid() && inbuf.Valid()
      modifies this`chains, this`lwd, this`totalLen, inbuf`chains, inbuf`lwd, inbuf`totalLen
      ensures Valid() && inbuf.Valid()
      ensures old(Tidy(chains, lwd) && Tidy(inbuf.chains, inbuf.lwd)) ==>
                Tidy(chains, lwd) && Tidy(inbuf.chains, inbuf.lwd)
      ensures if inbuf == this || old(inbuf.totalLen) == 0 || freezeEnd || inbuf.freezeStart then
                Contents() == old(Contents()) && inbuf.Contents() == old(inbuf.Contents())
              else Contents() == old(Contents()) + old(inbuf.Contents()) && inbuf.Contents() == ""
      ensures result == if inbuf != this && old(inbuf.totalLen) > 0 && (freezeEnd || inbuf.freezeStart) then -1 else 0
    {
      hide Flat, LastWithData;
      if inbuf.totalLen == 0 || inbuf == this { return 0; }
      if freezeEnd || inbuf.freezeStart { return -1; }
      FlatEmpties([]);
      NoChains();
      if totalLen == 0 {
        assert "" + inbuf.Contents() == inbuf.Contents();
        chains, lwd, totalLen := inbuf.chains, inbuf.lwd, inbuf.totalLen;
      } else {
        ListsJoined(List(chains, lwd), List(inbuf.chains, inbuf.lwd));
        lwd := |chains| + inbuf.lwd;
        chains := chains + inbuf.chains;
        totalLen := totalLen + inbuf.totalLen;
      }
      inbuf.chains, inbuf.lwd, inbuf.totalLen := [], 0, 0;
      return 0;
    }

    /** evbuffer_prepend_buffer: every chain of the other buffer moves to the front of this one. */
    method PrependBuffer(inbuf: EvBuffer) returns (result: int)
      requires Valid() && inbuf.Valid()
      modifies this`chains, this`lwd, this`totalLen, inbuf`chains, inbuf`lwd, inbuf`totalLen
      ensures Valid() && inbuf.Valid()
      ensures old(Tidy(chains, lwd) && Tidy(inbuf.chains, inbuf.lwd)) ==>
                Tidy(chains, lwd) && Tidy(inbuf.chains, inbuf.lwd)
      ensures if inbuf == this || old(inbuf.totalLen) == 0 || freezeStart || inbuf.freezeStart then
                Contents() == old(Contents()) && inbuf.Contents() == old(inbuf.Contents())
              else Contents() == old(inbuf.Contents()) + old(Contents()) && inbuf.Contents() == ""
      ensures result == if inbuf != this && old(inbuf.totalLen) > 0 && (freezeStart || inbuf.freezeStart) then -1 else 0
    {
      hide Flat, LastWithData;
      if inbuf.totalLen == 0 || inbuf == this { return 0; }
      if freezeStart || inbuf.freezeStart { return -1; }
      FlatEmpties([]);
      NoChains();
      if totalLen == 0 {
        assert inbuf.Contents() + "" == inbuf.Contents();
        chains, lwd, totalLen := inbuf.chains, inbuf.lwd, inbuf.totalLen;
      } else {
        ListsJoined(List(inbuf.chains, inbuf.lwd), List(chains, lwd));
        lwd := |inbuf.chains| + lwd;
        chains := inbuf.chains + chains;
        totalLen := totalLen + inbuf.totalLen;
      }
      inbuf.chains, inbuf.lwd, inbuf.totalLen := [], 0, 0;
      return 0;
    }

    function ChainAt(i: nat): Chain
      requires i < |chains|
      reads this
    {
      chains[i]
    }
  }

  lemma CopiedNothing(s: string)
    ensures "" + s == s
  {
  }

  lemma HasChain(chains: seq<Chain>)
    requires AllValid(chains) && Flat(chains) != ""
    ensures chains != []
  {
  }

  lemma PointerInRange(l: List)
    requires l.Valid()
    ensures l.lwd <= |l.chains|
  {
  }

  lemma NoChains()
    ensures LastWithData([], 0)
  {
  }

  lemma CopyStep(chains: seq<Chain>, i: nat, left: nat)
    requires AllValid(chains) && i < |chains| && left <= |Flat(chains[i..])|
    ensures left < chains[i].off ==> Flat(chains[i..])[..left] == chains[i].Data()[..left]
    ensures left >= chains[i].off ==>
              && left - chains[i].off <= |Flat(chains[i + 1..])|
              && Flat(chains[i..])[..left] == chains[i].Data() + Flat(chains[i + 1..])[..left - chains[i].off]
              && (left > chains[i].off ==> i + 1 < |chains|)
  {
    assert chains[i..][1..] == chains[i + 1..];
  }

  lemma DrainKeeps(l: List, len: nat)
    requires l.Valid() && len < |Flat(l.chains)|
    ensures var (j, rem) := Survivor(l.chains, 0, len);
            && j <= l.lwd < |l.chains|
            && var r := List(Remainder(l.chains, j, rem), l.lwd - j);
               && r.Valid() && (Tidy(l.chains, l.lwd) ==> Tidy(r.chains, r.lwd))
               && Flat(r.chains) == Flat(l.chains)[len..]
  {
    hide Flat, Remainder, Survivor, LastWithData;
    var (j, rem) := Survivor(l.chains, 0, len);
    assert l.chains[0..] == l.chains;
    SurvivorFlat(l.chains, 0, len);
    SurvivorHasData(l, j, rem);
    RemainderFlat(l.chains, j, rem);
    RemainderPointer(l, j, rem);
  }

  /** While bytes are left, the survivor is not behind the last chain with data. */
  lemma SurvivorHasData(l: List, j: nat, rem: nat)
    requires l.Valid() && j <= |l.chains| && rem < |Flat(l.chains[j..])|
    ensures j <= l.lwd < |l.chains|
  {
    hide Flat;
    if l.chains == [] || j > l.lwd { FlatEmpties(l.chains[j..]); }
  }

  lemma RemainderPointer(l: List, j: nat, rem: nat)
    requires l.Valid() && j <= l.lwd < |l.chains| && rem < l.chains[j].off
    ensures var r := Remainder(l.chains, j, rem);
            LastWithData(r, l.lwd - j) && (Tidy(l.chains, l.lwd) ==> Tidy(r, l.lwd - j))
  {
    var r := Remainder(l.chains, j, rem);
    assert forall i :: 0 < i < |r| ==> r[i] == l.chains[j + i];
  }

  /** Joined lists: the pointer of the second one, behind the chains of the first. */
  lemma ListsJoined(a: List, b: List)
    requires a.Valid() && b.Valid() && Flat(b.chains) != "" && Flat(a.chains) != ""
    ensures b.lwd < |b.chains|
    ensures var r := List(a.chains + b.chains, |a.chains| + b.lwd);
            r.Valid() && Flat(r.chains) == Flat(a.chains) + Flat(b.chains)
    ensures Tidy(b.chains, b.lwd) ==> Tidy(a.chains + b.chains, |a.chains| + b.lwd)
  {
    FlatConcat(a.chains, b.chains);
    if b.chains[b.lwd].off == 0 { FlatEmpties(b.chains); }
  }

  lemma FirstChain(l: List)
    requires l.Valid() && l.chains != []
    ensures l.chains[0].off <= |Flat(l.chains)| && Flat(l.chains)[..l.chains[0].off] == l.chains[0].Data()
    ensures Flat(l.chains) == l.chains[0].Data() + Flat(l.chains[1..])
  {
  }

  lemma MoreThanFirst(l: List)
    requires l.Valid() && l.chains != [] && l.chains[0].off < |Flat(l.chains)|
    ensures l.lwd > 0
  {
    if l.lwd == 0 { FlatEmpties(l.chains[1..]); }
  }

  /** What is pulled together with the first chain, or from it on, is the front of the contents. */
  lemma PulledFlat(chains: seq<Chain>, start: nat, size: nat)
    requires AllValid(chains) && chains != [] && start <= 1 && chains[0].off < size <= |Flat(chains)|
    ensures var left := if start == 1 then size - chains[0].off else size;
            var (j, rem) := Survivor(chains, start, left);
            && left <= |Flat(chains[start..])|
            && Flat(chains)[..size] == (if start == 1 then chains[0].Data() else "") + Flat(chains[start..])[..left]
            && Flat(Remainder(chains, j, rem)) == Flat(chains)[size..]
            && (start == 0 ==> j > 0)
  {
    hide Flat, Remainder;
    var left := if start == 1 then size - chains[0].off else size;
    var (j, rem) := Survivor(chains, start, left);
    assert chains[0..] == chains && chains == [chains[0]] + chains[1..];
    if start == 1 {
      FlatCons(chains[0], chains[1..]);
      CutBehind(chains[0].Data(), Flat(chains[1..]), size);
    }
    SurvivorFlat(chains, start, left);
    RemainderFlat(chains, j, rem);
  }

  lemma CutBehind(a: string, b: string, n: nat)
    requires |a| <= n <= |a| + |b|
    ensures (a + b)[..n] == a + b[..n - |a|] && (a + b)[n..] == b[n - |a|..]
  {
  }

  lemma PulledKeeps(l: List, start: nat, size: nat, tmp: Chain)
    requires l.Valid() && l.chains != [] && start <= 1 && l.chains[0].off < size <= |Flat(l.chains)|
    requires tmp.Valid() && tmp.Data() == Flat(l.chains)[..size] && tmp.off == size
    ensures var (j, rem) := Survivor(l.chains, start, if start == 1 then size - l.chains[0].off else size);
            var chains := [tmp] + Remainder(l.chains, j, rem);
            var lwd := PulledPointer(l.lwd, start, j, chains);
            && lwd >= 0 && List(chains, lwd).Valid() && Flat(chains) == Flat(l.chains)
            && (Tidy(l.chains, l.lwd) ==> Tidy(chains, lwd))
  {
    hide Flat, LastWithData, PulledPointer;
    var (j, rem) := Survivor(l.chains, start, if start == 1 then size - l.chains[0].off else size);
    MoreThanFirst(l);
    PulledFlat(l.chains, start, size);
    PulledPointerRight(l, start, j, rem, tmp);
    FlatCons(tmp, Remainder(l.chains, j, rem));
    assert Flat(l.chains)[..size] + Flat(l.chains)[size..] == Flat(l.chains);
  }
}
