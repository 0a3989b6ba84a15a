/** Searching a pattern across the chains of a buffer. */
module EvbufferSearch {
  import opened Basics
  import opened Evbuffer

  /** evbuffer_ptr: a position and the chain it lies in; the index |chains| stands for no chain. */
  datatype Ptr = Ptr(pos: int, chain: nat, posInChain: nat)

  ghost predicate PtrIn(chains: seq<Chain>, p: Ptr)
    requires AllValid(chains)
  {
    && p.chain <= |chains|
    && p.posInChain <= (if p.chain < |chains| then chains[p.chain].off else 0)
    && p.pos == |Flat(chains[..p.chain])| + p.posInChain
  }

  ghost predicate Occurs(s: string, at: int, what: string) {
    0 <= at && at + |what| <= |s| && s[at..at + |what|] == what
  }

  /** The byte at an offset of a chain is the byte at its position in the whole. */
  lemma ByteAt(chains: seq<Chain>, i: nat, k: nat)
    requires AllValid(chains) && i < |chains| && k < chains[i].off
    ensures var at := |Flat(chains[..i])| + k;
            at < |Flat(chains)| && Flat(chains)[at] == chains[i].Data()[k]
  {
    FlatSplit(chains, i);
    assert chains[i..][0] == chains[i];
  }

  lemma NextStart(chains: seq<Chain>, i: nat)
    requires AllValid(chains) && i < |chains|
    ensures |Flat(chains[..i + 1])| == |Flat(chains[..i])| + chains[i].off
    ensures |Flat(chains[..i + 1])| <= |Flat(chains)|
  {
    FlatConcat(chains[..i], [chains[i]]);
    FlatOne(chains[i]);
    assert chains[..i + 1] == chains[..i] + [chains[i]];
    FlatSplit(chains, i + 1);
  }

  lemma {:induction false} StartsGrow(chains: seq<Chain>, i: nat, j: nat)
    requires AllValid(chains) && i <= j <= |chains|
    ensures |Flat(chains[..i])| <= |Flat(chains[..j])|
    decreases j - i
  {
    if i < j {
      NextStart(chains, j - 1);
      StartsGrow(chains, i, j - 1);
    }
  }

  ghost predicate NoFirst(s: string, from: nat, to: int, c: char)
    requires to <= |s|
  {
    forall k :: from <= k < to ==> s[k] != c
  }

  /** memchr: the first position from `from` on, or -1. */
  function MemChr(s: string, from: nat, c: char): (r: int)
    requires from <= |s|
    ensures r == -1 ==> NoFirst(s, from, |s|, c)
    ensures r != -1 ==> from <= r < |s| && s[r] == c && NoFirst(s, from, r, c)
    decreases |s| - from
  {
    if from == |s| then -1 else if s[from] == c then from else MemChr(s, from + 1, c)
  }

  lemma HeadAndTail<T>(s: seq<T>, i: nat)
    requires i < |s|
    ensures s[i..] == [s[i]] + s[i + 1..]
  {
  }

  lemma Around(chains: seq<Chain>, i: nat)
    requires AllValid(chains) && i < |chains|
    ensures Flat(chains) == Flat(chains[..i]) + (chains[i].Data() + Flat(chains[i + 1..]))
  {
    hide Flat;
    FlatSplit(chains, i);
    HeadAndTail(chains, i);
    FlatCons(chains[i], chains[i + 1..]);
  }

  lemma MiddleSlice(a: string, b: string, c: string, k: nat, n: nat)
    requires k + n <= |b|
    ensures (a + (b + c))[|a| + k..|a| + k + n] == b[k..k + n]
  {
  }

  lemma SliceOf(chains: seq<Chain>, i: nat, k: nat, n: nat)
    requires AllValid(chains) && i < |chains| && k + n <= chains[i].off
    ensures var at := |Flat(chains[..i])| + k;
            at + n <= |Flat(chains)| && Flat(chains)[at..at + n] == chains[i].Data()[k..k + n]
  {
    hide Flat;
    Around(chains, i);
    MiddleSlice(Flat(chains[..i]), chains[i].Data(), Flat(chains[i + 1..]), k, n);
  }

  /** evbuffer_ptr_memcmp as a test for equality: whether the pattern stands at the position. */
  method Matches(chains: seq<Chain>, total: nat, p: Ptr, what: string) returns (same: bool)
    requires AllValid(chains) && total == |Flat(chains)| && PtrIn(chains, p)
    ensures same <==> Occurs(Flat(chains), p.pos, what)
  {
    hide Flat;
    if p.pos + |what| > total { return false; }
    var i: nat, position: nat, done: nat := p.chain, p.posInChain, 0;
    ghost var here := Flat(chains)[p.pos..p.pos + |what|];
    while done < |what| && i < |chains|
      invariant done <= |what| && i <= |chains|
      invariant done < |what| ==> PtrIn(chains, Ptr(p.pos + done, i, position))
      invariant here[..done] == what[..done]
      decreases |chains| - i
    {
      var len := |what| - done;
      var n := if len + position > chains[i].off then chains[i].off - position else len;
      SliceOf(chains, i, position, n);
      NextStart(chains, i);
      SubSlice(Flat(chains), p.pos, p.pos + |what|, done, n);
      if chains[i].Data()[position..position + n] != what[done..done + n] { return false; }
      TwoParts(here, what, done, n);
      done, position, i := done + n, 0, i + 1;
    }
    assert chains[..|chains|] == chains && what[..|what|] == what && here[..|what|] == here;
    return true;
  }

  lemma SubSlice(s: string, a: nat, b: nat, k: nat, n: nat)
    requires a <= b <= |s| && k + n <= b - a
    ensures s[a..b][k..k + n] == s[a + k..a + k + n]
  {
    var x, y := s[a..b][k..k + n], s[a + k..a + k + n];
    assert forall i :: 0 <= i < n ==> x[i] == y[i];
  }

  lemma TwoParts(a: string, b: string, k: nat, n: nat)
    requires k + n <= |a| == |b| && a[..k] == b[..k] && a[k..k + n] == b[k..k + n]
    ensures a[..k + n] == b[..k + n]
  {
  }

  lemma FirstByte(s: string, at: int, what: string)
    requires Occurs(s, at, what) && what != ""
    ensures 0 <= at < |s| && s[at] == what[0]
  {
  }

  /** No occurrence starts in a range. */
  ghost predicate Clean(s: string, from: int, to: int, what: string) {
    forall at :: from <= at < to ==> !Occurs(s, at, what)
  }

  lemma CleanMore(s: string, from: int, mid: int, to: int, what: string)
    requires Clean(s, from, mid, what)
    requires Clean(s, mid, to, what) || (to == mid + 1 && !Occurs(s, mid, what))
    ensures Clean(s, from, to, what)
  {
  }

  /** No occurrence starts at a byte that differs from the first byte of the pattern. */
  lemma NoneHere(s: string, from: nat, to: nat, what: string)
    requires what != "" && from <= to <= |s|
    requires forall at :: from <= at < to ==> s[at] != what[0]
    ensures Clean(s, from, to, what)
  {
    hide Occurs;
    forall at | from <= at < to
      ensures !Occurs(s, at, what)
    {
      if Occurs(s, at, what) { FirstByte(s, at, what); }
    }
  }

  lemma NoneInChain(chains: seq<Chain>, i: nat, from: nat, to: nat, what: string)
    requires AllValid(chains) && i < |chains| && from <= to <= chains[i].off && what != ""
    requires NoFirst(chains[i].Data(), from, to, what[0])
    ensures var base := |Flat(chains[..i])|;
            Clean(Flat(chains), base + from, base + to, what)
  {
    var base := |Flat(chains[..i])|;
    NextStart(chains, i);
    forall at | base + from <= at < base + to
      ensures Flat(chains)[at] != what[0]
    {
      ByteAt(chains, i, at - base);
    }
    NoneHere(Flat(chains), base + from, base + to, what);
  }

  lemma PtrBounds(chains: seq<Chain>, p: Ptr)
    requires AllValid(chains) && PtrIn(chains, p)
    ensures p.chain < |chains| ==> p.posInChain <= chains[p.chain].off
    ensures p.pos >= 0
  {
  }

  /** Moving within a chain past bytes that cannot start an occurrence. */
  lemma Forward(chains: seq<Chain>, from: int, p: Ptr, to: nat, what: string)
    requires AllValid(chains) && PtrIn(chains, p) && p.chain < |chains| && p.posInChain <= to <= chains[p.chain].off
    requires what != "" && NoFirst(chains[p.chain].Data(), p.posInChain, to, what[0])
    requires Clean(Flat(chains), from, p.pos, what)
    ensures var pos := p.pos + (to - p.posInChain);
            && PtrIn(chains, Ptr(pos, p.chain, to)) && Clean(Flat(chains), from, pos, what)
            && (to == chains[p.chain].off ==> PtrIn(chains, Ptr(pos, p.chain + 1, 0)))
  {
    hide Flat, Occurs, Clean, NoFirst, AllValid;
    Along(chains, p, to);
    NoneInChain(chains, p.chain, p.posInChain, to, what);
    CleanMore(Flat(chains), from, p.pos, p.pos + (to - p.posInChain), what);
  }

  lemma Along(chains: seq<Chain>, p: Ptr, to: nat)
    requires AllValid(chains) && PtrIn(chains, p) && p.chain < |chains| && p.posInChain <= to <= chains[p.chain].off
    ensures PtrIn(chains, Ptr(p.pos + (to - p.posInChain), p.chain, to))
    ensures to == chains[p.chain].off ==> PtrIn(chains, Ptr(p.pos + (to - p.posInChain), p.chain + 1, 0))
  {
    hide Flat;
    NextStart(chains, p.chain);
  }

  lemma OneOn(chains: seq<Chain>, p: Ptr)
    requires AllValid(chains) && PtrIn(chains, p) && p.chain < |chains| && p.posInChain < chains[p.chain].off
    ensures PtrIn(chains, Ptr(p.pos + 1, p.chain, p.posInChain + 1))
    ensures p.posInChain + 1 == chains[p.chain].off ==> PtrIn(chains, Ptr(p.pos + 1, p.chain + 1, 0))
  {
    hide Flat;
    NextStart(chains, p.chain);
  }

  lemma BeforeChainEnd(chains: seq<Chain>, p: Ptr, q: Ptr)
    requires AllValid(chains) && PtrIn(chains, p) && PtrIn(chains, q) && p.chain == q.chain < |chains|
    ensures q.pos <= p.pos + (chains[p.chain].off - p.posInChain)
  {
  }

  lemma AtEnd(chains: seq<Chain>, p: Ptr)
    requires AllValid(chains) && PtrIn(chains, p) && p.chain >= |chains|
    ensures p.pos == |Flat(chains)|
  {
    assert chains[..|chains|] == chains;
  }

  /** Whether an occurrence ends by the limit. */
  predicate Within(at: int, what: string, end: Option<Ptr>) {
    end.None? || at + |what| <= end.value.pos
  }

  ghost predicate NoneFrom(s: string, from: int, what: string, end: Option<Ptr>) {
    forall at :: from <= at ==> !(Occurs(s, at, what) && Within(at, what, end))
  }

  /** A limit is a position of the buffer, or the invalid pointer. */
  ghost predicate LimitIn(chains: seq<Chain>, end: Option<Ptr>)
    requires AllValid(chains)
  {
    end.Some? ==> PtrIn(chains, end.value) || end.value == Ptr(-1, |chains|, 0)
  }

  /** evbuffer_search_range: the least position from the start on at which the pattern occurs, if it
      ends by the limit; -1 exactly when there is none. */
  method SearchRange(chains: seq<Chain>, total: nat, what: string, start: Ptr, end: Option<Ptr>) returns (r: Ptr)
    requires AllValid(chains) && total == |Flat(chains)| && PtrIn(chains, start) && LimitIn(chains, end)
    ensures what == "" ==> r == start
    ensures what != "" && r.pos == -1 ==> NoneFrom(Flat(chains), start.pos, what, end) && r.chain == |chains|
    ensures what != "" && r.pos != -1 ==>
              && PtrIn(chains, r) && start.pos <= r.pos
              && Occurs(Flat(chains), r.pos, what) && Within(r.pos, what, end)
              && Clean(Flat(chains), start.pos, r.pos, what)
  {
    hide Flat, Occurs, Clean, NoneFrom, PtrIn;
    if what == "" { return start; }
    var pos := start;
    ghost var s := Flat(chains);
    NothingYet(s, start.pos, what);
    while pos.chain < |chains|
      invariant PtrIn(chains, pos) && start.pos <= pos.pos
      invariant Clean(s, start.pos, pos.pos, what)
      decreases |chains| - pos.chain, if pos.chain < |chains| then chains[pos.chain].off - pos.posInChain else 0
    {
      var i := pos.chain;
      var c := chains[i];
      PtrBounds(chains, pos);
      var p := MemChr(c.Data(), pos.posInChain, what[0]);
      if p != -1 {
        Forward(chains, start.pos, pos, p, what);
        pos := Ptr(pos.pos + (p - pos.posInChain), i, p);
        var same := Matches(chains, total, pos, what);
        if same {
          if end.Some? && pos.pos + |what| > end.value.pos {
            LaterIsBeyond(s, start.pos, pos.pos, what, end);
            return Ptr(-1, |chains|, 0);
          }
          return pos;
        }
        CleanMore(s, start.pos, pos.pos, pos.pos + 1, what);
        OneOn(chains, pos);
        pos := Ptr(pos.pos + 1, i, p + 1);
        if pos.posInChain == c.off { pos := Ptr(pos.pos, i + 1, 0); }
      } else {
        Forward(chains, start.pos, pos, c.off, what);
        if end.Some? && i == end.value.chain {
          BeforeChainEnd(chains, pos, end.value);
          BeyondLimit(s, start.pos, pos.pos + (c.off - pos.posInChain), what, end);
          return Ptr(-1, |chains|, 0);
        }
        pos := Ptr(pos.pos + (c.off - pos.posInChain), i + 1, 0);
      }
    }
    AtEnd(chains, pos);
    NothingAtEnd(s, start.pos, what, end);
    return Ptr(-1, |chains|, 0);
  }

  /** The bytes before a limit. */
  function Limited(s: string, end: Option<Ptr>): string
    requires end.Some? ==> end.value.pos <= |s|
  {
    if end.None? then s else if end.value.pos < 0 then "" else s[..end.value.pos]
  }

  /** A limited search is a search in the bytes before the limit. */
  lemma LimitedSearch(s: string, from: nat, what: string, end: Option<Ptr>)
    requires what != "" && (end.Some? ==> end.value.pos <= |s|)
    ensures NoneFrom(s, from, what, end) <==> NoneFrom(Limited(s, end), from, what, None)
    ensures forall at: nat :: Occurs(s, at, what) && Within(at, what, end) <==> Occurs(Limited(s, end), at, what)
  {
    forall at: nat ensures Occurs(s, at, what) && Within(at, what, end) <==> Occurs(Limited(s, end), at, what) {
      LimitedOccurs(s, at, what, end);
    }
  }

  lemma LimitedOccurs(s: string, at: nat, what: string, end: Option<Ptr>)
    requires what != "" && (end.Some? ==> end.value.pos <= |s|)
    ensures Occurs(s, at, what) && Within(at, what, end) <==> Occurs(Limited(s, end), at, what)
  {
    var t := Limited(s, end);
    if at + |what| <= |t| { assert t[at..at + |what|] == s[at..at + |what|]; }
  }

  lemma NothingYet(s: string, from: int, what: string)
    ensures Clean(s, from, from, what)
  {
  }

  lemma NothingAtEnd(s: string, from: int, what: string, end: Option<Ptr>)
    requires what != "" && Clean(s, from, |s|, what)
    ensures NoneFrom(s, from, what, end)
  {
  }

  /** When the first occurrence is beyond the limit, so are the others. */
  lemma LaterIsBeyond(s: string, from: int, first: int, what: string, end: Option<Ptr>)
    requires Clean(s, from, first, what)
    requires !Within(first, what, end)
    ensures NoneFrom(s, from, what, end)
  {
  }

  /** Behind the chain of the limit no occurrence ends by it. */
  lemma BeyondLimit(s: string, from: int, to: nat, what: string, end: Option<Ptr>)
    requires Clean(s, from, to, what)
    requires end.Some? && end.value.pos <= to && what != ""
    ensures NoneFrom(s, from, what, end)
  {
  }

  /** evbuffer_search from the first byte. */
  method Search(chains: seq<Chain>, total: nat, what: string) returns (r: Ptr)
    requires AllValid(chains) && total == |Flat(chains)| && what != ""
    ensures r.pos == -1 <==> forall at :: 0 <= at ==> !Occurs(Flat(chains), at, what)
    ensures r.pos != -1 ==> Occurs(Flat(chains), r.pos, what)
                            && forall at :: 0 <= at < r.pos ==> !Occurs(Flat(chains), at, what)
  {
    assert chains[..0] == [];
    r := SearchRange(chains, total, what, Ptr(0, 0, 0), None);
    if r.pos == -1 {
      forall at | 0 <= at ensures !Occurs(Flat(chains), at, what) {
        assert Within(at, what, None);
      }
    }
  }
}
