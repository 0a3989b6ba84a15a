/** The redisReader object: a byte buffer with a cursor, and the stack of read tasks. */
module Reader {
  import opened Basics
  import opened Decimal
  import opened Resp

  /** The byte at i; behind the last byte stands the terminator of the string. */
  function At(s: string, i: nat): char { if i < |s| then s[i] else '\0' }

  /** Result of a search in the suffix from pos on, as a position in the whole. */
  function Shifted(p: int, pos: nat): int { if p == NOT_FOUND then NOT_FOUND else p + pos }

  lemma SearchSkips(s: string, pos: nat)
    requires pos < |s| && !(s[pos] == '\r' && At(s, pos + 1) == '\n')
    ensures Shifted(FindCrLf(s[pos..]), pos) == Shifted(FindCrLf(s[pos + 1..]), pos + 1)
  {
  }

  lemma SearchEnds(s: string, pos: nat)
    requires pos <= |s|
    ensures |s| - pos < 2 ==> FindCrLf(s[pos..]) == NOT_FOUND
    ensures pos + 1 < |s| && s[pos] == '\r' && s[pos + 1] == '\n' ==> FindCrLf(s[pos..]) == 0
  {
  }

  method SeekNewline(s: string) returns (p: int)
    ensures p == FindCrLf(s)
  {
    hide FindCrLf;
    var pos := 0;
    var len := |s| - 1;
    assert s[0..] == s;
    while pos < len
      invariant 0 <= pos <= |s| && Shifted(FindCrLf(s[pos..]), pos) == FindCrLf(s)
      decreases |s| - pos
    {
      while pos < len && s[pos] != '\r'
        invariant 0 <= pos <= len && Shifted(FindCrLf(s[pos..]), pos) == FindCrLf(s)
      {
        SearchSkips(s, pos);
        pos := pos + 1;
      }
      SearchEnds(s, pos);
      if s[pos] != '\r' { return NOT_FOUND; }
      if At(s, pos + 1) == '\n' { return pos; }
      SearchSkips(s, pos);
      pos := pos + 1;
    }
    SearchEnds(s, pos);
    return NOT_FOUND;
  }

  /** Reads a number up to the first carriage return; the line is followed by one. */
  method ParseLongLong(s: string) returns (r: int)
    ensures r == ReadLongLong(s)
  {
    var neg, i := false, 0;
    if At(s, 0) == '-' {
      neg, i := true, 1;
    } else if At(s, 0) == '+' {
      i := 1;
    }
    var v: nat := 0;
    ghost var digits := s[i..];
    assert s[0..] == s;
    while i < |s| && s[i] != '\r'
      invariant 0 <= i <= |s|
      invariant ScanDigits(s[i..], v) == ScanDigits(digits, 0)
    {
      if !IsDigit(s[i]) { return -1; }
      v := 10 * v + DigitValue(s[i]);
      assert s[i..][1..] == s[i + 1..];
      i := i + 1;
    }
    return if neg then -(v as int) else v;
  }

  /** sdsrange: both ends inclusive, negative ones count from the end. */
  function SdsRange(s: string, start: int, end: int): string {
    var len := |s|;
    if len == 0 then s
    else
      var from := if start < 0 then (if len + start < 0 then 0 else len + start) else start;
      var to := if end < 0 then (if len + end < 0 then 0 else len + end) else end;
      if from > to || from >= len then ""
      else if to >= len then s[from..]
      else s[from..to + 1]
  }

  /** Whether byte i of a string of length len lies between two ends.  An end before the first byte counts as
      the first byte. */
  predicate Between(i: int, len: nat, start: int, end: int) {
    && (if start < 0 then start <= i - len else start <= i)
    && (if end < 0 then i - len <= end || (i == 0 && len + end < 0) else i <= end)
  }

  /** The bytes between the two ends are kept, in order, and no others. */
  lemma SdsRangeKeeps(s: string, start: int, end: int) returns (a: nat, b: nat)
    ensures a <= b <= |s| && SdsRange(s, start, end) == s[a..b]
    ensures forall i :: 0 <= i < |s| ==> (a <= i < b <==> Between(i, |s|, start, end))
  {
    var from := if start >= 0 then start else if |s| + start < 0 then 0 else |s| + start;
    var to := if end >= 0 then end else if |s| + end < 0 then 0 else |s| + end;
    if from > to || from >= |s| {
      a, b := 0, 0;
    } else {
      a, b := from, if to >= |s| then |s| else to + 1;
    }
  }

  /** Dropping the consumed bytes keeps exactly the unread ones. */
  lemma CompactsToInput(s: string, pos: nat)
    requires pos <= |s|
    ensures SdsRange(s, pos, -1) == s[pos..]
  {
  }

  /** No task waits for an array header beyond the nesting limit: it fails as soon as it is seen. */
  ghost predicate Settled(stack: seq<Task>) {
    stack != [] ==> WellFormed(stack) && (stack[|stack| - 1].kind == KArray ==> |stack| <= MAX_DEPTH)
  }

  lemma NothingToRead(stack: seq<Task>)
    requires stack != [] && Settled(stack)
    ensures GetOne(stack, "") == Found(None, None, stack, "")
  {
  }

  const COMPACT_AT := 1024

  class RedisReader {
    var err: Option<Failure>
    var buf: string
    var pos: nat
    var stack: seq<Task>
    var reply: Option<Reply>

    ghost predicate Valid()
      reads this
    {
      && pos <= |buf|
      && Settled(stack)
      && (err.Some? ==> stack == [] && buf == "")
      && reply.None?
    }

    /** The stack of read tasks; an idle reader counts as one that waits for a type byte. */
    ghost function Tasks(): seq<Task>
      reads this
    {
      if stack == [] then [ROOT] else stack
    }

    ghost function Input(): string
      requires pos <= |buf|
      reads this
    {
      buf[pos..]
    }

    constructor ()
      ensures Valid() && err.None? && Tasks() == [ROOT] && Input() == ""
    {
      err, buf, pos, stack, reply := None, "", 0, [], None;
    }

    method SetError(e: Failure)
      modifies this
      ensures err == Some(e) && buf == "" && pos == 0 && stack == [] && reply == None
    {
      reply, buf, pos, stack, err := None, "", 0, [], Some(e);
    }

    method MoveToNextTask(first: Reply)
      requires WellFormed(stack)
      modifies this`stack, this`reply
      ensures match MoveToNext(old(stack), first)
              case Done(r) => stack == [] && reply == Some(r)
              case Goes(next) => stack == next && reply == old(reply)
    {
      var obj := first;
      while true
        invariant WellFormed(stack) && reply == old(reply)
        invariant MoveToNext(stack, obj) == MoveToNext(old(stack), first)
        decreases |stack|
      {
        var top := |stack| - 1;
        if top == 0 {
          stack, reply := [], Some(obj);
          return;
        }
        var cur, prv := stack[top], stack[top - 1];
        assert Holds(prv, cur);
        assert prv.kind == KArray;
        if cur.idx == prv.elements - 1 {
          obj, stack := Arr(prv.done + [obj]), stack[..top];
        } else {
          assert cur.idx < prv.elements;
          stack := Advanced(stack, obj);
          return;
        }
      }
    }

    /** Whether a line is there, and the line. */
    method ReadLine() returns (found: bool, line: string)
      requires pos <= |buf|
      modifies this`pos
      ensures pos <= |buf|
      ensures var p := FindCrLf(old(Input()));
              if p == NOT_FOUND then !found && pos == old(pos)
              else found && line == old(Input())[..p] && pos == old(pos) + p + 2
    {
      var p := SeekNewline(buf[pos..]);
      if p == NOT_FOUND { return false, ""; }
      line := buf[pos..][..p];
      pos := pos + p + 2;
      return true, line;
    }

    method ProcessLineItem(kind: Kind) returns (item: Item)
      requires pos <= |buf|
      modifies this`pos
      ensures item == LineItem(kind, old(Input()))
      ensures pos == old(pos) + (if item.Got? then item.used else 0) <= |buf|
    {
      var start := pos;
      var found, line := ReadLine();
      if !found { return More; }
      if kind == KInteger {
        var n := ParseLongLong(line);
        return Got(Int(n), pos - start);
      }
      return Got(if kind == KStatus then Status(line) else Error(line), pos - start);
    }

    method ProcessBulkItem() returns (item: Item)
      requires pos <= |buf|
      modifies this`pos
      ensures item == BulkItem(old(Input()))
      ensures pos == old(pos) + (if item.Got? then item.used else 0) <= |buf|
    {
      var s := buf[pos..];
      var p := SeekNewline(s);
      if p == NOT_FOUND { return More; }
      var bytelen := p + 2;
      var len := ParseLongLong(s[..p]);
      if len < 0 {
        pos := pos + bytelen;
        return Got(Nil, bytelen);
      }
      bytelen := bytelen + len + 2;
      if pos + bytelen <= |buf| {
        pos := pos + bytelen;
        return Got(Str(s[p + 2..p + 2 + len]), bytelen);
      }
      return More;
    }

    method ProcessMultiBulkItem(ridx: int) returns (item: Item)
      requires pos <= |buf|
      modifies this`pos
      ensures item == MultiBulkItem(ridx, old(Input()))
      ensures pos == old(pos) + (if item.Got? || item.Opens? then item.used else 0) <= |buf|
    {
      if ridx == MAX_DEPTH { return Fails(TooDeep); }
      var start := pos;
      var found, line := ReadLine();
      if !found { return More; }
      var elements := ParseLongLong(line);
      if elements == -1 { return Got(Nil, pos - start); }
      if elements > 0 { return Opens(elements, pos - start); }
      return Got(if elements == 0 then Arr([]) else BadArr(elements), pos - start);
    }

    method ProcessTyped(kind: Kind, ridx: int) returns (item: Item)
      requires pos <= |buf| && kind != Unknown
      modifies this`pos
      ensures item == ReadItem(kind, ridx, old(Input()))
      ensures pos == old(pos) + (if item.Got? || item.Opens? then item.used else 0) <= |buf|
    {
      if kind == KString {
        item := ProcessBulkItem();
      } else if kind == KArray {
        item := ProcessMultiBulkItem(ridx);
      } else {
        item := ProcessLineItem(kind);
      }
    }

    /** The type byte of the top task, if it was not read yet. */
    method ReadType() returns (ok: bool)
      requires Valid() && WellFormed(stack) && err.None?
      modifies this
      ensures reply.None? && pos <= |buf|
      ensures ok ==> && WellFormed(stack) && stack[|stack| - 1].kind != Unknown && err.None?
                     && GetOne(stack, Input()) == GetOne(old(stack), old(Input()))
                     && |stack| == |old(stack)| && |Input()| <= |old(Input())|
      ensures !ok ==> Valid() && GetOne(old(stack), old(Input())) == Found(None, err, Tasks(), Input())
    {
      hide ReadItem, MoveToNext;
      if stack[|stack| - 1].kind != Unknown { return true; }
      if pos == |buf| { return false; }
      var kind := KindOf(buf[pos]);
      if kind == Unknown {
        SetError(BadType(buf[pos]));
        return false;
      }
      assert Input()[1..] == buf[pos + 1..];
      pos := pos + 1;
      stack := Typed(stack, kind);
      return true;
    }

    method ProcessItem() returns (ok: bool)
      requires Valid() && stack != [] && err.None?
      modifies this
      ensures pos <= |buf|
      ensures ok ==> && err.None? && |Input()| < |old(Input())|
                     && if stack == [] then
                          reply.Some? && GetOne(old(stack), old(Input())) == Found(reply, None, [ROOT], Input())
                        else Valid() && GetOne(old(stack), old(Input())) == GetOne(stack, Input())
      ensures !ok ==> Valid() && GetOne(old(stack), old(Input())) == Found(None, err, Tasks(), Input())
    {
      hide ReadItem, MoveToNext, GetOne;
      var typed := ReadType();
      if !typed { return false; }
      ghost var input := Input();
      FoundByItem(stack, input);
      var item := ProcessTyped(stack[|stack| - 1].kind, |stack| - 1);
      match item {
        case More => return false;
        case Fails(e) =>
          SetError(e);
          return false;
        case Got(obj, used) =>
          assert Input() == input[used..];
          MoveToNextTask(obj);
          return true;
        case Opens(n, used) =>
          assert Input() == input[used..];
          stack := Opened(stack, n);
          return true;
      }
    }

    /** redisReaderFeed; spare: whether the empty buffer holds more free space than allowed. */
    method Feed(bytes: string, spare: bool) returns (ok: bool)
      requires Valid()
      modifies this
      ensures Valid() && err == old(err) && Tasks() == old(Tasks()) && (ok <==> err.None?)
      ensures Input() == if err.None? then old(Input()) + bytes else old(Input())
    {
      if err.Some? { return false; }
      if |bytes| >= 1 {
        if |buf| == 0 && spare {
          buf, pos := "", 0;
        }
        buf := buf + bytes;
      }
      return true;
    }

    /** redisReaderGetReply: the outcome is that of the whole unread input, and moving the unread
        bytes to the front of the buffer does not show. */
    method GetReply() returns (ok: bool, out: Option<Reply>)
      requires Valid()
      modifies this
      ensures Valid() && (ok <==> err.None?)
      ensures old(err).Some? ==> out.None? && err == old(err)
      ensures old(err).None? ==> Found(out, err, Tasks(), Input()) == GetOne(old(Tasks()), old(Input()))
      ensures err.None? && old(|buf|) > 0 ==> pos < COMPACT_AT
    {
      hide GetOne;
      out := None;
      if err.Some? { return false, None; }
      if |buf| == 0 {
        NothingToRead(Tasks());
        return true, None;
      }
      if stack == [] { stack := [ROOT]; }
      ProcessItems();
      if err.Some? { return false, None; }
      if pos >= COMPACT_AT {
        CompactsToInput(buf, pos);
        buf := SdsRange(buf, pos, -1);
        pos := 0;
        assert buf[0..] == buf;
      }
      if stack == [] {
        out, reply := reply, None;
      }
      return true, out;
    }

    /** The loop over the items of one reply. */
    method ProcessItems()
      requires Valid() && stack != [] && err.None?
      modifies this
      ensures pos <= |buf| && Settled(stack)
      ensures err.Some? ==> Valid()
      ensures reply.Some? ==> stack == [] && err.None?
      ensures Found(reply, err, Tasks(), Input()) == GetOne(old(stack), old(Input()))
    {
      hide GetOne;
      ghost var goal := GetOne(stack, Input());
      while stack != []
        invariant pos <= |buf| && err.None?
        invariant if stack == [] then reply.Some? && goal == Found(reply, None, [ROOT], Input())
                  else Valid() && GetOne(stack, Input()) == goal
        decreases |buf| - pos
      {
        var ok := ProcessItem();
        if !ok { break; }
      }
    }

    /** Takes replies until there is none, as a client does after each feed. */
    method TakeAll() returns (replies: seq<Reply>)
      requires Valid() && err.None?
      modifies this
      ensures Valid() && Drained(replies, err, Tasks(), Input()) == Drain(old(Tasks()), old(Input()))
    {
      replies := [];
      ghost var goal := Drain(Tasks(), Input());
      while true
        invariant Valid() && err.None?
        invariant var d := Drain(Tasks(), Input()); goal == d.(replies := replies + d.replies)
        decreases |Input()|
      {
        var ok, out := GetReply();
        if out.None? {
          assert replies + [] == replies;
          return;
        }
        ghost var d := Drain(Tasks(), Input());
        Regroup(replies, [out.value], d.replies);
        replies := replies + [out.value];
      }
    }
  }

  /** Feeding a stream in pieces and draining after each: the replies and the error status are those
      of the whole stream, however it is cut. */
  method ReadStream(chunks: seq<string>, spare: bool) returns (replies: seq<Reply>, err: Option<Failure>)
    ensures var d := Drain([ROOT], Concat(chunks)); replies == d.replies && err == d.err
  {
    var r := new RedisReader();
    replies := [];
    for i := 0 to |chunks|
      invariant fresh(r) && r.Valid()
      invariant var d := FeedAll(chunks[..i]);
                replies == d.replies && r.err == d.err && (d.err.None? ==> r.Tasks() == d.stack && r.Input() == d.rest)
    {
      assert chunks[..i + 1][..i] == chunks[..i];
      var ok := r.Feed(chunks[i], spare);
      if ok {
        var more := r.TakeAll();
        replies := replies + more;
      }
    }
    assert chunks[..|chunks|] == chunks;
    AnyChunking(chunks);
    err := r.err;
  }
}
