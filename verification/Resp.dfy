/** The reply parser of hiredis as a transition function over its task stack. */
module Resp {
  import opened Basics
  import opened Decimal

  /** Replies; BadArr is the array object made for a negative count other than -1. */
  datatype Reply =
    | Str(text: string)
    | Status(text: string)
    | Error(text: string)
    | Int(value: int)
    | Nil
    | Arr(elems: seq<Reply>)
    | BadArr(count: int)

  /** The type of a read task; Unknown is the -1 before the type byte was read. */
  datatype Kind = Unknown | KString | KStatus | KError | KInteger | KArray

  /** A read task.  done: the children already attached to its array object. */
  datatype Task = Task(kind: Kind, elements: int, idx: int, done: seq<Reply>)

  datatype Failure = BadType(byte: char) | TooDeep

  const ROOT := Task(Unknown, -1, -1, [])

  const MAX_DEPTH := 8

  /** An array and its next child. */
  ghost predicate Holds(below: Task, above: Task) {
    below.kind == KArray && 0 <= above.idx == |below.done| < below.elements
  }

  /** Tasks below the top are non-empty arrays whose next child is the one above. */
  ghost predicate WellFormed(stack: seq<Task>) {
    && 1 <= |stack| <= MAX_DEPTH + 1
    && forall i, j :: 0 <= i < j < |stack| && j == i + 1 ==> Holds(stack[i], stack[j])
  }

  // ---------- lines and numbers ----------

  const NOT_FOUND := -1

  /** The first position of a carriage return that is followed by a line feed. */
  function FindCrLf(s: string): (p: int)
    ensures p == NOT_FOUND || (0 <= p < |s| - 1 && s[p] == '\r' && s[p + 1] == '\n')
  {
    if |s| < 2 then NOT_FOUND
    else if s[0] == '\r' && s[1] == '\n' then 0
    else
      var p := FindCrLf(s[1..]);
      if p == NOT_FOUND then NOT_FOUND else p + 1
  }

  /** The digit loop of readLongLong, up to the first carriage return. */
  function ScanDigits(s: string, v: nat): Option<nat> {
    if s == [] || s[0] == '\r' then Some(v)
    else if IsDigit(s[0]) then ScanDigits(s[1..], 10 * v + DigitValue(s[0]))
    else None
  }

  /** readLongLong on a line; unexpected input gives -1. */
  function ReadLongLong(s: string): int {
    var neg := s != [] && s[0] == '-';
    var digits := if s != [] && (s[0] == '-' || s[0] == '+') then s[1..] else s;
    match ScanDigits(digits, 0)
    case None => -1
    case Some(v) => if neg then -(v as int) else v
  }

  // ---------- one item ----------

  function KindOf(c: char): Kind {
    match c
    case '-' => KError
    case '+' => KStatus
    case ':' => KInteger
    case '$' => KString
    case '*' => KArray
    case _ => Unknown
  }

  datatype Item = More | Fails(error: Failure) | Got(reply: Reply, used: nat) | Opens(elements: nat, used: nat)

  function LineReply(kind: Kind, line: string): Reply {
    if kind == KInteger then Int(ReadLongLong(line))
    else if kind == KStatus then Status(line)
    else Error(line)
  }

  function LineItem(kind: Kind, s: string): Item {
    var p := FindCrLf(s);
    if p == NOT_FOUND then More else Got(LineReply(kind, s[..p]), p + 2)
  }

  function BulkItem(s: string): Item {
    var p := FindCrLf(s);
    if p == NOT_FOUND then More
    else
      var len := ReadLongLong(s[..p]);
      if len < 0 then Got(Nil, p + 2)
      else if p + 2 + len + 2 <= |s| then Got(Str(s[p + 2..p + 2 + len]), p + 2 + len + 2)
      else More
  }

  function MultiBulkItem(ridx: int, s: string): Item {
    if ridx == MAX_DEPTH then Fails(TooDeep)
    else
      var p := FindCrLf(s);
      if p == NOT_FOUND then More
      else
        var n := ReadLongLong(s[..p]);
        if n == -1 then Got(Nil, p + 2)
        else if n > 0 then Opens(n, p + 2)
        else Got(if n == 0 then Arr([]) else BadArr(n), p + 2)
  }

  function ReadItem(kind: Kind, ridx: int, s: string): (r: Item)
    requires kind != Unknown
    ensures r.Got? || r.Opens? ==> 0 < r.used <= |s|
    ensures r.Opens? ==> ridx != MAX_DEPTH && r.elements > 0
    ensures r.More? && kind == KArray ==> ridx != MAX_DEPTH
  {
    match kind
    case KString => BulkItem(s)
    case KArray => MultiBulkItem(ridx, s)
    case _ => LineItem(kind, s)
  }

  // ---------- the stack ----------

  datatype Next = Done(reply: Reply) | Goes(stack: seq<Task>)

  /** The next child of the array below the top. */
  function Advanced(stack: seq<Task>, obj: Reply): (r: seq<Task>)
    requires WellFormed(stack) && |stack| > 1
    requires stack[|stack| - 1].idx < stack[|stack| - 2].elements - 1
    ensures WellFormed(r)
  {
    var top := |stack| - 1;
    var prv := stack[top - 1];
    stack[top - 1 := prv.(done := prv.done + [obj])][top := Task(Unknown, -1, stack[top].idx + 1, [])]
  }

  /** moveToNextTask: hand a finished object to the array below. */
  function MoveToNext(stack: seq<Task>, obj: Reply): (r: Next)
    requires WellFormed(stack)
    ensures r.Goes? ==> WellFormed(r.stack) && r.stack[|r.stack| - 1].kind == Unknown
    decreases |stack|
  {
    var top := |stack| - 1;
    if top == 0 then Done(obj)
    else
      var cur, prv := stack[top], stack[top - 1];
      assert Holds(prv, cur);
      if cur.idx == prv.elements - 1 then MoveToNext(stack[..top], Arr(prv.done + [obj]))
      else Goes(Advanced(stack, obj))
  }

  datatype Move = Stall | Broken(error: Failure) | Go(next: Next, used: nat)

  function Typed(stack: seq<Task>, kind: Kind): (r: seq<Task>)
    requires WellFormed(stack)
    ensures WellFormed(r)
  {
    stack[|stack| - 1 := stack[|stack| - 1].(kind := kind)]
  }

  /** A new array object: its task learns the count and a task for the first child is pushed. */
  function Opened(stack: seq<Task>, n: nat): (r: seq<Task>)
    requires WellFormed(stack) && |stack| <= MAX_DEPTH && n > 0
    ensures WellFormed(r)
  {
    var top := |stack| - 1;
    stack[top := stack[top].(kind := KArray, elements := n, done := [])] + [Task(Unknown, -1, 0, [])]
  }

  /** One move: read the type byte of the top task, or its item. */
  function Step(stack: seq<Task>, s: string): (m: Move)
    requires WellFormed(stack)
    ensures m.Go? ==> 0 < m.used <= |s| && (m.next.Goes? ==> WellFormed(m.next.stack))
  {
    var cur := stack[|stack| - 1];
    if cur.kind == Unknown then
      if s == [] then Stall
      else if KindOf(s[0]) == Unknown then Broken(BadType(s[0]))
      else Go(Goes(Typed(stack, KindOf(s[0]))), 1)
    else
      match ReadItem(cur.kind, |stack| - 1, s)
      case More => Stall
      case Fails(e) => Broken(e)
      case Got(obj, used) => Go(MoveToNext(stack, obj), used)
      case Opens(n, used) => Go(Goes(Opened(stack, n)), used)
  }

  /** What one redisReaderGetReply finds: a reply, an error, or neither yet. */
  datatype Found = Found(out: Option<Reply>, err: Option<Failure>, stack: seq<Task>, rest: string)

  function GetOne(stack: seq<Task>, s: string): (f: Found)
    requires WellFormed(stack)
    ensures WellFormed(f.stack) && |f.rest| <= |s|
    ensures f.out.Some? ==> f.err.None? && f.stack == [ROOT] && |f.rest| < |s|
    decreases |s|
  {
    match Step(stack, s)
    case Stall => Found(None, None, stack, s)
    case Broken(e) => Found(None, Some(e), [ROOT], "")
    case Go(Done(r), used) => Found(Some(r), None, [ROOT], s[used..])
    case Go(Goes(stack'), used) => GetOne(stack', s[used..])
  }

  /** The reader after it finished an object on top of the stack. */
  function After(stack: seq<Task>, obj: Reply, rest: string): Found
    requires WellFormed(stack)
  {
    match MoveToNext(stack, obj)
    case Done(r) => Found(Some(r), None, [ROOT], rest)
    case Goes(stack') => GetOne(stack', rest)
  }

  /** What the item of a typed top task leads to. */
  function ByItem(stack: seq<Task>, s: string, item: Item): Found
    requires WellFormed(stack)
    requires item.Got? || item.Opens? ==> item.used <= |s|
    requires item.Opens? ==> |stack| <= MAX_DEPTH && item.elements > 0
  {
    match item
    case More => Found(None, None, stack, s)
    case Fails(e) => Found(None, Some(e), [ROOT], "")
    case Got(obj, used) => After(stack, obj, s[used..])
    case Opens(n, used) => GetOne(Opened(stack, n), s[used..])
  }

  lemma FoundByItem(stack: seq<Task>, s: string)
    requires WellFormed(stack) && stack[|stack| - 1].kind != Unknown
    ensures var item := ReadItem(stack[|stack| - 1].kind, |stack| - 1, s);
            GetOne(stack, s) == ByItem(stack, s, item)
  {
  }

  /** Draining: replies are taken until there is none. */
  datatype Drained = Drained(replies: seq<Reply>, err: Option<Failure>, stack: seq<Task>, rest: string)

  function Drain(stack: seq<Task>, s: string): (d: Drained)
    requires WellFormed(stack)
    ensures WellFormed(d.stack)
    decreases |s|
  {
    var f := GetOne(stack, s);
    if f.out.None? then Drained([], f.err, f.stack, f.rest)
    else
      var d := Drain(f.stack, f.rest);
      d.(replies := [f.out.value] + d.replies)
  }

  // ---------- any chunking ----------

  lemma {:induction false} FindCrLfExtends(s: string, t: string)
    requires FindCrLf(s) != NOT_FOUND
    ensures FindCrLf(s + t) == FindCrLf(s)
  {
    if !(s[0] == '\r' && s[1] == '\n') {
      assert (s + t)[1..] == s[1..] + t;
      FindCrLfExtends(s[1..], t);
    }
  }

  lemma ItemExtends(kind: Kind, ridx: int, s: string, t: string)
    requires kind != Unknown && ReadItem(kind, ridx, s) != More
    ensures ReadItem(kind, ridx, s + t) == ReadItem(kind, ridx, s)
  {
    hide FindCrLf, ReadLongLong;
    var p := FindCrLf(s);
    if p != NOT_FOUND {
      FindCrLfExtends(s, t);
      assert (s + t)[..p] == s[..p];
      var len := ReadLongLong(s[..p]);
      if 0 <= len && p + 2 + len + 2 <= |s| {
        assert (s + t)[p + 2..p + 2 + len] == s[p + 2..p + 2 + len];
      }
    }
  }

  /** A move that can be made is not changed by bytes that arrive later. */
  lemma StepExtends(stack: seq<Task>, s: string, t: string)
    requires WellFormed(stack) && Step(stack, s) != Stall
    ensures Step(stack, s + t) == Step(stack, s)
  {
    hide ReadItem, MoveToNext;
    var kind := stack[|stack| - 1].kind;
    if kind != Unknown {
      ItemExtends(kind, |stack| - 1, s, t);
    }
  }

  lemma {:induction false} GetOneExtends(stack: seq<Task>, s: string, t: string)
    requires WellFormed(stack)
    ensures var f := GetOne(stack, s);
            GetOne(stack, s + t) ==
            if f.err.Some? then f
            else if f.out.Some? then f.(rest := f.rest + t)
            else GetOne(f.stack, f.rest + t)
    decreases |s|
  {
    var m := Step(stack, s);
    if m != Stall {
      StepExtends(stack, s, t);
      if m.Go? {
        assert (s + t)[m.used..] == s[m.used..] + t;
        if m.next.Goes? { GetOneExtends(m.next.stack, s[m.used..], t); }
      }
    }
  }

  /** Draining after every piece gives what draining the whole gives. */
  lemma {:induction false} DrainExtends(stack: seq<Task>, s: string, t: string)
    requires WellFormed(stack)
    ensures var d := Drain(stack, s);
            Drain(stack, s + t) ==
            if d.err.Some? then d
            else var d' := Drain(d.stack, d.rest + t); d'.(replies := d.replies + d'.replies)
    decreases |s|
  {
    hide GetOne, WellFormed;
    var f := GetOne(stack, s);
    GetOneExtends(stack, s, t);
    if f.out.Some? {
      DrainExtends(f.stack, f.rest, t);
      var d := Drain(f.stack, f.rest);
      if d.err.None? {
        Regroup([f.out.value], d.replies, Drain(d.stack, d.rest + t).replies);
      }
    } else if f.err.None? {
      assert Drain(stack, s + t) == Drain(f.stack, f.rest + t);
      Regroup([], [], Drain(stack, s + t).replies);
    }
  }

  /** The reader after each of the chunks has been fed and drained; an error ends everything. */
  function FeedAll(chunks: seq<string>): (d: Drained)
    ensures WellFormed(d.stack)
  {
    if chunks == [] then Drained([], None, [ROOT], "")
    else
      var d := FeedAll(chunks[..|chunks| - 1]);
      if d.err.Some? then d
      else
        var d' := Drain(d.stack, d.rest + chunks[|chunks| - 1]);
        d'.(replies := d.replies + d'.replies)
  }

  /** For every byte string and every way of feeding it in pieces: same replies, same error, same
      unfinished state as one feed of the whole. */
  lemma {:induction false} AnyChunking(chunks: seq<string>)
    ensures FeedAll(chunks) == Drain([ROOT], Concat(chunks))
  {
    if chunks != [] {
      var n := |chunks| - 1;
      AnyChunking(chunks[..n]);
      DrainExtends([ROOT], Concat(chunks[..n]), chunks[n]);
    }
  }
}
