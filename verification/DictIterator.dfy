/** The iterator over the hash table of hiredis, whose user may delete the entry just visited. */
module DictIterator {
  import opened Basics
  import opened Dict

  /** The entries of a table in the order of a walk. */
  function All<K, V>(t: Table<K, V>): seq<Entry<K, V>> {
    if t == [] then [] else t[0] + All(t[1..])
  }

  lemma NothingLeft<K, V>(t: Table<K, V>)
    ensures All(t[|t|..]) == []
  {
  }

  lemma AllNext<K, V>(t: Table<K, V>, i: nat)
    requires i < |t|
    ensures All(t[i..]) == t[i] + All(t[i + 1..])
  {
    assert t[i..][1..] == t[i + 1..];
  }

  /** The iterator.  Its pointers are modelled by the keys of the entries they point to, which are
      distinct: what a pointer leads to is read from the table as it is then. */
  class Walk<K(==), V> {
    const ht: DictObject<K, V>
    var index: int
    var entry: Option<K>
    var nextEntry: Option<K>

    /** The entries still to come. */
    ghost function Rest(): seq<Entry<K, V>>
      reads this, ht
    {
      Ahead(ht.table, index, entry.Some?, nextEntry)
    }

    /** The saved pointer does not dangle: its entry is in the current bucket. */
    ghost predicate Valid()
      reads this, ht
    {
      && ht.Valid() && -1 <= index
      && (entry.Some? ==> index < |ht.table| && 0 <= index && Points(nextEntry, ht.table[index]))
    }

    constructor (d: DictObject<K, V>)
      requires d.Valid()
      ensures Valid() && ht == d && Rest() == All(d.table)
    {
      ht, index, entry, nextEntry := d, -1, None, None;
      new;
      assert d.table[0..] == d.table;
    }

    method Next() returns (r: Option<Entry<K, V>>)
      requires Valid()
      modifies this
      ensures Valid() && (r.None? <==> old(Rest()) == [])
      ensures r.Some? ==> old(Rest()) == [r.value] + Rest() && entry == Some(r.value.key)
      ensures r.Some? ==> Lacks(Rest(), r.value.key)
    {
      hide Ahead, RestAt, Points, Position, Represents, Lacks;
      ghost var t := ht.table;
      while true
        invariant Valid() && Rest() == old(Rest()) && ht.table == t
        decreases |t| - index, entry.Some?
      {
        var at: nat := 0;
        if entry.None? {
          BetweenChains(t, index, nextEntry);
          index := index + 1;
          if index >= |ht.table| { return None; }
        } else {
          InChain(t, index, nextEntry);
          at := Target(ht.table[index], nextEntry);
        }
        var chain := ht.table[index];
        if at < |chain| {
          TakenHere(t, index, at, ht.hash, ht.contents);
          entry, nextEntry := Some(chain[at].key), KeyAt(chain, at + 1);
          return Some(chain[at]);
        }
        ChainDone(t, index, at, nextEntry);
        entry := None;
      }
    }
  }

  /** The entries from a place of a chain on. */
  ghost function RestAt<K, V>(t: Table<K, V>, index: nat, at: nat): seq<Entry<K, V>>
    requires index < |t| && at <= |t[index]|
  {
    t[index][at..] + All(t[index + 1..])
  }

  lemma InChain<K, V>(t: Table<K, V>, index: nat, p: Option<K>)
    requires index < |t|
    ensures Ahead(t, index, true, p) == RestAt(t, index, Target(t[index], p))
  {
  }

  lemma BetweenChains<K, V>(t: Table<K, V>, index: int, p: Option<K>)
    requires -1 <= index
    ensures Ahead(t, index, false, p) == if index + 1 < |t| then RestAt(t, index + 1, 0) else []
  {
    if index + 1 < |t| { AllNext(t, index + 1); } else { NothingLeft(t); }
  }

  lemma ChainDone<K, V>(t: Table<K, V>, index: nat, at: nat, p: Option<K>)
    requires index < |t| && at == |t[index]|
    ensures RestAt(t, index, at) == Ahead(t, index, false, p)
  {
  }

  lemma TakenHere<K, V>(t: Table<K, V>, index: nat, at: nat, hash: K -> nat, m: map<K, V>)
    requires Represents(t, hash, m) && index < |t| && at < |t[index]|
    ensures var e, p := t[index][at], KeyAt(t[index], at + 1);
            && Points(p, t[index]) && Lacks(Ahead(t, index, true, p), e.key)
            && RestAt(t, index, at) == [e] + Ahead(t, index, true, p)
  {
    hide Represents, All;
    NextTarget(t, index, at, hash, m);
    NotAgain(t, index, at, hash, m);
    var b, p, rest := t[index], KeyAt(t[index], at + 1), All(t[index + 1..]);
    assert From(b, p) == b[at + 1..];
    Regroup([b[at]], From(b, p), rest);
  }

  /** The key at a place of a chain, or null behind its end. */
  function KeyAt<K, V>(b: seq<Entry<K, V>>, i: nat): Option<K> { if i < |b| then Some(b[i].key) else None }

  /** The place a pointer leads to. */
  function Target<K(==), V>(b: seq<Entry<K, V>>, p: Option<K>): (i: nat)
    ensures i <= |b| && From(b, p) == b[i..]
  {
    if p.Some? then Position(b, p.value) else |b|
  }

  /** The pointer to the entry behind a place leads there. */
  lemma NextTarget<K, V>(t: Table<K, V>, index: nat, at: nat, hash: K -> nat, m: map<K, V>)
    requires Represents(t, hash, m) && index < |t| && at < |t[index]|
    ensures var b := t[index];
            var p := KeyAt(b, at + 1);
            Points(p, b) && b[at..] == [b[at]] + From(b, p) && From(b, p) == b[at + 1..]
  {
    hide Slot;
    var b := t[index];
    assert BucketOk(b, index, |t|, hash, m);
    if at + 1 < |b| { assert b[at + 1].key == b[Position(b, b[at + 1].key)].key by { Found(b, at + 1); } }
    assert b[at..] == [b[at]] + b[at + 1..];
  }

  lemma Found<K, V>(b: seq<Entry<K, V>>, i: nat)
    requires Distinct(b) && i < |b|
    ensures Position(b, b[i].key) == i && Holds(b, b[i].key)
  {
  }

  /** A pointer into a chain: null, or to one of its entries. */
  ghost predicate Points<K, V>(p: Option<K>, b: seq<Entry<K, V>>) { p.Some? ==> Holds(b, p.value) }

  /** The part of a chain that starts at a pointer. */
  ghost function From<K, V>(b: seq<Entry<K, V>>, p: Option<K>): seq<Entry<K, V>> {
    if p.Some? then b[Position(b, p.value)..] else []
  }

  /** The entries behind a place in a table: the rest of a chain and the buckets after it. */
  ghost function Ahead<K, V>(t: Table<K, V>, index: int, inChain: bool, p: Option<K>): seq<Entry<K, V>> {
    (if inChain && 0 <= index < |t| then From(t[index], p) else []) +
    if -1 <= index < |t| then All(t[index + 1..]) else []
  }

  // ---------- each binding once ----------

  ghost predicate OneEach<K, V>(s: seq<Entry<K, V>>) {
    forall i, j :: 0 <= i < j < |s| ==> s[i].key != s[j].key
  }

  ghost predicate Lacks<K, V>(s: seq<Entry<K, V>>, key: K) { forall i :: 0 <= i < |s| ==> s[i].key != key }

  /** An entry does not come again behind its place. */
  lemma NotAgain<K, V>(t: Table<K, V>, index: nat, at: nat, hash: K -> nat, m: map<K, V>)
    requires Represents(t, hash, m) && index < |t| && at < |t[index]|
    ensures Lacks(t[index][at + 1..] + All(t[index + 1..]), t[index][at].key)
  {
    hide Represents, All, Slot;
    AllBetween(t, hash, m, index);
    AllNext(t, index);
    NotBehind(t[index], All(t[index + 1..]), at);
  }

  lemma NotBehind<K, V>(b: seq<Entry<K, V>>, rest: seq<Entry<K, V>>, at: nat)
    requires at < |b| && OneEach(b + rest)
    ensures Lacks(b[at + 1..] + rest, b[at].key)
  {
    var s, later := b + rest, b[at + 1..] + rest;
    assert s[at] == b[at] && forall j :: 0 <= j < |later| ==> later[j] == s[at + 1 + j];
  }

  /** Every binding of the map whose bucket is between two bounds once, and nothing else. */
  ghost predicate Between<K, V>(s: seq<Entry<K, V>>, m: map<K, V>, hash: K -> nat, n: nat, low: nat, high: nat)
    requires n > 0
  {
    && OneEach(s)
    && (forall j :: 0 <= j < |s| ==> Binds(m, s[j]) && low <= Slot(hash, s[j].key, n) < high)
    && (forall k :: k in m && low <= Slot(hash, k, n) < high ==> Entry(k, m[k]) in s)
  }

  ghost predicate Binds<K, V>(m: map<K, V>, e: Entry<K, V>) { e.key in m && m[e.key] == e.val }

  lemma BetweenJoined<K, V>(a: seq<Entry<K, V>>, b: seq<Entry<K, V>>, m: map<K, V>, hash: K -> nat, n: nat,
                            low: nat, mid: nat, high: nat)
    requires n > 0 && low <= mid <= high && Between(a, m, hash, n, low, mid) && Between(b, m, hash, n, mid, high)
    ensures Between(a + b, m, hash, n, low, high)
  {
    hide Slot, Binds;
    var s := a + b;
    forall j | 0 <= j < |s| ensures Binds(m, s[j]) && low <= Slot(hash, s[j].key, n) < high {
      if j >= |a| { assert s[j] == b[j - |a|]; }
    }
    forall i, j | 0 <= i < j < |s| ensures s[i].key != s[j].key {
      if i < |a| <= j { assert s[j] == b[j - |a|] && Slot(hash, s[i].key, n) < mid; }
    }
  }

  lemma BucketBetween<K, V>(b: seq<Entry<K, V>>, i: nat, n: nat, hash: K -> nat, m: map<K, V>)
    requires n > 0 && BucketOk(b, i, n, hash, m)
    ensures Between(b, m, hash, n, i, i + 1)
  {
    hide Slot;
    forall j | 0 <= j < |b| ensures Binds(m, b[j]) && Slot(hash, b[j].key, n) == i {
      assert EntryOk(b[j], i, n, hash, m);
    }
    forall k | k in m && Slot(hash, k, n) == i ensures Entry(k, m[k]) in b {
      assert Holds(b, k);
      var j :| 0 <= j < |b| && b[j].key == k;
      assert b[j] == Entry(k, m[k]);
    }
  }

  lemma {:induction false} AllBetween<K, V>(t: Table<K, V>, hash: K -> nat, m: map<K, V>, i: nat)
    requires Represents(t, hash, m) && i <= |t|
    ensures Between(All(t[i..]), m, hash, |t|, i, |t|)
    decreases |t| - i
  {
    hide Slot, BucketOk;
    if i == |t| {
      NothingLeft(t);
    } else {
      AllBetween(t, hash, m, i + 1);
      BucketBetween(t[i], i, |t|, hash, m);
      BetweenJoined(t[i], All(t[i + 1..]), m, hash, |t|, i, i + 1, |t|);
      assert t[i..][1..] == t[i + 1..] && t[i..][0] == t[i];
    }
  }

  /** A walk meets every binding of the map exactly once. */
  lemma AllIsOnce<K, V>(t: Table<K, V>, hash: K -> nat, m: map<K, V>)
    requires Represents(t, hash, m)
    ensures Exactly(All(t), m)
  {
    hide All, Slot;
    AllBetween(t, hash, m, 0);
    assert t[0..] == t;
    forall k | k in m ensures Slot(hash, k, |t|) < |t| { SlotInRange(hash, k, |t|); }
  }

  // ---------- walking and deleting ----------

  /** Every binding of the map once, and nothing else. */
  ghost predicate Exactly<K, V>(s: seq<Entry<K, V>>, m: map<K, V>) {
    && OneEach(s)
    && (forall j :: 0 <= j < |s| ==> Binds(m, s[j]))
    && (forall k :: k in m ==> Entry(k, m[k]) in s)
  }

  ghost predicate Seen<K, V>(visited: seq<Entry<K, V>>, k: K) {
    exists i :: 0 <= i < |visited| && visited[i].key == k
  }

  /** What is left of a map when the doomed ones among the visited keys are gone. */
  ghost function Left<K, V>(m: map<K, V>, visited: seq<Entry<K, V>>, doomed: K -> bool): map<K, V> {
    map k | k in m && !(doomed(k) && Seen(visited, k)) :: m[k]
  }

  lemma LeftMore<K, V>(m: map<K, V>, visited: seq<Entry<K, V>>, e: Entry<K, V>, doomed: K -> bool)
    ensures Left(m, visited + [e], doomed) ==
            if doomed(e.key) then Left(m, visited, doomed) - {e.key} else Left(m, visited, doomed)
  {
    forall k ensures Seen(visited + [e], k) <==> Seen(visited, k) || k == e.key {
      if k == e.key { assert (visited + [e])[|visited|].key == k; }
      if Seen(visited, k) {
        var i :| 0 <= i < |visited| && visited[i].key == k;
        assert (visited + [e])[i].key == k;
      }
    }
  }

  lemma LeftAll<K, V>(m: map<K, V>, visited: seq<Entry<K, V>>, doomed: K -> bool)
    requires Exactly(visited, m)
    ensures Left(m, visited, doomed) == map k | k in m && !doomed(k) :: m[k]
  {
    forall k | k in m ensures Seen(visited, k) {
      assert Entry(k, m[k]) in visited;
      var i :| 0 <= i < |visited| && visited[i] == Entry(k, m[k]);
    }
  }

  /** A walk during which the user deletes any of the entries as they are visited: it still meets every
      binding that was there exactly once, and what is left are the bindings that were not deleted. */
  method VisitAll<K(==), V>(d: DictObject<K, V>, doomed: K -> bool) returns (visited: seq<Entry<K, V>>)
    requires d.Valid()
    modifies d
    ensures Exactly(visited, old(d.contents))
    ensures d.Valid() && d.contents == map k | k in old(d.contents) && !doomed(k) :: old(d.contents)[k]
  {
    hide Represents, All, Slot, Exactly, Left, Ahead, Without, Points;
    ghost var m, t := d.contents, d.table;
    OrderOf(d);
    var walk := new Walk(d);
    visited := [];
    NoneGone(m, doomed);
    while true
      invariant d.Valid() && walk.Valid() && walk.ht == d && fresh(walk)
      invariant visited + walk.Rest() == All(t) && d.contents == Left(m, visited, doomed)
      decreases |walk.Rest()|
    {
      ghost var rest := walk.Rest();
      var e := walk.Next();
      if e.None? {
        assert visited == All(t);
        LeftAll(m, visited, doomed);
        return;
      }
      LeftMore(m, visited, e.value, doomed);
      assert visited + [e.value] + walk.Rest() == visited + rest;
      visited := visited + [e.value];
      if doomed(e.value.key) { DeleteVisited(walk); }
    }
  }

  lemma NoneGone<K, V>(m: map<K, V>, doomed: K -> bool)
    ensures Left(m, [], doomed) == m
  {
  }

  lemma OrderOf<K, V>(d: DictObject<K, V>)
    requires d.Valid()
    ensures Exactly(All(d.table), d.contents)
  {
    if d.table != [] { AllIsOnce(d.table, d.hash, d.contents); }
  }

  // ---------- deleting during a walk ----------

  /** The entries with another key. */
  ghost function Without<K, V>(s: seq<Entry<K, V>>, key: K): seq<Entry<K, V>> {
    if s == [] then [] else Kept(s[0], key) + Without(s[1..], key)
  }

  ghost function Kept<K, V>(e: Entry<K, V>, key: K): seq<Entry<K, V>> { if e.key == key then [] else [e] }

  lemma {:induction false} WithoutAbsent<K, V>(s: seq<Entry<K, V>>, key: K)
    requires Lacks(s, key)
    ensures Without(s, key) == s
  {
    if s != [] { WithoutAbsent(s[1..], key); }
  }

  lemma {:induction false} WithoutLacks<K, V>(s: seq<Entry<K, V>>, key: K)
    ensures Lacks(Without(s, key), key)
  {
    if s != [] { WithoutLacks(s[1..], key); }
  }

  lemma {:induction false} WithoutConcat<K, V>(a: seq<Entry<K, V>>, b: seq<Entry<K, V>>, key: K)
    ensures Without(a + b, key) == Without(a, key) + Without(b, key)
  {
    hide Kept;
    if a == [] {
      assert a + b == b && Without(a, key) + Without(b, key) == Without(b, key);
    } else {
      WithoutConcat(a[1..], b, key);
      assert (a + b)[1..] == a[1..] + b && (a + b)[0] == a[0];
      Regroup(Kept(a[0], key), Without(a[1..], key), Without(b, key));
    }
  }

  lemma UnlinkedIs<K, V>(b: seq<Entry<K, V>>, j: nat)
    requires Distinct(b) && j < |b|
    ensures Unlinked(b, j) == Without(b, b[j].key)
  {
    hide Without, Lacks, Distinct;
    var key, tail := b[j].key, b[j + 1..];
    SplitAt(b, j);
    KeyOnlyHere(b, j);
    WithoutConcat(b[..j], [b[j]] + tail, key);
    WithoutConcat([b[j]], tail, key);
    WithoutAbsent(b[..j], key);
    WithoutAbsent(tail, key);
    NoneKept(b[j]);
    assert [] + tail == tail;
  }

  lemma SplitAt<T>(s: seq<T>, j: nat)
    requires j < |s|
    ensures s == s[..j] + ([s[j]] + s[j + 1..])
  {
  }

  lemma KeyOnlyHere<K, V>(b: seq<Entry<K, V>>, j: nat)
    requires Distinct(b) && j < |b|
    ensures Lacks(b[..j], b[j].key) && Lacks(b[j + 1..], b[j].key)
  {
  }

  lemma NoneKept<K, V>(e: Entry<K, V>)
    ensures Without([e], e.key) == []
  {
  }

  /** A pointer to another entry leads to what it led to, without the deleted one. */
  lemma {:induction false} FromWithout<K, V>(b: seq<Entry<K, V>>, key: K, i: nat)
    requires i < |b| && b[i].key != key && Position(b, b[i].key) == i
    ensures var w, j := Without(b, key), Position(Without(b, key), b[i].key);
            j < |w| && w[j..] == Without(b[i..], key)
  {
    var k := b[i].key;
    if i == 0 {
      assert Without(b, key)[0] == b[0] && b[0..] == b;
    } else {
      FromWithout(b[1..], key, i - 1);
      assert b[1..][i - 1..] == b[i..];
      var w := Without(b[1..], key);
      if b[0].key != key { PositionBehind(b[0], w, k); } else { assert [] + w == w; }
    }
  }

  lemma PositionBehind<K, V>(e: Entry<K, V>, s: seq<Entry<K, V>>, k: K)
    requires e.key != k
    ensures Position([e] + s, k) == 1 + Position(s, k)
    ensures ([e] + s)[1 + Position(s, k)..] == s[Position(s, k)..]
  {
    assert ([e] + s)[1..] == s;
  }

  /** Deleting a key takes it out of every bucket, and so out of the order of a walk. */
  lemma {:induction false} AllWithout<K, V>(t: Table<K, V>, t': Table<K, V>, key: K, i: nat)
    requires |t| == |t'| && i <= |t| && forall x :: 0 <= x < |t| ==> t'[x] == Without(t[x], key)
    ensures All(t'[i..]) == Without(All(t[i..]), key)
    decreases |t| - i
  {
    if i == |t| {
      NothingLeft(t);
      NothingLeft(t');
    } else {
      AllWithout(t, t', key, i + 1);
      AllNext(t, i);
      AllNext(t', i);
      WithoutConcat(t[i], All(t[i + 1..]), key);
    }
  }

  lemma OtherBuckets<K, V>(t: Table<K, V>, hash: K -> nat, m: map<K, V>, key: K, i: nat)
    requires Represents(t, hash, m) && i < |t| && (key !in m || Slot(hash, key, |t|) != i)
    ensures Without(t[i], key) == t[i]
  {
    hide Slot;
    assert BucketOk(t[i], i, |t|, hash, m);
    forall j | 0 <= j < |t[i]| ensures t[i][j].key != key { assert EntryOk(t[i][j], i, |t|, hash, m); }
    WithoutAbsent(t[i], key);
  }

  /** What Delete does to the table. */
  ghost predicate Deleted<K, V>(t: Table<K, V>, t': Table<K, V>, key: K) {
    |t| == |t'| && forall i :: 0 <= i < |t| ==> t'[i] == Without(t[i], key)
  }

  lemma DeleteIs<K, V>(t: Table<K, V>, t': Table<K, V>, hash: K -> nat, m: map<K, V>, key: K)
    requires Represents(t, hash, m) && |t| == |t'|
    requires key !in m ==> t' == t
    requires key in m ==> var h := Slot(hash, key, |t|);
                          && h < |t| && Position(t[h], key) < |t[h]|
                          && t' == t[h := Unlinked(t[h], Position(t[h], key))]
    ensures Deleted(t, t', key)
  {
    hide Slot, Unlinked;
    forall i | 0 <= i < |t| ensures t'[i] == Without(t[i], key) {
      if key in m && i == Slot(hash, key, |t|) {
        assert BucketOk(t[i], i, |t|, hash, m);
        UnlinkedIs(t[i], Position(t[i], key));
      } else {
        OtherBuckets(t, hash, m, key, i);
      }
    }
  }

  lemma AheadWithout<K, V>(t: Table<K, V>, t': Table<K, V>, key: K, index: int, inChain: bool, p: Option<K>)
    requires Deleted(t, t', key) && -1 <= index
    requires inChain ==> 0 <= index < |t| && Points(p, t[index]) && p != Some(key)
    ensures inChain ==> Points(p, t'[index])
    ensures Ahead(t', index, inChain, p) == Without(Ahead(t, index, inChain, p), key)
  {
    hide From, All, Points, Without;
    ghost var here := if inChain then From(t[index], p) else [];
    ghost var later := if index < |t| then All(t[index + 1..]) else [];
    if index < |t| { AllWithout(t, t', key, index + 1); } else { NothingWithout<K, V>(key); }
    if inChain { PointerWithout(t[index], key, p); } else { NothingWithout<K, V>(key); }
    WithoutConcat(here, later, key);
  }

  lemma NothingWithout<K, V>(key: K)
    ensures Without<K, V>([], key) == []
  {
  }

  lemma PointerWithout<K, V>(b: seq<Entry<K, V>>, key: K, p: Option<K>)
    requires Points(p, b) && p != Some(key)
    ensures Points(p, Without(b, key)) && From(Without(b, key), p) == Without(From(b, p), key)
  {
    if p.Some? {
      FromWithout(b, key, Position(b, p.value));
    }
  }

  /** Any deletion between two calls of Next.  The exact condition: the saved pointer stays good if and
      only if it does not point to the deleted entry; and then the walk goes on as before, without it. */
  method DeleteDuring<K(==), V>(walk: Walk<K, V>, key: K)
    requires walk.Valid()
    modifies walk.ht
    ensures walk.ht.Valid() && walk.ht.contents == old(walk.ht.contents) - {key}
    ensures walk.Valid() <==> !(walk.entry.Some? && walk.nextEntry == Some(key))
    ensures walk.Valid() ==> walk.Rest() == Without(old(walk.Rest()), key)
  {
    hide Represents, All, Slot, Ahead, Without, From, Position, Unlinked;
    var d := walk.ht;
    ghost var t := d.table;
    var gone := d.Delete(key);
    TableWithout(t, d.table, d.hash, old(d.contents), key);
    if walk.entry.Some? { WithoutLacks(t[walk.index], key); }
    if !(walk.entry.Some? && walk.nextEntry == Some(key)) {
      AheadWithout(t, d.table, key, walk.index, walk.entry.Some?, walk.nextEntry);
    }
  }

  lemma TableWithout<K, V>(t: Table<K, V>, t': Table<K, V>, hash: K -> nat, m: map<K, V>, key: K)
    requires t != [] ==> Represents(t, hash, m)
    requires |t| == |t'| && (key !in m ==> t' == t)
    requires t != [] && key in m ==>
               var h := Slot(hash, key, |t|);
               && h < |t| && Position(t[h], key) < |t[h]|
               && t' == t[h := Unlinked(t[h], Position(t[h], key))]
    ensures Deleted(t, t', key)
  {
    if t != [] { DeleteIs(t, t', hash, m, key); }
  }

  /** In particular the entry just visited may be deleted: nothing that is still to come changes. */
  method DeleteVisited<K(==), V>(walk: Walk<K, V>)
    requires walk.Valid() && walk.entry.Some? && Lacks(walk.Rest(), walk.entry.value)
    modifies walk.ht
    ensures walk.Valid() && walk.Rest() == old(walk.Rest())
    ensures walk.ht.contents == old(walk.ht.contents) - {walk.entry.value}
  {
    hide Represents, Without;
    var key := walk.entry.value;
    if walk.nextEntry.Some? { SavedIsAhead(walk.ht.table, walk.index, walk.nextEntry); }
    WithoutAbsent(walk.Rest(), key);
    DeleteDuring(walk, key);
  }

  lemma SavedIsAhead<K, V>(t: Table<K, V>, index: int, p: Option<K>)
    requires 0 <= index < |t| && Points(p, t[index]) && p.Some?
    ensures !Lacks(Ahead(t, index, true, p), p.value)
  {
    var j := Position(t[index], p.value);
    assert Ahead(t, index, true, p)[0] == t[index][j];
  }
}
