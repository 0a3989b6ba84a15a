/** The chained hash table of hiredis against a finite map. */
module Dict {
  import opened Basics

  // ---------- sizes and masks ----------

  ghost predicate IsPow2(n: nat) { exists k: nat :: n == Pow2(k) }

  /** Bitwise and. */
  function And(a: nat, b: nat): nat {
    if a == 0 || b == 0 then 0 else 2 * And(a / 2, b / 2) + (if a % 2 == 1 && b % 2 == 1 then 1 else 0)
  }

  /** It does not matter which number is the mask. */
  lemma {:induction false} AndSymmetric(a: nat, b: nat)
    ensures And(a, b) == And(b, a)
  {
    if a > 0 && b > 0 { AndSymmetric(a / 2, b / 2); }
  }

  /** Masking with a power of two less one takes the remainder. */
  lemma {:induction false} AndMask(h: nat, k: nat)
    ensures And(h, Pow2(k) - 1) == h % Pow2(k)
  {
    hide And;
    if k == 0 {
      AndZero(h);
    } else {
      var half := Pow2(k - 1);
      AndMask(h / 2, k - 1);
      AndStep(h, half);
      HalfMod(h, half);
    }
  }

  lemma AndZero(h: nat)
    ensures And(h, 0) == 0
  {
  }

  lemma AndStep(h: nat, m: nat)
    requires m > 0
    ensures And(h, 2 * m - 1) == 2 * And(h / 2, m - 1) + h % 2
  {
  }

  lemma HalfMod(h: nat, m: nat)
    requires m > 0
    ensures h % (2 * m) == 2 * ((h / 2) % m) + h % 2
  {
    var q, r := (h / 2) / m, (h / 2) % m;
    assert h / 2 == m * q + r;
    assert h == 2 * (m * q + r) + h % 2;
    assert h == (2 * m) * q + (2 * r + h % 2) by { assert 2 * (m * q) == (2 * m) * q; }
    ModUnique(h, 2 * m, q, 2 * r + h % 2);
  }

  lemma ModUnique(x: nat, m: nat, q: nat, r: nat)
    requires m > 0 && r < m && x == m * q + r
    ensures x % m == r
  {
    var q' := x / m;
    if q < q' { Multiples(m, q + 1, q'); }
    if q' < q { Multiples(m, q' + 1, q); }
  }

  lemma Multiples(m: nat, a: nat, b: nat)
    requires a <= b
    ensures m * a <= m * b
  {
  }

  const INITIAL_SIZE := 4
  const LONG_MAX := 0x7fff_ffff_ffff_ffff

  lemma PowDoubles(n: nat)
    requires IsPow2(n)
    ensures IsPow2(2 * n)
  {
    var k: nat :| n == Pow2(k);
    assert 2 * n == Pow2(k + 1);
  }

  /** The least doubling of the initial size that reaches the wanted one. */
  method NextPower(size: nat) returns (i: nat)
    ensures size >= LONG_MAX ==> i == LONG_MAX
    ensures size < LONG_MAX ==>
              && IsPow2(i) && i >= size && i >= INITIAL_SIZE
              && (i == INITIAL_SIZE || (i < 2 * size && size > INITIAL_SIZE))
  {
    i := INITIAL_SIZE;
    if size >= LONG_MAX { return LONG_MAX; }
    assert IsPow2(i) by { assert INITIAL_SIZE == Pow2(2); }
    while true
      invariant IsPow2(i) && i >= INITIAL_SIZE && (i == INITIAL_SIZE || (i < 2 * size && size > INITIAL_SIZE))
      decreases size - i
    {
      if i >= size { return i; }
      PowDoubles(i);
      i := 2 * i;
    }
  }

  // ---------- buckets ----------

  datatype Entry<K, V> = Entry(key: K, val: V)

  type Table<K, V> = seq<seq<Entry<K, V>>>

  /** The bucket of a key in a table of n buckets. */
  function Slot<K>(hash: K -> nat, key: K, n: nat): nat
    requires n > 0
  {
    And(hash(key), n - 1)
  }

  lemma SlotInRange<K>(hash: K -> nat, key: K, n: nat)
    requires IsPow2(n)
    ensures n > 0 && Slot(hash, key, n) < n
  {
    var k: nat :| n == Pow2(k);
    AndMask(hash(key), k);
  }

  /** The position of a key in a bucket, or its length. */
  function Position<K(==), V>(b: seq<Entry<K, V>>, key: K): (j: nat)
    ensures j <= |b| && (j < |b| ==> b[j].key == key)
    ensures forall i :: 0 <= i < j ==> b[i].key != key
  {
    if b == [] || b[0].key == key then 0 else 1 + Position(b[1..], key)
  }

  /** A chain without one of its entries. */
  function Unlinked<K, V>(b: seq<Entry<K, V>>, j: nat): seq<Entry<K, V>>
    requires j < |b|
  {
    b[..j] + b[j + 1..]
  }

  ghost predicate Distinct<K, V>(b: seq<Entry<K, V>>) {
    forall i, j :: 0 <= i < j < |b| ==> b[i].key != b[j].key
  }

  function Count<K, V>(t: Table<K, V>): nat {
    if t == [] then 0 else |t[0]| + Count(t[1..])
  }

  lemma {:induction false} CountUpdate<K, V>(t: Table<K, V>, i: nat, b: seq<Entry<K, V>>)
    requires i < |t|
    ensures Count(t[i := b]) == Count(t) - |t[i]| + |b|
  {
    if i == 0 {
      assert t[0 := b][1..] == t[1..];
    } else {
      CountUpdate(t[1..], i - 1, b);
      assert t[i := b][1..] == t[1..][i - 1 := b];
    }
  }

  lemma {:induction false} CountZero<K, V>(t: Table<K, V>)
    ensures Count(t) == 0 <==> forall i :: 0 <= i < |t| ==> t[i] == []
  {
    if t != [] {
      CountZero(t[1..]);
      if Count(t) == 0 {
        forall i | 0 <= i < |t| ensures t[i] == [] {
          if i > 0 { assert t[1..][i - 1] == []; }
        }
      }
    }
  }

  // ---------- what a table stands for ----------

  ghost predicate Holds<K, V>(b: seq<Entry<K, V>>, k: K) {
    exists j :: 0 <= j < |b| && b[j].key == k
  }

  ghost predicate EntryOk<K, V>(e: Entry<K, V>, i: nat, n: nat, hash: K -> nat, m: map<K, V>)
    requires n > 0
  {
    e.key in m && m[e.key] == e.val && Slot(hash, e.key, n) == i
  }

  /** Bucket i of n: its entries belong to the map and hash to it, none occurs twice, and no key of the
      map that hashes to it is missing. */
  ghost predicate BucketOk<K, V>(b: seq<Entry<K, V>>, i: nat, n: nat, hash: K -> nat, m: map<K, V>)
    requires n > 0
  {
    && Distinct(b)
    && (forall j :: 0 <= j < |b| ==> EntryOk(b[j], i, n, hash, m))
    && (forall k :: k in m && Slot(hash, k, n) == i ==> Holds(b, k))
  }

  /** A table stands for a map. */
  ghost predicate Represents<K, V>(t: Table<K, V>, hash: K -> nat, m: map<K, V>) {
    && IsPow2(|t|) && |t| > 0
    && (forall i :: 0 <= i < |t| ==> BucketOk(t[i], i, |t|, hash, m))
    && Count(t) == |m|
  }

  /** Looking in the bucket of the hash answers membership. */
  lemma LookupRight<K, V>(b: seq<Entry<K, V>>, n: nat, hash: K -> nat, m: map<K, V>, key: K)
    requires n > 0 && BucketOk(b, Slot(hash, key, n), n, hash, m)
    ensures var j := Position(b, key);
            (j < |b| <==> key in m) && (j < |b| ==> m[key] == b[j].val)
  {
  }

  lemma EmptyRepresents<K, V>(t: Table<K, V>, hash: K -> nat)
    requires IsPow2(|t|) && |t| > 0 && forall i :: 0 <= i < |t| ==> t[i] == []
    ensures Represents(t, hash, map[])
  {
    CountZero(t);
  }

  /** Buckets of other slots do not notice a change at one key. */
  lemma OtherBucket<K, V>(b: seq<Entry<K, V>>, i: nat, n: nat, hash: K -> nat, m: map<K, V>, m': map<K, V>, key: K)
    requires n > 0 && BucketOk(b, i, n, hash, m) && Slot(hash, key, n) != i
    requires m - {key} == m' - {key}
    ensures BucketOk(b, i, n, hash, m')
  {
    hide Slot;
    assert forall k :: k in m && k != key ==> k in m - {key};
    forall j | 0 <= j < |b| ensures EntryOk(b[j], i, n, hash, m') {
      assert EntryOk(b[j], i, n, hash, m);
      assert b[j].key in m' - {key} && (m' - {key})[b[j].key] == (m - {key})[b[j].key];
    }
    forall k | k in m' && Slot(hash, k, n) == i ensures Holds(b, k) {
      assert k in m' - {key};
    }
  }

  /** One bucket changes together with one key of the map. */
  lemma TableUpdate<K, V>(t: Table<K, V>, hash: K -> nat, m: map<K, V>, m': map<K, V>, key: K, b: seq<Entry<K, V>>)
    requires Represents(t, hash, m) && m - {key} == m' - {key}
    requires var i := Slot(hash, key, |t|);
             i < |t| && BucketOk(b, i, |t|, hash, m') && |m'| - |m| == |b| - |t[i]|
    ensures Represents(t[Slot(hash, key, |t|) := b], hash, m')
  {
    hide BucketOk, Slot;
    var i := Slot(hash, key, |t|);
    var t' := t[i := b];
    CountUpdate(t, i, b);
    forall x | 0 <= x < |t'| ensures BucketOk(t'[x], x, |t'|, hash, m') {
      if x != i { OtherBucket(t[x], x, |t|, hash, m, m', key); }
    }
  }

  lemma InsertRepresents<K, V>(t: Table<K, V>, hash: K -> nat, m: map<K, V>, e: Entry<K, V>)
    requires Represents(t, hash, m) && e.key !in m
    ensures var i := Slot(hash, e.key, |t|);
            i < |t| && Represents(t[i := [e] + t[i]], hash, m[e.key := e.val])
  {
    hide Slot;
    SlotInRange(hash, e.key, |t|);
    var i, m' := Slot(hash, e.key, |t|), m[e.key := e.val];
    BucketInsert(t[i], i, |t|, hash, m, e);
    assert m - {e.key} == m' - {e.key} && |m'| == |m| + 1;
    TableUpdate(t, hash, m, m', e.key, [e] + t[i]);
  }

  lemma BucketInsert<K, V>(b: seq<Entry<K, V>>, i: nat, n: nat, hash: K -> nat, m: map<K, V>, e: Entry<K, V>)
    requires n > 0 && BucketOk(b, i, n, hash, m) && e.key !in m && Slot(hash, e.key, n) == i
    ensures BucketOk([e] + b, i, n, hash, m[e.key := e.val])
  {
    hide Slot;
    var b', m' := [e] + b, m[e.key := e.val];
    forall j | 0 <= j < |b'| ensures EntryOk(b'[j], i, n, hash, m') {
      if j > 0 { assert EntryOk(b[j - 1], i, n, hash, m); }
    }
    forall k | k in m' && Slot(hash, k, n) == i ensures Holds(b', k) {
      if k == e.key {
        assert b'[0].key == k;
      } else {
        var j :| 0 <= j < |b| && b[j].key == k;
        assert b'[j + 1].key == k;
      }
    }
    forall j | 0 <= j < |b| ensures b[j].key != e.key {
      assert EntryOk(b[j], i, n, hash, m);
    }
  }

  lemma RemoveRepresents<K, V>(t: Table<K, V>, hash: K -> nat, m: map<K, V>, i: nat, j: nat)
    requires Represents(t, hash, m) && i < |t| && j < |t[i]|
    ensures t[i][j].key in m
    ensures Represents(t[i := t[i][..j] + t[i][j + 1..]], hash, m - {t[i][j].key})
  {
    hide Slot;
    var key := t[i][j].key;
    assert BucketOk(t[i], i, |t|, hash, m) && EntryOk(t[i][j], i, |t|, hash, m);
    var m' := m - {key};
    BucketRemove(t[i], i, |t|, hash, m, j);
    assert m'.Keys == m.Keys - {key} && |m'| == |m| - 1;
    TableUpdate(t, hash, m, m', key, t[i][..j] + t[i][j + 1..]);
  }

  lemma BucketRemove<K, V>(b: seq<Entry<K, V>>, i: nat, n: nat, hash: K -> nat, m: map<K, V>, j: nat)
    requires n > 0 && BucketOk(b, i, n, hash, m) && j < |b|
    ensures BucketOk(b[..j] + b[j + 1..], i, n, hash, m - {b[j].key})
  {
    hide Slot;
    var key := b[j].key;
    var b', m' := b[..j] + b[j + 1..], m - {key};
    forall p | 0 <= p < |b'| ensures EntryOk(b'[p], i, n, hash, m') {
      assert EntryOk(b[if p < j then p else p + 1], i, n, hash, m);
    }
    forall k | k in m' && Slot(hash, k, n) == i ensures Holds(b', k) {
      var p :| 0 <= p < |b| && b[p].key == k;
      assert b'[if p < j then p else p - 1].key == k;
    }
  }

  lemma ReplaceRepresents<K, V>(t: Table<K, V>, hash: K -> nat, m: map<K, V>, i: nat, j: nat, v: V)
    requires Represents(t, hash, m) && i < |t| && j < |t[i]|
    ensures var e := t[i][j];
            e.key in m && Represents(t[i := t[i][j := e.(val := v)]], hash, m[e.key := v])
  {
    hide Slot;
    var e := t[i][j];
    assert BucketOk(t[i], i, |t|, hash, m) && EntryOk(e, i, |t|, hash, m);
    var m' := m[e.key := v];
    BucketReplace(t[i], i, |t|, hash, m, j, v);
    assert m'.Keys == m.Keys && |m'| == |m| && m - {e.key} == m' - {e.key};
    TableUpdate(t, hash, m, m', e.key, t[i][j := e.(val := v)]);
  }

  lemma BucketReplace<K, V>(b: seq<Entry<K, V>>, i: nat, n: nat, hash: K -> nat, m: map<K, V>, j: nat, v: V)
    requires n > 0 && BucketOk(b, i, n, hash, m) && j < |b|
    ensures BucketOk(b[j := b[j].(val := v)], i, n, hash, m[b[j].key := v])
  {
    hide Slot;
    var key := b[j].key;
    var b', m' := b[j := b[j].(val := v)], m[key := v];
    assert EntryOk(b[j], i, n, hash, m);
    forall p | 0 <= p < |b'| ensures EntryOk(b'[p], i, n, hash, m') {
      assert EntryOk(b[p], i, n, hash, m);
    }
    forall k | k in m' && Slot(hash, k, n) == i ensures Holds(b', k) {
      var p :| 0 <= p < |b| && b[p].key == k;
      assert b'[p].key == k;
    }
  }

  // ---------- the dictionary ----------

  class DictObject<K(==), V> {
    const hash: K -> nat
    var table: Table<K, V>
    var used: nat
    ghost var contents: map<K, V>

    ghost predicate Valid()
      reads this
    {
      && used == |contents|
      && if table == [] then contents == map[] else Represents(table, hash, contents)
    }

    constructor (hash: K -> nat)
      ensures Valid() && contents == map[] && table == [] && this.hash == hash
    {
      this.hash, table, used, contents := hash, [], 0, map[];
    }

    /** The table only grows when it is full. */
    ghost predicate Bounded(size: nat)
      reads this
    {
      |table| == size || |table| <= INITIAL_SIZE + 4 * used
    }

    /** _dictExpandIfNeeded: a table for the first entry, a doubled one when it is full. */
    method ExpandIfNeeded() returns (ok: bool)
      requires Valid() && 2 * |table| < LONG_MAX
      modifies this`table
      ensures ok && Valid() && table != [] && Bounded(old(|table|))
    {
      if table == [] {
        ok := Expand(INITIAL_SIZE);
      } else if used == |table| {
        ok := Expand(2 * |table|);
      } else {
        ok := true;
      }
    }

    /** The walk along one chain. */
    method Locate(b: seq<Entry<K, V>>, key: K) returns (j: nat)
      ensures j == Position(b, key)
    {
      j := 0;
      while j < |b| && b[j].key != key
        invariant 0 <= j <= |b| && Position(b, key) == j + Position(b[j..], key)
      {
        assert b[j..][1..] == b[j + 1..];
        j := j + 1;
      }
    }

    /** The bucket of a key and the position of the key in it. */
    method FindSlot(key: K) returns (h: nat, j: nat)
      requires Valid() && table != []
      ensures h < |table| && h == Slot(hash, key, |table|) && j == Position(table[h], key)
      ensures j < |table[h]| <==> key in contents
      ensures j < |table[h]| ==> table[h][j].key == key && contents[key] == table[h][j].val
    {
      hide Slot;
      SlotInRange(hash, key, |table|);
      h := Slot(hash, key, |table|);
      j := Locate(table[h], key);
      LookupRight(table[h], |table|, hash, contents, key);
    }

    /** dictAdd: false when the key is there already. */
    method Add(key: K, val: V) returns (added: bool)
      requires Valid() && 2 * |table| < LONG_MAX
      modifies this
      ensures Valid() && (added <==> key !in old(contents))
      ensures contents == if added then old(contents)[key := val] else old(contents)
      ensures Bounded(old(|table|))
    {
      var ok := ExpandIfNeeded();
      var h, j := FindSlot(key);
      if j < |table[h]| { return false; }
      InsertRepresents(table, hash, contents, Entry(key, val));
      table := table[h := [Entry(key, val)] + table[h]];
      used := used + 1;
      contents := contents[key := val];
      return true;
    }

    /** dictReplace: true when the key is new. */
    method Replace(key: K, val: V) returns (added: bool)
      requires Valid() && 2 * |table| < LONG_MAX
      modifies this
      ensures Valid() && contents == old(contents)[key := val] && (added <==> key !in old(contents))
      ensures Bounded(old(|table|))
    {
      added := Add(key, val);
      if added { return true; }
      var h, j := FindSlot(key);
      ReplaceRepresents(table, hash, contents, h, j, val);
      table := table[h := table[h][j := table[h][j].(val := val)]];
      contents := contents[key := val];
      return false;
    }

    /** dictDelete */
    method Delete(key: K) returns (deleted: bool)
      requires Valid()
      modifies this
      ensures Valid() && contents == old(contents) - {key} && (deleted <==> key in old(contents))
      ensures |table| == old(|table|) && (!deleted ==> table == old(table))
      ensures deleted ==> var h := Slot(hash, key, |table|);
                          && h < |table| && Position(old(table)[h], key) < |old(table)[h]|
                          && table == old(table)[h := Unlinked(old(table)[h], Position(old(table)[h], key))]
    {
      hide Slot;
      if table == [] { return false; }
      var h, j := FindSlot(key);
      if j == |table[h]| {
        assert contents - {key} == contents;
        return false;
      }
      RemoveRepresents(table, hash, contents, h, j);
      table := table[h := Unlinked(table[h], j)];
      used := used - 1;
      contents := contents - {key};
      return true;
    }

    /** dictFind */
    method Find(key: K) returns (r: Option<V>)
      requires Valid()
      ensures r == if key in contents then Some(contents[key]) else None
    {
      if table == [] { return None; }
      var h, j := FindSlot(key);
      return if j < |table[h]| then Some(table[h][j].val) else None;
    }

    /** dictExpand: every entry moves to the bucket of its hash under the new mask; the loop may stop as
        soon as the count of entries left is zero. */
    method Expand(size: nat) returns (ok: bool)
      requires Valid() && size < LONG_MAX
      modifies this`table
      ensures Valid() && (ok <==> used <= size)
      ensures !ok ==> table == old(table)
      ensures ok ==> |table| >= size && IsPow2(|table|) && |table| > 0
      ensures ok ==> |table| == INITIAL_SIZE || (|table| < 2 * size && size > INITIAL_SIZE)
    {
      var realsize := NextPower(size);
      if used > size { return false; }
      var empty: Table<K, V> := seq(realsize, _ => []);
      EmptyRepresents(empty, hash);
      if table == [] {
        assert used == 0;
        table := empty;
        return true;
      }
      var moved := MoveAll(empty);
      table := moved;
      return true;
    }

    method MoveAll(empty: Table<K, V>) returns (moved: Table<K, V>)
      requires Valid() && table != [] && Represents(empty, hash, map[])
      ensures Represents(moved, hash, contents) && |moved| == |empty|
    {
      hide Represents;
      moved := empty;
      var left := used;
      ghost var rest, m: map<K, V> := table, contents;
      assert contents - m.Keys == map[];
      var i := 0;
      while i < |table| && left > 0
        invariant 0 <= i <= |table| && |moved| == |empty|
        invariant Moving(rest, moved, hash, m, contents) && left == |m|
        invariant Walked(rest, table, i)
      {
        moved, left, m := MoveChain(moved, table[i], left, rest, i, m, contents);
        rest := rest[i := []];
        i := i + 1;
      }
      AllMoved(rest, hash, m, i, left);
      assert contents - m.Keys == contents;
    }

    /** One chain of the old table. */
    method MoveChain(to: Table<K, V>, chain: seq<Entry<K, V>>, count: nat, ghost rest: Table<K, V>, ghost i: nat,
                     ghost m: map<K, V>, ghost all: map<K, V>)
      returns (moved: Table<K, V>, left: nat, ghost m': map<K, V>)
      requires Moving(rest, to, hash, m, all) && count == |m| && i < |rest| && rest[i] == chain
      ensures Moving(rest[i := []], moved, hash, m', all) && left == |m'| && |moved| == |to|
    {
      hide Represents;
      var he := chain;
      moved, left, m' := to, count, m;
      assert rest[i := he] == rest;
      while he != []
        invariant |moved| == |to| && left == |m'| && Moving(rest[i := he], moved, hash, m', all)
        decreases |he|
      {
        ghost var now := rest[i := he];
        assert now[i := he[1..]] == rest[i := he[1..]];
        moved := MoveOne(moved, he[0], now, i, m', all);
        m' := m' - {he[0].key};
        left := left - 1;
        he := he[1..];
      }
    }

    /** The head of a chain goes to the front of its new bucket. */
    method MoveOne(moved: Table<K, V>, e: Entry<K, V>, ghost rest: Table<K, V>, ghost i: nat,
                   ghost m: map<K, V>, ghost all: map<K, V>) returns (r: Table<K, V>)
      requires Moving(rest, moved, hash, m, all) && i < |rest| && rest[i] != [] && rest[i][0] == e
      ensures |r| == |moved| && |m - {e.key}| == |m| - 1
      ensures Moving(rest[i := rest[i][1..]], r, hash, m - {e.key}, all)
    {
      hide Slot, Moving;
      MovesOne(moved, e, rest, i, hash, m, all);
      var h := Slot(hash, e.key, |moved|);
      r := moved[h := [e] + moved[h]];
    }
  }

  lemma MovesOne<K, V>(moved: Table<K, V>, e: Entry<K, V>, rest: Table<K, V>, i: nat, hash: K -> nat,
                       m: map<K, V>, all: map<K, V>)
    requires Moving(rest, moved, hash, m, all) && i < |rest| && rest[i] != [] && rest[i][0] == e
    ensures |m - {e.key}| == |m| - 1 && |moved| > 0
    ensures var h := Slot(hash, e.key, |moved|);
            h < |moved| && Moving(rest[i := rest[i][1..]], moved[h := [e] + moved[h]], hash, m - {e.key}, all)
  {
    hide Slot, Represents;
    assert e.key in m && m[e.key] == e.val by { EntryBelongs(rest, hash, m, i, 0); }
    RemoveRepresents(rest, hash, m, i, 0);
    assert rest[i][..0] + rest[i][1..] == rest[i][1..];
    ShareOut(all, m, e.key);
    InsertRepresents(moved, hash, all - m.Keys, e);
  }

  /** Moving one key from one share of a map to the other. */
  lemma ShareOut<K, V>(all: map<K, V>, m: map<K, V>, k: K)
    requires m.Keys <= all.Keys && (forall x :: x in m ==> m[x] == all[x]) && k in m
    ensures (all - m.Keys)[k := m[k]] == all - (m - {k}).Keys && k !in all - m.Keys
    ensures |m - {k}| == |m| - 1
  {
    assert m.Keys == (m - {k}).Keys + {k};
  }

  lemma EntryBelongs<K, V>(t: Table<K, V>, hash: K -> nat, m: map<K, V>, i: nat, j: nat)
    requires Represents(t, hash, m) && i < |t| && j < |t[i]|
    ensures t[i][j].key in m && m[t[i][j].key] == t[i][j].val
  {
    hide Slot;
    assert BucketOk(t[i], i, |t|, hash, m) && EntryOk(t[i][j], i, |t|, hash, m);
  }

  /** The rehash in progress: what is left of the old table and what has moved share the map. */
  ghost predicate Moving<K, V>(rest: Table<K, V>, moved: Table<K, V>, hash: K -> nat, m: map<K, V>, all: map<K, V>) {
    && Represents(rest, hash, m)
    && m.Keys <= all.Keys && (forall k :: k in m ==> m[k] == all[k])
    && Represents(moved, hash, all - m.Keys)
  }

  /** The chains before i are done, the others are untouched. */
  ghost predicate Walked<K, V>(rest: Table<K, V>, table: Table<K, V>, i: nat) {
    && |rest| == |table|
    && (forall x :: 0 <= x < i && x < |rest| ==> rest[x] == [])
    && (forall x :: i <= x < |table| ==> rest[x] == table[x])
  }

  /** When the walk ends, at the last bucket or because no entry is left, nothing was dropped. */
  lemma AllMoved<K, V>(rest: Table<K, V>, hash: K -> nat, m: map<K, V>, i: nat, left: nat)
    requires Represents(rest, hash, m) && left == |m| && i <= |rest|
    requires forall x :: 0 <= x < i ==> rest[x] == []
    requires i == |rest| || left == 0
    ensures m == map[]
  {
    if i == |rest| { CountZero(rest); }
  }

  // ---------- whole runs ----------

  datatype Op<K, V> = OpAdd(key: K, val: V) | OpReplace(key: K, val: V) | OpDelete(key: K) | OpFind(key: K)

  datatype Answer<V> = Did(done: bool) | Found(found: Option<V>)

  /** The effect and the answer of one operation on a finite map. */
  ghost function MapOp<K, V>(m: map<K, V>, op: Op<K, V>): (map<K, V>, Answer<V>) {
    match op
    case OpAdd(key, val) => (if key in m then m else m[key := val], Did(key !in m))
    case OpReplace(key, val) => (m[key := val], Did(key !in m))
    case OpDelete(key) => (m - {key}, Did(key in m))
    case OpFind(key) => (m, Found(if key in m then Some(m[key]) else None))
  }

  ghost function MapRun<K, V>(ops: seq<Op<K, V>>): (map<K, V>, seq<Answer<V>>) {
    if ops == [] then (map[], [])
    else
      var before := MapRun(ops[..|ops| - 1]);
      var (m, a) := MapOp(before.0, ops[|ops| - 1]);
      (m, before.1 + [a])
  }

  method Perform<K(==), V>(d: DictObject<K, V>, op: Op<K, V>) returns (a: Answer<V>)
    requires d.Valid() && 2 * |d.table| < LONG_MAX
    modifies d
    ensures d.Valid() && (d.contents, a) == MapOp(old(d.contents), op)
    ensures d.Bounded(old(|d.table|)) && d.used <= old(d.used) + 1
  {
    match op {
      case OpAdd(key, val) => var b := d.Add(key, val); return Did(b);
      case OpReplace(key, val) => var b := d.Replace(key, val); return Did(b);
      case OpDelete(key) => var b := d.Delete(key); return Did(b);
      case OpFind(key) => var v := d.Find(key); return Found(v);
    }
  }

  /** Every run from an empty dictionary, whatever the hash function, answers like a finite map and
      ends with its bindings. */
  method RunAll<K(==), V>(hash: K -> nat, ops: seq<Op<K, V>>) returns (d: DictObject<K, V>, answers: seq<Answer<V>>)
    requires 8 * |ops| + 8 < LONG_MAX
    ensures d.Valid() && (d.contents, answers) == MapRun(ops) && d.used == |MapRun(ops).0|
  {
    d := new DictObject(hash);
    answers := [];
    for i := 0 to |ops|
      invariant fresh(d) && d.Valid() && (d.contents, answers) == MapRun(ops[..i])
      invariant d.used <= i && |d.table| <= INITIAL_SIZE + 4 * i
    {
      assert ops[..i + 1][..i] == ops[..i];
      var a := Perform(d, ops[i]);
      answers := answers + [a];
    }
    assert ops[..|ops|] == ops;
  }
}
