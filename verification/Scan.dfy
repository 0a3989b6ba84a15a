/** Prefix scans over the ordered key store that stop at the end of the matching run. */
module Scan {

  /** The store's bytewise order of keys. */
  predicate Less(a: string, b: string) {
    b != "" && (a == "" || a[0] < b[0] || (a[0] == b[0] && Less(a[1..], b[1..])))
  }

  /** It orders any two keys, at their first difference or by length. */
  lemma {:induction false} LessIs(a: string, b: string, n: nat)
    requires n <= |a| && n <= |b| && a[..n] == b[..n]
    requires n < |a| && n < |b| ==> a[n] != b[n]
    ensures Less(a, b) <==> n < |b| && (n == |a| || a[n] < b[n])
    decreases n
  {
    if n > 0 {
      assert a[0] == a[..n][0] == b[..n][0] == b[0];
      assert a[1..][..n - 1] == a[..n][1..] && b[1..][..n - 1] == b[..n][1..];
      LessIs(a[1..], b[1..], n - 1);
    }
  }

  ghost predicate Ascending(keys: seq<string>) {
    forall i, j :: 0 <= i < j < |keys| ==> Less(keys[i], keys[j])
  }

  predicate Matches(key: string, prefix: string) { prefix <= key }

  /** All keys with the prefix, in the order of the store. */
  function Matching(keys: seq<string>, prefix: string): seq<string> {
    if keys == [] then []
    else
      var last := keys[|keys| - 1];
      Matching(keys[..|keys| - 1], prefix) + if Matches(last, prefix) then [last] else []
  }

  /** What the keys command asks for: a lone star stands for every key. */
  function Asked(keys: seq<string>, pattern: string): seq<string> {
    if pattern == "*" then keys else Matching(keys, pattern)
  }

  /** The answer holds the keys with the prefix and no others, each once and in ascending
      order. */
  lemma {:induction false} MatchingIs(keys: seq<string>, prefix: string)
    requires Ascending(keys)
    ensures forall k :: k in Matching(keys, prefix) <==> k in keys && prefix <= k
    ensures Ascending(Matching(keys, prefix))
  {
    if keys != [] {
      var n := |keys| - 1;
      var rest := Matching(keys[..n], prefix);
      MatchingIs(keys[..n], prefix);
      forall k | k in rest ensures Less(k, keys[n]) {
        var i :| 0 <= i < n && keys[..n][i] == k;
      }
      assert keys == keys[..n] + [keys[n]];
    }
  }

  /** A lone star asks for every key, any other pattern for the keys it begins. */
  lemma AskedIs(keys: seq<string>, pattern: string)
    requires Ascending(keys)
    ensures Ascending(Asked(keys, pattern))
    ensures forall k :: k in Asked(keys, pattern) <==> k in keys && (pattern == "*" || pattern <= k)
  {
    MatchingIs(keys, pattern);
  }

  lemma PrefixTail(prefix: string, s: string)
    requires prefix != "" && s != "" && prefix[0] == s[0]
    ensures prefix <= s <==> prefix[1..] <= s[1..]
  {
  }

  /** Keys that share a prefix are neighbours: past the first one without it there are no more. */
  lemma {:induction false} Contiguous(prefix: string, a: string, b: string, c: string)
    requires Less(a, b) && Less(b, c) && prefix <= a && !(prefix <= b)
    ensures !(prefix <= c)
  {
    if a[0] == b[0] == c[0] {
      PrefixTail(prefix, a);
      PrefixTail(prefix, b);
      PrefixTail(prefix, c);
      Contiguous(prefix[1..], a[1..], b[1..], c[1..]);
    }
  }

  lemma {:induction false} NoneAfter(keys: seq<string>, prefix: string, i: nat, n: nat)
    requires Ascending(keys) && i < n <= |keys|
    requires Matching(keys[..i], prefix) != [] && !Matches(keys[i], prefix)
    ensures Matching(keys[..n], prefix) == Matching(keys[..i], prefix)
    decreases n
  {
    var last := n - 1;
    assert keys[..n][..last] == keys[..last];
    if last > i {
      NoneAfter(keys, prefix, i, last);
      var k := Matching(keys[..i], prefix)[0];
      MatchingIs(keys[..i], prefix);
      assert k in keys[..i];
      Contiguous(prefix, k, keys[i], keys[last]);
    }
  }

  /** The scans of GentDb: the keys of the store in order, and its cached number of keys. */
  class GentDb {
    var keys: seq<string>
    var keyNum: nat

    ghost predicate Valid()
      reads this
    {
      Ascending(keys)
    }

    constructor ()
      ensures Valid() && keys == [] && keyNum == 0
    {
      keys, keyNum := [], 0;
    }

    method Keys(pattern: string) returns (out: seq<string>, num: nat)
      requires Valid()
      ensures out == Asked(keys, pattern) && num == |out|
      ensures Ascending(out) && forall k :: k in out <==> k in keys && (pattern == "*" || pattern <= k)
    {
      AskedIs(keys, pattern);
      out, num := [], 0;
      var first := true;
      var i := 0;
      while i < |keys|
        invariant i <= |keys| && num == |out| && out == Asked(keys[..i], pattern)
        invariant pattern != "*" ==> first == (out == [])
      {
        assert keys[..i + 1][..i] == keys[..i];
        if pattern != "*" {
          if !Matches(keys[i], pattern) {
            if !first {
              NoneAfter(keys, pattern, i, |keys|);
              assert keys[..|keys|] == keys;
              return;
            }
            i := i + 1;
            continue;
          }
          out := out + [keys[i]];
          num := num + 1;
          first := false;
        } else {
          out := out + [keys[i]];
          num := num + 1;
        }
        i := i + 1;
      }
      assert keys[..i] == keys;
    }

    /** With a prefix, the number of keys that have it; without one, the cached number, which an
        unset cache takes from the scan. */
    method Count(prefix: string) returns (num: nat)
      requires Valid()
      modifies this`keyNum
      ensures prefix != "" ==> num == |Matching(keys, prefix)| && keyNum == old(keyNum)
      ensures prefix == "" ==> num == keyNum == if old(keyNum) > 0 then old(keyNum) else |keys|
    {
      if prefix == "" && keyNum > 0 { return keyNum; }
      num := ScanCount(prefix);
      if prefix == "" && keyNum == 0 { keyNum := num; }
    }

    method ScanCount(prefix: string) returns (num: nat)
      requires Valid()
      ensures num == if prefix == "" then |keys| else |Matching(keys, prefix)|
    {
      num := 0;
      var first := false;
      for i := 0 to |keys|
        invariant num == if prefix == "" then i else |Matching(keys[..i], prefix)|
        invariant prefix != "" ==> first == (num > 0)
      {
        assert keys[..i + 1][..i] == keys[..i];
        if prefix != "" {
          if !Matches(keys[i], prefix) {
            if first {
              NoneAfter(keys, prefix, i, |keys|);
              assert keys[..|keys|] == keys;
              return;
            }
            continue;
          }
          first := true;
          num := num + 1;
        } else {
          num := num + 1;
        }
      }
      assert keys[..|keys|] == keys;
    }
  }
}
