/** The arithmetic of token buckets: 64-bit limits, 32-bit ticks that wrap around. */
module TokenBucket {
  import opened Basics

  const TWO_TO_32: nat := 0x1_0000_0000
  const SSIZE_MAX: nat := 0x7fff_ffff_ffff_ffff

  /** The configuration of one direction. */
  datatype Rates = Rates(rate: nat, maximum: nat) {
    /** What ev_token_bucket_cfg_new accepts. */
    predicate Valid() { 1 <= rate <= maximum <= SSIZE_MAX }
  }

  function Signed(x: nat): int { if x <= SSIZE_MAX then x else x - TWO_TO_64 }

  function Min(a: int, b: int): int { if a <= b then a else b }

  /** The refill by n ticks as the C code computes it, in unsigned 64-bit arithmetic. */
  function Refill(limit: int, r: Rates, n: nat): int
    requires n > 0
  {
    if ((r.maximum - limit) % TWO_TO_64) / n < r.rate then r.maximum
    else Signed((limit + (n * r.rate) % TWO_TO_64) % TWO_TO_64)
  }

  lemma QuotientBelow(d: nat, n: nat, r: nat)
    requires n > 0
    ensures d / n < r <==> d < n * r
  {
    var q := d / n;
    assert n * q <= d < n * q + n;
    if q < r {
      Monotone(n, q + 1, r);
    } else {
      Monotone(n, r, q);
    }
  }

  lemma Monotone(n: nat, a: nat, b: nat)
    requires a <= b
    ensures n * a <= n * b
  {
  }

  /** The refill with its product named. */
  function RefillBy(limit: int, maximum: nat, gain: nat): int {
    if (maximum - limit) % TWO_TO_64 < gain then maximum
    else Signed((limit + gain % TWO_TO_64) % TWO_TO_64)
  }

  lemma RefillByCapped(limit: int, maximum: nat, gain: nat)
    requires gain >= 1 && -(SSIZE_MAX as int) - 1 <= limit <= maximum <= SSIZE_MAX
    ensures RefillBy(limit, maximum, gain) == Min(maximum, limit + gain)
  {
  }

  lemma RefillByExcess(limit: int, maximum: nat, gain: nat)
    requires gain >= 1 && maximum < limit <= SSIZE_MAX
    ensures RefillBy(limit, maximum, gain) == maximum <==> gain >= TWO_TO_64 - (limit - maximum)
  {
  }

  /** The refill is the plain min(maximum, limit + n * rate) exactly when the limit does not exceed the
      maximum, or the gain reaches the wrapped difference. */
  lemma RefillExact(limit: int, r: Rates, n: nat)
    requires r.Valid() && 1 <= n <= INT_MAX && -(SSIZE_MAX as int) - 1 <= limit <= SSIZE_MAX
    ensures Refill(limit, r, n) == Min(r.maximum, limit + n * r.rate)
            <==> limit <= r.maximum || n * r.rate >= TWO_TO_64 - (limit - r.maximum)
  {
    var gain := n * r.rate;
    Monotone(n, 1, r.rate);
    QuotientBelow((r.maximum - limit) % TWO_TO_64, n, r.rate);
    assert Refill(limit, r, n) == RefillBy(limit, r.maximum, gain);
    RefillWithGain(limit, r.maximum, gain);
  }

  lemma RefillWithGain(limit: int, maximum: nat, gain: nat)
    requires gain >= 1 && maximum <= SSIZE_MAX && -(SSIZE_MAX as int) - 1 <= limit <= SSIZE_MAX
    ensures RefillBy(limit, maximum, gain) == Min(maximum, limit + gain)
            <==> limit <= maximum || gain >= TWO_TO_64 - (limit - maximum)
  {
    hide RefillBy;
    if limit <= maximum {
      RefillByCapped(limit, maximum, gain);
    } else {
      RefillByExcess(limit, maximum, gain);
    }
  }

  // ---------- ticks ----------

  /** The ticks since the last update; 0 when none passed or time went back. */
  function Elapsed(current: nat, last: nat): (n: nat)
    ensures n <= INT_MAX
  {
    var n := (current - last) % TWO_TO_32;
    if n > INT_MAX then 0 else n
  }

  /** In which tick a time falls. */
  function TickOf(sec: nat, usec: nat, msecPerTick: nat): (t: nat)
    requires msecPerTick > 0
    ensures t < TWO_TO_32
  {
    TickAt(sec * 1000 + usec / 1000, msecPerTick)
  }

  /** The same for a time in milliseconds. */
  function TickAt(time: nat, msecPerTick: nat): (t: nat)
    requires msecPerTick > 0
    ensures t < TWO_TO_32
  {
    Ticks(time, msecPerTick) % TWO_TO_32
  }

  /** The number of the tick before it is cut to 32 bits. */
  function Ticks(time: nat, msecPerTick: nat): nat
    requires msecPerTick > 0
  {
    time / msecPerTick
  }

  /** The tick of a time is the number of whole ticks in it, microseconds included, up to 2^32. */
  lemma TickIsFloor(sec: nat, usec: nat, msecPerTick: nat)
    requires msecPerTick > 0
    ensures TickOf(sec, usec, msecPerTick) == (sec * 1000000 + usec) / (msecPerTick * 1000) % TWO_TO_32
  {
    var time := sec * 1000000 + usec;
    assert time / 1000 == sec * 1000 + usec / 1000;
    DivideTwice(time, 1000, msecPerTick);
  }

  lemma DivideTwice(x: nat, a: nat, b: nat)
    requires a > 0 && b > 0
    ensures x / a / b == x / (b * a)
  {
    var q, r := x / a / b, x / a % b;
    var s := x % a;
    assert x == (q * b + r) * a + s;
    assert (q * b + r) * a + s == q * (b * a) + (r * a + s) by {
      assert (q * b + r) * a == q * b * a + r * a;
      assert q * b * a == q * (b * a);
    }
    assert r * a + s < b * a by { assert (r + 1) * a <= b * a; assert (r + 1) * a == r * a + a; }
    QuotientIs(x, b * a, q, r * a + s);
  }

  lemma QuotientIs(x: nat, d: nat, q: nat, r: nat)
    requires d > 0 && x == q * d + r && r < d
    ensures x / d == q
  {
    if x / d < q { Monotone(d, x / d + 1, q); }
    if x / d > q { Monotone(d, q + 1, x / d); }
  }

  /** The bucket of one direction with the tick of its last update. */
  datatype Bucket = Bucket(limit: int, last: nat)

  /** ev_token_bucket_update for one direction. */
  function Updated(b: Bucket, r: Rates, current: nat): Bucket {
    var n := Elapsed(current, b.last);
    if n == 0 then b else Bucket(Refill(b.limit, r, n), current)
  }

  /** A bucket that was just updated at a true time t gets no more ticks later than truly passed,
      although its ticks wrap around. */
  ghost predicate UpToDate(last: nat, t: nat) { Elapsed(t % TWO_TO_32, last) == 0 }

  lemma WrapMod(a: int, b: int)
    ensures (a % TWO_TO_32 - b) % TWO_TO_32 == (a - b) % TWO_TO_32
  {
  }

  lemma {:induction false} ModShift(x: int, q: int)
    ensures (x + q * TWO_TO_32) % TWO_TO_32 == x % TWO_TO_32
    decreases if q >= 0 then q else -q
  {
  }

  lemma CreditBounded(last: nat, t: nat, t': nat)
    requires UpToDate(last, t) && t <= t'
    ensures Elapsed(t' % TWO_TO_32, last) <= t' - t
  {
    WrapMod(t, last);
    WrapMod(t', last);
    var g, d := (t - last) % TWO_TO_32, t' - t;
    var q := (t - last) / TWO_TO_32;
    assert t - last == q * TWO_TO_32 + g;
    assert t' - last == (g + d) + q * TWO_TO_32;
    ModShift(g + d, q);
    assert (t' - last) % TWO_TO_32 == (g + d) % TWO_TO_32;
    if g == 0 {
      assert d % TWO_TO_32 <= d;
    } else if g + d >= TWO_TO_32 {
      assert (g + d) % TWO_TO_32 == (g + d - TWO_TO_32) % TWO_TO_32 <= g + d - TWO_TO_32;
    }
  }

  lemma UpdateIsUpToDate(b: Bucket, r: Rates, t: nat)
    ensures UpToDate(Updated(b, r, t % TWO_TO_32).last, t)
  {
  }

  // ---------- bandwidth ----------

  function Positive(x: int): nat { if x > 0 then x else 0 }

  /** A transfer in true tick t: the bucket is brought up to date, then at most what it allows is
      moved and taken from it. */
  datatype Transfer = Transfer(t: nat, bytes: nat)

  function After(b: Bucket, r: Rates, x: Transfer): Bucket {
    var u := Updated(b, r, x.t % TWO_TO_32);
    u.(limit := u.limit - x.bytes)
  }

  predicate Allowed(b: Bucket, r: Rates, x: Transfer) {
    x.bytes <= Positive(Updated(b, r, x.t % TWO_TO_32).limit)
  }

  ghost predicate LegalRun(b: Bucket, r: Rates, xs: seq<Transfer>)
    decreases |xs|
  {
    xs != [] ==>
      && Allowed(b, r, xs[0])
      && (|xs| > 1 ==> xs[0].t <= xs[1].t)
      && LegalRun(After(b, r, xs[0]), r, xs[1..])
  }

  function Total(xs: seq<Transfer>): nat {
    if xs == [] then 0 else xs[0].bytes + Total(xs[1..])
  }

  lemma UpdateAdds(b: Bucket, r: Rates, t: nat, n: nat)
    requires r.Valid() && -(SSIZE_MAX as int) - 1 <= b.limit <= r.maximum
    requires Elapsed(t % TWO_TO_32, b.last) <= n
    ensures var u := Updated(b, r, t % TWO_TO_32);
            b.limit <= u.limit <= r.maximum && Positive(u.limit) <= Positive(b.limit) + n * r.rate
  {
    var e := Elapsed(t % TWO_TO_32, b.last);
    if e > 0 {
      RefillExact(b.limit, r, e);
      Monotone(r.rate, e, n);
      Monotone(e, 0, r.rate);
    } else {
      Monotone(n, 0, r.rate);
    }
  }

  lemma {:induction false} BoundedFrom(b: Bucket, r: Rates, xs: seq<Transfer>, t: nat)
    requires r.Valid() && -(SSIZE_MAX as int) - 1 <= b.limit <= r.maximum
    requires xs != [] && LegalRun(b, r, xs) && t <= xs[0].t && UpToDate(b.last, t)
    ensures xs[0].t <= xs[|xs| - 1].t
    ensures Total(xs) <= Positive(b.limit) + Gain(r, xs[|xs| - 1].t - t)
    decreases |xs|
  {
    hide Updated, Elapsed;
    var x, u := xs[0], Updated(b, r, xs[0].t % TWO_TO_32);
    CreditBounded(b.last, t, x.t);
    UpdateAdds(b, r, x.t, x.t - t);
    UpdateIsUpToDate(b, r, x.t);
    if |xs| > 1 {
      var last := xs[|xs| - 1].t;
      assert xs[1..][|xs| - 2] == xs[|xs| - 1];
      BoundedFrom(After(b, r, x), r, xs[1..], x.t);
      Distribute(x.t - t, last - x.t, r.rate);
    } else {
      assert xs[1..] == [];
    }
  }

  lemma Distribute(a: int, b: int, r: int)
    ensures a * r + b * r == (a + b) * r
  {
  }

  /** What a number of ticks brings. */
  function Gain(r: Rates, n: int): int { n * r.rate }

  lemma WholeRunBound(b: Bucket, r: Rates, xs: seq<Transfer>)
    requires r.Valid() && -(SSIZE_MAX as int) - 1 <= b.limit <= r.maximum
    requires xs != [] && LegalRun(b, r, xs)
    ensures Total(xs) <= r.maximum + Gain(r, xs[|xs| - 1].t - xs[0].t)
  {
    hide Updated, Elapsed, Gain;
    var x := xs[0];
    UpdateWithin(b, r, x.t);
    UpdateIsUpToDate(b, r, x.t);
    var last := xs[|xs| - 1].t;
    if |xs| > 1 {
      var rest := xs[1..];
      assert rest[|rest| - 1] == xs[|xs| - 1];
      BoundedFrom(After(b, r, x), r, rest, x.t);
    } else {
      assert xs[1..] == [] && Gain(r, last - x.t) == 0 by { NoGain(r); }
    }
  }

  lemma NoGain(r: Rates)
    ensures Gain(r, 0) == 0
  {
  }

  /** The bucket after the first transfers of a run. */
  function AfterAll(b: Bucket, r: Rates, xs: seq<Transfer>): Bucket
    decreases |xs|
  {
    if xs == [] then b else AfterAll(After(b, r, xs[0]), r, xs[1..])
  }

  /** Every stretch of a legal run is one, from the bucket that the transfers before it leave. */
  lemma {:induction false} LegalStretch(b: Bucket, r: Rates, xs: seq<Transfer>, i: nat, j: nat)
    requires r.Valid() && -(SSIZE_MAX as int) - 1 <= b.limit <= r.maximum
    requires LegalRun(b, r, xs) && i <= j <= |xs|
    ensures var c := AfterAll(b, r, xs[..i]);
            -(SSIZE_MAX as int) - 1 <= c.limit <= r.maximum && LegalRun(c, r, xs[i..j])
    decreases |xs|
  {
    hide Updated, Elapsed;
    if i > 0 {
      UpdateWithin(b, r, xs[0].t);
      LegalStretch(After(b, r, xs[0]), r, xs[1..], i - 1, j - 1);
      assert xs[..i][1..] == xs[1..][..i - 1] && xs[1..][i - 1..j - 1] == xs[i..j];
    } else {
      LegalPrefix(b, r, xs, j);
      assert xs[..0] == [] && xs[0..j] == xs[..j];
    }
  }

  lemma {:induction false} LegalPrefix(b: Bucket, r: Rates, xs: seq<Transfer>, j: nat)
    requires LegalRun(b, r, xs) && j <= |xs|
    ensures LegalRun(b, r, xs[..j])
    decreases |xs|
  {
    hide Updated, After, Allowed;
    if j > 0 {
      LegalPrefix(After(b, r, xs[0]), r, xs[1..], j - 1);
      assert xs[..j][1..] == xs[1..][..j - 1];
      assert j > 1 ==> xs[..j][1] == xs[1];
    }
  }

  lemma NoneYet(b: Bucket, r: Rates)
    ensures LegalRun(b, r, []) && AfterAll(b, r, []) == b
  {
  }

  lemma NothingMoves(b: Bucket, r: Rates, t: nat)
    ensures Allowed(b, r, Transfer(t, 0)) && After(b, r, Transfer(t, 0)) == Updated(b, r, t % TWO_TO_32)
  {
  }

  lemma {:induction false} LegalSnoc(b: Bucket, r: Rates, xs: seq<Transfer>, x: Transfer)
    requires LegalRun(b, r, xs) && Allowed(AfterAll(b, r, xs), r, x)
    requires xs != [] ==> xs[|xs| - 1].t <= x.t
    ensures LegalRun(b, r, xs + [x]) && AfterAll(b, r, xs + [x]) == After(AfterAll(b, r, xs), r, x)
    decreases |xs|
  {
    hide Updated, After, Allowed;
    if xs == [] {
      assert [] + [x] == [x];
    } else {
      LegalSnoc(After(b, r, xs[0]), r, xs[1..], x);
      assert (xs + [x])[1..] == xs[1..] + [x];
    }
  }

  /** The bandwidth limit over whole runs: if every transfer moves at most what the bucket allows, the
      transfers of any window move at most maximum + T * rate bytes, where T is the ticks it spans. */
  lemma BandwidthBound(b: Bucket, r: Rates, xs: seq<Transfer>, i: nat, j: nat)
    requires r.Valid() && -(SSIZE_MAX as int) - 1 <= b.limit <= r.maximum
    requires LegalRun(b, r, xs) && i < j <= |xs|
    ensures Total(xs[i..j]) <= r.maximum + (xs[j - 1].t - xs[i].t) * r.rate
  {
    hide LegalRun, AfterAll, Total;
    LegalStretch(b, r, xs, i, j);
    WholeRunBound(AfterAll(b, r, xs[..i]), r, xs[i..j]);
    assert xs[i..j][0] == xs[i] && xs[i..j][j - i - 1] == xs[j - 1];
  }

  /** The bound is reached: a full bucket is emptied at once, and what n ticks bring is moved after them. */
  lemma BoundReached(r: Rates, n: nat)
    requires r.Valid() && 1 <= n <= INT_MAX && n * r.rate <= r.maximum
    ensures var xs := [Transfer(0, r.maximum), Transfer(n, n * r.rate)];
            LegalRun(Bucket(r.maximum, 0), r, xs) && Total(xs) == r.maximum + n * r.rate
  {
    hide Updated;
    var b, x, y := Bucket(r.maximum, 0), Transfer(0, r.maximum), Transfer(n, n * r.rate);
    var xs := [x, y];
    assert Updated(b, r, 0) == b by { SameTick(b, r); }
    RefilledBy(r, n);
    assert xs[1..] == [y] && [y][1..] == [];
    assert LegalRun(After(After(b, r, x), r, y), r, []);
    assert LegalRun(After(b, r, x), r, [y]);
    assert Total([y]) == n * r.rate;
  }

  lemma SameTick(b: Bucket, r: Rates)
    ensures Updated(b, r, b.last) == b
  {
  }

  lemma RefilledBy(r: Rates, n: nat)
    requires r.Valid() && 1 <= n <= INT_MAX && n * r.rate <= r.maximum
    ensures Updated(Bucket(0, 0), r, n % TWO_TO_32).limit == n * r.rate
  {
    hide Refill;
    assert Elapsed(n % TWO_TO_32, 0) == n;
    RefillExact(0, r, n);
  }

  /** An update never takes bandwidth away and never exceeds the maximum. */
  lemma UpdateGrows(b: Bucket, r: Rates, tick: nat)
    requires r.Valid() && -(SSIZE_MAX as int) - 1 <= b.limit <= r.maximum
    ensures b.limit <= Updated(b, r, tick).limit <= r.maximum
  {
    var e := Elapsed(tick, b.last);
    if e > 0 {
      RefillExact(b.limit, r, e);
      Monotone(e, 0, r.rate);
    }
  }

  lemma UpdateWithin(b: Bucket, r: Rates, t: nat)
    requires r.Valid() && -(SSIZE_MAX as int) - 1 <= b.limit <= r.maximum
    ensures b.limit <= Updated(b, r, t % TWO_TO_32).limit <= r.maximum
  {
    UpdateAdds(b, r, t, Elapsed(t % TWO_TO_32, b.last));
  }

  // ---------- reaching positive limits ----------

  /** A refill by at least one tick, of a bucket within its maximum, wakes it as soon as the ticks pay
      for the debt. */
  lemma RefillWakes(b: Bucket, r: Rates, current: nat)
    requires r.Valid() && -(SSIZE_MAX as int) - 1 <= b.limit <= r.maximum && current < TWO_TO_32
    ensures var n := Elapsed(current, b.last);
            Updated(b, r, current).limit > 0 <==> b.limit + n * r.rate > 0
  {
    var n := Elapsed(current, b.last);
    if n > 0 {
      RefillExact(b.limit, r, n);
    }
  }

  // ---------- many refills ----------

  /** The bucket after updates in the given ticks. */
  function Refills(b: Bucket, r: Rates, ticks: seq<nat>): Bucket {
    if ticks == [] then b else Updated(Refills(b, r, ticks[..|ticks| - 1]), r, ticks[|ticks| - 1])
  }

  /** The ticks that these updates credit. */
  function Credit(b: Bucket, r: Rates, ticks: seq<nat>): nat {
    if ticks == [] then 0
    else
      var before := ticks[..|ticks| - 1];
      Credit(b, r, before) + Elapsed(ticks[|ticks| - 1], Refills(b, r, before).last)
  }

  lemma UpdateIs(b: Bucket, r: Rates, tick: nat)
    requires r.Valid() && -(SSIZE_MAX as int) - 1 <= b.limit <= r.maximum
    ensures Updated(b, r, tick).limit == Min(r.maximum, b.limit + Elapsed(tick, b.last) * r.rate)
  {
    var n := Elapsed(tick, b.last);
    if n > 0 { RefillExact(b.limit, r, n); }
  }

  function LastOf(start: nat, times: seq<nat>): nat { if times == [] then start else times[|times| - 1] }

  /** True ticks that do not go back and do not leap by more than INT_MAX. */
  ghost predicate Steady(start: nat, times: seq<nat>) {
    times == [] ||
    var before := times[..|times| - 1];
    Steady(start, before) && LastOf(start, before) <= LastOf(start, times) <= LastOf(start, before) + INT_MAX
  }

  function Wrapped(times: seq<nat>): (r: seq<nat>)
    ensures |r| == |times| && forall i :: 0 <= i < |r| ==> r[i] == times[i] % TWO_TO_32
  {
    seq(|times|, i requires 0 <= i < |times| => times[i] % TWO_TO_32)
  }

  /** What is credited is the time that passed, although ticks wrap around. */
  lemma {:induction false} CreditIsTime(b: Bucket, r: Rates, start: nat, times: seq<nat>)
    requires b.last == start % TWO_TO_32 && Steady(start, times)
    ensures var last := LastOf(start, times);
            && start <= last && Credit(b, r, Wrapped(times)) == last - start
            && Refills(b, r, Wrapped(times)).last == last % TWO_TO_32
    decreases |times|
  {
    hide Refill, Elapsed;
    if times != [] {
      var n := |times| - 1;
      var before := times[..n];
      CreditIsTime(b, r, start, before);
      assert Wrapped(times)[..n] == Wrapped(before);
      SteadyStep(LastOf(start, before), times[n]);
      LastTick(Refills(b, r, Wrapped(before)), r, LastOf(start, before), times[n]);
    }
  }

  lemma LastTick(b: Bucket, r: Rates, t: nat, t': nat)
    requires b.last == t % TWO_TO_32 && t <= t' <= t + INT_MAX
    ensures Updated(b, r, t' % TWO_TO_32).last == t' % TWO_TO_32
  {
    hide Elapsed, Refill;
    SteadyStep(t, t');
  }

  lemma SteadyStep(t: nat, t': nat)
    requires t <= t' <= t + INT_MAX
    ensures Elapsed(t' % TWO_TO_32, t % TWO_TO_32) == t' - t
  {
    WrapBoth(t', t);
  }

  /** However the ticks are spread over updates, all of them count, up to the maximum. */
  lemma {:induction false} RefillsAdd(b: Bucket, r: Rates, ticks: seq<nat>)
    requires r.Valid() && -(SSIZE_MAX as int) - 1 <= b.limit <= r.maximum
    ensures Refills(b, r, ticks).limit == Min(r.maximum, b.limit + Credit(b, r, ticks) * r.rate)
    ensures b.limit <= Refills(b, r, ticks).limit <= r.maximum
  {
    hide Updated, Elapsed;
    if ticks != [] {
      var before, last := ticks[..|ticks| - 1], ticks[|ticks| - 1];
      RefillsAdd(b, r, before);
      var mid := Refills(b, r, before);
      UpdateIs(mid, r, last);
      UpdateGrows(mid, r, last);
      Distribute(Credit(b, r, before), Elapsed(last, mid.last), r.rate);
      Monotone(r.rate, 0, Elapsed(last, mid.last));
    }
  }

  lemma {:induction false} CreditGrows(b: Bucket, r: Rates, ticks: seq<nat>, i: nat)
    requires i <= |ticks|
    ensures Credit(b, r, ticks[..i]) <= Credit(b, r, ticks)
    decreases |ticks|
  {
    if i == |ticks| {
      assert ticks[..i] == ticks;
    } else {
      var before := ticks[..|ticks| - 1];
      CreditGrows(b, r, before, i);
      assert before[..i] == ticks[..i];
    }
  }

  // ---------- a change of the tick length ----------

  lemma TicksGrow(time: nat, later: nat, m: nat)
    requires m > 0 && time <= later
    ensures Ticks(time, m) <= Ticks(later, m)
  {
    if time / m > later / m { Monotone(m, later / m + 1, time / m); }
  }

  /** When c - b ticks passed since a moment that has number b now and number a before: the exact condition
      for crediting them. */
  ghost predicate CountsOn(a: nat, b: nat, c: nat) {
    || ((a - b) % TWO_TO_32 == 0 && c - b <= INT_MAX)
    || (c == b && (c - a) % TWO_TO_32 > INT_MAX)
  }

  lemma CountsOnExact(a: nat, b: nat, c: nat)
    requires b <= c
    ensures Elapsed(c % TWO_TO_32, a % TWO_TO_32) == c - b <==> CountsOn(a, b, c)
  {
    WrapBoth(c, a);
    SameRemainder(c - a, c - b);
    SameRemainder(a - b, 0);
  }

  /** Numbers have the same remainder just when their difference has none. */
  lemma SameRemainder(x: int, y: int)
    ensures x % TWO_TO_32 == y % TWO_TO_32 <==> (y - x) % TWO_TO_32 == 0
  {
  }

  /** The length of a tick changes from m to m' at some time, when the bucket is up to date.  An update at
      a later time credits the ticks of the new length since then if and only if the time has the same
      number in both countings, up to the wrap-around, and no more than INT_MAX ticks pass; or no new tick
      has begun and the old number is ahead. */
  lemma TickChangeExact(time: nat, later: nat, m: nat, m': nat)
    requires m > 0 && m' > 0 && time <= later
    ensures Elapsed(TickAt(later, m'), TickAt(time, m)) == Ticks(later, m') - Ticks(time, m')
            <==> CountsOn(Ticks(time, m), Ticks(time, m'), Ticks(later, m'))
  {
    hide Ticks, Elapsed, CountsOn;
    TicksGrow(time, later, m');
    CountsOnExact(Ticks(time, m), Ticks(time, m'), Ticks(later, m'));
  }

  lemma WrapBoth(a: int, b: int)
    ensures (a % TWO_TO_32 - b % TWO_TO_32) % TWO_TO_32 == (a - b) % TWO_TO_32
  {
    WrapMod(a, b % TWO_TO_32);
    var q := b / TWO_TO_32;
    assert a - b % TWO_TO_32 == a - b + q * TWO_TO_32;
    ModShift(a - b, q);
  }

  /** While the numbers do not wrap around: a longer tick credits nothing until the new number passes the
      old one, and a shorter tick credits ticks that never passed. */
  lemma TickChangeCredit(time: nat, later: nat, m: nat, m': nat)
    requires m > 0 && m' > 0 && Ticks(time, m) <= INT_MAX && Ticks(later, m') <= INT_MAX
    ensures Elapsed(TickAt(later, m'), TickAt(time, m)) ==
            if Ticks(later, m') <= Ticks(time, m) then 0 else Ticks(later, m') - Ticks(time, m)
  {
    hide Ticks;
    SmallElapsed(Ticks(later, m'), Ticks(time, m));
  }

  lemma SmallElapsed(c: nat, a: nat)
    requires a <= INT_MAX && c <= INT_MAX
    ensures Elapsed(c % TWO_TO_32, a % TWO_TO_32) == if c <= a then 0 else c - a
  {
    if c < a { assert (c - a) % TWO_TO_32 == c - a + TWO_TO_32; }
  }
}
