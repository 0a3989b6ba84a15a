/** The rate limiter of one bufferevent: suspension flags, buckets and the refill timer. */
module RateLimit {
  import opened Basics
  import opened TokenBucket

  /** Reasons to suspend a direction. */
  datatype Flag = WM | BW | BWGroup | Lookup | FiltRead

  datatype Cfg = Cfg(read: Rates, write: Rates, msecPerTick: nat) {
    predicate Valid() { read.Valid() && write.Valid() && msecPerTick > 0 }

    function Of(isWrite: bool): Rates { if isWrite then write else read }
  }

  /** ev_token_bucket_cfg_new: NULL unless each rate is positive, within its burst and representable. */
  function NewCfg(readRate: nat, readBurst: nat, writeRate: nat, writeBurst: nat, msec: nat): (c: Option<Cfg>)
    ensures c.Some? <==> Rates(readRate, readBurst).Valid() && Rates(writeRate, writeBurst).Valid()
    ensures c.Some? ==> c.value.Of(false) == Rates(readRate, readBurst)
    ensures c.Some? ==> c.value.Of(true) == Rates(writeRate, writeBurst)
    ensures c.Some? ==> c.value.msecPerTick == msec
  {
    if readRate > readBurst || writeRate > writeBurst || readRate < 1 || writeRate < 1 then None
    else if readRate > SSIZE_MAX || writeRate > SSIZE_MAX || readBurst > SSIZE_MAX || writeBurst > SSIZE_MAX then None
    else Some(Cfg(Rates(readRate, readBurst), Rates(writeRate, writeBurst), msec))
  }

  /** One direction: its limit, why it is suspended, whether the user enabled it, and whether the
      backend is told to run it. */
  datatype Side = Side(limit: int, suspended: set<Flag>, enabled: bool, active: bool) {
    /** The backend runs a direction exactly while it is enabled and nothing suspends it. */
    predicate Consistent() { active <==> enabled && suspended == {} }

    /** bufferevent_suspend_read and _write */
    function Suspend(f: Flag): (r: Side)
      ensures Consistent() ==> r.Consistent()
    {
      Side(limit, suspended + {f}, enabled, if suspended == {} then false else active)
    }

    /** bufferevent_unsuspend_read and _write */
    function Unsuspend(f: Flag): (r: Side)
      ensures Consistent() ==> r.Consistent()
    {
      var rest := suspended - {f};
      Side(limit, rest, enabled, if rest == {} && enabled then true else active)
    }

    /** What the refill timer does: a direction waiting for bandwidth resumes when it has some. */
    function Woken(): (r: Side)
      ensures Consistent() ==> r.Consistent()
      ensures BW in r.suspended <==> BW in suspended && limit <= 0
      ensures r.limit == limit && r.enabled == enabled && r.suspended - {BW} == suspended - {BW}
    {
      if BW in suspended && limit > 0 then Unsuspend(BW) else this
    }

    /** Suspended for bandwidth just when the limit is used up. */
    function Settle(): (r: Side)
      ensures Consistent() ==> r.Consistent()
      ensures BW in r.suspended <==> limit <= 0
      ensures r.limit == limit && r.enabled == enabled && r.suspended - {BW} == suspended - {BW}
    {
      if limit > 0 then Unsuspend(BW) else Suspend(BW)
    }
  }

  /** What the rate-limiting group of a bufferevent leaves to it. */
  datatype Group = NoGroup | GroupShare(share: int) | GroupSuspended

  const MAX_TO_TRANSFER_EVER := 16384

  class BufferEvent {
    var attached: bool
    var cfg: Option<Cfg>
    var read: Side
    var write: Side
    var lastUpdated: nat
    var timerPending: bool

    function Of(isWrite: bool): Side
      reads this
    {
      if isWrite then write else read
    }

    /** A direction that cannot go on for lack of bandwidth has a wake-up coming, and one that is not
        suspended for it has bandwidth left. */
    ghost predicate Wakeful(s: Side)
      reads this
    {
      && s.Consistent()
      && (BW in s.suspended ==> timerPending)
      && (BW !in s.suspended && cfg.Some? ==> s.limit > 0)
    }

    ghost predicate Valid()
      reads this
    {
      && (cfg.Some? ==> attached && cfg.value.Valid())
      && (cfg.None? ==> BW !in read.suspended && BW !in write.suspended && !timerPending)
      && Wakeful(read) && Wakeful(write)
    }

    /** Both limits stay within their maxima. */
    ghost predicate Capped()
      reads this
    {
      cfg.Some? ==>
        && -(SSIZE_MAX as int) - 1 <= read.limit <= cfg.value.read.maximum
        && -(SSIZE_MAX as int) - 1 <= write.limit <= cfg.value.write.maximum
    }

    /** The limits fit their type. */
    ghost predicate Representable()
      reads this
    {
      cfg.Some? ==> InRange(read.limit) && InRange(write.limit)
    }

    /** Whether an update in the given tick leaves bandwidth to every direction that does not wait for
        it: always, unless manual refills overfilled a bucket and the gain makes it wrap around. */
    predicate Sound(tick: nat)
      reads this
    {
      cfg.Some? ==> SideSound(false, tick) && SideSound(true, tick)
    }

    predicate SideSound(isWrite: bool, tick: nat)
      requires cfg.Some?
      reads this
    {
      BW in Of(isWrite).suspended || StaysPositive(Of(isWrite).limit, cfg.value.Of(isWrite), Elapsed(tick, lastUpdated))
    }

    constructor ()
      ensures Valid() && Capped() && !attached && cfg.None? && !timerPending
      ensures read == write == Side(0, {}, false, false)
    {
      attached, cfg, lastUpdated, timerPending := false, None, 0, false;
      read, write := Side(0, {}, false, false), Side(0, {}, false, false);
    }

    method Put(isWrite: bool, s: Side)
      modifies this`read, this`write
      ensures if isWrite then write == s && read == old(read) else read == s && write == old(write)
    {
      if isWrite { write := s; } else { read := s; }
    }

    /** bufferevent_suspend_* and _unsuspend_* for reasons other than bandwidth. */
    method SetSuspended(isWrite: bool, f: Flag, on: bool)
      requires Valid() && f != BW
      modifies this`read, this`write
      ensures Valid() && (old(Capped()) ==> Capped())
      ensures var before := old(Of(isWrite)).suspended;
              Of(isWrite).suspended == if on then before + {f} else before - {f}
      ensures Of(isWrite).limit == old(Of(isWrite)).limit && Of(isWrite).enabled == old(Of(isWrite)).enabled
      ensures Of(!isWrite) == old(Of(!isWrite))
    {
      var s := Of(isWrite);
      Put(isWrite, if on then s.Suspend(f) else s.Unsuspend(f));
    }

    /** bufferevent_enable and bufferevent_disable for one direction. */
    method SetEnabled(isWrite: bool, on: bool)
      requires Valid()
      modifies this`read, this`write
      ensures Valid() && (old(Capped()) ==> Capped())
      ensures Of(isWrite).enabled == on && Of(isWrite).suspended == old(Of(isWrite)).suspended
      ensures Of(isWrite).limit == old(Of(isWrite)).limit && Of(!isWrite) == old(Of(!isWrite))
    {
      var s := Of(isWrite);
      if on {
        Put(isWrite, s.(enabled := true, active := if s.suspended == {} then true else s.active));
      } else {
        Put(isWrite, s.(enabled := false, active := false));
      }
    }

    /** ev_token_bucket_update on both buckets. */
    method UpdateBuckets(tick: nat)
      requires cfg.Some?
      modifies this`read, this`write, this`lastUpdated
      ensures read == old(read).(limit := old(Fresh(false, tick)))
      ensures write == old(write).(limit := old(Fresh(true, tick)))
      ensures lastUpdated == Updated(Bucket(old(read.limit), old(lastUpdated)), cfg.value.read, tick).last
    {
      var n := (tick - lastUpdated) % TWO_TO_32;
      if n == 0 || n > INT_MAX { return; }
      read := read.(limit := Refill(read.limit, cfg.value.read, n));
      write := write.(limit := Refill(write.limit, cfg.value.write, n));
      lastUpdated := tick;
    }

    /** The limit of a direction after an update in the given tick. */
    function Fresh(isWrite: bool, tick: nat): int
      requires cfg.Some?
      reads this
    {
      Updated(Bucket(Of(isWrite).limit, lastUpdated), cfg.value.Of(isWrite), tick).limit
    }

    function BucketOf(isWrite: bool): Bucket
      reads this
    {
      Bucket(Of(isWrite).limit, lastUpdated)
    }

    /** _bufferevent_get_rlim_max.  With a bucket of its own the general cap on a single operation does
        not apply to a bufferevent. */
    method GetMax(isWrite: bool, tick: nat, group: Group) returns (most: nat)
      requires Valid() && Representable() && (!group.NoGroup? ==> attached)
      modifies this`read, this`write, this`lastUpdated
      ensures Valid() <==> old(Sound(tick))
      ensures Representable() && (old(Capped()) ==> old(Sound(tick)) && Capped())
      ensures var own := if cfg.Some? then old(Fresh(isWrite, tick)) else MAX_TO_TRANSFER_EVER;
              most == match group
                      case NoGroup => Positive(own)
                      case GroupShare(share) => Positive(Min(own, share))
                      case GroupSuspended => 0
      ensures cfg.Some? ==> most <= Positive(Of(isWrite).limit)
      ensures cfg.Some? ==> forall w :: BucketOf(w) == old(Updated(BucketOf(w), cfg.value.Of(w), tick))
      ensures cfg.None? ==> forall w :: BucketOf(w) == old(BucketOf(w))
      ensures most > MAX_TO_TRANSFER_EVER <==>
              && cfg.Some? && old(Fresh(isWrite, tick)) > MAX_TO_TRANSFER_EVER
              && (group.NoGroup? || (group.GroupShare? && group.share > MAX_TO_TRANSFER_EVER))
      ensures Of(isWrite).suspended == old(Of(isWrite)).suspended + if group.GroupSuspended? then {BWGroup} else {}
      ensures Of(!isWrite).suspended == old(Of(!isWrite)).suspended
      ensures forall w :: Of(w).enabled == old(Of(w)).enabled && (old(Of(w).Consistent()) ==> Of(w).Consistent())
    {
      var maxSoFar := MAX_TO_TRANSFER_EVER;
      if !attached { return maxSoFar; }
      if cfg.Some? {
        UpdateEffect(tick);
        UpdateBuckets(tick);
        maxSoFar := Of(isWrite).limit;
      }
      if !group.NoGroup? {
        var share := 0;
        if group.GroupSuspended? {
          Put(isWrite, Of(isWrite).Suspend(BWGroup));
        } else {
          share := group.share;
        }
        if maxSoFar > share { maxSoFar := share; }
      }
      return if maxSoFar < 0 then 0 else maxSoFar;
    }

    /** What an update in the given tick does to both directions. */
    lemma UpdateEffect(tick: nat)
      requires Valid() && Representable() && cfg.Some?
      ensures InRange(Fresh(false, tick)) && InRange(Fresh(true, tick))
      ensures Sound(tick) <==>
              && (BW !in read.suspended ==> Fresh(false, tick) > 0)
              && (BW !in write.suspended ==> Fresh(true, tick) > 0)
      ensures Capped() ==> Sound(tick) && Fresh(false, tick) <= cfg.value.read.maximum
                           && Fresh(true, tick) <= cfg.value.write.maximum
    {
      hide Updated;
      SideEffect(read.limit, cfg.value.read, lastUpdated, tick);
      SideEffect(write.limit, cfg.value.write, lastUpdated, tick);
    }

    /** _bufferevent_decrement_read_buckets and _write_buckets, the bufferevent's own bucket. */
    method DecrementBuckets(isWrite: bool, bytes: int)
      requires Valid()
      modifies this`read, this`write, this`timerPending
      ensures Valid()
      ensures cfg.Some? ==>
                && Of(isWrite).limit == old(Of(isWrite)).limit - bytes
                && Of(isWrite).suspended == old(Of(isWrite)).suspended + (if Of(isWrite).limit <= 0 then {BW} else {})
                && Of(isWrite).enabled == old(Of(isWrite)).enabled
                && (timerPending <==> old(timerPending) || Of(isWrite).limit <= 0)
      ensures cfg.None? ==> Of(isWrite) == old(Of(isWrite)) && timerPending == old(timerPending)
      ensures Of(!isWrite) == old(Of(!isWrite))
      ensures old(Capped()) && 0 <= bytes && Of(isWrite).limit >= -(SSIZE_MAX as int) - 1 ==> Capped()
    {
      if !attached || cfg.None? { return; }
      var s := Of(isWrite);
      s := s.(limit := s.limit - bytes);
      if s.limit <= 0 {
        s := s.Suspend(BW);
        timerPending := true;
      }
      Put(isWrite, s);
    }

    /** bufferevent_decrement_read_limit and _write_limit; a negative amount refills the bucket. */
    method DecrementLimit(isWrite: bool, amount: int)
      requires Valid() && cfg.Some?
      modifies this`read, this`write, this`timerPending
      ensures Valid()
      ensures Of(isWrite).limit == old(Of(isWrite)).limit - amount && Of(isWrite).enabled == old(Of(isWrite)).enabled
      ensures Of(!isWrite) == old(Of(!isWrite))
      ensures var before, after := old(Of(isWrite)), Of(isWrite);
              if before.limit > 0 >= after.limit then after.suspended == before.suspended + {BW} && timerPending
              else if before.limit <= 0 < after.limit then
                && after.suspended == before.suspended - {BW}
                && timerPending == (old(timerPending) && BW in Of(!isWrite).suspended)
              else after.suspended == before.suspended && timerPending == old(timerPending)
      ensures old(Capped()) ==>
                (Capped() <==> -(SSIZE_MAX as int) - 1 <= Of(isWrite).limit <= cfg.value.Of(isWrite).maximum)
    {
      var s := Of(isWrite);
      var before := s.limit;
      s := s.(limit := before - amount);
      if before > 0 && s.limit <= 0 {
        s := s.Suspend(BW);
        timerPending := true;
      } else if before <= 0 && s.limit > 0 {
        if BW !in Of(!isWrite).suspended { timerPending := false; }
        s := s.Unsuspend(BW);
      }
      Put(isWrite, s);
    }

    /** _bev_refill_callback: the pending timer fires. */
    method RefillCallback(tick: nat)
      requires Valid() && Representable() && timerPending
      modifies this`read, this`write, this`lastUpdated, this`timerPending
      ensures Valid() <==> old(Sound(tick))
      ensures Representable() && (old(Capped()) ==> old(Sound(tick)) && Capped())
      ensures read == old(read).(limit := old(Fresh(false, tick))).Woken()
      ensures write == old(write).(limit := old(Fresh(true, tick))).Woken()
      ensures lastUpdated == old(Updated(BucketOf(false), cfg.value.read, tick)).last
      ensures timerPending <==> BW in read.suspended || BW in write.suspended
    {
      UpdateEffect(tick);
      timerPending := false;
      var again := false;
      UpdateBuckets(tick);
      if BW in read.suspended {
        if read.limit > 0 { read := read.Unsuspend(BW); } else { again := true; }
      }
      if BW in write.suspended {
        if write.limit > 0 { write := write.Unsuspend(BW); } else { again := true; }
      }
      if again { timerPending := true; }
    }

    /** bufferevent_set_rate_limit; same: the very configuration object that is set already. */
    method SetRateLimit(newCfg: Option<Cfg>, same: bool, tick: nat)
      requires Valid() && Representable() && (newCfg.Some? ==> newCfg.value.Valid())
      requires same ==> newCfg == cfg
      modifies this
      ensures Valid() && Representable() && cfg == newCfg && (!same || old(Capped()) ==> Capped())
      ensures same && newCfg.Some? ==>
                && read == old(read) && write == old(write)
                && timerPending == old(timerPending) && lastUpdated == old(lastUpdated)
      ensures newCfg.None? ==>
                && (forall w :: BucketOf(w) == old(BucketOf(w)) && Of(w).enabled == old(Of(w)).enabled)
                && (forall w :: Of(w).suspended == old(Of(w)).suspended - {BW})
                && attached == old(attached)
      ensures newCfg.Some? && !same ==>
                && read == Started(old(read), newCfg.value.read, old(cfg.Some?))
                && write == Started(old(write), newCfg.value.write, old(cfg.Some?))
                && (timerPending <==> read.limit <= 0 || write.limit <= 0)
                && lastUpdated == if old(cfg.Some?) then old(lastUpdated) else tick
    {
      if newCfg.None? {
        if attached {
          cfg := None;
          read, write := read.Unsuspend(BW), write.Unsuspend(BW);
          timerPending := false;
        }
        return;
      }
      if attached && same { return; }
      attached := true;
      var reinit := cfg.Some?;
      cfg := newCfg;
      InitBuckets(newCfg.value, tick, reinit);
      if reinit { timerPending := false; }
      var suspended := false;
      if read.limit > 0 {
        read := read.Unsuspend(BW);
      } else {
        read := read.Suspend(BW);
        suspended := true;
      }
      if write.limit > 0 {
        write := write.Unsuspend(BW);
      } else {
        write := write.Suspend(BW);
        suspended := true;
      }
      if suspended { timerPending := true; }
    }

    /** ev_token_bucket_init */
    method InitBuckets(c: Cfg, tick: nat, reinit: bool)
      modifies this`read, this`write, this`lastUpdated
      ensures read == old(read).(limit := StartLimit(old(read.limit), c.read, reinit))
      ensures write == old(write).(limit := StartLimit(old(write.limit), c.write, reinit))
      ensures lastUpdated == if reinit then old(lastUpdated) else tick
    {
      if reinit {
        if read.limit > c.read.maximum { read := read.(limit := c.read.maximum); }
        if write.limit > c.write.maximum { write := write.(limit := c.write.maximum); }
      } else {
        read := read.(limit := c.read.rate);
        write := write.(limit := c.write.rate);
        lastUpdated := tick;
      }
    }
  }

  /** A direction under a new configuration. */
  function Started(s: Side, r: Rates, reinit: bool): Side {
    s.(limit := StartLimit(s.limit, r, reinit)).Settle()
  }

  predicate InRange(limit: int) { -(SSIZE_MAX as int) - 1 <= limit <= SSIZE_MAX }

  /** Whether n ticks leave a positive limit positive. */
  predicate StaysPositive(limit: int, r: Rates, n: nat) {
    || n == 0
    || limit <= r.maximum
    || limit + n * r.rate <= SSIZE_MAX
    || limit + n * r.rate > TWO_TO_64
  }

  lemma SideEffect(limit: int, r: Rates, last: nat, tick: nat)
    requires r.Valid() && InRange(limit)
    ensures var after := Updated(Bucket(limit, last), r, tick).limit;
            && InRange(after)
            && (limit > 0 ==> (after > 0 <==> StaysPositive(limit, r, Elapsed(tick, last))))
            && (limit <= r.maximum ==> after <= r.maximum)
  {
    hide Elapsed;
    var n := Elapsed(tick, last);
    if n > 0 && limit > 0 { UpdateKeepsPositive(limit, r, n); }
    if limit <= r.maximum { UpdateGrows(Bucket(limit, last), r, tick); }
  }

  /** A bucket that is set up anew starts with the rate; one that is reconfigured is only clipped. */
  function StartLimit(limit: int, r: Rates, reinit: bool): int {
    if reinit then Min(limit, r.maximum) else r.rate
  }

  /** For a direction with bandwidth an update keeps it exactly when the bucket is within its maximum,
      or adding the gain stays representable, or it wraps to a positive number. */
  lemma UpdateKeepsPositive(limit: int, r: Rates, n: nat)
    requires r.Valid() && 1 <= n <= INT_MAX && 0 < limit <= SSIZE_MAX
    ensures Refill(limit, r, n) > 0 <==> StaysPositive(limit, r, n)
  {
    var gain := n * r.rate;
    Monotone(n, 1, r.rate);
    QuotientBelow((r.maximum - limit) % TWO_TO_64, n, r.rate);
    assert Refill(limit, r, n) == RefillBy(limit, r.maximum, gain);
    PositiveWithGain(limit, r.maximum, gain);
  }

  lemma PositiveWithGain(limit: int, maximum: nat, gain: nat)
    requires gain >= 1 && 1 <= maximum <= SSIZE_MAX && 0 < limit <= SSIZE_MAX
    ensures RefillBy(limit, maximum, gain) > 0 <==>
            limit <= maximum || limit + gain <= SSIZE_MAX || limit + gain > TWO_TO_64
  {
  }

  // ---------- whole runs ----------

  /** What can happen to a bufferevent, in the direction that isWrite picks. */
  datatype Event =
    | Suspend(isWrite: bool, flag: Flag, on: bool)
    | Enable(isWrite: bool, on: bool)
    | AskMax(isWrite: bool, tick: nat, group: Group)
    | Transfer(isWrite: bool, bytes: nat)
    | Adjust(isWrite: bool, amount: int)
    | TimerFires(tick: nat)
    | Configure(readRate: nat, readBurst: nat, writeRate: nat, writeBurst: nat, msec: nat, tick: nat)
    | Reconfigure(tick: nat)
    | Unlimit(tick: nat)

  /** The timer fires only while it is pending, limits stay representable, and no update finds an
      overfilled bucket about to wrap around. */
  predicate CanHappen(b: BufferEvent, e: Event)
    reads b
  {
    match e
    case Suspend(_, flag, _) => flag != BW
    case AskMax(_, tick, group) => (group.NoGroup? || b.attached) && b.Sound(tick)
    case Transfer(isWrite, bytes) => InRange(b.Of(isWrite).limit - bytes)
    case Adjust(isWrite, amount) => b.cfg.Some? && InRange(b.Of(isWrite).limit - amount)
    case TimerFires(tick) => b.timerPending && b.Sound(tick)
    case Configure(_, _, _, _, msec, _) => msec > 0
    case _ => true
  }

  method Happen(b: BufferEvent, e: Event)
    requires b.Valid() && b.Representable() && CanHappen(b, e)
    modifies b
    ensures b.Valid() && b.Representable()
    ensures forall w :: WishesOf(b, w) == old(Wish(WishesOf(b, w), e, w))
    ensures b.cfg == CfgAfter(old(b.cfg), e)
  {
    match e {
      case Suspend(isWrite, flag, on) => b.SetSuspended(isWrite, flag, on);
      case Enable(isWrite, on) => b.SetEnabled(isWrite, on);
      case Configure(_, _, _, _, _, _) => ChangeLimit(b, e);
      case Reconfigure(_) => ChangeLimit(b, e);
      case Unlimit(_) => ChangeLimit(b, e);
      case _ => UseLimit(b, e);
    }
  }

  method UseLimit(b: BufferEvent, e: Event)
    requires b.Valid() && b.Representable() && CanHappen(b, e)
    requires e.AskMax? || e.Transfer? || e.Adjust? || e.TimerFires?
    modifies b
    ensures b.Valid() && b.Representable() && b.cfg == old(b.cfg)
    ensures forall w :: WishesOf(b, w) == old(WishesOf(b, w))
  {
    hide Updated, StaysPositive;
    match e {
      case AskMax(isWrite, tick, group) => var _ := b.GetMax(isWrite, tick, group);
      case Transfer(isWrite, bytes) => b.DecrementBuckets(isWrite, bytes);
      case Adjust(isWrite, amount) => b.DecrementLimit(isWrite, amount);
      case TimerFires(tick) => b.RefillCallback(tick);
    }
  }

  method ChangeLimit(b: BufferEvent, e: Event)
    requires b.Valid() && b.Representable() && CanHappen(b, e) && (e.Configure? || e.Reconfigure? || e.Unlimit?)
    modifies b
    ensures b.Valid() && b.Representable()
    ensures forall w :: WishesOf(b, w) == old(WishesOf(b, w))
    ensures b.cfg == CfgAfter(old(b.cfg), e)
  {
    hide Updated, StaysPositive;
    match e {
      case Configure(readRate, readBurst, writeRate, writeBurst, msec, tick) =>
        var c := NewCfg(readRate, readBurst, writeRate, writeBurst, msec);
        if c.Some? { b.SetRateLimit(c, false, tick); }
      case Reconfigure(tick) => b.SetRateLimit(b.cfg, true, tick);
      case Unlimit(tick) => b.SetRateLimit(None, false, tick);
    }
  }

  /** No wake-up is ever lost: after any run of events, a direction that waits for bandwidth has the
      timer pending, and a limited direction that does not wait has bandwidth.  Whatever the limiter did,
      the wishes of the users and the configuration are what the events asked for. */
  method RunAll(events: seq<Event>) returns (b: BufferEvent)
    ensures b.Valid()
    ensures forall w :: BW in b.Of(w).suspended ==> b.timerPending
    ensures forall w :: b.cfg.Some? && BW !in b.Of(w).suspended ==> b.Of(w).limit > 0
    ensures forall w :: b.Of(w).active <==> b.Of(w).enabled && b.Of(w).suspended == {}
    ensures forall w :: WishesOf(b, w) == WishesBy(events, w)
    ensures b.cfg == CfgBy(events)
  {
    b := new BufferEvent();
    for i := 0 to |events|
      invariant fresh(b) && b.Valid() && b.Representable()
      invariant forall w :: WishesOf(b, w) == WishesBy(events[..i], w)
      invariant b.cfg == CfgBy(events[..i])
    {
      assert events[..i + 1][..i] == events[..i];
      if CanHappen(b, events[i]) { Happen(b, events[i]); }
    }
    assert events[..|events|] == events;
  }

  // ---------- what the events ask for ----------

  /** What its user and others than the rate limiter want of a direction: whether it is enabled and why it
      is suspended. */
  datatype Wishes = Wishes(enabled: bool, suspended: set<Flag>)

  function WishesOf(b: BufferEvent, w: bool): Wishes
    reads b
  {
    Wishes(b.Of(w).enabled, b.Of(w).suspended - {BW, BWGroup})
  }

  function Wish(s: Wishes, e: Event, w: bool): Wishes {
    match e
    case Enable(isWrite, on) => if isWrite == w then s.(enabled := on) else s
    case Suspend(isWrite, flag, on) =>
      if isWrite != w || flag in {BW, BWGroup} then s
      else s.(suspended := if on then s.suspended + {flag} else s.suspended - {flag})
    case _ => s
  }

  /** After a run: the last word on enabling, and the reasons given and not taken back. */
  function WishesBy(events: seq<Event>, w: bool): Wishes {
    if events == [] then Wishes(false, {})
    else Wish(WishesBy(events[..|events| - 1], w), events[|events| - 1], w)
  }

  function CfgAfter(c: Option<Cfg>, e: Event): Option<Cfg> {
    match e
    case Configure(readRate, readBurst, writeRate, writeBurst, msec, _) =>
      if msec > 0 && 1 <= readRate <= readBurst <= SSIZE_MAX && 1 <= writeRate <= writeBurst <= SSIZE_MAX
      then Some(Cfg(Rates(readRate, readBurst), Rates(writeRate, writeBurst), msec))
      else c
    case Unlimit(_) => None
    case _ => c
  }

  /** After a run: the last configuration that is acceptable, unless the limit was removed since. */
  function CfgBy(events: seq<Event>): Option<Cfg> {
    if events == [] then None else CfgAfter(CfgBy(events[..|events| - 1]), events[|events| - 1])
  }

  // ---------- waiting for the timer ----------

  /** The timer fires in the given ticks, as long as it is pending and nothing else happens.  A waiting
      direction resumes exactly when the ticks credited by then pay its debt. */
  method FireAll(b: BufferEvent, ticks: seq<nat>)
    requires b.Valid() && b.Capped() && b.cfg.Some?
    modifies b
    ensures b.Valid() && b.Capped() && b.cfg == old(b.cfg)
    ensures ticks != [] ==> forall w :: old(BW in b.Of(w).suspended) ==>
                                          (BW in b.Of(w).suspended <==> old(Owes(b, w, ticks)))
  {
    hide Updated, Elapsed;
    ghost var r0, w0 := b.BucketOf(false), b.BucketOf(true);
    ghost var rs, ws := BW in b.read.suspended, BW in b.write.suspended;
    var c := b.cfg.value;
    for i := 0 to |ticks|
      invariant b.Valid() && b.Capped() && b.cfg == Some(c)
      invariant b.BucketOf(false) == Refills(r0, c.read, ticks[..i])
      invariant b.BucketOf(true) == Refills(w0, c.write, ticks[..i])
      invariant rs && i > 0 ==> (BW in b.read.suspended <==> b.read.limit <= 0)
      invariant ws && i > 0 ==> (BW in b.write.suspended <==> b.write.limit <= 0)
      invariant (rs || ws) && i == 0 ==> b.timerPending
      invariant b.read.limit >= r0.limit && b.write.limit >= w0.limit
    {
      assert ticks[..i + 1][..i] == ticks[..i];
      if !b.timerPending {
        NoLonger(r0, c.read, ticks, i);
        NoLonger(w0, c.write, ticks, i);
        return;
      }
      FireOnce(b, ticks[i]);
    }
    assert ticks[..|ticks|] == ticks;
    RefillsAdd(r0, c.read, ticks);
    RefillsAdd(w0, c.write, ticks);
  }

  method FireOnce(b: BufferEvent, tick: nat)
    requires b.Valid() && b.Capped() && b.cfg.Some? && b.timerPending
    modifies b
    ensures b.Valid() && b.Capped() && b.cfg == old(b.cfg)
    ensures forall w :: b.BucketOf(w) == old(Updated(b.BucketOf(w), b.cfg.value.Of(w), tick))
    ensures forall w :: b.Of(w).limit >= old(b.Of(w).limit)
    ensures forall w :: BW in b.Of(w).suspended <==> old(BW in b.Of(w).suspended) && b.Of(w).limit <= 0
  {
    UpdateGrows(b.BucketOf(false), b.cfg.value.read, tick);
    UpdateGrows(b.BucketOf(true), b.cfg.value.write, tick);
    b.RefillCallback(tick);
  }

  /** The ticks do not pay the debt of a direction. */
  ghost predicate Owes(b: BufferEvent, isWrite: bool, ticks: seq<nat>)
    requires b.cfg.Some?
    reads b
  {
    var r := b.cfg.value.Of(isWrite);
    b.Of(isWrite).limit + Credit(b.BucketOf(isWrite), r, ticks) * r.rate <= 0
  }

  /** Once a debt is paid, later ticks do not bring it back. */
  lemma NoLonger(b: Bucket, r: Rates, ticks: seq<nat>, i: nat)
    requires r.Valid() && -(SSIZE_MAX as int) - 1 <= b.limit <= r.maximum && i <= |ticks|
    ensures Refills(b, r, ticks[..i]).limit > 0 ==> b.limit + Credit(b, r, ticks) * r.rate > 0
  {
    hide Refills, Credit;
    RefillsAdd(b, r, ticks[..i]);
    CreditGrows(b, r, ticks, i);
    Monotone(r.rate, Credit(b, r, ticks[..i]), Credit(b, r, ticks));
  }

  /** The same over true time: a waiting direction resumes exactly when the ticks that have passed by the
      last firing pay its debt. */
  method FireUntil(b: BufferEvent, start: nat, times: seq<nat>)
    requires b.Valid() && b.Capped() && b.cfg.Some? && b.lastUpdated == start % TWO_TO_32
    requires times != [] && Steady(start, times)
    modifies b
    ensures b.Valid() && b.Capped() && b.cfg == old(b.cfg)
    ensures forall w :: old(BW in b.Of(w).suspended) ==>
              (BW in b.Of(w).suspended <==>
               old(b.Of(w).limit) + (LastOf(start, times) - start) * b.cfg.value.Of(w).rate <= 0)
  {
    hide Credit, Steady;
    CreditIsTime(b.BucketOf(false), b.cfg.value.read, start, times);
    CreditIsTime(b.BucketOf(true), b.cfg.value.write, start, times);
    FireAll(b, Wrapped(times));
  }

  // ---------- transfers ----------

  /** One operation as the bufferevent performs it: it asks what it may move, moves at most that, and
      takes it from the bucket.  That is an allowed transfer of the bandwidth bound. */
  method Operate(b: BufferEvent, isWrite: bool, x: Transfer, group: Group) returns (moved: bool)
    requires b.Valid() && b.Capped() && b.cfg.Some? && (!group.NoGroup? ==> b.attached)
    modifies b
    ensures b.Valid() && b.Capped() && b.cfg == old(b.cfg)
    ensures moved ==> old(Allowed(b.BucketOf(isWrite), b.cfg.value.Of(isWrite), x))
    ensures moved ==> b.BucketOf(isWrite) == old(After(b.BucketOf(isWrite), b.cfg.value.Of(isWrite), x))
    ensures !moved ==>
              b.BucketOf(isWrite) == old(Updated(b.BucketOf(isWrite), b.cfg.value.Of(isWrite), x.t % TWO_TO_32))
    ensures group.NoGroup? ==> (moved <==> old(Allowed(b.BucketOf(isWrite), b.cfg.value.Of(isWrite), x)))
    ensures b.BucketOf(!isWrite) == old(Updated(b.BucketOf(!isWrite), b.cfg.value.Of(!isWrite), x.t % TWO_TO_32))
    ensures moved && !group.GroupSuspended? && x.bytes < old(b.Fresh(isWrite, x.t % TWO_TO_32)) ==>
              && b.Of(isWrite).suspended == old(b.Of(isWrite)).suspended
              && b.Of(isWrite).active == old(b.Of(isWrite)).active
    ensures b.Of(!isWrite) == old(b.Of(!isWrite)).(limit := b.Of(!isWrite).limit)
  {
    var tick := x.t % TWO_TO_32;
    b.UpdateEffect(tick);
    var most := b.GetMax(isWrite, tick, group);
    moved := x.bytes <= most;
    if moved { b.DecrementBuckets(isWrite, x.bytes); }
  }

  /** What may happen in a direction, and when. */
  datatype Ask = Ask(isWrite: bool, x: Transfer, group: Group)

  /** A fresh bufferevent with a configuration made from these numbers. */
  method Configured(readRate: nat, readBurst: nat, writeRate: nat, writeBurst: nat, msec: nat, tick: nat)
    returns (b: BufferEvent)
    requires msec > 0
    ensures fresh(b) && b.Valid() && b.Capped()
    ensures b.cfg.Some? <==> 1 <= readRate <= readBurst <= SSIZE_MAX && 1 <= writeRate <= writeBurst <= SSIZE_MAX
    ensures b.cfg.Some? ==>
              && b.cfg.value.Of(false) == Rates(readRate, readBurst)
              && b.cfg.value.Of(true) == Rates(writeRate, writeBurst)
              && b.attached && b.read.limit == readRate && b.write.limit == writeRate && b.lastUpdated == tick
  {
    b := new BufferEvent();
    var c := NewCfg(readRate, readBurst, writeRate, writeBurst, msec);
    if c.Some? { b.SetRateLimit(c, false, tick); }
  }

  /** In its first tick a bufferevent may move one tick's worth in each direction. */
  method FirstTick(readRate: nat, readBurst: nat, writeRate: nat, writeBurst: nat, msec: nat, tick: nat)
    returns (mayRead: nat, mayWrite: nat)
    requires msec > 0
    ensures if 1 <= readRate <= readBurst <= SSIZE_MAX && 1 <= writeRate <= writeBurst <= SSIZE_MAX
            then mayRead == readRate && mayWrite == writeRate
            else mayRead == mayWrite == MAX_TO_TRANSFER_EVER
  {
    var b := Configured(readRate, readBurst, writeRate, writeBurst, msec, tick);
    mayRead := b.GetMax(false, tick, NoGroup);
    mayWrite := b.GetMax(true, tick, NoGroup);
  }

  /** Any operations in both directions, from a fresh bufferevent: in every window of them each direction
      moves at most its own burst and its own rate times the ticks the window spans. */
  method OperateAll(readRate: nat, readBurst: nat, writeRate: nat, writeBurst: nat, msec: nat, asks: seq<Ask>)
    returns (ins: seq<Transfer>, outs: seq<Transfer>)
    requires msec > 0
    requires 1 <= readRate <= readBurst <= SSIZE_MAX && 1 <= writeRate <= writeBurst <= SSIZE_MAX
    requires forall i, j :: 0 <= i < j < |asks| ==> asks[i].x.t <= asks[j].x.t
    ensures |ins| == |outs| == |asks|
    ensures forall i :: 0 <= i < |asks| ==> Outcome(asks[i], ins[i], outs[i])
    ensures forall i, j :: 0 <= i < j <= |asks| ==>
              && Total(ins[i..j]) <= readBurst + (asks[j - 1].x.t - asks[i].x.t) * readRate
              && Total(outs[i..j]) <= writeBurst + (asks[j - 1].x.t - asks[i].x.t) * writeRate
  {
    hide LegalRun, AfterAll, Total, Allowed, After, Updated;
    var b := Configured(readRate, readBurst, writeRate, writeBurst, msec, 0);
    ins, outs := [], [];
    ghost var cfg := b.cfg.value;
    ghost var r0, w0 := b.BucketOf(false), b.BucketOf(true);
    NoneYet(r0, cfg.read);
    NoneYet(w0, cfg.write);
    for k := 0 to |asks|
      invariant fresh(b) && b.Valid() && b.Capped() && b.cfg == Some(cfg)
      invariant |ins| == |outs| == k
      invariant forall i :: 0 <= i < k ==> Outcome(asks[i], ins[i], outs[i])
      invariant LegalRun(r0, cfg.read, ins) && b.BucketOf(false) == AfterAll(r0, cfg.read, ins)
      invariant LegalRun(w0, cfg.write, outs) && b.BucketOf(true) == AfterAll(w0, cfg.write, outs)
    {
      var ask := asks[k];
      NothingMoves(b.BucketOf(false), cfg.read, ask.x.t);
      NothingMoves(b.BucketOf(true), cfg.write, ask.x.t);
      var moved := Operate(b, ask.isWrite, ask.x, ask.group);
      var r := Transfer.Transfer(ask.x.t, if moved && !ask.isWrite then ask.x.bytes else 0);
      var w := Transfer.Transfer(ask.x.t, if moved && ask.isWrite then ask.x.bytes else 0);
      LegalSnoc(r0, cfg.read, ins, r);
      LegalSnoc(w0, cfg.write, outs, w);
      ins, outs := ins + [r], outs + [w];
    }
    forall i, j | 0 <= i < j <= |asks|
      ensures Total(ins[i..j]) <= readBurst + (asks[j - 1].x.t - asks[i].x.t) * readRate
      ensures Total(outs[i..j]) <= writeBurst + (asks[j - 1].x.t - asks[i].x.t) * writeRate
    {
      BandwidthBound(r0, cfg.read, ins, i, j);
      BandwidthBound(w0, cfg.write, outs, i, j);
    }
  }

  /** An operation moves what it asked for in its own direction, or nothing, and nothing in the other. */
  predicate Outcome(ask: Ask, r: Transfer, w: Transfer) {
    && r.t == w.t == ask.x.t
    && (if ask.isWrite then r.bytes == 0 && w.bytes in {0, ask.x.bytes}
        else w.bytes == 0 && r.bytes in {0, ask.x.bytes})
  }

  // ---------- a change of the tick length ----------

  /** At some time, with the buckets up to date, the configuration changes to another tick length; later
      the buckets are updated.  They get the new ticks that passed in between just when TickChangeExact
      says so. */
  method ChangeTick(b: BufferEvent, c: Cfg, time: nat, later: nat) returns (credited: nat)
    requires b.Valid() && b.Capped() && b.cfg.Some? && c.Valid() && time <= later
    requires b.lastUpdated == TickAt(time, b.cfg.value.msecPerTick)
    modifies b
    ensures b.Valid() && b.Capped() && b.cfg == Some(c)
    ensures forall w ::
              b.Of(w).limit == Min(c.Of(w).maximum, Min(old(b.Of(w).limit), c.Of(w).maximum) + credited * c.Of(w).rate)
    ensures credited == Ticks(later, c.msecPerTick) - Ticks(time, c.msecPerTick) <==>
            CountsOn(Ticks(time, old(b.cfg.value.msecPerTick)), Ticks(time, c.msecPerTick), Ticks(later, c.msecPerTick))
  {
    hide Ticks, CountsOn, Updated;
    var tick := TickAt(later, c.msecPerTick);
    TickChangeExact(time, later, b.cfg.value.msecPerTick, c.msecPerTick);
    b.SetRateLimit(Some(c), false, TickAt(time, c.msecPerTick));
    credited := Elapsed(tick, b.lastUpdated);
    UpdateIs(b.BucketOf(false), c.read, tick);
    UpdateIs(b.BucketOf(true), c.write, tick);
    var _ := b.GetMax(false, tick, NoGroup);
  }

  /** The failing inputs, as the events that lead to them: ten bytes a tick, at most fifty, and a debt. */
  method InDebt(msec: nat, time: nat, bytes: nat) returns (b: BufferEvent)
    requires msec > 0 && 10 <= bytes <= SSIZE_MAX
    ensures fresh(b) && b.Valid() && b.Capped() && b.cfg == Some(TenATick(msec))
    ensures b.read.limit == 10 - bytes && BW in b.read.suspended && b.timerPending
    ensures BW !in b.write.suspended && b.write.limit == 10
    ensures b.lastUpdated == TickAt(time, msec)
  {
    b := new BufferEvent();
    b.SetRateLimit(Some(TenATick(msec)), false, TickAt(time, msec));
    b.DecrementBuckets(false, bytes);
  }

  function TenATick(msec: nat): Cfg { Cfg(Rates(10, 50), Rates(10, 50), msec) }

  /** From ticks of a millisecond to ticks of a second: after an hour, 3600 new ticks, a debt of ten bytes
      is still there and the direction still waits. */
  method LongerTickStalls() returns (b: BufferEvent)
    ensures TickOf(4600, 0, 1000) - TickOf(1000, 0, 1000) == 3600
    ensures b.cfg == Some(TenATick(1000)) && BW in b.read.suspended && b.read.limit == -10
  {
    hide Updated;
    FarBehind();
    b := InDebt(1, 1000000, 20);
    b.SetRateLimit(Some(TenATick(1000)), false, TickOf(1000, 0, 1000));
    b.RefillCallback(TickOf(4600, 0, 1000));
  }

  /** From ticks of a second to ticks of a millisecond: at the same moment, a debt of 100000 bytes turns
      into a full bucket. */
  method ShorterTickFills() returns (b: BufferEvent)
    ensures b.cfg == Some(TenATick(1)) && BW !in b.read.suspended && b.read.limit == 50
  {
    hide Updated;
    FilledAtOnce();
    b := InDebt(1000, 1000000000, 100010);
    b.SetRateLimit(Some(TenATick(1)), false, TickOf(1000000, 0, 1));
    b.RefillCallback(TickOf(1000000, 0, 1));
  }

  lemma FarBehind()
    ensures TickAt(1000000, 1) == 1000000 && TickOf(1000, 0, 1000) == 1000 && TickOf(4600, 0, 1000) == 4600
    ensures Updated(Bucket(-10, 1000000), Rates(10, 50), 4600).limit == -10
  {
  }

  lemma FilledAtOnce()
    ensures TickAt(1000000000, 1000) == 1000000 && TickOf(1000000, 0, 1) == 1000000000
    ensures Updated(Bucket(-100000, 1000000), Rates(10, 50), 1000000000).limit == 50
  {
    hide Updated;
    UpdateIs(Bucket(-100000, 1000000), Rates(10, 50), 1000000000);
  }

  // ---------- an overfilled bucket ----------

  /** A limit is set, a manual refill fills the bucket to the brim of its type, and one tick later an
      operation asks what it may move: the bucket wraps around, nothing suspends the direction, it has
      no bandwidth, and no timer will wake it. */
  method OverfullBucketWraps() returns (b: BufferEvent, most: nat)
    ensures b.cfg.Some? && b.read.suspended == {} && b.read.limit == -(SSIZE_MAX as int) - 1
    ensures most == 0 && !b.timerPending && !b.Valid()
  {
    hide Updated, StaysPositive;
    BrimWraps();
    b := new BufferEvent();
    b.SetRateLimit(Some(Cfg(Rates(1, 1), Rates(1, 1), 1000)), false, 0);
    b.DecrementLimit(false, 1 - SSIZE_MAX);
    most := b.GetMax(false, 1, NoGroup);
  }

  lemma BrimWraps()
    ensures Updated(Bucket(SSIZE_MAX, 0), Rates(1, 1), 1).limit == -(SSIZE_MAX as int) - 1
  {
  }

  /** With a bucket of its own a bufferevent may move more in one operation than the general cap. */
  method WideRead() returns (most: nat)
    ensures most == 1000000 > MAX_TO_TRANSFER_EVER
  {
    var b := new BufferEvent();
    b.SetRateLimit(Some(Cfg(Rates(1000000, 1000000), Rates(1, 1), 1000)), false, 0);
    most := b.GetMax(false, 0, NoGroup);
  }
}
