/** Token buckets of `bufferevent_ratelim.c`: the refill arithmetic and what it allows over whole runs. */
module TokenBuckets {
  import opened Widths

  function Min(a: int, b: int): int {
    if a < b then a else b
  }

  /** A number in 64 bits without a sign. */
  function Unsigned(x: int): (r: nat)
    ensures r < UINT64
  {
    x % UINT64
  }

  /** The same bits with a sign. */
  function Signed(x: int): (r: int)
    ensures -(SSIZE_MAX as int) - 1 <= r <= SSIZE_MAX
  {
    var u := Unsigned(x);
    if u <= SSIZE_MAX then u else u - UINT64
  }

  /** One direction of `ev_token_bucket_update_`, with its unsigned subtraction, division and product. */
  function Refilled(limit: int, max: nat, rate: nat, n: nat): int
    requires n > 0
  {
    if Unsigned(max - limit) / n < rate then max else Signed(limit + Unsigned(n * rate))
  }

  /** A legal configuration, as `ev_token_bucket_cfg_new` makes it. */
  predicate Legal(max: nat, rate: nat) {
    1 <= rate <= max <= SSIZE_MAX
  }

  /** A bucket's limit as a signed 64-bit number. */
  predicate Fits(limit: int) {
    -(SSIZE_MAX as int) - 1 <= limit <= SSIZE_MAX
  }

  lemma QuotientBelow(a: nat, n: nat, rate: nat)
    requires n > 0
    ensures a / n < rate <==> a < n * rate
  {
    var q := a / n;
    assert a == q * n + a % n;
    if q < rate {
      assert (q + 1) * n <= rate * n by { MulMono(q + 1, rate, n); }
      assert (q + 1) * n == q * n + n;
    } else {
      MulMono(rate, q, n);
    }
  }

  lemma MulMono(a: nat, b: nat, n: nat)
    requires a <= b
    ensures a * n <= b * n
  {
    assert b * n == a * n + (b - a) * n;
  }

  lemma WrapSmall(x: int)
    ensures 0 <= x < UINT64 ==> Unsigned(x) == x
    ensures -(UINT64 as int) <= x < 0 ==> Unsigned(x) == x + UINT64
    ensures UINT64 <= x < 2 * UINT64 ==> Unsigned(x) == x - UINT64
  {
    assert (x + UINT64) % UINT64 == x % UINT64;
  }

  lemma WrapOf(limit: int, max: nat, p: nat)
    requires max <= SSIZE_MAX && Fits(limit) && p <= Unsigned(max - limit)
    ensures Unsigned(p) == p
    ensures Signed(limit + p) == if limit + p <= SSIZE_MAX then limit + p else limit + p - UINT64
  {
    WrapSmall(max - limit);
    WrapSmall(p);
    WrapSmall(limit + p);
  }

  /** A refill by `p` tokens, without quotients and remainders. */
  lemma RefilledBy(limit: int, max: nat, rate: nat, n: nat, p: nat)
    requires Legal(max, rate) && Fits(limit) && n > 0 && p == n * rate
    ensures Refilled(limit, max, rate, n) ==
            if (if limit <= max then max - limit else UINT64 - (limit - max)) < p then max
            else if limit + p <= SSIZE_MAX then limit + p else limit + p - UINT64
  {
    QuotientBelow(Unsigned(max - limit), n, rate);
    WrapSmall(max - limit);
    if p <= Unsigned(max - limit) { WrapOf(limit, max, p); }
  }

  /**
   * The overflow-avoiding update is the obvious one exactly when the bucket is not above its
   * maximum, or so many tokens are due that the wrapped difference is passed.
   */
  lemma RefilledExact(limit: int, max: nat, rate: nat, n: nat)
    requires Legal(max, rate) && Fits(limit) && 0 < n <= INT_MAX
    ensures Refilled(limit, max, rate, n) == Min(max, limit + n * rate) <==>
            limit <= max || n * rate >= UINT64 - (limit - max)
  {
    RefilledBy(limit, max, rate, n, n * rate);
  }

  /** An update of a bucket with tokens leaves tokens in it, exactly when the sum does not wrap around. */
  predicate Steady(limit: int, max: nat, rate: nat, n: nat) {
    limit <= max || n * rate > UINT64 - (limit - max) || limit + n * rate <= SSIZE_MAX || limit + n * rate > UINT64
  }

  lemma RefilledPositive(limit: int, max: nat, rate: nat, n: nat)
    requires Legal(max, rate) && Fits(limit) && 0 < n <= INT_MAX && limit > 0
    ensures Refilled(limit, max, rate, n) > 0 <==> Steady(limit, max, rate, n)
  {
    RefilledBy(limit, max, rate, n, n * rate);
  }

  /** A bucket above its maximum is not brought back to it. */
  lemma AboveMaximum()
    ensures Refilled(2, 1, 1, 1) == 3
  {
    QuotientBelow(Unsigned(1 - 2), 1, 1);
    WrapSmall(1 - 2);
    WrapSmall(1);
    WrapSmall(3);
  }

  /** The elapsed ticks between two 32-bit tick counters. */
  function Ticks(now: nat, last: nat): nat {
    (now - last) % UINT32
  }

  /** Whether the update happens at all: some ticks have passed, and time has not gone back. */
  predicate Due(n: nat) {
    0 < n <= INT_MAX
  }

  // Whole runs of one direction of a bucket.

  datatype Config = Config(max: nat, rate: nat)

  /** A bucket with the time of its last update, counted in ticks that do not wrap. */
  datatype Bucket = Bucket(limit: int, last: nat)

  /** At some time up to `bytes` are asked for; a transfer of nothing stands for a look at the limit. */
  datatype Transfer = Transfer(time: nat, bytes: nat)

  /** `ev_token_bucket_update_` at a time, which it only knows in 32 bits. */
  function Update(b: Bucket, cfg: Config, time: nat): Bucket {
    var n := Ticks(time % UINT32, b.last % UINT32);
    if Due(n) then Bucket(Refilled(b.limit, cfg.max, cfg.rate, n), time) else b
  }

  /** What a limit allows to be transferred. */
  function Granted(limit: int): nat {
    if limit < 0 then 0 else limit
  }

  /** A transfer that asks for no more than `bufferevent_get_rlim_max_` allows. */
  predicate Allowed(b: Bucket, cfg: Config, t: Transfer) {
    b.last <= t.time && t.bytes <= Granted(Update(b, cfg, t.time).limit)
  }

  function Charge(b: Bucket, cfg: Config, t: Transfer): Bucket {
    var u := Update(b, cfg, t.time);
    u.(limit := u.limit - t.bytes)
  }

  predicate AllAllowed(b: Bucket, cfg: Config, ts: seq<Transfer>)
    decreases |ts|
  {
    ts == [] || (Allowed(b, cfg, ts[0]) && AllAllowed(Charge(b, cfg, ts[0]), cfg, ts[1..]))
  }

  function After(b: Bucket, cfg: Config, ts: seq<Transfer>): Bucket
    decreases |ts|
  {
    if ts == [] then b else After(Charge(b, cfg, ts[0]), cfg, ts[1..])
  }

  function Total(ts: seq<Transfer>): nat {
    if ts == [] then 0 else ts[0].bytes + Total(ts[1..])
  }

  /** What a rate comes to in some ticks. */
  function Earned(rate: nat, ticks: nat): nat {
    if ticks == 0 then 0 else rate + Earned(rate, ticks - 1)
  }

  lemma {:induction false} EarnedIs(rate: nat, ticks: nat)
    ensures Earned(rate, ticks) == ticks * rate
  {
    if ticks > 0 {
      EarnedIs(rate, ticks - 1);
      assert ticks * rate == (ticks - 1) * rate + rate;
    }
  }

  lemma {:induction false} EarnedSum(rate: nat, a: nat, b: nat)
    ensures Earned(rate, a + b) == Earned(rate, a) + Earned(rate, b)
  {
    if b > 0 { EarnedSum(rate, a, b - 1); }
  }

  lemma TicksElapsed(time: nat, last: nat)
    requires last <= time
    ensures Ticks(time % UINT32, last % UINT32) <= time - last
  {
    assert (time % UINT32 - last % UINT32) % UINT32 == (time - last) % UINT32;
  }

  predicate Sane(b: Bucket, cfg: Config) {
    Legal(cfg.max, cfg.rate) && Fits(b.limit) && b.limit <= cfg.max
  }

  /** An update adds no more than the rate for every tick that has passed. */
  lemma UpdateBound(b: Bucket, cfg: Config, time: nat)
    requires Sane(b, cfg) && b.last <= time
    ensures var u := Update(b, cfg, time);
      && Sane(u, cfg) && b.last <= u.last <= time && b.limit <= u.limit
      && u.limit <= b.limit + Earned(cfg.rate, u.last - b.last)
  {
    var n := Ticks(time % UINT32, b.last % UINT32);
    if Due(n) {
      TicksElapsed(time, b.last);
      RefilledExact(b.limit, cfg.max, cfg.rate, n);
      EarnedIs(cfg.rate, n);
      EarnedSum(cfg.rate, n, time - b.last - n);
    }
  }

  lemma ChargeBound(b: Bucket, cfg: Config, t: Transfer)
    requires Sane(b, cfg) && Allowed(b, cfg, t)
    ensures var c := Charge(b, cfg, t);
      && Sane(c, cfg) && b.last <= c.last <= t.time
      && c.limit + t.bytes <= b.limit + Earned(cfg.rate, c.last - b.last)
      && (t.bytes > 0 || b.limit >= 0 ==> c.limit >= 0)
  {
    UpdateBound(b, cfg, t.time);
  }

  lemma {:induction false} RunBound(b: Bucket, cfg: Config, ts: seq<Transfer>)
    requires Sane(b, cfg) && AllAllowed(b, cfg, ts)
    ensures var a := After(b, cfg, ts);
      && Sane(a, cfg) && b.last <= a.last
      && Total(ts) + a.limit <= b.limit + Earned(cfg.rate, a.last - b.last)
      && (Total(ts) > 0 || b.limit >= 0 ==> a.limit >= 0)
    decreases |ts|
  {
    if ts != [] {
      var c := Charge(b, cfg, ts[0]);
      ChargeBound(b, cfg, ts[0]);
      RunBound(c, cfg, ts[1..]);
      EarnedSum(cfg.rate, c.last - b.last, After(b, cfg, ts).last - c.last);
    }
  }

  /**
   * Over any run of transfers within what is granted, the bytes are at most the tokens at the
   * start plus the rate for every tick that passed, and the limit never exceeds its maximum.
   */
  lemma BandwidthBound(b: Bucket, cfg: Config, ts: seq<Transfer>, end: nat)
    requires Sane(b, cfg) && AllAllowed(b, cfg, ts) && After(b, cfg, ts).last <= end
    ensures b.last <= end && Total(ts) <= Granted(b.limit) + (end - b.last) * cfg.rate
    ensures After(b, cfg, ts).limit <= cfg.max
  {
    RunBound(b, cfg, ts);
    var a := After(b, cfg, ts);
    EarnedSum(cfg.rate, a.last - b.last, end - a.last);
    EarnedIs(cfg.rate, end - b.last);
  }

  /** A transfer is allowed exactly up to the tokens there are then, and nothing when there are none. */
  lemma AllowedExact(b: Bucket, cfg: Config, t: Transfer)
    ensures Allowed(b, cfg, t) <==> b.last <= t.time && (t.bytes == 0 || t.bytes <= Update(b, cfg, t.time).limit)
  {
  }

  /** One transfer a tick, `rate` bytes each, for `k` ticks from `start` on. */
  function Evenly(start: nat, rate: nat, k: nat): seq<Transfer>
    decreases k
  {
    if k == 0 then [] else [Transfer(start + 1, rate)] + Evenly(start + 1, rate, k - 1)
  }

  /** An empty bucket earns its rate in one tick. */
  lemma OneTick(b: Bucket, cfg: Config)
    requires Sane(b, cfg) && b.limit == 0
    ensures Update(b, cfg, b.last + 1) == Bucket(cfg.rate, b.last + 1)
  {
    TicksElapsed(b.last + 1, b.last);
    RefilledExact(0, cfg.max, cfg.rate, 1);
  }

  /** The bandwidth bound is reached: a bucket without tokens gives its rate in every tick, and no less. */
  lemma {:induction false} RateSustained(b: Bucket, cfg: Config, k: nat)
    requires Sane(b, cfg) && b.limit == 0
    ensures AllAllowed(b, cfg, Evenly(b.last, cfg.rate, k)) && Total(Evenly(b.last, cfg.rate, k)) == k * cfg.rate
    ensures After(b, cfg, Evenly(b.last, cfg.rate, k)) == Bucket(0, b.last + k)
    decreases k
  {
    if k > 0 {
      OneTick(b, cfg);
      var ts, b' := Evenly(b.last, cfg.rate, k), Bucket(0, b.last + 1);
      assert Charge(b, cfg, ts[0]) == b' && ts[1..] == Evenly(b'.last, cfg.rate, k - 1);
      RateSustained(b', cfg, k - 1);
      assert k * cfg.rate == (k - 1) * cfg.rate + cfg.rate;
    }
  }
}
