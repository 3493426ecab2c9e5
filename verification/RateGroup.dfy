/** Rate-limit groups of `bufferevent_ratelim.c`: one bucket, one direction, many members. */
module RateGroups {
  import opened Distinctness
  import opened TokenBuckets
  import opened Widths

  class Member {
    /** The direction is suspended for `BEV_SUSPEND_BW_GROUP`. */
    var held: bool

    constructor ()
      ensures !held
    {
      held := false;
    }
  }

  function Max(a: int, b: int): int {
    if a < b then b else a
  }

  /** `bufferevent_rate_limit_group_set_min_share`: no more than what one tick brings in either direction. */
  function MinShare(configured: nat, readRate: nat, writeRate: nat): (share: nat)
    ensures share <= configured && share <= readRate && share <= writeRate
    ensures share == configured || share == readRate || share == writeRate
  {
    var s := if configured > readRate then readRate else configured;
    if s > writeRate then writeRate else s
  }

  // A group as its bucket and flags, and the steps that change it. Time does not wrap here.

  datatype Pool = Pool(limit: int, last: nat, suspended: bool, pending: bool, members: nat)

  /** `free` says that every member can be locked at that moment. */
  datatype Event = Refill(time: nat, free: bool) | Spend(bytes: nat, free: bool) | Look | Join | Leave

  datatype Rules = Rules(cfg: Config, minShare: nat)

  /** What a member may transfer now: nothing while the group is suspended. */
  function ShareOf(p: Pool, r: Rules): int
    requires p.members > 0
  {
    if p.suspended then 0 else Max(p.limit / p.members, r.minShare)
  }

  /** Events the group can meet: transfers stay within the share, and the clock does not go back. */
  predicate Can(p: Pool, r: Rules, e: Event) {
    match e
    case Refill(time, _) => p.last <= time
    case Spend(bytes, _) => p.members > 0 && bytes <= ShareOf(p, r)
    case Look => true
    case Join => true
    case Leave => p.members > 0
  }

  /** The bucket after `ev_token_bucket_update_` at a time, which it knows in 32 bits. */
  function Topped(p: Pool, r: Rules, time: nat): Pool {
    var n := Ticks(time % UINT32, p.last % UINT32);
    if Due(n) then p.(limit := Refilled(p.limit, r.cfg.max, r.cfg.rate, n), last := time) else p
  }

  function Step(p: Pool, r: Rules, e: Event): Pool
    requires Can(p, r, e)
  {
    match e
    case Refill(time, free) =>
      var q := Topped(p, r, time);
      if q.pending || (q.suspended && q.limit >= r.minShare) then q.(suspended := false, pending := !free) else q
    case Spend(bytes, free) =>
      var q := p.(limit := p.limit - bytes);
      if q.limit <= 0 then q.(suspended := true, pending := false)
      else if q.suspended then q.(suspended := false, pending := !free)
      else q
    case Look => p
    case Join => p.(members := p.members + 1)
    case Leave => p.(members := p.members - 1)
  }

  predicate CanRun(p: Pool, r: Rules, es: seq<Event>)
    decreases |es|
  {
    es == [] || (Can(p, r, es[0]) && CanRun(Step(p, r, es[0]), r, es[1..]))
  }

  function Run(p: Pool, r: Rules, es: seq<Event>): Pool
    requires CanRun(p, r, es)
    decreases |es|
  {
    if es == [] then p else Run(Step(p, r, es[0]), r, es[1..])
  }

  predicate LegalRules(r: Rules) {
    Legal(r.cfg.max, r.cfg.rate) && r.minShare <= r.cfg.rate
  }

  /** The bucket is never below minus the smallest share nor above its maximum, and an empty one is suspended. */
  predicate PoolOk(p: Pool, r: Rules) {
    && LegalRules(r) && -(r.minShare as int) <= p.limit <= r.cfg.max
    && (!p.suspended ==> p.limit > 0 || (p.limit == 0 && r.minShare == 0))
    && (p.pending ==> !p.suspended)
  }

  lemma QuotientSmaller(a: nat, n: nat)
    requires n > 0
    ensures 0 <= a / n <= a
  {
    QuotientBelow(a, n, a + 1);
    assert n * (a + 1) == a + 1 + (n - 1) * (a + 1);
  }

  /**
   * How the bucket is divided: every member gets at least the smallest share, all shares together leave less than one
   * byte for each member, and more than the smallest share is given only as far as the bucket goes for all.
   */
  lemma ShareFair(p: Pool, r: Rules)
    requires PoolOk(p, r) && p.members > 0 && !p.suspended
    ensures ShareOf(p, r) >= r.minShare && p.limit < (ShareOf(p, r) + 1) * p.members
    ensures ShareOf(p, r) > r.minShare ==> ShareOf(p, r) * p.members <= p.limit
  {
    var q := p.limit / p.members;
    assert p.limit == q * p.members + p.limit % p.members;
    assert (q + 1) * p.members == q * p.members + p.members;
    MulMono(q + 1, ShareOf(p, r) + 1, p.members);
  }

  /** A refill adds tokens up to the maximum. */
  lemma RefilledGrows(limit: int, cfg: Config, n: nat)
    requires Legal(cfg.max, cfg.rate) && Fits(limit) && limit <= cfg.max && Due(n)
    ensures limit <= Refilled(limit, cfg.max, cfg.rate, n) <= cfg.max
  {
    RefilledExact(limit, cfg.max, cfg.rate, n);
  }

  /** Every step keeps the bounds, and nothing is granted while the group is suspended. */
  lemma StepOk(p: Pool, r: Rules, e: Event)
    requires PoolOk(p, r) && Can(p, r, e)
    ensures PoolOk(Step(p, r, e), r)
    ensures p.suspended && e.Spend? ==> e.bytes == 0
  {
    match e
    case Refill(time, _) =>
      var n := Ticks(time % UINT32, p.last % UINT32);
      if Due(n) { RefilledGrows(p.limit, r.cfg, n); }
    case Spend(_, _) =>
      if !p.suspended { QuotientSmaller(p.limit, p.members); }
    case Look =>
    case Join =>
    case Leave =>
  }

  lemma {:induction false} RunOk(p: Pool, r: Rules, es: seq<Event>)
    requires PoolOk(p, r) && CanRun(p, r, es)
    ensures PoolOk(Run(p, r, es), r)
    decreases |es|
  {
    if es != [] {
      StepOk(p, r, es[0]);
      RunOk(Step(p, r, es[0]), r, es[1..]);
    }
  }

  /** No refill comes so late that the 32-bit tick counter cannot tell how late it is. */
  predicate Timely(p: Pool, r: Rules, es: seq<Event>)
    requires CanRun(p, r, es)
    decreases |es|
  {
    es == [] || ((es[0].Refill? ==> es[0].time - p.last <= INT_MAX) && Timely(Step(p, r, es[0]), r, es[1..]))
  }

  /** The counter tells the ticks that passed if and only if there are not more than `INT_MAX` of them. */
  lemma TicksExact(time: nat, last: nat)
    requires last <= time
    ensures var n := Ticks(time % UINT32, last % UINT32);
      (n == time - last && (n == 0 || Due(n))) <==> time - last <= INT_MAX
  {
    var e := time - last;
    assert (time % UINT32 - last % UINT32) % UINT32 == e % UINT32;
    if e < UINT32 { assert e % UINT32 == e; }
  }

  /** The bucket holds what it held when it was suspended and what the ticks since then have brought. */
  predicate Saved(p: Pool, r: Rules, base: int, since: nat) {
    since <= p.last && p.limit == Min(r.cfg.max, base + Earned(r.cfg.rate, p.last - since))
  }

  lemma ToppedSaves(p: Pool, r: Rules, base: int, since: nat, time: nat)
    requires PoolOk(p, r) && Saved(p, r, base, since) && p.last <= time && time - p.last <= INT_MAX
    ensures var q := Topped(p, r, time);
      Saved(q, r, base, since) && q.last == time && q.suspended == p.suspended && q.pending == p.pending
  {
    TicksExact(time, p.last);
    var n := time - p.last;
    if n > 0 {
      RefilledExact(p.limit, r.cfg.max, r.cfg.rate, n);
      EarnedIs(r.cfg.rate, n);
      EarnedSum(r.cfg.rate, p.last - since, n);
    }
  }

  /** Two ticks bring at least the smallest share, however deep the bucket was in debt. */
  lemma TwoTicks(p: Pool, r: Rules, base: int, since: nat)
    requires PoolOk(p, r) && Saved(p, r, base, since) && base >= -(r.minShare as int) && p.last - since >= 2
    ensures p.limit >= r.minShare
  {
    EarnedSum(r.cfg.rate, 2, p.last - since - 2);
    assert Earned(r.cfg.rate, 2) == r.cfg.rate + Earned(r.cfg.rate, 1);
  }

  /** A step of a suspended group releases it, or saves tokens. */
  lemma SuspendedStep(p: Pool, r: Rules, base: int, since: nat, e: Event)
    requires PoolOk(p, r) && p.suspended && Saved(p, r, base, since) && base >= -(r.minShare as int) && Can(p, r, e)
    requires e.Refill? ==> e.time - p.last <= INT_MAX
    ensures var q := Step(p, r, e); !q.suspended || (Saved(q, r, base, since) && (e.Refill? ==> e.time < since + 2))
  {
    StepOk(p, r, e);
    if e.Refill? {
      ToppedSaves(p, r, base, since, e.time);
      var q := Topped(p, r, e.time);
      if e.time >= since + 2 {
        ToppedOk(p, r, e.time);
        TwoTicks(q, r, base, since);
      }
    }
  }

  lemma ToppedOk(p: Pool, r: Rules, time: nat)
    requires PoolOk(p, r)
    ensures PoolOk(Topped(p, r, time), r)
  {
    var n := Ticks(time % UINT32, p.last % UINT32);
    if Due(n) { RefilledGrows(p.limit, r.cfg, n); }
  }

  /** Some refill of the run comes at `time` or later. */
  predicate ReachesTime(es: seq<Event>, time: nat) {
    exists i :: 0 <= i < |es| && es[i].Refill? && es[i].time >= time
  }

  lemma {:induction false} Recovery(p: Pool, r: Rules, base: int, since: nat, es: seq<Event>) returns (k: nat)
    requires PoolOk(p, r) && p.suspended && Saved(p, r, base, since) && base >= -(r.minShare as int)
    requires CanRun(p, r, es) && Timely(p, r, es) && ReachesTime(es, since + 2)
    ensures k <= |es| && CanRun(p, r, es[..k]) && !Run(p, r, es[..k]).suspended
    decreases |es|
  {
    var q := Step(p, r, es[0]);
    StepOk(p, r, es[0]);
    SuspendedStep(p, r, base, since, es[0]);
    if q.suspended {
      var i :| 0 <= i < |es| && es[i].Refill? && es[i].time >= since + 2;
      assert es[1..][i - 1] == es[i];
      var j := Recovery(q, r, base, since, es[1..]);
      k := j + 1;
      assert es[..k][1..] == es[1..][..j];
    } else {
      k := 1;
      assert es[..1][1..] == [];
    }
  }

  /**
   * A suspended group always recovers: in every run of refills, transfers within the shares and
   * members that come and go, once a refill comes two ticks or more after the last update the
   * group has been released, at that refill or before.
   */
  lemma GroupRecovers(p: Pool, r: Rules, es: seq<Event>) returns (k: nat)
    requires PoolOk(p, r) && p.suspended && CanRun(p, r, es) && Timely(p, r, es) && ReachesTime(es, p.last + 2)
    ensures k <= |es| && CanRun(p, r, es[..k]) && !Run(p, r, es[..k]).suspended
  {
    k := Recovery(p, r, p.limit, p.last, es);
  }

  /** A refill that comes a whole turn of the tick counter late brings nothing: the group stays suspended. */
  lemma LateRefill()
    ensures var p := Pool(0, 0, true, false, 1); var r := Rules(Config(10, 10), 5);
      PoolOk(p, r) && Can(p, r, Refill(UINT32, true)) && Step(p, r, Refill(UINT32, true)) == p
  {
    assert UINT32 % UINT32 == 0;
  }

  class Group {
    var limit: int
    var lastUpdated: nat
    var cfg: Config
    var minShare: nat
    var suspended: bool
    var pending: bool
    var members: seq<Member>
    /** When the bucket was updated, counted in ticks that do not wrap. */
    ghost var last: nat

    ghost function State(): Pool
      reads this
    {
      Pool(limit, last, suspended, pending, |members|)
    }

    ghost function Law(): Rules
      reads this
    {
      Rules(cfg, minShare)
    }

    ghost predicate Valid()
      reads this, members
    {
      && PoolOk(State(), Law()) && NoDup(members) && lastUpdated == last % UINT32
      && forall i {:trigger members[i]} :: 0 <= i < |members| ==> members[i].held ==> suspended || pending
    }

    /** `bufferevent_rate_limit_group_new`. */
    constructor (cfg: Config, writeRate: nat, tick: nat, ghost now: nat)
      requires Legal(cfg.max, cfg.rate) && tick == now % UINT32
      ensures Valid() && members == [] && limit == cfg.rate && !suspended
      ensures minShare == MinShare(64, cfg.rate, writeRate)
    {
      this.cfg, limit, lastUpdated, last := cfg, cfg.rate, tick, now;
      minShare := MinShare(64, cfg.rate, writeRate);
      suspended, pending, members := false, false, [];
    }

    /** What a member may transfer now. */
    function Share(): int
      requires members != []
      reads this
    {
      if suspended then 0 else Max(limit / |members|, minShare)
    }

    /** `bufferevent_get_rlim_max_`, the part about the group: nothing while it is suspended. */
    method GetMax(m: Member) returns (share: int)
      requires Valid() && m in members
      modifies m
      ensures Valid() && share == Share() == ShareOf(State(), Law()) && 0 <= share <= Max(limit, minShare)
      ensures State() == Step(old(State()), Law(), Look)
      ensures suspended ==> share == 0 && m.held
      ensures !suspended ==> m.held == old(m.held)
    {
      if suspended {
        m.held := true;
        return 0;
      }
      assert limit / |members| <= limit by { QuotientSmaller(limit, |members|); }
      return Max(limit / |members|, minShare);
    }

    /** `bev_group_suspend_reading_`: the members that can be locked stop at once. */
    method SuspendAll(lockable: set<Member>)
      modifies this`suspended, this`pending, members
      ensures suspended && !pending
      ensures forall i {:trigger members[i]} :: 0 <= i < |members| && members[i] in lockable ==> members[i].held
    {
      suspended, pending := true, false;
      var i := 0;
      while i < |members|
        invariant 0 <= i <= |members| && suspended && !pending
        invariant forall j {:trigger members[j]} :: 0 <= j < i && members[j] in lockable ==> members[j].held
        modifies members
      {
        if members[i] in lockable { members[i].held := true; }
        i := i + 1;
      }
    }

    /** The members from `lo` up to `hi` can all be locked. */
    predicate Free(lo: nat, hi: nat, lockable: set<Member>)
      requires hi <= |members|
      reads this`members
    {
      forall i {:trigger members[i]} :: lo <= i < hi ==> members[i] in lockable
    }

    /** The members from `lo` up to `hi` that can be locked go on; whether all could be. */
    method Release(lo: nat, hi: nat, lockable: set<Member>) returns (again: bool)
      requires lo <= hi <= |members|
      modifies members
      ensures again <==> !Free(lo, hi, lockable)
      ensures forall i {:trigger members[i]} :: lo <= i < hi && members[i] in lockable ==> !members[i].held
      ensures forall i {:trigger members[i]} :: 0 <= i < |members| && !old(members[i].held) ==> !members[i].held
    {
      again := false;
      var i := lo;
      while i < hi
        invariant lo <= i <= hi && (again <==> !Free(lo, i, lockable))
        invariant forall j {:trigger members[j]} :: lo <= j < i && members[j] in lockable ==> !members[j].held
        invariant forall j {:trigger members[j]} :: 0 <= j < |members| && !old(members[j].held) ==> !members[j].held
        modifies members
      {
        if members[i] in lockable { members[i].held := false; } else { again := true; }
        i := i + 1;
      }
    }

    /**
     * `bev_group_unsuspend_reading_`, from a random member around the list: each member is tried
     * once, and when one cannot be locked the rest is left for the next refill.
     */
    method UnsuspendAll(first: nat, lockable: set<Member>)
      requires first <= |members|
      modifies this`suspended, this`pending, members
      ensures !suspended
      ensures pending <==> !Free(0, |members|, lockable)
      ensures forall i {:trigger members[i]} :: 0 <= i < |members| && members[i].held ==>
        pending && members[i] !in lockable
    {
      suspended := false;
      var a := Release(first, |members|, lockable);
      var b := Release(0, first, lockable);
      assert Free(0, |members|, lockable) <==> Free(0, first, lockable) && Free(first, |members|, lockable);
      pending := a || b;
    }

    /**
     * `bufferevent_decrement_read_buckets_`, the part about the group, for a transfer within the
     * member's share: the bucket never falls below minus the smallest share.
     */
    method Charge(bytes: nat, first: nat, lockable: set<Member>)
      requires Valid() && members != [] && bytes <= Share() && first <= |members|
      modifies this`limit, this`suspended, this`pending, members
      ensures Valid() && Can(old(State()), Law(), Spend(bytes, Free(0, |members|, lockable)))
      ensures State() == Step(old(State()), Law(), Spend(bytes, Free(0, |members|, lockable)))
    {
      if !suspended { QuotientSmaller(limit, |members|); }
      limit := limit - bytes;
      if limit <= 0 {
        SuspendAll(lockable);
      } else if suspended {
        UnsuspendAll(first, lockable);
      }
    }

    method AddTokens(tick: nat, ghost now: nat)
      requires Valid() && tick == now % UINT32
      modifies this`limit, this`lastUpdated, this`last
      ensures Valid() && State() == Topped(old(State()), Law(), now)
    {
      ToppedOk(State(), Law(), now);
      var n := Ticks(tick, lastUpdated);
      if Due(n) {
        limit, lastUpdated, last := Refilled(limit, cfg.max, cfg.rate, n), tick, now;
      }
    }

    /**
     * `bev_group_refill_callback_`: tokens for the ticks that passed, and release when there are
     * enough. A member is held after a release only if it could not be locked, and every refill
     * tries again while there is one.
     */
    method DoRefill(tick: nat, first: nat, lockable: set<Member>, ghost now: nat)
      requires Valid() && first <= |members| && tick == now % UINT32 && last <= now
      modifies this`limit, this`lastUpdated, this`last, this`suspended, this`pending, members
      ensures Valid() && State() == Step(old(State()), Law(), Refill(now, Free(0, |members|, lockable)))
      ensures !suspended ==>
        forall i {:trigger members[i]} :: 0 <= i < |members| && members[i].held ==> pending && members[i] !in lockable
    {
      StepOk(State(), Law(), Refill(now, Free(0, |members|, lockable)));
      AddTokens(tick, now);
      if pending || (suspended && limit >= minShare) {
        UnsuspendAll(first, lockable);
      }
    }

    /** `bufferevent_add_to_rate_limit_group`: a new member waits with the others. */
    method AddMember(m: Member)
      requires Valid() && m !in members && !m.held
      modifies this`members, m
      ensures Valid() && members == [m] + old(members) && m.held == suspended
      ensures State() == Step(old(State()), Law(), Join)
    {
      NoDupCons(m, members);
      members := [m] + members;
      if suspended { m.held := true; }
    }

    /** `bufferevent_remove_from_rate_limit_group`: who leaves goes on. */
    method RemoveMember(m: Member, ghost k: nat)
      requires Valid() && k < |members| && m == members[k]
      modifies this`members, m
      ensures Valid() && members == Without(old(members), k) && !m.held
      ensures State() == Step(old(State()), Law(), Leave)
    {
      NoDupWithout(members, k);
      var i := 0;
      while members[i] != m
        invariant 0 <= i <= k
        decreases k - i
      {
        i := i + 1;
      }
      NoDupApart(members, k);
      m.held := false;
      members := members[..i] + members[i + 1..];
    }
  }
}
