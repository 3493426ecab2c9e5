/** Suspending and waking a rate-limited bufferevent, after `bufferevent_ratelim.c` and `bufferevent.c`. */
module BufferEvents {
  import opened TokenBuckets
  import opened Options
  import opened Widths

  /** Why a direction is suspended: the bits of `bufferevent_suspend_flags`. */
  datatype Reason = Watermark | Bandwidth | GroupBandwidth | Lookup | Filter

  /** One direction: its tokens, why it is suspended, whether the user wants it, whether the backend does it. */
  datatype Side = Side(limit: int, suspended: set<Reason>, enabled: bool, active: bool)

  /** A configuration; two are the same only if they are the same object. */
  datatype Limits = Limits(id: nat, read: Config, write: Config)

  /** `bufferevent_suspend_read_` and its twin. */
  function Suspend(s: Side, why: Reason): Side {
    s.(active := s.active && s.suspended != {}, suspended := s.suspended + {why})
  }

  /** `bufferevent_unsuspend_read_` and its twin. */
  function Unsuspend(s: Side, why: Reason): Side {
    var left := s.suspended - {why};
    s.(suspended := left, active := s.active || (left == {} && s.enabled))
  }

  /** The backend works on a direction exactly when the user wants it and nothing suspends it. */
  predicate Coherent(s: Side) {
    s.active <==> s.enabled && s.suspended == {}
  }

  /** Only the given reason comes or goes, and the backend follows. */
  lemma SuspendOnly(s: Side, why: Reason)
    requires Coherent(s)
    ensures Coherent(Suspend(s, why)) && Suspend(s, why).suspended == s.suspended + {why} && !Suspend(s, why).active
    ensures Coherent(Unsuspend(s, why)) && Unsuspend(s, why).suspended == s.suspended - {why}
    ensures Suspend(s, why).limit == s.limit == Unsuspend(s, why).limit
    ensures Unsuspend(s, why).active <==> s.enabled && s.suspended <= {why}
  {
  }

  /** A direction without tokens is suspended for it. */
  predicate Stopped(s: Side) {
    s.limit <= 0 ==> Bandwidth in s.suspended
  }

  /** A direction after `ev_token_bucket_update_` for `n` ticks. */
  function Updated(s: Side, c: Config, n: nat): Side
    requires n > 0
  {
    s.(limit := Refilled(s.limit, c.max, c.rate, n))
  }

  /** An update leaves no direction without tokens awake if and only if its sum does not wrap around. */
  lemma UpdateStopped(s: Side, c: Config, n: nat)
    requires Legal(c.max, c.rate) && Fits(s.limit) && Due(n) && Stopped(s) && Bandwidth !in s.suspended
    ensures Stopped(Updated(s, c, n)) <==> Steady(s.limit, c.max, c.rate, n)
  {
    RefilledPositive(s.limit, c.max, c.rate, n);
  }

  /** A direction that an update leaves without tokens, not suspended, and so with nothing to wake it. */
  lemma LostWakeUp()
    ensures var s := Side(SSIZE_MAX, {}, true, true);
      Coherent(s) && Stopped(s) && Fits(s.limit) && Legal(1, 1) && !Stopped(Updated(s, Config(1, 1), 1))
  {
    var s := Side(SSIZE_MAX, {}, true, true);
    UpdateStopped(s, Config(1, 1), 1);
  }

  /** A user can raise the limit that far: then the next update is not calm. */
  method RaisedLimit() returns (bev: BufferEvent)
    ensures bev.Valid() && bev.cfg.Some? && bev.rd.limit == SSIZE_MAX && bev.rd.suspended == {} && !bev.Calm(1)
  {
    bev := new BufferEvent();
    bev.SetRateLimit(Some(Limits(0, Config(1, 1), Config(1, 1))), 0, true);
    assert Bandwidth !in bev.rd.suspended && bev.rd.suspended - {Bandwidth} == {};
    var r := bev.DecrementLimit(false, 1 - SSIZE_MAX, true);
    assert bev.rd.suspended == {};
    UpdateStopped(bev.rd, Config(1, 1), 1);
    LostWakeUp();
  }

  class BufferEvent {
    var rd: Side
    var wr: Side
    var cfg: Option<Limits>
    var lastUpdated: nat
    var timer: bool

    /** Nothing is left asleep: without tokens a direction is suspended, and exactly then the timer is running. */
    predicate Valid()
      reads this
    {
      && Coherent(rd) && Coherent(wr) && Fits(rd.limit) && Fits(wr.limit)
      && (cfg.Some? ==>
            && Legal(cfg.value.read.max, cfg.value.read.rate) && Legal(cfg.value.write.max, cfg.value.write.rate)
            && Stopped(rd) && Stopped(wr))
      && (timer <==> Bandwidth in rd.suspended || Bandwidth in wr.suspended) && (timer ==> cfg.Some?)
    }

    constructor ()
      ensures Valid() && cfg == None && rd.suspended == {} && wr.suspended == {}
    {
      rd, wr := Side(0, {}, false, false), Side(0, {}, false, false);
      cfg, lastUpdated, timer := None, 0, false;
    }

    /** The update of `ev_token_bucket_update_` does not wrap around in a direction that is awake. */
    predicate Calm(tick: nat)
      requires cfg.Some?
      reads this
    {
      var n := Ticks(tick, lastUpdated);
      Due(n) ==>
        && (Bandwidth in rd.suspended || Steady(rd.limit, cfg.value.read.max, cfg.value.read.rate, n))
        && (Bandwidth in wr.suspended || Steady(wr.limit, cfg.value.write.max, cfg.value.write.rate, n))
    }

    /** `ev_token_bucket_update_` on this bufferevent's bucket: nothing is left asleep if and only if it is calm. */
    method Update(tick: nat)
      requires Valid() && cfg.Some?
      modifies this`rd, this`wr, this`lastUpdated
      ensures (Valid() <==> old(Calm(tick))) && rd == old(rd).(limit := rd.limit) && wr == old(wr).(limit := wr.limit)
      ensures var n := Ticks(tick, old(lastUpdated)); var c := cfg.value;
        if Due(n)
        then rd == Updated(old(rd), c.read, n) && wr == Updated(old(wr), c.write, n) && lastUpdated == tick
        else rd == old(rd) && wr == old(wr) && lastUpdated == old(lastUpdated)
    {
      var n := Ticks(tick, lastUpdated);
      if !Due(n) { return; }
      var c := cfg.value;
      if Bandwidth !in rd.suspended { UpdateStopped(rd, c.read, n); }
      if Bandwidth !in wr.suspended { UpdateStopped(wr, c.write, n); }
      rd, wr := Updated(rd, c.read, n), Updated(wr, c.write, n);
      lastUpdated := tick;
    }

    /** `bufferevent_get_rlim_max_` outside of a group: never more than the tokens there are. */
    method GetMax(write: bool, tick: nat, single: nat) returns (max: int)
      requires Valid()
      modifies this`rd, this`wr, this`lastUpdated
      ensures max >= 0 && (Valid() <==> old(cfg.None? || Calm(tick)))
      ensures cfg.Some? ==> max == Granted(if write then wr.limit else rd.limit)
      ensures cfg.None? ==> max == single && rd == old(rd) && wr == old(wr)
    {
      if cfg.None? { return single; }
      if tick != lastUpdated { Update(tick); }
      var limit := if write then wr.limit else rd.limit;
      return if limit < 0 then 0 else limit;
    }

    /**
     * `bufferevent_decrement_read_buckets_` and its twin. When the timer cannot be set the result
     * is -1; otherwise nothing is left asleep.
     */
    method DecrementBuckets(write: bool, bytes: int, ok: bool) returns (r: int)
      requires Valid() && Fits((if write then wr.limit else rd.limit) - bytes)
      modifies this`rd, this`wr, this`timer
      ensures cfg.None? ==> r == 0 && rd == old(rd) && wr == old(wr) && timer == old(timer)
      ensures cfg.Some? ==>
        var limit := old(if write then wr.limit else rd.limit) - bytes;
        && (if write then wr else rd).limit == limit
        && (r == -1 <==> limit <= 0 && !ok)
        && ((Bandwidth in (if write then wr else rd).suspended) <==> limit <= 0)
        && (if write then rd == old(rd) else wr == old(wr))
        && (if write then wr else rd).suspended - {Bandwidth} == old(if write then wr else rd).suspended - {Bandwidth}
      ensures r == 0 ==> Valid()
    {
      r := 0;
      if cfg.None? { return; }
      var side, other := if write then wr else rd, if write then rd else wr;
      side := side.(limit := side.limit - bytes);
      SuspendOnly(side, Bandwidth);
      if side.limit <= 0 {
        side := Suspend(side, Bandwidth);
        if ok { timer := true; } else { r := -1; }
      } else if Bandwidth in side.suspended {
        if Bandwidth !in other.suspended { timer := false; }
        side := Unsuspend(side, Bandwidth);
      }
      if write { wr := side; } else { rd := side; }
    }

    /**
     * `bufferevent_decrement_read_limit` and its twin, for users; the amount may be negative. They
     * act only when the limit crosses zero, which is enough.
     */
    method DecrementLimit(write: bool, decr: int, ok: bool) returns (r: int)
      requires Valid() && cfg.Some? && Fits((if write then wr.limit else rd.limit) - decr)
      modifies this`rd, this`wr, this`timer
      ensures (if write then wr else rd).limit == old(if write then wr.limit else rd.limit) - decr
      ensures lastUpdated == old(lastUpdated) && cfg == old(cfg)
      ensures if write then rd == old(rd) else wr == old(wr)
      ensures var was, now := old(if write then wr else rd), if write then wr else rd;
        now.suspended - {Bandwidth} == was.suspended - {Bandwidth}
      ensures var was, now := old(if write then wr else rd), if write then wr else rd;
        (Bandwidth in now.suspended) <==>
          if (was.limit > 0) != (now.limit > 0) then now.limit <= 0 else Bandwidth in was.suspended
      ensures var was, now := old(if write then wr else rd), if write then wr else rd;
        r == if was.limit > 0 >= now.limit && !ok then -1 else 0
      ensures r == 0 ==> Valid()
    {
      r := 0;
      var side, other := if write then wr else rd, if write then rd else wr;
      var before := side.limit;
      side := side.(limit := side.limit - decr);
      SuspendOnly(side, Bandwidth);
      if before > 0 && side.limit <= 0 {
        side := Suspend(side, Bandwidth);
        if ok { timer := true; } else { r := -1; }
      } else if before <= 0 && side.limit > 0 {
        if Bandwidth !in other.suspended { timer := false; }
        side := Unsuspend(side, Bandwidth);
      }
      if write { wr := side; } else { rd := side; }
    }

    /**
     * `bev_refill_callback_`, when the timer has fired. A direction that has tokens again is woken
     * for good and the other reasons it may be suspended for stay; the timer is set again exactly
     * when a direction still has to wait.
     */
    method RefillCallback(tick: nat, ok: bool)
      requires Valid()
      modifies this`rd, this`wr, this`lastUpdated, this`timer
      ensures cfg.Some? ==> (Bandwidth in rd.suspended <==> Bandwidth in old(rd.suspended) && rd.limit <= 0)
      ensures cfg.Some? ==> (Bandwidth in wr.suspended <==> Bandwidth in old(wr.suspended) && wr.limit <= 0)
      ensures rd.suspended - {Bandwidth} == old(rd.suspended) - {Bandwidth}
      ensures wr.suspended - {Bandwidth} == old(wr.suspended) - {Bandwidth}
      ensures ok ==> (Valid() <==> old(cfg.None? || Calm(tick)))
      ensures ok && cfg.Some? ==> (timer <==> Bandwidth in rd.suspended || Bandwidth in wr.suspended)
      ensures cfg.None? ==> !timer && rd == old(rd) && wr == old(wr)
    {
      if cfg.None? { return; }
      Update(tick);
      SuspendOnly(rd, Bandwidth);
      SuspendOnly(wr, Bandwidth);
      timer := false;
      var again := false;
      if Bandwidth in rd.suspended {
        if rd.limit > 0 { rd := Unsuspend(rd, Bandwidth); } else { again := true; }
      }
      if Bandwidth in wr.suspended {
        if wr.limit > 0 { wr := Unsuspend(wr, Bandwidth); } else { again := true; }
      }
      if again && ok { timer := true; }
    }

    /** One direction under a new configuration: tokens for one tick, or the old ones clipped to the new maximum. */
    static function Configured(s: Side, c: Config, reinit: bool): Side {
      var limit := if reinit then Min(s.limit, c.max) else c.rate;
      var t := s.(limit := limit);
      if limit > 0 then Unsuspend(t, Bandwidth) else Suspend(t, Bandwidth)
    }

    /** `bufferevent_set_rate_limit`: afterwards a direction sleeps exactly when it has no tokens. */
    method SetRateLimit(limits: Option<Limits>, tick: nat, ok: bool)
      requires Valid()
      requires limits.Some? ==>
        Legal(limits.value.read.max, limits.value.read.rate) && Legal(limits.value.write.max, limits.value.write.rate)
      modifies this
      ensures ok ==> Valid()
      ensures limits.None? ==> cfg == None && !timer && Bandwidth !in rd.suspended && Bandwidth !in wr.suspended
      ensures limits.Some? && old(cfg) == limits ==> unchanged(this)
      ensures limits.Some? && old(cfg) != limits ==>
        && cfg == limits && lastUpdated == (if old(cfg).Some? then old(lastUpdated) else tick)
        && rd.limit == (if old(cfg).Some? then Min(old(rd.limit), limits.value.read.max) else limits.value.read.rate)
        && wr.limit == (if old(cfg).Some? then Min(old(wr.limit), limits.value.write.max) else limits.value.write.rate)
        && (Bandwidth in rd.suspended <==> rd.limit <= 0) && (Bandwidth in wr.suspended <==> wr.limit <= 0)
        && (timer ==> ok)
      ensures rd.suspended - {Bandwidth} == old(rd.suspended) - {Bandwidth}
      ensures wr.suspended - {Bandwidth} == old(wr.suspended) - {Bandwidth}
    {
      SuspendOnly(rd, Bandwidth);
      SuspendOnly(wr, Bandwidth);
      if limits.None? {
        cfg, timer := None, false;
        rd, wr := Unsuspend(rd, Bandwidth), Unsuspend(wr, Bandwidth);
        return;
      }
      if cfg == limits { return; }
      var reinit := cfg.Some?;
      cfg := limits;
      if !reinit { lastUpdated := tick; }
      rd := Configured(rd, limits.value.read, reinit);
      wr := Configured(wr, limits.value.write, reinit);
      timer := (rd.limit <= 0 || wr.limit <= 0) && ok;
    }

    /** Other parts of the library suspend a direction for reasons of their own. */
    method SuspendFor(write: bool, why: Reason)
      requires Valid() && why != Bandwidth
      modifies this`rd, this`wr
      ensures Valid() && rd == (if write then old(rd) else Suspend(old(rd), why))
      ensures wr == if write then Suspend(old(wr), why) else old(wr)
    {
      SuspendOnly(if write then wr else rd, why);
      if write { wr := Suspend(wr, why); } else { rd := Suspend(rd, why); }
    }

    method UnsuspendFor(write: bool, why: Reason)
      requires Valid() && why != Bandwidth
      modifies this`rd, this`wr
      ensures Valid() && rd == (if write then old(rd) else Unsuspend(old(rd), why))
      ensures wr == if write then Unsuspend(old(wr), why) else old(wr)
    {
      SuspendOnly(if write then wr else rd, why);
      if write { wr := Unsuspend(wr, why); } else { rd := Unsuspend(rd, why); }
    }

    /** `bufferevent_enable`: the backend starts only if nothing suspends the direction. */
    method Enable(write: bool)
      requires Valid()
      modifies this`rd, this`wr
      ensures Valid() && (if write then wr else rd).enabled
      ensures (if write then wr else rd).suspended == old(if write then wr else rd).suspended
    {
      if write {
        wr := wr.(enabled := true, active := wr.active || wr.suspended == {});
      } else {
        rd := rd.(enabled := true, active := rd.active || rd.suspended == {});
      }
    }

    /** `bufferevent_disable`. */
    method Disable(write: bool)
      requires Valid()
      modifies this`rd, this`wr
      ensures Valid() && !(if write then wr else rd).active
      ensures (if write then wr else rd).suspended == old(if write then wr else rd).suspended
    {
      if write { wr := wr.(enabled := false, active := false); } else { rd := rd.(enabled := false, active := false); }
    }
  }
}
