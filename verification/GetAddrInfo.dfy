/** The A/AAAA join of `evdns_getaddrinfo` in `evdns.c`, as a protocol over its steps. */
module GetAddrInfo {
  type Addr(==, !new)

  /** What the resolver reports for one family; an answer may hold no address. */
  datatype Result = Answers(addrs: seq<Addr>) | NotExist | Shutdown | Canceled | OtherError

  /** One sub-request. It is live (`r` is not null) until its callback has run, which never happens to a lost one. */
  datatype Sub = Never | Waiting | Scheduled(result: Result) | Reported(result: Result) | Lost

  /** The error given to the user; `Ok` is zero. */
  datatype Err = Ok | EaiNoName | EaiFail | EaiNoData | EaiAgain | EaiCancel

  datatype Call = Call(err: Err, addrs: seq<Addr>)

  /** The request record, with the calls made to the user and how often it was freed. */
  datatype State = State(
    v4: Sub, v6: Sub, userCb: bool, pendingResult: seq<Addr>, pendingError: Err,
    canceled: bool, done: bool, timer: bool, calls: seq<Call>, frees: nat)

  datatype Family = V4 | V6

  datatype Event =
    | Finish(family: Family, result: Result)  // the resolver settles a sub-request and schedules its callback
    | Deliver(family: Family)                 // the deferred callback runs
    | SkewTimeout
    | UserCancel
    | ShutDown(lost: set<Family>)             // the resolver is freed and fails what it still has, or loses it

  predicate Live(sub: Sub) {
    sub.Waiting? || sub.Scheduled? || sub.Lost?
  }

  function Get(s: State, f: Family): Sub {
    if f == V4 then s.v4 else s.v6
  }

  function Set(s: State, f: Family, sub: Sub): State {
    if f == V4 then s.(v4 := sub) else s.(v6 := sub)
  }

  function Other(f: Family): Family {
    if f == V4 then V6 else V4
  }

  /** The start: which sub-requests could be launched. With none the user is told at once. */
  function Launch(has4: bool, has6: bool): State {
    var s := State(if has4 then Waiting else Never, if has6 then Waiting else Never,
                   true, [], Ok, false, false, false, [], 0);
    if has4 || has6 then s else s.(frees := 1, calls := [Call(EaiFail, [])])
  }

  /** `evdns_cancel_request`: nothing happens when a callback is already on its way. */
  function CancelSub(sub: Sub): Sub {
    if sub.Waiting? then Scheduled(Canceled) else sub
  }

  function Tell(s: State, err: Err, addrs: seq<Addr>): State {
    s.(calls := s.calls + [Call(err, addrs)])
  }

  /** `free_getaddrinfo_request`, which also removes the timer. */
  function Free(s: State): State {
    s.(frees := s.frees + 1, timer := false)
  }

  /** `evdns_getaddrinfo_timeout_cb`. */
  function Timeout(s: State): State {
    var late := Live(s.v4) || Live(s.v6);
    var s := s.(timer := false, v4 := CancelSub(s.v4), v6 := CancelSub(s.v6));
    var s :=
      if s.pendingResult != [] then Tell(s, Ok, s.pendingResult).(pendingResult := [])
      else Tell(s, if s.pendingError == Ok then EaiAgain else s.pendingError, []);
    var s := s.(userCb := false);
    if late then s else Free(s)
  }

  function ErrorOf(result: Result): Err {
    match result
    case Answers(addrs) => if addrs == [] then EaiNoData else Ok
    case NotExist => EaiNoName
    case _ => EaiFail
  }

  /** `getaddrinfo_merge_err`. */
  function MergeErr(e1: Err, e2: Err): Err {
    if e1 == Ok then e2 else e1
  }

  /** `evdns_getaddrinfo_gotresolve` for the sub-request of family `f`. */
  function GotResolve(s: State, f: Family, result: Result): State {
    var other := Live(Get(s, Other(f)));
    var s := if result != Shutdown && !other then s.(done := true) else s;
    var s := Set(s, f, Reported(result));
    if result == Canceled && !s.canceled then
      if other then s else Free(s)
    else if !s.userCb then Free(s)
    else
      var err := ErrorOf(result);
      if err != Ok then
        if other then s.(timer := s.timer || result != Shutdown, pendingError := err)
        else if s.canceled then Free(Tell(s, EaiCancel, []))
        else if s.pendingResult != [] then Free(Tell(s, Ok, s.pendingResult).(pendingResult := []))
        else Free(Tell(s, if s.pendingError != Ok then MergeErr(err, s.pendingError) else err, []))
      else if s.canceled then
        if other then s else Free(Tell(s, EaiCancel, []))
      else if other then s.(timer := true, pendingResult := result.addrs)
      else
        var all := if f == V4 then result.addrs + s.pendingResult else s.pendingResult + result.addrs;
        Free(Tell(s.(pendingResult := []), Ok, all))
  }

  /** `evdns_getaddrinfo_cancel`. */
  function Cancel(s: State): State {
    if s.done then s
    else s.(timer := false, canceled := true, v4 := CancelSub(s.v4), v6 := CancelSub(s.v6))
  }

  /** A resolver that is freed reports a sub-request, unless its pump moved it where nobody looks any more. */
  function FailSub(sub: Sub, lost: bool): Sub {
    if sub.Waiting? then if lost then Lost else Scheduled(Shutdown) else sub
  }

  /** When an event can happen. The user cancels only a request that has not been freed. */
  predicate Enabled(s: State, e: Event) {
    match e
    case Finish(f, result) => Get(s, f).Waiting? && result != Canceled && result != Shutdown
    case Deliver(f) => Get(s, f).Scheduled?
    case SkewTimeout => s.timer
    case UserCancel => s.frees == 0
    case ShutDown(_) => true
  }

  function Step(s: State, e: Event): State
    requires Enabled(s, e)
  {
    match e
    case Finish(f, result) => Set(s, f, Scheduled(result))
    case Deliver(f) => GotResolve(s, f, Get(s, f).result)
    case SkewTimeout => Timeout(s)
    case UserCancel => Cancel(s)
    case ShutDown(lost) => s.(v4 := FailSub(s.v4, V4 in lost), v6 := FailSub(s.v6, V6 in lost))
  }

  /** `es` can happen one after the other from `s`. */
  predicate CanRun(s: State, es: seq<Event>)
    decreases |es|
  {
    es == [] || (Enabled(s, es[0]) && CanRun(Step(s, es[0]), es[1..]))
  }

  function Run(s: State, es: seq<Event>): State
    requires CanRun(s, es)
    decreases |es|
  {
    if es == [] then s else Run(Step(s, es[0]), es[1..])
  }

  function LiveCount(s: State): nat {
    (if Live(s.v4) then 1 else 0) + if Live(s.v6) then 1 else 0
  }

  function Addresses(sub: Sub): seq<Addr> {
    if sub.Reported? && sub.result.Answers? then sub.result.addrs else []
  }

  /** An internal cancel is on its way only when the user has been told already. */
  predicate CancelTold(s: State, sub: Sub) {
    sub == Scheduled(Canceled) ==> s.canceled || !s.userCb
  }

  /** What every step keeps. */
  predicate Inv(s: State) {
    && (s.frees == if LiveCount(s) == 0 then 1 else 0)
    && (s.frees == 1 ==> |s.calls| == 1 && !s.timer)
    && (s.frees == 0 ==> |s.calls| == (if s.userCb then 0 else 1) && !s.done)
    && (s.frees == 0 && !s.userCb ==> LiveCount(s) == 1 && !s.timer)
    && (s.timer ==> LiveCount(s) == 1)
    && CancelTold(s, s.v4) && CancelTold(s, s.v6)
    && (s.frees == 0 && s.userCb && !s.canceled ==> s.pendingResult == Addresses(s.v4) + Addresses(s.v6))
    && (s.timer && s.canceled ==> s.pendingResult == [])
    && (s.frees == 0 && s.userCb && s.pendingResult != [] ==> LiveCount(s) == 1)
  }

  /** The call the user gets, judged by what had been reported when it was made. */
  predicate FairCall(s: State, c: Call) {
    if s.canceled then c.err != Ok && c.addrs == []
    else c.addrs == Addresses(s.v4) + Addresses(s.v6) && (c.err == Ok <==> c.addrs != [])
  }

  /** One step is in order: what was told and freed stays so, and a new call is a fair one. */
  predicate StepOk(s: State, s': State) {
    && Inv(s') && s.calls <= s'.calls && s.frees <= s'.frees
    && (|s'.calls| > |s.calls| ==> FairCall(s', s'.calls[|s.calls|]))
  }

  lemma FirstDelivered(s: State, f: Family)
    requires Inv(s) && Get(s, f).Scheduled? && Live(Get(s, Other(f)))
    ensures StepOk(s, GotResolve(s, f, Get(s, f).result))
  {
  }

  /** A delivery ends one sub-request and may arm the timer, nothing else. */
  lemma DeliverFrame(s: State, f: Family, result: Result)
    ensures var s' := GotResolve(s, f, result);
      Get(s', f) == Reported(result) && Get(s', Other(f)) == Get(s, Other(f))
  {
  }

  /** What waits for the last report is what the other sub-request reported. */
  lemma WaitingPart(s: State, f: Family)
    requires Inv(s) && Live(Get(s, f)) && !Live(Get(s, Other(f))) && s.userCb && !s.canceled
    ensures s.pendingResult == Addresses(Get(s, Other(f)))
  {
    assert [] + Addresses(s.v6) == Addresses(s.v6) && Addresses(s.v4) + [] == Addresses(s.v4);
  }

  /** The call made on the last report. */
  lemma LastTold(s: State, f: Family, result: Result)
    requires Inv(s) && Get(s, f) == Scheduled(result) && !Live(Get(s, Other(f))) && s.userCb && !s.canceled
    requires s.pendingResult == Addresses(Get(s, Other(f)))
    ensures var s' := GotResolve(s, f, result);
      |s'.calls| == 1 && s'.frees == 1 && !s'.timer && s'.canceled == s.canceled && FairCall(s', s'.calls[0])
  {
    assert [] + s.pendingResult == s.pendingResult && s.pendingResult + [] == s.pendingResult;
  }

  lemma LastLoud(s: State, f: Family)
    requires Inv(s) && Get(s, f).Scheduled? && !Live(Get(s, Other(f))) && s.userCb && !s.canceled
    ensures StepOk(s, GotResolve(s, f, Get(s, f).result))
  {
    WaitingPart(s, f);
    LastTold(s, f, Get(s, f).result);
    DeliverFrame(s, f, Get(s, f).result);
  }

  /** The timeout has told the user already. */
  lemma LastSilent(s: State, f: Family)
    requires Inv(s) && Get(s, f).Scheduled? && !Live(Get(s, Other(f))) && !s.userCb
    ensures StepOk(s, GotResolve(s, f, Get(s, f).result))
  {
  }

  lemma LastCanceled(s: State, f: Family)
    requires Inv(s) && Get(s, f).Scheduled? && !Live(Get(s, Other(f))) && s.userCb && s.canceled
    ensures StepOk(s, GotResolve(s, f, Get(s, f).result))
  {
  }

  /** The last report frees the record, and tells the user unless the timeout did. */
  lemma LastDelivered(s: State, f: Family)
    requires Inv(s) && Get(s, f).Scheduled? && !Live(Get(s, Other(f)))
    ensures StepOk(s, GotResolve(s, f, Get(s, f).result))
  {
    if s.userCb && !s.canceled {
      LastLoud(s, f);
    } else {
      if s.userCb { LastCanceled(s, f); } else { LastSilent(s, f); }
    }
  }

  /**
   * Every step keeps the invariant; the step that calls the user tells all addresses reported,
   * those of A before those of AAAA, or an error when there is none or the user gave up.
   */
  lemma StepInv(s: State, e: Event)
    requires Inv(s) && Enabled(s, e)
    ensures StepOk(s, Step(s, e))
  {
    if e.Deliver? {
      if Live(Get(s, Other(e.family))) {
        FirstDelivered(s, e.family);
      } else {
        LastDelivered(s, e.family);
      }
    }
  }

  lemma {:induction false} RunInv(s: State, es: seq<Event>)
    requires Inv(s) && CanRun(s, es)
    ensures Inv(Run(s, es))
    decreases |es|
  {
    if es != [] {
      StepInv(s, es[0]);
      RunInv(Step(s, es[0]), es[1..]);
    }
  }

  /**
   * In every interleaving the user is called at most once and the record is freed at most once;
   * it is freed exactly when both sub-requests have reported, and the user has been called then.
   */
  lemma ExactlyOnce(has4: bool, has6: bool, es: seq<Event>)
    requires CanRun(Launch(has4, has6), es)
    ensures var s := Run(Launch(has4, has6), es);
      && |s.calls| <= 1 && s.frees <= 1
      && (s.frees == 1 <==> !Live(s.v4) && !Live(s.v6))
      && (s.frees == 1 ==> |s.calls| == 1)
  {
    RunInv(Launch(has4, has6), es);
  }

  /** Nothing touches the record after it is freed. */
  lemma FreedIsQuiet(has4: bool, has6: bool, es: seq<Event>, e: Event)
    requires CanRun(Launch(has4, has6), es)
    requires Run(Launch(has4, has6), es).frees == 1 && Enabled(Run(Launch(has4, has6), es), e)
    ensures Step(Run(Launch(has4, has6), es), e) == Run(Launch(has4, has6), es)
  {
    RunInv(Launch(has4, has6), es);
  }

  /** How much can still happen to a request. */
  function Rank(s: State): nat {
    SubRank(s.v4) + SubRank(s.v6) + if s.timer then 1 else 0
  }

  function SubRank(sub: Sub): nat {
    if sub.Waiting? then 3 else if sub.Scheduled? then 2 else 0
  }

  predicate Counts(e: Event) {
    e.Finish? || e.Deliver? || e.SkewTimeout?
  }

  lemma StepRank(s: State, e: Event)
    requires Inv(s) && Enabled(s, e)
    ensures Rank(Step(s, e)) + (if Counts(e) then 1 else 0) <= Rank(s)
  {
    if e.Deliver? {
      DeliverFrame(s, e.family, Get(s, e.family).result);
    }
  }

  function Counted(es: seq<Event>): nat {
    if es == [] then 0 else (if Counts(es[0]) then 1 else 0) + Counted(es[1..])
  }

  lemma {:induction false} RunRank(s: State, es: seq<Event>)
    requires Inv(s) && CanRun(s, es)
    ensures Counted(es) + Rank(Run(s, es)) <= Rank(s)
    decreases |es|
  {
    if es != [] {
      StepInv(s, es[0]);
      StepRank(s, es[0]);
      RunRank(Step(s, es[0]), es[1..]);
    }
  }

  /**
   * No run has more than six settlements, deliveries and timeouts. One that can have no more is freed, and the user
   * has been called, if and only if the resolver lost no sub-request.
   */
  lemma Finishes(has4: bool, has6: bool, es: seq<Event>)
    requires CanRun(Launch(has4, has6), es)
    ensures Counted(es) <= 6
    ensures var s := Run(Launch(has4, has6), es);
      && (s.frees == 1 ==> |s.calls| == 1)
      && ((forall e :: Counts(e) ==> !Enabled(s, e)) ==> (s.frees == 1 <==> !s.v4.Lost? && !s.v6.Lost?))
  {
    var s := Run(Launch(has4, has6), es);
    RunInv(Launch(has4, has6), es);
    RunRank(Launch(has4, has6), es);
    if s.frees == 0 && !s.v4.Lost? && !s.v6.Lost? {
      var f := if Live(s.v4) then V4 else V6;
      assert Enabled(s, if Get(s, f).Waiting? then Finish(f, NotExist) else Deliver(f));
    }
  }

  /** No shutdown among `es` loses anything. */
  predicate LosesNothing(es: seq<Event>) {
    forall i {:trigger es[i]} :: 0 <= i < |es| && es[i].ShutDown? ==> es[i].lost == {}
  }

  predicate NoneLost(s: State) {
    !s.v4.Lost? && !s.v6.Lost?
  }

  lemma StepKeeps(s: State, e: Event)
    requires Enabled(s, e) && NoneLost(s) && (e.ShutDown? ==> e.lost == {})
    ensures NoneLost(Step(s, e))
  {
    if e.Deliver? { DeliverFrame(s, e.family, Get(s, e.family).result); }
  }

  lemma {:induction false} KeepsAll(s: State, es: seq<Event>)
    requires CanRun(s, es) && LosesNothing(es) && NoneLost(s)
    ensures NoneLost(Run(s, es))
    decreases |es|
  {
    if es != [] {
      StepKeeps(s, es[0]);
      assert forall i {:trigger es[1..][i]} :: 0 <= i < |es[1..]| ==> es[1..][i] == es[i + 1];
      KeepsAll(Step(s, es[0]), es[1..]);
    }
  }

  /** When no shutdown loses anything, the user is called in the end. */
  lemma Answered(has4: bool, has6: bool, es: seq<Event>)
    requires CanRun(Launch(has4, has6), es) && LosesNothing(es)
    requires forall e :: Counts(e) ==> !Enabled(Run(Launch(has4, has6), es), e)
    ensures Run(Launch(has4, has6), es).frees == 1 && |Run(Launch(has4, has6), es).calls| == 1
  {
    KeepsAll(Launch(has4, has6), es);
    Finishes(has4, has6, es);
    ExactlyOnce(has4, has6, es);
  }

  // Which error the user gets.

  /** The error that stands for what was reported. */
  predicate StandsFor(err: Err, result: Result) {
    match result
    case NotExist => err == EaiNoName
    case Answers(addrs) => if addrs == [] then err == EaiNoData else err == Ok
    case Shutdown => err == EaiFail
    case Canceled => err == EaiFail
    case OtherError => err == EaiFail
  }

  /** The error that waits for the last report, and the timer, come from the report that has been made. */
  predicate ErrInv(s: State) {
    s.frees == 0 && s.userCb ==>
      && (s.v4.Reported? ==> StandsFor(s.pendingError, s.v4.result))
      && (s.v6.Reported? ==> StandsFor(s.pendingError, s.v6.result))
      && (!s.v4.Reported? && !s.v6.Reported? ==> s.pendingError == Ok && !s.timer)
      && (s.timer ==> s.pendingResult != [] || s.pendingError != Ok)
  }

  /**
   * The call that event `e` makes in state `s` gives the right error. On a delivery that is the one for the result
   * delivered, or the one for a cancellation if the user gave up; on a timeout it is the one for the earlier report.
   * It is no error exactly when there are addresses.
   */
  predicate RightError(s: State, e: Event, c: Call) {
    match e
    case Deliver(f) =>
      Get(s, f).Scheduled? &&
      if s.canceled then c == Call(EaiCancel, [])
      else if c.addrs != [] then c.err == Ok
      else c.err != Ok && StandsFor(c.err, Get(s, f).result)
    case SkewTimeout =>
      if c.addrs != [] then c.err == Ok
      else
        && c.err != Ok && c.err != EaiAgain
        && ((s.v4.Reported? && StandsFor(c.err, s.v4.result)) || (s.v6.Reported? && StandsFor(c.err, s.v6.result)))
    case _ => false
  }

  lemma FirstError(s: State, f: Family, s': State)
    requires Inv(s) && ErrInv(s) && Get(s, f).Scheduled? && Live(Get(s, Other(f)))
    requires s' == GotResolve(s, f, Get(s, f).result)
    ensures ErrInv(s') && |s'.calls| == |s.calls|
  {
  }

  lemma SilentError(s: State, f: Family, s': State)
    requires Inv(s) && Get(s, f).Scheduled? && !Live(Get(s, Other(f))) && !s.userCb
    requires s' == GotResolve(s, f, Get(s, f).result)
    ensures s'.frees > 0 && (|s'.calls| > |s.calls| ==> RightError(s, Deliver(f), s'.calls[|s.calls|]))
  {
  }

  lemma CanceledError(s: State, f: Family, s': State)
    requires Inv(s) && Get(s, f).Scheduled? && !Live(Get(s, Other(f))) && s.userCb && s.canceled
    requires s' == GotResolve(s, f, Get(s, f).result)
    ensures s'.frees > 0 && (|s'.calls| > |s.calls| ==> RightError(s, Deliver(f), s'.calls[|s.calls|]))
  {
  }

  lemma LoudError(s: State, f: Family, s': State)
    requires Inv(s) && Get(s, f).Scheduled? && !Live(Get(s, Other(f))) && s.userCb && !s.canceled
    requires s' == GotResolve(s, f, Get(s, f).result)
    ensures s'.frees > 0 && (|s'.calls| > |s.calls| ==> RightError(s, Deliver(f), s'.calls[|s.calls|]))
  {
  }

  lemma LastError(s: State, f: Family, s': State)
    requires Inv(s) && Get(s, f).Scheduled? && !Live(Get(s, Other(f)))
    requires s' == GotResolve(s, f, Get(s, f).result)
    ensures s'.frees > 0 && (|s'.calls| > |s.calls| ==> RightError(s, Deliver(f), s'.calls[|s.calls|]))
  {
    if !s.userCb {
      SilentError(s, f, s');
    } else if s.canceled {
      CanceledError(s, f, s');
    } else {
      LoudError(s, f, s');
    }
  }

  lemma DeliverError(s: State, f: Family, s': State)
    requires Inv(s) && ErrInv(s) && Get(s, f).Scheduled? && s' == GotResolve(s, f, Get(s, f).result)
    ensures ErrInv(s') && (|s'.calls| > |s.calls| ==> RightError(s, Deliver(f), s'.calls[|s.calls|]))
  {
    if Live(Get(s, Other(f))) { FirstError(s, f, s'); } else { LastError(s, f, s'); }
  }

  lemma TimeoutError(s: State, s': State)
    requires Inv(s) && ErrInv(s) && s.timer && s' == Timeout(s)
    ensures ErrInv(s') && |s'.calls| > |s.calls| && RightError(s, SkewTimeout, s'.calls[|s.calls|])
  {
  }

  /** Every step keeps the error that waits right, and a step that calls the user gives the right error. */
  lemma StepError(s: State, e: Event)
    requires Inv(s) && ErrInv(s) && Enabled(s, e)
    ensures ErrInv(Step(s, e))
    ensures |Step(s, e).calls| > |s.calls| ==> RightError(s, e, Step(s, e).calls[|s.calls|])
  {
    match e
    case Deliver(f) => DeliverError(s, f, Step(s, e));
    case SkewTimeout => TimeoutError(s, Step(s, e));
    case _ =>
  }

  /** The step of a run that calls the user. */
  lemma {:induction false} CallMade(s: State, es: seq<Event>) returns (k: nat)
    requires Inv(s) && ErrInv(s) && s.calls == [] && CanRun(s, es) && Run(s, es).calls != []
    ensures k < |es| && CanRun(s, es[..k]) && Enabled(Run(s, es[..k]), es[k])
    ensures RightError(Run(s, es[..k]), es[k], Run(s, es).calls[0])
    decreases |es|
  {
    if es != [] {
      var s' := Step(s, es[0]);
      StepInv(s, es[0]);
      StepError(s, es[0]);
      if s'.calls != [] {
        k := 0;
        assert es[..0] == [];
        CallsStay(s', es[1..]);
      } else {
        var m := CallMade(s', es[1..]);
        k := m + 1;
        assert es[..k] == [es[0]] + es[1..][..m];
        assert es[..k][1..] == es[1..][..m];
      }
    }
  }

  lemma {:induction false} CallsStay(s: State, es: seq<Event>)
    requires Inv(s) && CanRun(s, es)
    ensures s.calls <= Run(s, es).calls
    decreases |es|
  {
    if es != [] {
      StepInv(s, es[0]);
      CallsStay(Step(s, es[0]), es[1..]);
    }
  }

  /** In every run the error the user gets is the right one for the step that told it. */
  lemma ToldWhy(has4: bool, has6: bool, es: seq<Event>) returns (k: nat)
    requires CanRun(Launch(has4, has6), es) && Run(Launch(has4, has6), es).calls != []
    ensures has4 || has6 ==>
      && k < |es| && CanRun(Launch(has4, has6), es[..k])
      && RightError(Run(Launch(has4, has6), es[..k]), es[k], Run(Launch(has4, has6), es).calls[0])
    ensures !has4 && !has6 ==> Run(Launch(has4, has6), es).calls[0] == Call(EaiFail, [])
  {
    var s := Launch(has4, has6);
    if has4 || has6 {
      k := CallMade(s, es);
    } else {
      k := 0;
      CallsStay(s, es);
    }
  }

  /** A timeout between the two deliveries of a cancellation: the user does not learn that it was one. */
  lemma CancelMissed()
    ensures var es := [UserCancel, Deliver(V4), SkewTimeout];
      CanRun(Launch(true, true), es) && Run(Launch(true, true), es).canceled
      && Run(Launch(true, true), es).calls == [Call(EaiFail, [])]
  {
  }

  /** After the user gave up the call says so if and only if it is not a timeout that makes it. */
  lemma CancelSaid(s: State, e: Event)
    requires Inv(s) && ErrInv(s) && Enabled(s, e) && s.canceled && |Step(s, e).calls| > |s.calls|
    ensures Step(s, e).calls[|s.calls|].err == EaiCancel <==> !e.SkewTimeout?
  {
    StepError(s, e);
  }

  // What a cancellation and the timer come to.

  lemma CanceledStays(s: State, e: Event)
    requires Inv(s) && Enabled(s, e) && s.canceled
    ensures Step(s, e).canceled
  {
  }

  lemma {:induction false} CanceledTells(s: State, es: seq<Event>)
    requires Inv(s) && s.canceled && s.calls == [] && CanRun(s, es) && Run(s, es).calls != []
    ensures Run(s, es).calls[0].addrs == [] && Run(s, es).calls[0].err != Ok
    decreases |es|
  {
    if es != [] {
      StepInv(s, es[0]);
      CanceledStays(s, es[0]);
      var s' := Step(s, es[0]);
      if s'.calls == [] { CanceledTells(s', es[1..]); } else { CallsStay(s', es[1..]); }
    }
  }

  /** A user who cancels before having been called gets no addresses any more, whatever is reported afterwards. */
  lemma AfterCancel(has4: bool, has6: bool, es: seq<Event>, more: seq<Event>)
    requires CanRun(Launch(has4, has6), es)
    requires var s := Run(Launch(has4, has6), es);
      s.frees == 0 && s.calls == [] && CanRun(Step(s, UserCancel), more) && Run(Step(s, UserCancel), more).calls != []
    ensures var c := Run(Step(Run(Launch(has4, has6), es), UserCancel), more).calls[0]; c.addrs == [] && c.err != Ok
  {
    var s := Run(Launch(has4, has6), es);
    RunInv(Launch(has4, has6), es);
    StepInv(s, UserCancel);
    CanceledTells(Step(s, UserCancel), more);
  }

  /** The first report arms the timer, unless it is a shutdown, the user has been told, or an answer after giving up. */
  lemma TimerArmed(s: State, f: Family)
    requires Inv(s) && Get(s, f).Scheduled? && Live(Get(s, Other(f)))
    ensures Step(s, Deliver(f)).timer <==>
      && s.userCb && Get(s, f).result != Shutdown
      && !(s.canceled && Get(s, f).result.Answers? && Get(s, f).result.addrs != [])
  {
  }
}
