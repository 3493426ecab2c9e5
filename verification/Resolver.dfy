/** The request queues and the server ring of the resolver in `evdns.c`. */
module Resolvers {
  import opened Distinctness
  import opened Modulus
  import opened Orders

  class Server {
    var up: bool
    var inflight: int
    var failedTimes: int

    constructor ()
      ensures up && inflight == 0 && failedTimes == 0
    {
      up, inflight, failedTimes := true, 0, 0;
    }
  }

  class Request {
    var ns: Server?
    var transId: nat
    var txCount: nat
    var reissueCount: nat

    constructor ()
      ensures ns == null && transId == 0 && txCount == 0 && reissueCount == 0
    {
      ns, transId, txCount, reissueCount := null, 0, 0, 0;
    }
  }

  type Queues = seq<seq<Request>>

  /** Every request in flight is in the queue its identifier names, once, and nothing else is. */
  ghost predicate Spread(qs: Queues, flying: set<Request>)
    reads flying`transId
  {
    && |qs| > 0
    && (forall b {:trigger NoDup(qs[b])} :: 0 <= b < |qs| ==> NoDup(qs[b]))
    && (forall b, i {:trigger qs[b][i]} :: 0 <= b < |qs| && 0 <= i < |qs[b]| ==>
          qs[b][i] in flying && Mod(qs[b][i].transId, |qs|) == b)
    && (forall r {:trigger r.transId} :: r in flying ==> r in qs[Mod(r.transId, |qs|)])
  }

  lemma SpreadAdd(qs: Queues, flying: set<Request>, r: Request)
    requires Spread(qs, flying) && r !in flying
    ensures var b := Mod(r.transId, |qs|); Spread(qs[b := qs[b] + [r]], flying + {r})
  {
    var b := Mod(r.transId, |qs|);
    var qs': Queues, flying' := qs[b := qs[b] + [r]], flying + {r};
    assert NoDup(qs[b]);
    NoDupConcat(qs[b], [r]);
    forall c | 0 <= c < |qs'| ensures NoDup(qs'[c]) { if c != b { assert qs'[c] == qs[c] && NoDup(qs[c]); } }
    forall c, i | 0 <= c < |qs'| && 0 <= i < |qs'[c]|
      ensures qs'[c][i] in flying' && Mod(qs'[c][i].transId, |qs'|) == c
    {
      if !(c == b && i == |qs[b]|) { assert qs'[c][i] == qs[c][i]; }
    }
    forall x | x in flying' ensures x in qs'[Mod(x.transId, |qs'|)] {
      if x != r {
        var c := Mod(x.transId, |qs|);
        assert x in qs[c];
        if c == b { var i :| 0 <= i < |qs[b]| && qs[b][i] == x; assert qs'[b][i] == x; }
      } else {
        assert qs'[b][|qs[b]|] == r;
      }
    }
  }

  lemma SpreadDrop(qs: Queues, flying: set<Request>, b: nat, i: nat)
    requires Spread(qs, flying) && b < |qs| && i < |qs[b]|
    ensures Spread(qs[b := Without(qs[b], i)], flying - {qs[b][i]})
  {
    var r := qs[b][i];
    var qs': Queues, flying' := qs[b := Without(qs[b], i)], flying - {r};
    assert NoDup(qs[b]);
    NoDupWithout(qs[b], i);
    forall c | 0 <= c < |qs'| ensures NoDup(qs'[c]) { if c != b { assert qs'[c] == qs[c] && NoDup(qs[c]); } }
    forall c, j | 0 <= c < |qs'| && 0 <= j < |qs'[c]|
      ensures qs'[c][j] in flying' && Mod(qs'[c][j].transId, |qs'|) == c
    {
      if c == b {
        assert qs'[c][j] == qs[b][if j < i then j else j + 1];
        assert qs'[c][j] in Without(qs[b], i);
      } else {
        assert qs'[c][j] == qs[c][j];
      }
    }
    forall x | x in flying' ensures x in qs'[Mod(x.transId, |qs'|)] {
      var c := Mod(x.transId, |qs|);
      assert x in qs[c];
      if c == b {
        var j :| 0 <= j < |qs[b]| && qs[b][j] == x;
        assert qs'[b][if j < i then j else j - 1] == x;
      }
    }
  }

  /** The requests of `o` are in flight, in the first `k` of `n` queues. */
  ghost predicate Within(o: seq<Request>, flying: set<Request>, n: nat, k: nat)
    requires n > 0
    reads o`transId
  {
    forall i {:trigger o[i]} :: 0 <= i < |o| ==> o[i] in flying && Mod(o[i].transId, n) < k
  }

  /** The queues together hold the requests in flight, each once. */
  lemma {:induction false} OrderSpread(qs: Queues, flying: set<Request>, k: nat)
    requires Spread(qs, flying) && k <= |qs|
    ensures NoDup(Order(qs, k)) && Within(Order(qs, k), flying, |qs|, k)
    ensures forall r :: r in flying && Mod(r.transId, |qs|) < k ==> r in Order(qs, k)
  {
    if k > 0 {
      OrderSpread(qs, flying, k - 1);
      var q, o := qs[k - 1], Order(qs, k - 1);
      assert NoDup(q);
      forall i | 0 <= i < |q| ensures q[i] in flying && Mod(q[i].transId, |qs|) == k - 1 && q[i] !in o {
        assert qs[k - 1][i] in flying;
        forall j | 0 <= j < |o| ensures o[j] != q[i] { assert Mod(o[j].transId, |qs|) < k - 1; }
      }
      NoDupConcat(o, q);
      var all := o + q;
      forall i | 0 <= i < |all| ensures all[i] in flying && Mod(all[i].transId, |qs|) < k {
        if i < |o| { assert all[i] == o[i]; } else { assert all[i] == q[i - |o|]; }
      }
      forall r | r in flying && Mod(r.transId, |qs|) < k ensures r in o + q {
        if Mod(r.transId, |qs|) == k - 1 { assert r in q; }
      }
    }
  }

  function One(b: bool): nat {
    if b then 1 else 0
  }

  ghost function Up(team: set<Server>): set<Server>
    reads team`up
  {
    set s | s in team && s.up
  }

  ghost function Assigned(flying: set<Request>, s: Server): set<Request>
    reads flying`ns
  {
    set r | r in flying && r.ns == s
  }

  /** Every request in flight is with a known server, and every server's count is exact. */
  ghost predicate Manned(flying: set<Request>, team: set<Server>)
    reads flying`ns, team`inflight
  {
    && (forall r {:trigger r.ns} :: r in flying ==> r.ns != null && r.ns in team)
    && (forall s {:trigger s.inflight} :: s in team ==> s.inflight == |Assigned(flying, s)|)
  }

  /** No waiting request has a server, and none is in flight as well. */
  ghost predicate Parked(waiting: seq<Request>, flying: set<Request>)
    reads waiting`ns
  {
    NoDup(waiting) && forall i {:trigger waiting[i]} :: 0 <= i < |waiting| ==>
      waiting[i] !in flying && waiting[i].ns == null
  }

  /** The ring goes through the servers of `team`, each once. */
  ghost predicate Ring(servers: seq<Server>, team: set<Server>) {
    && NoDup(servers)
    && (forall i {:trigger servers[i]} :: 0 <= i < |servers| ==> servers[i] in team)
    && (forall s :: s in team ==> s in servers)
  }

  /** `server_head = server_head->next`. */
  function Rotated(s: seq<Server>): (t: seq<Server>)
    ensures |t| == |s|
  {
    if s == [] then [] else s[1..] + [s[0]]
  }

  lemma RingRotated(servers: seq<Server>, team: set<Server>)
    requires Ring(servers, team)
    ensures Ring(Rotated(servers), team)
  {
    if servers != [] {
      var t := Rotated(servers);
      NoDupWithout(servers, 0);
      assert Without(servers, 0) == servers[1..];
      NoDupConcat(servers[1..], [servers[0]]);
      forall s | s in team ensures s in t {
        var i :| 0 <= i < |servers| && servers[i] == s;
        assert t[if i == 0 then |t| - 1 else i - 1] == s;
      }
    }
  }

  /** `s` rotated `k` times. */
  function Turned(s: seq<Server>, k: nat): (t: seq<Server>)
    requires k <= |s|
  {
    s[k..] + s[..k]
  }

  lemma TurnedMore(s: seq<Server>, k: nat)
    requires k < |s|
    ensures Rotated(Turned(s, k)) == Turned(s, k + 1)
  {
    assert Turned(s, k)[1..] == s[k + 1..] + s[..k];
    assert s[k + 1..] + s[..k] + [s[k]] == s[k + 1..] + s[..k + 1];
  }

  lemma TurnedNot(s: seq<Server>)
    ensures Turned(s, 0) == s
  {
  }

  /** Where a ring that turned stands: back at the start after the last server. */
  lemma TurnedFirst(s: seq<Server>, k: nat)
    requires 0 < |s| && k <= |s|
    ensures Turned(s, k)[0] == s[if k < |s| then k else 0]
  {
  }

  lemma {:induction false} RingTurned(s: seq<Server>, team: set<Server>, k: nat)
    requires Ring(s, team) && k <= |s|
    ensures Ring(Turned(s, k), team)
  {
    if k == 0 {
      TurnedNot(s);
    } else {
      RingTurned(s, team, k - 1);
      RingRotated(Turned(s, k - 1), team);
      TurnedMore(s, k - 1);
    }
  }

  /** The place of the first server that is up, or the length of the ring when none is. */
  ghost function FirstUp(ring: seq<Server>): (k: nat)
    reads ring`up
    ensures k <= |ring| && (k < |ring| ==> ring[k].up) && forall i {:trigger ring[i]} :: 0 <= i < k ==> !ring[i].up
  {
    if ring == [] || ring[0].up then 0 else
      assert forall i :: 0 < i < |ring| ==> ring[i] == ring[1..][i - 1];
      1 + FirstUp(ring[1..])
  }

  lemma FirstUpIs(ring: seq<Server>, k: nat)
    requires k < |ring| && ring[k].up && forall i :: 0 <= i < k ==> !ring[i].up
    ensures FirstUp(ring) == k && Picks(ring, ring[k], Turned(ring, k + 1))
  {
    assert FirstUp(ring) >= k;
  }

  /**
   * What a pick from the ring `before` gives: the first server that is up, with the ring turned past it; when none is
   * up the ring turns by one and the server it then stands at is taken; nothing from an empty ring.
   */
  ghost predicate Picks(before: seq<Server>, ns: Server?, ring: seq<Server>)
    reads before`up
  {
    if before == [] then ns == null && ring == []
    else if FirstUp(before) < |before| then ns == before[FirstUp(before)] && ring == Turned(before, FirstUp(before) + 1)
    else ring == Turned(before, 1) && ns == ring[0]
  }

  lemma AssignedAdd(flying: set<Request>, r: Request, s: Server)
    requires r !in flying
    ensures |Assigned(flying + {r}, s)| == |Assigned(flying, s)| + if r.ns == s then 1 else 0
  {
    assert Assigned(flying + {r}, s) == Assigned(flying, s) + if r.ns == s then {r} else {};
  }

  lemma AssignedDrop(flying: set<Request>, r: Request, s: Server)
    requires r in flying
    ensures |Assigned(flying - {r}, s)| == |Assigned(flying, s)| - if r.ns == s then 1 else 0
  {
    assert Assigned(flying - {r}, s) == Assigned(flying, s) - if r.ns == s then {r} else {};
  }

  /** A request that is not in flight yet joins its server. */
  method Join(r: Request, ns: Server, ghost flying: set<Request>, ghost team: set<Server>)
    requires Manned(flying, team) && r !in flying && r.ns == ns && ns in team
    modifies ns`inflight
    ensures Manned(flying + {r}, team)
  {
    forall s | s in team ensures |Assigned(flying + {r}, s)| == s.inflight + if s == ns then 1 else 0 {
      AssignedAdd(flying, r, s);
    }
    ns.inflight := ns.inflight + 1;
  }

  /** A request leaves its server, whose count is not zero. */
  method Leave(r: Request, ns: Server, ghost flying: set<Request>, ghost team: set<Server>)
    requires Manned(flying, team) && r in flying && r.ns == ns
    modifies ns`inflight
    ensures Manned(flying - {r}, team) && old(ns.inflight) > 0
  {
    forall s | s in team ensures |Assigned(flying - {r}, s)| == s.inflight - if s == ns then 1 else 0 {
      AssignedDrop(flying, r, s);
    }
    assert r in Assigned(flying, ns);
    ns.inflight := ns.inflight - 1;
  }

  /** `request_swap_ns`. */
  method SwapNs(r: Request, ns: Server?, ghost flying: set<Request>, ghost team: set<Server>)
    requires Manned(flying, team) && r in flying && (ns != null ==> ns in team)
    modifies r`ns, team`inflight
    ensures Manned(flying, team) && r.ns == if ns == null then old(r.ns) else ns
  {
    if ns != null && r.ns != ns {
      Leave(r, r.ns, flying, team);
      ghost var rest := flying - {r};
      Reassign(r, ns, rest, team);
      Join(r, ns, rest, team);
      assert rest + {r} == flying;
    }
  }

  /** The server of a request that is not in flight matters to nobody. */
  method Reassign(r: Request, ns: Server?, ghost flying: set<Request>, ghost team: set<Server>)
    requires Manned(flying, team) && r !in flying
    modifies r`ns
    ensures Manned(flying, team) && r.ns == ns
  {
    r.ns := ns;
  }

  /** The place of `x` in `s`. */
  function IndexOf<T(==)>(s: seq<T>, x: T): (i: nat)
    requires x in s
    ensures i < |s| && s[i] == x
  {
    if s[0] == x then 0 else 1 + IndexOf(s[1..], x)
  }

  class Resolver {
    var heads: Queues
    var waiting: seq<Request>
    /** The ring of servers, from `server_head` on. */
    var servers: seq<Server>
    var inflight: int
    var nWaiting: int
    var good: int
    var maxInflight: int
    ghost var flying: set<Request>
    ghost var team: set<Server>

    ghost predicate Valid()
      reads this, flying, waiting, team
    {
      && Spread(heads, flying) && Parked(waiting, flying) && Manned(flying, team) && Ring(servers, team)
      && inflight == |All(heads)| && nWaiting == |waiting| && good == |Up(team)| && maxInflight > 0
    }

    /** `nameserver_pick` when some server is up: turn the ring past the first one that is. */
    method PickUp() returns (ns: Server)
      requires Ring(servers, team) && Up(team) != {} && servers != []
      modifies this`servers
      ensures Ring(servers, team) && ns in team && ns.up && Picks(old(servers), ns, servers)
    {
      var startedAt := servers[0];
      ghost var start := servers;
      ghost var k: nat := 0;
      TurnedNot(start);
      while true
        invariant k < |start| && servers == Turned(start, k) && servers[0] == start[k]
        invariant forall i :: 0 <= i < k ==> !start[i].up
        decreases |start| - k
      {
        TurnedMore(start, k);
        ns := servers[0];
        servers := Rotated(servers);
        k := k + 1;
        if ns.up {
          RingTurned(start, team, k);
          FirstUpIs(start, k - 1);
          return;
        }
        // Once around without meeting a server that is up: the count of good ones says this cannot be.
        if servers[0] == startedAt {
          Around(start, k);
          assert false;
        }
        TurnedFirst(start, k);
      }
    }

    /**
     * `nameserver_pick`: the next server that is up, if any is, and otherwise just the next one;
     * the ring turns past it.
     */
    method Pick() returns (ns: Server?)
      requires Valid()
      modifies this`servers
      ensures Valid() && Picks(old(servers), ns, servers)
      ensures ns == null <==> team == {}
      ensures ns != null ==> ns in team && (ns.up <==> Up(team) != {})
    {
      if servers == [] {
        assert team == {};
        return null;
      }
      if good == 0 {
        RingRotated(servers, team);
        NoneUp();
        TurnedNot(servers);
        TurnedMore(servers, 0);
        servers := Rotated(servers);
        return servers[0];
      }
      ns := PickUp();
    }

    /** One pick, when the ring has turned `k` times and all servers are up. */
    method PickNext(ghost ring: seq<Server>, ghost k: nat) returns (ns: Server)
      requires Valid() && k < |ring| && servers == Turned(ring, k)
      requires forall i {:trigger ring[i]} :: 0 <= i < |ring| ==> ring[i].up
      modifies this`servers
      ensures Valid() && ns == ring[k] && servers == Turned(ring, k + 1)
    {
      assert servers[0] == ring[k];
      TurnedNot(servers);
      TurnedMore(servers, 0);
      TurnedMore(ring, k);
      var picked := Pick();
      ns := picked;
    }

    /** Picks in a row: while all servers are up every one of them comes once, in the order of the ring. */
    method PickRound() returns (picked: seq<Server>)
      requires Valid() && forall i {:trigger servers[i]} :: 0 <= i < |servers| ==> servers[i].up
      modifies this`servers
      ensures Valid() && picked == old(servers) && servers == old(servers)
    {
      ghost var ring := servers;
      picked := [];
      TurnedNot(ring);
      var k, n := 0, |servers|;
      while k < n
        invariant 0 <= k <= n == |ring| && Valid() && servers == Turned(ring, k) && picked == ring[..k]
        invariant forall i {:trigger ring[i]} :: 0 <= i < |ring| ==> ring[i].up
      {
        var ns := PickNext(ring, k);
        picked := picked + [ns];
        k := k + 1;
      }
      assert Turned(ring, |ring|) == ring && ring[..|ring|] == ring;
    }

    lemma NoneUp()
      requires |Up(team)| == 0
      ensures Up(team) == {} && forall s :: s in team ==> !s.up
    {
      assert Up(team) == {};
      forall s | s in team ensures !s.up { assert s in Up(team) <==> s.up; }
    }

    /** Back at the start after `k` servers that are down, so all are. */
    lemma Around(start: seq<Server>, k: nat)
      requires Ring(start, team) && 0 < k <= |start| && Turned(start, k)[0] == start[0]
      requires forall i :: 0 <= i < k ==> !start[i].up
      ensures Up(team) == {}
    {
      NoDupApart(start, 0);
      TurnedFirst(start, k);
      AllDown(start);
    }

    lemma AllDown(start: seq<Server>)
      requires Ring(start, team) && forall i :: 0 <= i < |start| ==> !start[i].up
      ensures Up(team) == {}
    {
    }

    /** Put a request that has a server into the queue its identifier names. */
    method Enlist(r: Request, ns: Server)
      requires Valid() && r !in flying && r !in waiting && r.ns == ns && ns in team
      modifies this`heads, this`inflight, this`flying, ns`inflight
      ensures Valid() && flying == old(flying) + {r} && |heads| == |old(heads)| && inflight == old(inflight) + 1
      ensures |heads[0]| == |old(heads)[0]| + One(Mod(r.transId, |heads|) == 0)
    {
      var b := Mod(r.transId, |heads|);
      SpreadAdd(heads, flying, r);
      OrderSize(heads, b, Enqueued(heads[b], r), |heads|);
      Join(r, ns, flying, team);
      heads := heads[b := Enqueued(heads[b], r)];
      inflight := inflight + 1;
      flying := flying + {r};
    }

    /** Take a request out of its queue and away from its server. */
    method Delist(r: Request, ns: Server)
      requires Valid() && r in flying && r.ns == ns
      modifies this`heads, this`inflight, this`flying, ns`inflight
      ensures Valid() && flying == old(flying) - {r} && |heads| == |old(heads)| && inflight == old(inflight) - 1
      ensures |heads[0]| == |old(heads)[0]| - One(Mod(r.transId, |heads|) == 0)
    {
      var b := Mod(r.transId, |heads|);
      var i := IndexOf(heads[b], r);
      SpreadDrop(heads, flying, b, i);
      OrderSize(heads, b, Without(heads[b], i), |heads|);
      Leave(r, ns, flying, team);
      heads := heads[b := Without(heads[b], i)];
      inflight := inflight - 1;
      flying := flying - {r};
    }

    /** Put a request that has no server at the end of the waiting queue. */
    method Park(r: Request)
      requires Valid() && r !in flying && r !in waiting && r.ns == null
      modifies this`waiting, this`nWaiting
      ensures Valid() && waiting == Enqueued(old(waiting), r)
    {
      NoDupConcat(waiting, [r]);
      waiting, nWaiting := Enqueued(waiting, r), nWaiting + 1;
    }

    /** Take a request out of the waiting queue. */
    method Unpark(r: Request)
      requires Valid() && r in waiting
      modifies this`waiting, this`nWaiting
      ensures Valid() && r !in waiting && waiting == Without(old(waiting), IndexOf(old(waiting), r))
    {
      var i := IndexOf(waiting, r);
      NoDupWithout(waiting, i);
      ParkedWithout(waiting, flying, i);
      waiting, nWaiting := Without(waiting, i), nWaiting - 1;
    }

    static lemma ParkedWithout(waiting: seq<Request>, flying: set<Request>, i: nat)
      requires Parked(waiting, flying) && i < |waiting|
      ensures Parked(Without(waiting, i), flying)
    {
      NoDupWithout(waiting, i);
      var w := Without(waiting, i);
      forall j | 0 <= j < |w| ensures w[j] !in flying && w[j].ns == null {
        assert w[j] == waiting[if j < i then j else j + 1];
      }
    }

    /** The request at the front of the waiting queue goes out to `ns`. */
    method Promote(r: Request, ns: Server, id: nat)
      requires Valid() && waiting != [] && r == waiting[0] && ns in team
      modifies this`heads, this`inflight, this`flying, this`waiting, this`nWaiting, ns`inflight
      modifies r`ns, r`transId
      ensures Valid() && waiting == old(waiting)[1..] && flying == old(flying) + {r}
      ensures inflight == old(inflight) + 1 && |heads| == |old(heads)| && r.transId == id && r.ns == ns
      ensures |heads[0]| == |old(heads)[0]| + One(Mod(id, |heads|) == 0)
    {
      assert IndexOf(waiting, r) == 0 && Without(waiting, 0) == waiting[1..];
      Unpark(r);
      Equip(r, ns, id);
      Enlist(r, ns);
    }

    /** A request in no queue gets its server and its identifier. */
    method Equip(r: Request, ns: Server?, id: nat)
      requires Valid() && r !in flying && r !in waiting
      modifies r`ns, r`transId
      ensures Valid() && r.ns == ns && r.transId == id
    {
      r.ns, r.transId := ns, id;
    }

    /** One round of the pump, unless there is no server at all. */
    method PumpOne(r: Request, id: nat) returns (stuck: bool)
      requires Valid() && waiting != [] && r == waiting[0]
      modifies this`heads, this`inflight, this`flying, this`waiting, this`nWaiting, this`servers
      modifies r`ns, r`transId, team`inflight
      ensures Valid() && (stuck <==> team == {}) && |heads| == |old(heads)|
      ensures stuck ==> unchanged(this`waiting, this`flying, this`inflight)
      ensures !stuck ==> waiting == old(waiting)[1..] && flying == old(flying) + {r} && inflight == old(inflight) + 1
      ensures !stuck ==> r.transId == id && |heads[0]| == |old(heads)[0]| + One(Mod(id, |heads|) == 0)
      ensures stuck ==> heads == old(heads)
      ensures !stuck ==> Picks(old(servers), r.ns, servers)
    {
      var ns := Pick();
      if ns == null { return true; }
      Promote(r, ns, id);
      return false;
    }

    /** The pump has nothing more to do. */
    ghost predicate Settled()
      reads this
    {
      inflight >= maxInflight || waiting == [] || team == {}
    }

    /** How many of the requests in flight or waiting are not in the first queue. */
    ghost function Excess(): int
      requires |heads| > 0
      reads this`heads, this`inflight, this`waiting
    {
      inflight - |heads[0]| + |waiting|
    }

    /** What waits cannot all go out while the first queue is emptied. */
    ghost predicate Brim()
      reads this`heads, this`inflight, this`waiting, this`maxInflight
    {
      |heads| > 1 && waiting != [] && Excess() > maxInflight
    }

    /** The last identifier names the first of `n` queues, and the others the second. */
    static ghost predicate Aimed(ids: seq<nat>, n: nat) {
      n > 1 && forall j {:trigger ids[j]} :: 0 <= j < |ids| ==> Mod(ids[j], n) == One(j + 1 < |ids|)
    }

    /** The requests that joined `flew` have the identifiers drawn, `last` the latest of them. */
    ghost predicate Drawn(ids: seq<nat>, flew: set<Request>, last: Request)
      reads this`waiting, this`flying, flying`transId
    {
      && |waiting| <= |ids|
      && (forall r :: r in flying && r !in flew ==> r.transId in ids[..|ids| - |waiting|])
      && (last in flying && last !in flew && waiting == [] && ids != [] ==> last.transId == ids[|ids| - 1])
    }

    /** What has been pumped so far: the first `k` requests of `before`. */
    ghost predicate Pumped(before: seq<Request>, k: nat, flew: set<Request>, n: int)
      reads this`waiting, this`flying, this`inflight
    {
      k <= |before| && waiting == before[k..] && flying == flew + Members(before[..k]) && inflight == n + k
    }

    /** One more round, with room in flight. */
    method PumpNext(r: Request, id: nat, ghost ids: seq<nat>, ghost flew: set<Request>, ghost last: Request)
      returns (stuck: bool)
      requires Valid() && waiting != [] && r == waiting[0] && Drawn(ids, flew, last) && flew <= flying
      requires id == ids[|ids| - |waiting|] && last !in flying && last == waiting[|waiting| - 1]
      requires inflight < maxInflight
      modifies this`heads, this`inflight, this`flying, this`waiting, this`nWaiting, this`servers
      modifies r`ns, r`transId, team`inflight
      ensures Valid() && (stuck <==> team == {}) && |heads| == |old(heads)|
      ensures stuck ==> unchanged(this`waiting, this`flying, this`inflight)
      ensures !stuck ==> waiting == old(waiting)[1..] && flying == old(flying) + {r} && inflight == old(inflight) + 1
      ensures Drawn(ids, flew, last)
      ensures Excess() <= old(Excess()) && (Aimed(ids, |heads|) && old(Brim()) ==> Brim())
    {
      assert ids[..|ids| - |waiting| + 1] == ids[..|ids| - |waiting|] + [id];
      stuck := PumpOne(r, id);
    }

    static lemma PumpedMore(before: seq<Request>, k: nat, flew: set<Request>)
      requires k < |before|
      ensures before[k..][0] == before[k] && before[k..][1..] == before[k + 1..]
      ensures flew + Members(before[..k]) + {before[k]} == flew + Members(before[..k + 1])
    {
      assert before[..k + 1] == before[..k] + [before[k]];
    }

    /**
     * `evdns_requests_pump_waiting_queue`: requests leave the waiting queue from the front while
     * there is room in flight, and only the lack of any server can stop that early.
     */
    method Pump(ids: seq<nat>) returns (ghost k: nat)
      requires Valid() && |ids| >= |waiting|
      modifies this`heads, this`inflight, this`flying, this`waiting, this`nWaiting, this`servers
      modifies waiting`ns, waiting`transId, team`inflight
      ensures Valid()
      ensures k <= |old(waiting)| && waiting == old(waiting)[k..] && inflight == old(inflight) + k
      ensures flying == old(flying) + Members(old(waiting)[..k])
      ensures Settled() && |heads| == |old(heads)|
      ensures old(waiting) != [] ==> Drawn(ids, old(flying), old(waiting[|waiting| - 1]))
      ensures Excess() <= old(Excess()) && (Aimed(ids, |heads|) && old(Brim()) ==> Brim())
    {
      k := 0;
      if waiting == [] { return; }
      ghost var before, flew, last := waiting, flying, waiting[|waiting| - 1];
      ghost var excess, brim := Excess(), Brim();
      assert before[0..] == before && Members(before[..0]) == {};
      while inflight < maxInflight && nWaiting != 0
        invariant Valid() && Pumped(before, k, flew, old(inflight)) && |heads| == |old(heads)| && Drawn(ids, flew, last)
        invariant Excess() <= excess && (Aimed(ids, |heads|) && brim ==> Brim())
        decreases |before| - k
      {
        PumpedMore(before, k, flew);
        var stuck := PumpNext(waiting[0], ids[|ids| - |waiting|], ids, flew, last);
        if stuck { return; }
        k := k + 1;
      }
    }

    /** Everything the resolver has been given and has not finished. */
    ghost function Pending(): set<Request>
      reads this`flying, this`waiting
    {
      flying + Members(waiting)
    }

    /** `request_new`: a new request gets a server and an identifier when there is room in flight. */
    method New(r: Request, id: nat) returns (ns: Server?)
      requires Valid() && r !in Pending()
      modifies this`servers, r`ns, r`transId
      ensures Valid() && r.ns == ns
      ensures ns == null <==> inflight >= maxInflight || team == {}
      ensures ns != null ==> ns in team
      ensures if inflight < maxInflight then Picks(old(servers), ns, servers) else servers == old(servers)
      ensures inflight < maxInflight ==> r.transId == id
    {
      ns := null;
      var issuing := inflight < maxInflight;
      if issuing { ns := Pick(); }
      Equip(r, ns, if issuing then id else 0xffff);
    }

    /** `request_submit`: a request with a server goes out, any other waits at the end of the queue. */
    method Place(r: Request, ns: Server?)
      requires Valid() && r !in Pending() && r.ns == ns && (ns != null ==> ns in team)
      modifies this`heads, this`inflight, this`flying, this`waiting, this`nWaiting, team`inflight
      ensures Valid() && Pending() == old(Pending()) + {r} && (r in flying <==> ns != null)
      ensures ns == null ==> waiting == old(waiting) + [r] && flying == old(flying)
      ensures ns != null ==> waiting == old(waiting) && inflight == old(inflight) + 1
    {
      if ns != null {
        Enlist(r, ns);
      } else {
        Park(r);
      }
    }

    /**
     * A new request goes out at once when there is room in flight and a server, and waits at the end of the queue
     * otherwise.
     */
    method Submit(r: Request, id: nat)
      requires Valid() && r !in Pending()
      modifies this`heads, this`inflight, this`flying, this`waiting, this`nWaiting, this`servers
      modifies r`ns, r`transId, team`inflight
      ensures Valid() && Pending() == old(Pending()) + {r}
      ensures r in flying <==> old(inflight < maxInflight) && team != {}
      ensures r !in flying ==> waiting == old(waiting) + [r] && flying == old(flying)
      ensures r in flying ==> r.transId == id && Picks(old(servers), r.ns, servers)
    {
      var ns := New(r, id);
      Place(r, ns);
    }

    /** `request_finished` for a request in flight: it is gone, and the pump runs. */
    method FinishInflight(r: Request, ids: seq<nat>)
      requires Valid() && r in flying && |ids| >= |waiting|
      modifies this`heads, this`inflight, this`flying, this`waiting, this`nWaiting, this`servers
      modifies waiting`ns, waiting`transId, team`inflight
      ensures Valid() && Pending() == old(Pending()) - {r} && Settled()
      ensures Members(waiting) <= old(Members(waiting)) && |waiting| <= old(|waiting|) && |heads| == |old(heads)|
      ensures old(flying) - {r} <= flying
      ensures old(waiting) != [] ==> Drawn(ids, old(flying) - {r}, old(waiting[|waiting| - 1]))
      ensures Mod(r.transId, |heads|) == 0 ==>
        Excess() <= old(Excess()) && (Aimed(ids, |heads|) && old(Brim()) ==> Brim())
    {
      Delist(r, r.ns);
      assert r !in waiting;
      assert Mod(r.transId, |heads|) == 0 ==> Excess() == old(Excess()) && Brim() == old(Brim());
      var k := Pump(ids);
      PumpedKeeps(old(waiting), k);
    }

    /** `request_finished` for a request that still waits. */
    method FinishWaiting(r: Request, ids: seq<nat>)
      requires Valid() && r in waiting && |ids| >= |waiting|
      modifies this`heads, this`inflight, this`flying, this`waiting, this`nWaiting, this`servers
      modifies waiting`ns, waiting`transId, team`inflight
      ensures Valid() && Pending() == old(Pending()) - {r} && Settled()
      ensures Members(waiting) <= old(Members(waiting)) && |waiting| < old(|waiting|) && |heads| == |old(heads)|
      ensures old(flying) <= flying
    {
      ghost var i := IndexOf(waiting, r);
      WithoutMembers(waiting, i);
      Unpark(r);
      ghost var rest := waiting;
      var k := Pump(ids);
      PumpedKeeps(rest, k);
    }

    static lemma PumpedKeeps(before: seq<Request>, k: nat)
      requires k <= |before|
      ensures Members(before) == Members(before[..k]) + Members(before[k..])
    {
      assert before == before[..k] + before[k..];
    }

    static lemma WithoutMembers(s: seq<Request>, i: nat)
      requires NoDup(s) && i < |s|
      ensures Members(Without(s, i)) == Members(s) - {s[i]}
    {
      NoDupWithout(s, i);
      var t := Without(s, i);
      forall r ensures r in Members(t) <==> r in Members(s) && r != s[i] {
        if r in s && r != s[i] {
          var j :| 0 <= j < |s| && s[j] == r;
          assert t[if j < i then j else j - 1] == r;
        }
      }
    }

    /**
     * `search_try_next` once it has another name: the new request takes its server and its identifier before the
     * failed one is gone and the pump runs, and is submitted after that. What it was given still holds then.
     */
    method SearchNext(r: Request, next: Request, id: nat, ids: seq<nat>)
      requires Valid() && r in flying && next !in Pending() && |ids| >= |waiting|
      modifies this`heads, this`inflight, this`flying, this`waiting, this`nWaiting, this`servers
      modifies next`ns, next`transId, waiting`ns, waiting`transId, team`inflight
      ensures Valid() && Pending() == old(Pending()) - {r} + {next}
      ensures next in flying <==> old(inflight < maxInflight)
    {
      assert r.ns in team;
      var ns := New(next, id);
      FinishInflight(r, ids);
      assert next !in Pending();
      Place(next, ns);
    }

    /** In the middle of a shutdown: `given` is what was reported and what is still there. */
    ghost predicate Closing(given: set<Request>, lined: set<Request>, reported: seq<Request>)
      reads this, flying, waiting, team
    {
      && Valid() && Members(waiting) <= lined && NoDup(reported)
      && Members(reported) !! Pending() && Members(reported) + Pending() == given
    }

    /** At the end of a shutdown: what was given was reported, once, or is still in flight. */
    ghost predicate Reported(given: set<Request>, reported: seq<Request>)
      reads this`flying
    {
      NoDup(reported) && Members(reported) == given - flying && flying <= given
    }

    lemma ClosingStart()
      requires Valid()
      ensures Closing(Pending(), Members(waiting), [])
    {
    }

    /** The queues before `i` are empty and will stay so. */
    ghost predicate Quiet(i: nat)
      reads this, flying
    {
      |heads| > 0 && (waiting == [] || team == {}) && forall r :: r in flying ==> Mod(r.transId, |heads|) >= i
    }

    lemma QuietMore(i: nat)
      requires Spread(heads, flying) && Quiet(i) && i < |heads| && heads[i] == []
      ensures Quiet(i + 1)
    {
      forall r | r in flying ensures Mod(r.transId, |heads|) >= i + 1 {
        assert r in heads[Mod(r.transId, |heads|)];
      }
    }

    /** Some request is in one of the first `i` queues. */
    ghost predicate Stray(i: nat)
      reads this`heads, this`flying, flying`transId
    {
      |heads| > 0 && exists r :: r in flying && Mod(r.transId, |heads|) < i
    }

    /** Some request waits for room, and the queues before `i` are empty. */
    ghost predicate Held(i: nat)
      reads this, flying`transId
    {
      && |heads| > 0 && waiting != [] && team != {} && inflight > 0
      && forall r :: r in flying ==> Mod(r.transId, |heads|) >= i
    }

    /** Before queue `i` is emptied: something has been left behind or will be. */
    ghost predicate Fated(i: nat)
      reads this, flying`transId
    {
      Held(i) || Stray(i)
    }

    lemma FatedMore(i: nat)
      requires Spread(heads, flying) && Fated(i) && i < |heads| && heads[i] == []
      ensures Fated(i + 1)
    {
      if !Stray(i + 1) {
        forall r | r in flying ensures Mod(r.transId, |heads|) >= i + 1 {
          assert r in heads[Mod(r.transId, |heads|)];
        }
      }
    }

    lemma FatedAll(i: nat)
      requires Valid() && i == |heads| && Fated(i)
      ensures flying != {}
    {
      Aloft();
    }

    /** The count in flight says whether anything is. */
    lemma Aloft()
      requires Spread(heads, flying) && inflight == |All(heads)|
      ensures inflight == 0 <==> flying == {}
    {
      OrderSpread(heads, flying, |heads|);
      if inflight > 0 { assert All(heads)[0] in flying; }
      if flying != {} {
        var r :| r in flying;
        assert r in All(heads);
      }
    }

    /** What one more finished request does to what has been left behind or will be. */
    lemma FatedStep(ids: seq<nat>, i: nat, flew: set<Request>, last: Request)
      requires Valid() && Aimed(ids, |heads|) && i > 0 && team != {} && Settled() && ids != []
      requires flew <= flying && (forall r :: r in flew ==> Mod(r.transId, |heads|) >= i)
      requires last in flying + Members(waiting) && last !in flew && Drawn(ids, flew, last)
      ensures Fated(i)
    {
      if waiting == [] {
        assert Mod(last.transId, |heads|) == 0;
      } else if !Stray(i) {
        forall r | r in flying ensures Mod(r.transId, |heads|) >= i {
          if r !in flew {
            var j :| 0 <= j < |ids| - |waiting| && ids[..|ids| - |waiting|][j] == r.transId;
            assert ids[j] == r.transId;
          }
        }
      }
    }

    lemma QuietAll(i: nat)
      requires Quiet(i) && i == |heads|
      ensures flying == {}
    {
    }

    static lemma ReportedMore(given: set<Request>, reported: seq<Request>, r: Request, left: set<Request>,
                              left': set<Request>)
      requires NoDup(reported) && r in left && left' == left - {r}
      requires Members(reported) !! left && Members(reported) + left == given
      ensures NoDup(reported + [r]) && left' < left
      ensures Members(reported + [r]) !! left' && Members(reported + [r]) + left' == given
    {
      NoDupConcat(reported, [r]);
      assert Members(reported + [r]) == Members(reported) + {r};
    }

    /** A request of queue `i` is finished, and what it decides about those left behind. */
    method FinishIn(r: Request, i: nat, ids: seq<nat>)
      requires Valid() && r in flying && Mod(r.transId, |heads|) == i && |waiting| <= |ids|
      modifies this`heads, this`inflight, this`flying, this`waiting, this`nWaiting, this`servers
      modifies waiting`ns, waiting`transId, team`inflight
      ensures Valid() && Pending() == old(Pending()) - {r} && Settled()
      ensures Members(waiting) <= old(Members(waiting)) && |waiting| <= old(|waiting|) && |heads| == |old(heads)|
      ensures old(Quiet(i)) ==> Quiet(i)
      ensures i == 0 ==> Excess() <= old(Excess()) && (Aimed(ids, |heads|) && old(Brim()) ==> Brim())
      ensures i > 0 && Aimed(ids, |heads|) && old(Fated(i)) ==> Fated(i)
    {
      ghost var held, last := Held(i), if waiting == [] then r else waiting[|waiting| - 1];
      FinishInflight(r, ids);
      if i > 0 && Aimed(ids, |heads|) && held {
        FatedStep(ids, i, old(flying) - {r}, last);
      }
    }

    /** One request in flight is reported and finished. */
    method FailOne(r: Request, i: nat, ids: seq<nat>, ghost given: set<Request>, ghost lined: set<Request>,
                   ghost done: seq<Request>)
      requires Closing(given, lined, done) && r in flying && Mod(r.transId, |heads|) == i && |waiting| <= |ids|
      modifies this`heads, this`inflight, this`flying, this`waiting, this`nWaiting, this`servers
      modifies lined`ns, lined`transId, team`inflight
      ensures Closing(given, lined, done + [r]) && |heads| == |old(heads)| && |waiting| <= |ids| && Settled()
      ensures old(Quiet(i)) ==> Quiet(i)
      ensures i == 0 ==> Excess() <= old(Excess()) && (Aimed(ids, |heads|) && old(Brim()) ==> Brim())
      ensures i > 0 && Aimed(ids, |heads|) && old(Fated(i)) ==> Fated(i)
      ensures Pending() < old(Pending())
    {
      ReportedMore(given, done, r, Pending(), Pending() - {r});
      FinishIn(r, i, ids);
    }

    /** Everything in queue `i` is reported, and what the pump puts there meanwhile. */
    method EmptyQueue(i: nat, ids: seq<nat>, ghost given: set<Request>, ghost lined: set<Request>, done: seq<Request>)
      returns (reported: seq<Request>)
      requires Closing(given, lined, done) && i < |heads| && |waiting| <= |ids|
      modifies this`heads, this`inflight, this`flying, this`waiting, this`nWaiting, this`servers
      modifies lined`ns, lined`transId, team`inflight
      ensures Closing(given, lined, reported) && |heads| == |old(heads)| && |waiting| <= |ids| && heads[i] == []
      ensures old(heads[i]) == [] ==> unchanged(this`flying, this`waiting, this`inflight, this`heads)
      ensures old(heads[i]) != [] ==> Settled()
      ensures old(Quiet(i)) ==> Quiet(i + 1)
      ensures i == 0 ==> Excess() <= old(Excess()) && (Aimed(ids, |heads|) && old(Brim()) ==> Brim())
      ensures i > 0 && Aimed(ids, |heads|) && old(Fated(i)) ==> Fated(i + 1)
    {
      reported := done;
      while heads[i] != []
        invariant Closing(given, lined, reported) && |heads| == |old(heads)| && |waiting| <= |ids|
        invariant unchanged(this`flying, this`waiting, this`inflight, this`heads) || Settled()
        invariant old(heads[i]) == [] ==> unchanged(this`flying, this`waiting, this`inflight, this`heads)
        invariant old(Quiet(i)) ==> Quiet(i)
        invariant i == 0 ==> Excess() <= old(Excess()) && (Aimed(ids, |heads|) && old(Brim()) ==> Brim())
        invariant i > 0 && Aimed(ids, |heads|) && old(Fated(i)) ==> Fated(i)
        decreases Pending()
      {
        var r := heads[i][0];
        assert r in flying;
        FailOne(r, i, ids, given, lined, reported);
        reported := reported + [r];
      }
      if old(Quiet(i)) { QuietMore(i); }
      if i > 0 && Fated(i) { FatedMore(i); }
    }

    /** A request can be left behind: it depends on the identifiers. */
    ghost predicate Lossy()
      reads this
    {
      && team != {} && |heads| > 0
      && if inflight == 0 then |waiting| > 1
         else |heads| > 1 && waiting != [] && (heads[0] == [] || Excess() > maxInflight)
    }

    lemma Vacant(i: nat)
      requires Spread(heads, flying) && i < |heads|
      ensures flying == {} ==> heads[i] == []
      ensures flying != {} && |heads| == 1 ==> heads[0] != []
    {
      if heads[i] != [] { assert heads[i][0] in flying; }
      if flying != {} && |heads| == 1 {
        var r :| r in flying;
        assert r in heads[Mod(r.transId, 1)];
      }
    }

    lemma Grounded()
      requires Manned(flying, team)
      ensures flying != {} ==> team != {}
    {
      if flying != {} {
        var r :| r in flying;
        assert r.ns in team;
      }
    }

    /** All requests in flight are in later queues once the first one is empty. */
    lemma FirstEmptied()
      requires Spread(heads, flying) && heads[0] == []
      ensures forall r :: r in flying ==> Mod(r.transId, |heads|) >= 1
    {
      forall r | r in flying ensures Mod(r.transId, |heads|) >= 1 { assert r in heads[Mod(r.transId, |heads|)]; }
    }

    /** Nothing is left to go out. */
    lemma FirstQuiet()
      requires Valid() && heads[0] == [] && Settled() && (|heads| == 1 || Excess() <= maxInflight)
      ensures Quiet(1)
    {
      FirstEmptied();
      Aloft();
      Vacant(0);
    }

    lemma FirstHeld()
      requires Valid() && heads[0] == [] && waiting != [] && team != {} && inflight > 0
      ensures Fated(1)
    {
      FirstEmptied();
    }

    /** What emptying the first queue decides. */
    method EmptyFirst(ids: seq<nat>, ghost given: set<Request>, ghost lined: set<Request>)
      returns (reported: seq<Request>)
      requires Closing(given, lined, []) && |waiting| <= |ids|
      modifies this`heads, this`inflight, this`flying, this`waiting, this`nWaiting, this`servers
      modifies lined`ns, lined`transId, team`inflight
      ensures Closing(given, lined, reported) && |heads| == |old(heads)| && |waiting| <= |ids|
      ensures old(flying) == {} ==> flying == {} && waiting == old(waiting)
      ensures old(flying) != {} && !old(Lossy()) ==> Quiet(1)
      ensures old(flying) != {} && old(Lossy()) && Aimed(ids, |heads|) ==> Fated(1)
    {
      Aloft();
      Vacant(0);
      ghost var still, aloft, lossy := waiting == [] || team == {}, flying != {}, Lossy();
      assert still ==> Quiet(0);
      reported := EmptyQueue(0, ids, given, lined, []);
      if aloft && !lossy && !still { FirstQuiet(); }
      if aloft && lossy && Aimed(ids, |heads|) { FirstHeld(); }
    }

    /** Everything in the queues is reported, but not what the pump puts into one that was emptied before. */
    method EmptyQueues(ids: seq<nat>, ghost given: set<Request>, ghost lined: set<Request>)
      returns (reported: seq<Request>)
      requires Closing(given, lined, []) && |waiting| <= |ids|
      modifies this`heads, this`inflight, this`flying, this`waiting, this`nWaiting, this`servers
      modifies lined`ns, lined`transId, team`inflight
      ensures Closing(given, lined, reported) && |waiting| <= |ids|
      ensures old(flying) == {} ==> flying == {} && waiting == old(waiting)
      ensures old(flying) != {} && !old(Lossy()) ==> flying == {} && (waiting == [] || team == {})
      ensures old(flying) != {} && old(Lossy()) && Aimed(ids, |old(heads)|) ==> flying != {}
    {
      reported := EmptyFirst(ids, given, lined);
      var i := 1;
      while i < |heads|
        invariant 0 < i <= |heads| && Closing(given, lined, reported) && |waiting| <= |ids| && |heads| == |old(heads)|
        invariant old(flying) == {} ==> flying == {} && waiting == old(waiting)
        invariant old(flying) != {} && !old(Lossy()) ==> Quiet(i)
        invariant old(flying) != {} && old(Lossy()) && Aimed(ids, |heads|) ==> Fated(i)
        decreases |heads| - i
      {
        Vacant(i);
        reported := EmptyQueue(i, ids, given, lined, reported);
        i := i + 1;
      }
      if Quiet(i) { QuietAll(i); }
      if Fated(i) { FatedAll(i); }
    }

    /** One request in the waiting queue is reported; the pump takes what there is room for. */
    method FailWaiting(r: Request, ids: seq<nat>, ghost given: set<Request>, ghost lined: set<Request>,
                       ghost done: seq<Request>)
      requires Closing(given, lined, done) && waiting != [] && r == waiting[0] && |waiting| <= |ids|
      modifies this`heads, this`inflight, this`flying, this`waiting, this`nWaiting, this`servers
      modifies lined`ns, lined`transId, team`inflight
      ensures Closing(given, lined, done + [r]) && |waiting| <= |ids| && Pending() < old(Pending())
      ensures |waiting| < old(|waiting|)
      ensures old(flying) <= flying
      ensures old(flying == {} && |waiting| == 1) ==> flying == {} && waiting == []
      ensures old(|waiting|) > 1 && team != {} ==> flying != {}
    {
      ReportedMore(given, done, r, Pending(), Pending() - {r});
      NextWaits();
      ghost var more, next := |waiting| > 1, if |waiting| > 1 then waiting[1] else r;
      FinishWaiting(r, ids);
      assert flying <= Pending();
      if more && team != {} { Lifted(next); }
    }

    lemma NextWaits()
      requires NoDup(waiting)
      ensures |waiting| > 1 ==> waiting[1] in Pending() - {waiting[0]}
      ensures |waiting| == 1 && flying == {} ==> Pending() - {waiting[0]} == {}
    {
      if |waiting| > 1 { NoDupApart(waiting, 0); }
    }

    lemma Lifted(r: Request)
      requires Valid() && Settled() && team != {} && r in Pending()
      ensures flying != {}
    {
      Aloft();
    }

    /** Everything in the waiting queue is reported, but not what the pump takes from it. */
    method EmptyWaiting(ids: seq<nat>, ghost given: set<Request>, ghost lined: set<Request>, done: seq<Request>)
      returns (reported: seq<Request>)
      requires Closing(given, lined, done) && |waiting| <= |ids|
      modifies this`heads, this`inflight, this`flying, this`waiting, this`nWaiting, this`servers
      modifies lined`ns, lined`transId, team`inflight
      ensures Valid() && waiting == [] && Reported(given, reported)
      ensures flying == {} <==> old(flying) == {} && (team == {} || |old(waiting)| <= 1)
    {
      reported := done;
      Grounded();
      while waiting != []
        invariant Closing(given, lined, reported) && |waiting| <= |ids|
        invariant old(flying) <= flying && (team == {} ==> flying == {})
        invariant (flying == old(flying) && waiting == old(waiting)) ||
          (if |old(waiting)| <= 1 then waiting == [] && (old(flying) == {} ==> flying == {})
           else team != {} ==> flying != {})
        decreases Pending()
      {
        var r := waiting[0];
        FailWaiting(r, ids, given, lined, reported);
        Grounded();
        reported := reported + [r];
      }
    }

    /**
     * The resolver is freed (`evdns_base_free_and_unlock`): the queues are emptied in turn, and what is in them is
     * reported, once. What the pump puts into a queue that was emptied before is left behind without a report. That
     * can happen in the lossy states and no others: there it depends on the identifiers, or happens with all of them
     * when nothing was in flight.
     */
    method ShutDown(ids: seq<nat>) returns (reported: seq<Request>)
      requires Valid() && |ids| >= |waiting|
      modifies this`heads, this`inflight, this`flying, this`waiting, this`nWaiting, this`servers
      modifies Members(waiting)`ns, Members(waiting)`transId, team`inflight
      ensures Valid() && waiting == []
      ensures Reported(old(Pending()), reported)
      ensures !old(Lossy()) ==> flying == {}
      ensures old(Lossy()) && (old(inflight) == 0 || Aimed(ids, |old(heads)|)) ==> flying != {}
    {
      ghost var given, lined := Pending(), Members(waiting);
      ClosingStart();
      Aloft();
      reported := EmptyQueues(ids, given, lined);
      reported := EmptyWaiting(ids, given, lined, reported);
    }

    /** `n * k`. */
    static function Times(n: nat, k: nat): nat {
      if k == 0 then 0 else n + Times(n, k - 1)
    }

    static lemma {:induction false} TimesMod(n: nat, k: nat, e: nat)
      requires e < n
      ensures Mod(Times(n, k) + e, n) == e && Times(n, k) >= k
    {
      if k > 0 { TimesMod(n, k - 1, e); }
    }

    /** Identifiers that lose a request in every lossy state with requests in flight: all different, none below `k`. */
    static function Aims(w: nat, n: nat, k: nat): (ids: seq<nat>)
      ensures |ids| == w
    {
      if w == 0 then [] else [Times(n, k) + One(w > 1)] + Aims(w - 1, n, k + 1)
    }

    static lemma {:induction false} AimsAimed(w: nat, n: nat, k: nat)
      requires n > 1
      ensures Aimed(Aims(w, n, k), n) && NoDup(Aims(w, n, k))
      ensures forall j :: 0 <= j < w ==> Aims(w, n, k)[j] >= Times(n, k) >= k
      decreases w
    {
      TimesMod(n, k, One(w > 1));
      if w > 0 {
        AimsAimed(w - 1, n, k + 1);
        var ids, rest := Aims(w, n, k), Aims(w - 1, n, k + 1);
        assert forall j :: 0 < j < w ==> ids[j] == rest[j - 1];
        NoDupCons(ids[0], rest);
      }
    }

    /** A server goes down: there is one good server less. */
    method TakeDown(ns: Server)
      requires Valid() && ns in team && ns.up
      modifies this`good, ns`up, ns`failedTimes
      ensures Valid() && !ns.up && ns.failedTimes == 1 && good == old(good) - 1 && good >= 0
    {
      ghost var before := Up(team);
      assert ns in before;
      good := good - 1;
      ns.up, ns.failedTimes := false, 1;
      assert Up(team) == before - {ns};
    }

    /** `nameserver_up`. */
    method BringUp(ns: Server)
      requires Valid() && ns in team
      modifies this`good, ns`up, ns`failedTimes
      ensures Valid() && ns.up && good == old(good) + (if old(ns.up) then 0 else 1)
      ensures ns.failedTimes == if old(ns.up) then old(ns.failedTimes) else 0
    {
      if ns.up { return; }
      ghost var before := Up(team);
      ns.up, ns.failedTimes := true, 0;
      good := good + 1;
      assert Up(team) == before + {ns};
    }

    /** A request in flight moves to the next server. */
    method Reassigned(r: Request)
      requires Valid() && r in flying
      modifies this`servers, r`ns, team`inflight
      ensures Valid() && r.ns != null && r.ns in team && (Up(team) != {} ==> r.ns.up)
      ensures Picks(old(servers), r.ns, servers)
    {
      var ns := Pick();
      assert r !in waiting;
      SwapNs(r, ns, flying, team);
    }

    /** The unsent requests among the first `j` of queue `i`, and in the queues before it, are not with `ns`. */
    ghost predicate Cleared(ns: Server, i: nat, j: nat)
      reads this`heads, set b, k | 0 <= b < |heads| && 0 <= k < |heads[b]| :: heads[b][k]
    {
      forall b, k {:trigger heads[b][k]} :: 0 <= b < |heads| && 0 <= k < |heads[b]| && (b < i || (b == i && k < j)) ==>
        heads[b][k].txCount == 0 ==> heads[b][k].ns != ns
    }

    /** Requests that were sent, or were with another server than `ns`, are where they were. */
    ghost predicate Stay(ns: Server, was: map<Request, Server?>)
      reads this`flying, flying
    {
      forall r :: r in flying ==> r in was && (r.txCount != 0 || was[r] != ns ==> r.ns == was[r])
    }

    /** One request of the walk over the queues after `ns` has failed. */
    method Rescue(r: Request, ns: Server, ghost was: map<Request, Server?>)
      requires Valid() && r in flying && !ns.up && Up(team) != {} && Stay(ns, was)
      modifies this`servers, r`ns, team`inflight
      ensures Valid() && (r.txCount == 0 ==> r.ns != ns) && Stay(ns, was)
      ensures if r.txCount == 0 && old(r.ns) == ns then Picks(old(servers), r.ns, servers)
              else r.ns == old(r.ns) && servers == old(servers)
    {
      if r.txCount == 0 && r.ns == ns {
        Reassigned(r);
      }
    }

    /** The walk over one queue. */
    method RescueQueue(ns: Server, b: nat, ghost was: map<Request, Server?>)
      requires Valid() && !ns.up && Up(team) != {} && b < |heads| && Cleared(ns, b, 0) && Stay(ns, was)
      modifies this`servers, flying`ns, team`inflight
      ensures Valid() && Cleared(ns, b + 1, 0) && Stay(ns, was)
    {
      var k := 0;
      while k < |heads[b]|
        invariant 0 <= k <= |heads[b]| && Valid() && Cleared(ns, b, k) && Stay(ns, was)
      {
        assert heads[b][k] in flying;
        Rescue(heads[b][k], ns, was);
        k := k + 1;
      }
    }

    lemma ClearedAll(ns: Server)
      requires Spread(heads, flying) && Cleared(ns, |heads|, 0)
      ensures forall r :: r in flying && r.txCount == 0 ==> r.ns != ns
    {
      forall r | r in flying && r.txCount == 0 ensures r.ns != ns {
        var c := Mod(r.transId, |heads|);
        var k :| 0 <= k < |heads[c]| && heads[c][k] == r;
        assert heads[c][k].ns != ns;
      }
    }

    /** The walk over the queues after `ns` has failed. */
    method RescueAll(ns: Server)
      requires Valid() && !ns.up && Up(team) != {}
      modifies this`servers, flying`ns, team`inflight
      ensures Valid() && forall r :: r in flying && r.txCount == 0 ==> r.ns != ns
      ensures forall r :: r in flying && (r.txCount != 0 || old(r.ns) != ns) ==> r.ns == old(r.ns)
    {
      ghost var was := map r | r in flying :: r.ns;
      var b := 0;
      while b < |heads|
        invariant 0 <= b <= |heads| && Valid() && Cleared(ns, b, 0) && Stay(ns, was)
      {
        RescueQueue(ns, b, was);
        b := b + 1;
      }
      ClearedAll(ns);
    }

    /**
     * `nameserver_failed`: requests that were not sent yet do not stay with a server that has
     * failed while another one is up.
     */
    method Failed(ns: Server)
      requires Valid() && ns in team
      modifies this`good, ns`up, ns`failedTimes, this`servers, flying`ns, team`inflight
      ensures Valid() && !ns.up
      ensures old(ns.up) && Up(team) != {} ==> forall r :: r in flying && r.txCount == 0 ==> r.ns != ns
      ensures forall r :: r in flying && (r.txCount != 0 || old(r.ns) != ns) ==> r.ns == old(r.ns)
      ensures good == old(good) - (if old(ns.up) then 1 else 0)
    {
      if !ns.up { return; }
      TakeDown(ns);
      if good == 0 {
        NoneUp();
        return;
      }
      RescueAll(ns);
    }

    /** `evdns_nameserver_add_impl_`: a new server comes after the head of the ring. */
    method AddServer(ns: Server)
      requires Valid() && ns !in team && ns.up && ns.inflight == 0
      modifies this`servers, this`team, this`good
      ensures Valid() && team == old(team) + {ns} && |servers| == |old(servers)| + 1
      ensures servers[if old(servers) == [] then 0 else 1] == ns
      ensures Without(servers, if old(servers) == [] then 0 else 1) == old(servers)
    {
      RingAdd(servers, team, ns);
      MannedAdd(flying, team, ns);
      UpAdd(team, ns);
      Enrol(Inserted(servers, ns), team + {ns}, good + 1);
    }

    /** A changed ring takes the place of the old one. */
    method Enrol(ring: seq<Server>, ghost members: set<Server>, n: int)
      requires Valid() && Ring(ring, members) && Manned(flying, members) && n == |Up(members)|
      modifies this`servers, this`team, this`good
      ensures Valid() && servers == ring && team == members
    {
      servers, team, good := ring, members, n;
    }

    static lemma UpAdd(team: set<Server>, ns: Server)
      requires ns !in team && ns.up
      ensures |Up(team + {ns})| == |Up(team)| + 1
    {
      assert Up(team + {ns}) == Up(team) + {ns};
    }

    /** `ns` linked in behind the head. */
    static function Inserted(servers: seq<Server>, ns: Server): seq<Server> {
      if servers == [] then [ns] else [servers[0], ns] + servers[1..]
    }

    static lemma RingAdd(servers: seq<Server>, team: set<Server>, ns: Server)
      requires Ring(servers, team) && ns !in team
      ensures Ring(Inserted(servers, ns), team + {ns})
    {
      var t := Inserted(servers, ns);
      forall i, j | 0 <= i < j < |t| ensures Apart(t, i, j) {
        var i', j' := if i == 0 then 0 else i - 1, if j == 0 then 0 else j - 1;
        if i != 1 && j != 1 {
          assert Apart(servers, i', j') && t[i] == servers[i'] && t[j] == servers[j'];
        } else {
          assert servers[if i == 1 then j' else i'] in team;
        }
      }
      forall s | s in team + {ns} ensures s in t {
        if s in team {
          var i :| 0 <= i < |servers| && servers[i] == s;
          assert t[if i == 0 then 0 else i + 1] == s;
        } else {
          assert t[if servers == [] then 0 else 1] == ns;
        }
      }
    }

    static lemma MannedAdd(flying: set<Request>, team: set<Server>, ns: Server)
      requires Manned(flying, team) && ns !in team && ns.inflight == 0
      ensures Manned(flying, team + {ns})
    {
      assert Assigned(flying, ns) == {};
    }

    /** `count` empty queues. */
    static function Empty(count: nat): (qs: Queues)
      ensures |qs| == count && forall b :: 0 <= b < count ==> qs[b] == []
    {
      seq(count, _ => [])
    }

    static lemma {:induction false} OrderEmpty(qs: Queues, k: nat)
      requires k <= |qs| && forall b :: 0 <= b < k ==> qs[b] == []
      ensures Order(qs, k) == []
    {
      if k > 0 { OrderEmpty(qs, k - 1); }
    }

    static lemma SpreadEmpty(qs: Queues, flying: set<Request>)
      requires Spread(qs, flying) && forall b :: 0 <= b < |qs| ==> qs[b] == []
      ensures flying == {} && All(qs) == []
    {
      OrderEmpty(qs, |qs|);
      OrderSpread(qs, flying, |qs|);
    }

    /** Requests on their way from old queues to new ones: none is lost and none is in both. */
    ghost predicate Moving(from: Queues, into: Queues, left: set<Request>, moved: set<Request>)
      reads this`flying, this`inflight, left`transId, moved`transId
    {
      && Spread(from, left) && Spread(into, moved) && left !! moved && left + moved == flying
      && |All(from)| + |All(into)| == inflight
    }

    /** One request goes over. */
    static method Carry(from: Queues, into: Queues, i: nat) returns (from': Queues, into': Queues)
      requires i < |from| && from[i] != [] && |into| > 0
      ensures from' == from[i := from[i][1..]]
      ensures var r := from[i][0]; var b := Mod(r.transId, |into|); into' == into[b := into[b] + [r]]
    {
      var r := from[i][0];
      from' := from[i := from[i][1..]];
      var b := Mod(r.transId, |into|);
      into' := into[b := into[b] + [r]];
    }

    lemma Carried(from: Queues, into: Queues, left: set<Request>, moved: set<Request>, i: nat)
      requires Moving(from, into, left, moved) && i < |from| && from[i] != []
      ensures var r := from[i][0]; var b := Mod(r.transId, |into|);
        Moving(from[i := from[i][1..]], into[b := into[b] + [r]], left - {r}, moved + {r})
    {
      var r := from[i][0];
      assert r in left;
      var b := Mod(r.transId, |into|);
      assert Without(from[i], 0) == from[i][1..];
      SpreadDrop(from, left, i, 0);
      SpreadAdd(into, moved, r);
      OrderSize(from, i, from[i][1..], |from|);
      OrderSize(into, b, into[b] + [r], |into|);
    }

    /** One old queue, request by request. */
    method CarryQueue(from: Queues, into: Queues, i: nat, ghost left: set<Request>, ghost moved: set<Request>)
      returns (from': Queues, into': Queues, ghost left': set<Request>, ghost moved': set<Request>)
      requires Moving(from, into, left, moved) && i < |from|
      ensures Moving(from', into', left', moved') && |into'| == |into|
      ensures |from'| == |from| && from' == from[i := []]
    {
      from', into', left', moved' := from, into, left, moved;
      while from'[i] != []
        invariant Moving(from', into', left', moved') && |into'| == |into|
        invariant |from'| == |from| && from' == from[i := from'[i]]
        decreases |from'[i]|
      {
        Carried(from', into', left', moved', i);
        ghost var r := from'[i][0];
        from', into' := Carry(from', into', i);
        left', moved' := left' - {r}, moved' + {r};
      }
    }

    /** The queues built anew: everything in flight goes over. */
    method CarryAll(n: nat) returns (into: Queues)
      requires Spread(heads, flying) && inflight == |All(heads)| && n > 0
      ensures |into| == n && Spread(into, flying) && inflight == |All(into)|
    {
      var from := heads;
      into := Empty(n);
      ghost var left, moved: set<Request> := flying, {};
      OrderEmpty(into, |into|);
      var i := 0;
      while i < |from|
        invariant i <= |from| && Moving(from, into, left, moved) && |into| == n
        invariant forall b :: 0 <= b < i ==> from[b] == []
      {
        from, into, left, moved := CarryQueue(from, into, i, left, moved);
        i := i + 1;
      }
      SpreadEmpty(from, left);
      assert moved == flying;
    }

    /**
     * `evdns_base_set_max_requests_inflight`: every request in flight stays in flight, in the
     * queue that its identifier names among the new ones.
     */
    method SetMaxInflight(max: int, mem: bool) returns (r: int)
      requires Valid()
      modifies this`heads, this`maxInflight
      ensures Valid() && r == if mem then 0 else -1
      ensures mem ==> maxInflight == (if max < 1 then 1 else max) && |heads| == (maxInflight + 4) / 5
      ensures !mem ==> unchanged(this`heads, this`maxInflight)
    {
      var limit := if max < 1 then 1 else max;
      var n: nat := (limit + 4) / 5;
      if !mem { return -1; }
      var into := CarryAll(n);
      heads, maxInflight := into, limit;
      return 0;
    }

    /** Requests put back: they have no server, identifier or history, and stand before those that waited. */
    ghost predicate PutBack(back: seq<Request>, before: seq<Request>)
      reads this`waiting, this`nWaiting, back
    {
      && waiting == Reversed(back) + before && nWaiting == |waiting|
      && forall i {:trigger back[i]} :: 0 <= i < |back| ==>
           back[i].ns == null && back[i].transId == 0 && back[i].txCount == 0 && back[i].reissueCount == 0
    }

    /** One request goes back to the front of the waiting queue. */
    method PutBackOne(r: Request, ghost back: seq<Request>, ghost before: seq<Request>)
      requires PutBack(back, before)
      modifies r, this`waiting, this`nWaiting
      ensures PutBack(back + [r], before)
    {
      r.txCount, r.reissueCount, r.ns, r.transId := 0, 0, null, 0;
      ReversedSnoc(back, r);
      assert [r] + (Reversed(back) + before) == [r] + Reversed(back) + before;
      waiting, nWaiting := InFront(r, waiting), nWaiting + 1;
    }

    /** One queue goes back. */
    method PutBackQueue(q: seq<Request>, ghost back: seq<Request>, ghost before: seq<Request>)
      requires PutBack(back, before)
      modifies q, this`waiting, this`nWaiting
      ensures PutBack(back + q, before)
    {
      var k := 0;
      assert back + q[..0] == back;
      while k < |q|
        invariant 0 <= k <= |q| && PutBack(back + q[..k], before)
      {
        PutBackOne(q[k], back + q[..k], before);
        assert back + q[..k] + [q[k]] == back + q[..k + 1];
        k := k + 1;
      }
      assert q[..k] == q;
    }

    /** All queues go back. */
    method PutBackAll(ghost before: seq<Request>, ghost all: seq<Request>, ghost nodes: set<Request>)
      requires waiting == before && nWaiting == |waiting| && all == All(heads)
      requires forall b, i {:trigger heads[b][i]} :: 0 <= b < |heads| && 0 <= i < |heads[b]| ==> heads[b][i] in nodes
      modifies nodes, this`waiting, this`nWaiting, this`heads
      ensures PutBack(all, before) && |heads| == |old(heads)| && forall b :: 0 <= b < |heads| ==> heads[b] == []
    {
      ghost var qs := heads;
      assert Reversed<Request>([]) + before == before;
      var i := 0;
      while i < |heads|
        invariant 0 <= i <= |heads| == |qs| && PutBack(Order(qs, i), before)
        invariant forall b :: 0 <= b < i ==> heads[b] == []
        invariant forall b :: i <= b < |qs| ==> heads[b] == qs[b]
      {
        assert forall k :: 0 <= k < |heads[i]| ==> qs[i][k] in nodes;
        PutBackQueue(heads[i], Order(qs, i), before);
        heads := heads[i := []];
        i := i + 1;
      }
    }

    /** The waiting queue once all requests are back: those of `rev`, then those of `before`. */
    static lemma BackParked(rev: seq<Request>, before: seq<Request>, flying: set<Request>)
      requires NoDup(rev) && NoDup(before) && Members(rev) == flying
      requires forall i {:trigger before[i]} :: 0 <= i < |before| ==> before[i] !in flying
      ensures NoDup(rev + before) && Members(rev + before) == flying + Members(before)
    {
      NoDupConcat(rev, before);
      forall r ensures r in Members(rev + before) <==> r in flying + Members(before) {
        assert r in rev + before <==> r in rev || r in before;
        assert r in Members(rev) <==> r in rev;
      }
    }

    static lemma BackServerless(rev: seq<Request>, before: seq<Request>)
      requires NoDup(rev + before)
      requires forall r :: r in Members(rev) ==> r.ns == null
      requires forall i {:trigger before[i]} :: 0 <= i < |before| ==> before[i].ns == null
      ensures Parked(rev + before, {})
    {
      var w := rev + before;
      forall i | 0 <= i < |w| ensures w[i].ns == null {
        if i < |rev| { assert w[i] == rev[i] && rev[i] in Members(rev); } else { assert w[i] == before[i - |rev|]; }
      }
    }

    static lemma BackAll(all: seq<Request>, flying: set<Request>)
      requires Members(all) == flying
      requires forall i {:trigger all[i]} :: 0 <= i < |all| ==> all[i].ns == null
      ensures forall r :: r in flying ==> r.ns == null
    {
      forall r | r in flying ensures r.ns == null { assert r in Members(all); }
    }

    static lemma ReversedMembers(s: seq<Request>)
      requires NoDup(s)
      ensures NoDup(Reversed(s)) && Members(Reversed(s)) == Members(s)
    {
      NoDupReversed(s);
      var t := Reversed(s);
      forall i | 0 <= i < |s| ensures t[i] in Members(s) && s[i] in Members(t) {
        ReversedAt(s, i);
        ReversedAt(s, |s| - 1 - i);
      }
    }

    /** Nothing is in flight and no server is known. */
    method Idle()
      requires Parked(waiting, {}) && nWaiting == |waiting| && |heads| > 0 && maxInflight > 0
      requires forall b :: 0 <= b < |heads| ==> heads[b] == []
      modifies this`inflight, this`flying, this`servers, this`team, this`good
      ensures Valid() && flying == {} && team == {}
    {
      OrderEmpty(heads, |heads|);
      inflight, flying, servers, team, good := 0, {}, [], {}, 0;
    }

    /**
     * `evdns_base_clear_nameservers_and_suspend`: all servers go, and every request that was in
     * flight waits again, in front of those that waited before.
     */
    method Suspend()
      requires Valid()
      modifies this, flying
      ensures Valid() && Pending() == old(Pending()) && maxInflight == old(maxInflight)
      ensures team == {} || old(servers) == []
      ensures old(servers) != [] ==> flying == {} && waiting == Reversed(old(All(heads))) + old(waiting)
    {
      if servers != [] { SuspendAll(); }
    }

    method SuspendAll()
      requires Valid()
      modifies this`heads, this`waiting, this`servers, this`inflight, this`nWaiting, this`good, this`flying, this`team
      modifies flying
      ensures Valid() && Pending() == old(Pending()) && team == {} && flying == {}
      ensures waiting == Reversed(old(All(heads))) + old(waiting)
    {
      ghost var back := BackFacts(heads, waiting, flying);
      Return(back, waiting, flying);
      Idle();
      assert Members(waiting) == old(Pending());
    }

    /** The waiting queue as it will be. */
    static lemma BackFacts(qs: Queues, waiting: seq<Request>, flying: set<Request>) returns (back: seq<Request>)
      requires Spread(qs, flying) && Parked(waiting, flying)
      ensures back == Reversed(All(qs)) + waiting && NoDup(back) && Members(back) == flying + Members(waiting)
    {
      AllFlying(qs, flying);
      ReversedMembers(All(qs));
      BackParked(Reversed(All(qs)), waiting, flying);
      back := Reversed(All(qs)) + waiting;
    }

    /** All requests in flight go back to the waiting queue. */
    method Return(ghost back: seq<Request>, ghost before: seq<Request>, ghost flew: set<Request>)
      requires Spread(heads, flew) && waiting == before && Parked(before, flew) && nWaiting == |waiting|
      requires back == Reversed(All(heads)) + before && NoDup(back)
      modifies flew, this`waiting, this`nWaiting, this`heads
      ensures waiting == back && nWaiting == |waiting| && Parked(waiting, {})
      ensures |heads| > 0 && forall b :: 0 <= b < |heads| ==> heads[b] == []
    {
      ghost var all := All(heads);
      AllFlying(heads, flew);
      ReversedMembers(all);
      PutBackAll(before, all, flew);
      BackAll(all, flew);
      BackServerless(Reversed(all), before);
    }

    static lemma AllFlying(qs: Queues, flying: set<Request>)
      requires Spread(qs, flying)
      ensures NoDup(All(qs)) && Members(All(qs)) == flying
    {
      OrderSpread(qs, flying, |qs|);
      var all := All(qs);
      forall i | 0 <= i < |all| ensures all[i] in flying { assert Within(all, flying, |qs|, |qs|); }
      forall r | r in flying ensures r in Members(all) {
        assert Mod(r.transId, |qs|) < |qs|;
      }
    }

    /** `evdns_base_new`, as far as the queues go. */
    constructor (max: nat)
      requires max >= 1
      ensures Valid() && Pending() == {} && team == {} && maxInflight == max && |heads| == (max + 4) / 5
    {
      heads, waiting, servers := Empty((max + 4) / 5), [], [];
      inflight, nWaiting, good, maxInflight := 0, 0, 0, max;
      flying, team := {}, {};
      new;
      OrderEmpty(heads, |heads|);
    }

    /** `request_reissue`: it succeeds exactly when another server takes the request over. */
    method Reissue(r: Request) returns (code: int)
      requires Valid() && r in flying
      modifies this`servers, r, team`inflight
      ensures Valid() && r.ns != null && r.ns in team && r.transId == old(r.transId)
      ensures Picks(old(servers), r.ns, servers) && code == if r.ns != old(r.ns) then 0 else 1
      ensures code == 0 ==> r.txCount == 0 && r.reissueCount == old(r.reissueCount) + 1
      ensures code == 1 ==> r.txCount == old(r.txCount) && r.reissueCount == old(r.reissueCount)
    {
      var last := r.ns;
      Reassigned(r);
      if r.ns == last { return 1; }
      Counters(r, 0, r.reissueCount + 1);
      return 0;
    }

    /** `evdns_request_timeout_callback` for a request that is sent once more. */
    method Retransmit(r: Request)
      requires Valid() && r in flying
      modifies this`servers, r, team`inflight
      ensures Valid() && r.ns != null && r.ns in team && (Up(team) != {} ==> r.ns.up) && r.txCount == old(r.txCount) + 1
      ensures Picks(old(servers), r.ns, servers)
    {
      Reassigned(r);
      Counters(r, r.txCount + 1, r.reissueCount);
    }

    method Counters(r: Request, tx: nat, reissue: nat)
      requires Valid()
      modifies r`txCount, r`reissueCount
      ensures Valid() && r.txCount == tx && r.reissueCount == reissue
    {
      r.txCount, r.reissueCount := tx, reissue;
    }
  }

  ghost function Members(s: seq<Request>): set<Request> {
    set r | r in s
  }
}
