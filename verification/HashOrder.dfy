/** The order in which `HT_START` and `HT_NEXT` go through a rack: bucket after bucket. */
module HashOrders {
  import opened Distinctness
  import opened Orders
  import opened HashRacks

  lemma {:induction false} OrderHome(bs: Buckets, home: map<Node, nat>, k: nat)
    requires Homed(bs, home) && k <= |bs|
    ensures forall n :: n in Order(bs, k) <==> n in home && home[n] < k
  {
    if k > 0 {
      OrderHome(bs, home, k - 1);
      forall n ensures n in Order(bs, k) <==> n in home && home[n] < k {
        if n in bs[k - 1] {
          var i :| 0 <= i < |bs[k - 1]| && bs[k - 1][i] == n;
          assert home[bs[k - 1][i]] == k - 1;
        }
      }
    }
  }

  lemma {:induction false} OrderNoDup(heads: seq<Node?>, bs: Buckets, home: map<Node, nat>, k: nat)
    requires Racked(heads, bs, home) && k <= |bs|
    ensures NoDup(Order(bs, k))
  {
    if k > 0 {
      OrderNoDup(heads, bs, home, k - 1);
      OrderHome(bs, home, k - 1);
      assert Good(heads, bs, k - 1);
      var t := bs[k - 1];
      forall i | 0 <= i < |t| ensures t[i] !in Order(bs, k - 1) {
        assert home[bs[k - 1][i]] == k - 1;
      }
      NoDupConcat(Order(bs, k - 1), t);
    }
  }

  ghost function SetOf(s: seq<Node>): set<Node> {
    set n | n in s
  }

  lemma {:induction false} NoDupSize(s: seq<Node>)
    requires NoDup(s)
    ensures |SetOf(s)| == |s|
  {
    if s != [] {
      var t := s[..|s| - 1];
      forall i, j | 0 <= i < j < |t| ensures Apart(t, i, j) { assert Apart(s, i, j); }
      NoDupSize(t);
      NoDupApart(s, |s| - 1);
      assert SetOf(s) == SetOf(t) + {s[|s| - 1]};
    }
  }

  /** The order goes through every node, and through each one once. */
  lemma AllOnce(heads: seq<Node?>, bs: Buckets, home: map<Node, nat>)
    requires Racked(heads, bs, home)
    ensures NoDup(All(bs)) && |All(bs)| == |home.Keys|
    ensures forall n :: n in All(bs) <==> n in home
  {
    OrderNoDup(heads, bs, home, |bs|);
    OrderHome(bs, home, |bs|);
    forall n ensures n in All(bs) <==> n in home {
      if n in home { assert home[n] < |bs|; }
    }
    NoDupSize(All(bs));
    assert SetOf(All(bs)) == home.Keys;
  }

  /** The nodes whose keys `fn` does not ask to be removed. */
  ghost function Kept(fn: Key -> bool, s: seq<Node>): seq<Node> {
    if s == [] then [] else
      var n := s[|s| - 1];
      Kept(fn, s[..|s| - 1]) + if fn(n.key) then [] else [n]
  }

  lemma KeptSnoc(fn: Key -> bool, s: seq<Node>, n: Node)
    ensures Kept(fn, s + [n]) == Kept(fn, s) + if fn(n.key) then [] else [n]
  {
    assert (s + [n])[..|s|] == s;
  }

  /** Exactly the nodes `fn` spares are kept. */
  lemma {:induction false} KeptAre(fn: Key -> bool, s: seq<Node>, n: Node)
    ensures n in Kept(fn, s) <==> n in s && !fn(n.key)
  {
    if s != [] {
      KeptAre(fn, s[..|s| - 1], n);
      assert s == s[..|s| - 1] + [s[|s| - 1]];
    }
  }

  /** A sweep of `all` that has come to place `o` of what is left, `now`, after the calls `calls`. */
  ghost predicate Parted(fn: Key -> bool, all: seq<Node>, calls: seq<Node>, now: seq<Node>, o: nat) {
    o <= |now| && now[..o] == Kept(fn, calls) && calls + now[o..] == all
  }

  lemma PartedKeep(fn: Key -> bool, all: seq<Node>, calls: seq<Node>, now: seq<Node>, o: nat)
    requires Parted(fn, all, calls, now, o) && o < |now| && !fn(now[o].key)
    ensures Parted(fn, all, calls + [now[o]], now, o + 1)
  {
    KeptSnoc(fn, calls, now[o]);
    assert now[..o + 1] == now[..o] + [now[o]] && now[o..] == [now[o]] + now[o + 1..];
  }

  lemma PartedCut(fn: Key -> bool, all: seq<Node>, calls: seq<Node>, now: seq<Node>, o: nat)
    requires Parted(fn, all, calls, now, o) && o < |now| && fn(now[o].key)
    ensures Parted(fn, all, calls + [now[o]], Without(now, o), o)
  {
    KeptSnoc(fn, calls, now[o]);
    assert Without(now, o)[..o] == now[..o] && Without(now, o)[o..] == now[o + 1..];
    assert now[o..] == [now[o]] + now[o + 1..];
  }

  lemma PartedEnd(fn: Key -> bool, all: seq<Node>, calls: seq<Node>, now: seq<Node>)
    requires Parted(fn, all, calls, now, |now|)
    ensures calls == all && now == Kept(fn, all)
  {
    assert now[|now|..] == [] && now[..|now|] == now;
  }
}
