/** The two rehash paths of `HT_GROW` in `ht-internal.h`: into a fresh table, and in place. */
module HashGrowth {
  import opened Distinctness
  import opened Modulus
  import opened HashRacks

  ghost function Nulls(n: nat): (s: seq<Node?>)
    ensures |s| == n && forall i :: 0 <= i < n ==> s[i] == null
  {
    seq(n, _ => null)
  }

  ghost function Empties(n: nat): (s: Buckets)
    ensures |s| == n && forall i :: 0 <= i < n ==> s[i] == []
  {
    seq(n, _ => [])
  }

  /** Every node homed below `n` is in the bucket its hash names. */
  ghost predicate Filed(home: map<Node, nat>, n: nat)
    requires n > 0
    reads home.Keys`hash
  {
    forall m {:trigger home[m]} :: m in home && home[m] < n ==> home[m] == Mod(m.hash, n)
  }

  ghost function Shifted(home: map<Node, nat>, n: nat): map<Node, nat> {
    map m | m in home :: home[m] + n
  }

  /** Empty buckets in front of a rack change nothing in it. */
  lemma Widen(heads: seq<Node?>, bs: Buckets, home: map<Node, nat>, n: nat)
    requires Racked(heads, bs, home)
    ensures Racked(Nulls(n) + heads, Empties(n) + bs, Shifted(home, n))
  {
    var heads', bs', home' := Nulls(n) + heads, Empties(n) + bs, Shifted(home, n);
    forall b | 0 <= b < |bs'| ensures Good(heads', bs', b) {
      if b >= n { assert Good(heads, bs, b - n) && bs'[b] == bs[b - n]; }
    }
    forall m | m in home' ensures home'[m] < |bs'| && m in bs'[home'[m]] {
      assert home[m] < |bs| && m in bs[home[m]] && bs'[home'[m]] == bs[home[m]];
    }
    forall b, i | 0 <= b < |bs'| && 0 <= i < |bs'[b]| ensures bs'[b][i] in home' && home'[bs'[b][i]] == b {
      if b >= n { assert bs'[b][i] == bs[b - n][i]; }
    }
  }

  /** Empty buckets at the end change nothing either. */
  lemma Lengthen(heads: seq<Node?>, bs: Buckets, home: map<Node, nat>, n: nat)
    requires Racked(heads, bs, home)
    ensures Racked(heads + Nulls(n), bs + Empties(n), home)
  {
    var heads', bs' := heads + Nulls(n), bs + Empties(n);
    forall b | 0 <= b < |bs'| ensures Good(heads', bs', b) {
      if b < |bs| { assert Good(heads, bs, b) && bs'[b] == bs[b]; }
    }
    forall m | m in home ensures home[m] < |bs'| && m in bs'[home[m]] {
      assert home[m] < |bs| && m in bs[home[m]] && bs'[home[m]] == bs[home[m]];
    }
    forall b, i | 0 <= b < |bs'| && 0 <= i < |bs'[b]| ensures bs'[b][i] in home && home[bs'[b][i]] == b {
      if b < |bs| { assert bs'[b][i] == bs[b][i]; }
    }
  }

  /** Empty buckets at the end can be dropped. */
  lemma Narrow(heads: seq<Node?>, bs: Buckets, home: map<Node, nat>, n: nat)
    requires Racked(heads, bs, home) && n <= |bs| && forall b :: n <= b < |bs| ==> bs[b] == []
    ensures Racked(heads[..n], bs[..n], home)
    ensures forall m :: m in home ==> home[m] < n
  {
    var heads', bs' := heads[..n], bs[..n];
    forall b | 0 <= b < |bs'| ensures Good(heads', bs', b) {
      assert Good(heads, bs, b) && bs'[b] == bs[b];
    }
    forall m | m in home ensures home[m] < |bs'| && m in bs'[home[m]] {
      assert home[m] < |bs| && m in bs[home[m]];
      assert home[m] < n;
      assert bs'[home[m]] == bs[home[m]];
    }
    forall b, i | 0 <= b < |bs'| && 0 <= i < |bs'[b]| ensures bs'[b][i] in home && home[bs'[b][i]] == b {
      assert bs'[b][i] == bs[b][i];
    }
  }

  /** The rack after the node at `(b, i)` has moved to the front of bucket `c`. */
  ghost function Moved(bs: Buckets, b: nat, i: nat, c: nat): Buckets
    requires b < |bs| && c < |bs| && b != c && i < |bs[b]|
  {
    bs[b := Without(bs[b], i)][c := [bs[b][i]] + bs[c]]
  }

  /** The first node of bucket `b` moves to the front of bucket `c`. */
  method MoveFirst(e: Node, x: Node?, ghost heads: seq<Node?>, ghost bs: Buckets, ghost home: map<Node, nat>,
                   ghost b: nat, ghost c: nat)
    requires Racked(heads, bs, home) && b < |bs| && c < |bs| && b != c && bs[b] != [] && e == bs[b][0] && x == heads[c]
    modifies e`next
    ensures Racked(heads[b := old(e.next)][c := e], Moved(bs, b, 0, c), home[e := c])
  {
    Pop(heads, bs, home, b);
    ghost var heads', bs' := heads[b := e.next], bs[b := Without(bs[b], 0)];
    Push(e, x, heads', bs', home - {e}, c);
    assert (home - {e})[e := c] == home[e := c];
  }

  /** A later node of bucket `b` moves to the front of bucket `c`. */
  method MoveLater(p: Node, e: Node, x: Node?, ghost heads: seq<Node?>, ghost bs: Buckets, ghost home: map<Node, nat>,
                   ghost b: nat, ghost i: nat, ghost c: nat)
    requires Racked(heads, bs, home) && b < |bs| && c < |bs| && b != c && 0 < i < |bs[b]|
    requires e == bs[b][i] && p == bs[b][i - 1] && x == heads[c]
    modifies p`next, e`next
    ensures Racked(heads[c := e], Moved(bs, b, i, c), home[e := c])
  {
    Cut(p, e.next, heads, bs, home, b, i);
    Push(e, x, heads, bs[b := Without(bs[b], i)], home - {e}, c);
    assert (home - {e})[e := c] == home[e := c];
  }

  /** The array shows the heads `heads` from its start on. */
  ghost predicate Shows(t: array<Node?>, heads: seq<Node?>)
    reads t
  {
    t.Length <= |heads| && forall b {:trigger t[b]} {:trigger heads[b]} :: 0 <= b < t.Length ==> t[b] == heads[b]
  }

  /** The state while nodes move from an old table of `k` buckets into a new one of `n`. */
  ghost predicate Moving(t: array<Node?>, heads: seq<Node?>, bs: Buckets, home: map<Node, nat>, all: set<Node>)
    reads t, home.Keys`next, home.Keys`hash
  {
    && t.Length > 0 && Racked(heads, bs, home) && home.Keys == all && Shows(t, heads) && Filed(home, t.Length)
  }

  /** One node goes over to the new table. */
  method CarryOver(elm: Node, t: array<Node?>, ghost heads: seq<Node?>, ghost bs: Buckets, ghost home: map<Node, nat>,
                   ghost b: nat, ghost all: set<Node>)
    returns (next: Node?, ghost heads': seq<Node?>, ghost bs': Buckets, ghost home': map<Node, nat>)
    requires Moving(t, heads, bs, home, all) && t.Length <= b < |bs| && bs[b] != [] && elm == heads[b]
    modifies t, elm`next
    ensures Moving(t, heads', bs', home', all)
    ensures |bs'| == |bs| && bs'[b] == bs[b][1..]
    ensures next == old(elm.next) == heads'[b]
    ensures forall c :: t.Length <= c < |bs| && c != b ==> heads'[c] == heads[c] && bs'[c] == bs[c]
  {
    next := elm.next;
    var b2 := Mod(elm.hash, t.Length);
    assert Good(heads, bs, b);
    heads' := heads[b := elm.next][b2 := elm];
    bs' := Moved(bs, b, 0, b2);
    home' := home[elm := b2];
    assert bs[b][0] in home;
    MoveFirst(elm, t[b2], heads, bs, home, b, b2);
    t[b2] := elm;
    assert home'.Keys == all;
  }

  /** What a finished rehash leaves: the same nodes, each in the bucket its hash names. */
  ghost predicate Rehashed(t: array<Node?>, heads: seq<Node?>, bs: Buckets, home: map<Node, nat>, all: set<Node>)
    reads t, home.Keys`next, home.Keys`hash
  {
    && Moving(t, heads, bs, home, all) && |bs| == t.Length
    && forall m :: m in home ==> home[m] == Mod(m.hash, t.Length)
  }

  /** Empty one old bucket into the new table. */
  method EmptyBucket(first: Node?, t: array<Node?>, ghost heads: seq<Node?>, ghost bs: Buckets,
                     ghost home: map<Node, nat>, ghost b: nat, ghost all: set<Node>)
    returns (ghost heads': seq<Node?>, ghost bs': Buckets, ghost home': map<Node, nat>)
    requires Moving(t, heads, bs, home, all) && t.Length <= b < |bs| && first == heads[b]
    modifies t, all`next
    ensures Moving(t, heads', bs', home', all)
    ensures |bs'| == |bs| && bs'[b] == []
    ensures forall c :: t.Length <= c < |bs| && c != b ==> heads'[c] == heads[c] && bs'[c] == bs[c]
  {
    heads', bs', home' := heads, bs, home;
    var elm := first;
    while elm != null
      invariant |bs'| == |bs| && Moving(t, heads', bs', home', all) && elm == heads'[b]
      invariant forall c :: t.Length <= c < |bs| && c != b ==> heads'[c] == heads[c] && bs'[c] == bs[c]
      decreases |bs'[b]|
    {
      assert Good(heads', bs', b);
      assert bs'[b][0] in home';
      elm, heads', bs', home' := CarryOver(elm, t, heads', bs', home', b, all);
    }
    assert Good(heads', bs', b);
  }

  /** Empty all old buckets, which follow the new ones in `heads` and `bs`. */
  method EmptyAll(oldTable: array<Node?>, t: array<Node?>, ghost heads: seq<Node?>, ghost bs: Buckets,
                  ghost home: map<Node, nat>, ghost all: set<Node>)
    returns (ghost heads': seq<Node?>, ghost bs': Buckets, ghost home': map<Node, nat>)
    requires Moving(t, heads, bs, home, all) && t != oldTable && |bs| == t.Length + oldTable.Length
    requires forall c :: 0 <= c < oldTable.Length ==> oldTable[c] == heads[t.Length + c]
    modifies t, all`next
    ensures Moving(t, heads', bs', home', all) && |bs'| == |bs|
    ensures forall c :: t.Length <= c < |bs| ==> bs'[c] == []
  {
    var n := t.Length;
    heads', bs', home' := heads, bs, home;
    var b := 0;
    while b < oldTable.Length
      invariant 0 <= b <= oldTable.Length && |bs'| == |bs| && Moving(t, heads', bs', home', all)
      invariant forall c :: n <= c < n + b ==> bs'[c] == []
      invariant forall c :: n + b <= c < |bs| ==> heads'[c] == heads[c]
    {
      assert oldTable[b] == heads[n + b];
      heads', bs', home' := EmptyBucket(oldTable[b], t, heads', bs', home', n + b, all);
      b := b + 1;
    }
  }

  /** The branch that has a fresh table: every list is taken apart into it. */
  method Refill(oldTable: array?<Node?>, t: array<Node?>, ghost heads: seq<Node?>, ghost bs: Buckets,
                ghost home: map<Node, nat>)
    returns (ghost heads': seq<Node?>, ghost bs': Buckets, ghost home': map<Node, nat>)
    requires Racked(heads, bs, home)
    requires (oldTable == null && |bs| == 0) || (oldTable != null && oldTable.Length == |bs| && Shows(oldTable, heads))
    requires t != oldTable && t.Length > 0 && forall i :: 0 <= i < t.Length ==> t[i] == null
    modifies t, home.Keys`next
    ensures Rehashed(t, heads', bs', home', home.Keys)
  {
    var n := t.Length;
    Widen(heads, bs, home, n);
    heads', bs', home' := Nulls(n) + heads, Empties(n) + bs, Shifted(home, n);
    assert Moving(t, heads', bs', home', home.Keys);
    if oldTable != null {
      heads', bs', home' := EmptyAll(oldTable, t, heads', bs', home', home.Keys);
    }
    Narrow(heads', bs', home', n);
    heads', bs' := heads'[..n], bs'[..n];
  }

  /** Buckets below `b`, and those the old table did not have, hold only nodes that belong there. */
  ghost predicate Settling(t: array<Node?>, heads: seq<Node?>, bs: Buckets, home: map<Node, nat>, all: set<Node>,
                           b: nat, k: nat)
    reads t, home.Keys`next, home.Keys`hash
  {
    && t.Length == |bs| > 0 && Racked(heads, bs, home) && home.Keys == all && Shows(t, heads)
    && forall m {:trigger home[m]} :: m in home && (home[m] < b || k <= home[m]) ==> home[m] == Mod(m.hash, t.Length)
  }

  /** The first `i` nodes of bucket `b` belong there. */
  ghost predicate Stay(bs: Buckets, b: nat, i: nat, n: nat)
    requires b < |bs| && i <= |bs[b]| && n > 0
    reads bs[b]`hash
  {
    forall j {:trigger bs[b][j]} :: 0 <= j < i ==> Mod(bs[b][j].hash, n) == b
  }

  /** The first node does not belong here: it moves to the front of its own bucket. */
  method SendFirst(e: Node, t: array<Node?>, ghost heads: seq<Node?>, ghost bs: Buckets,
                   ghost home: map<Node, nat>, b: nat, ghost k: nat, ghost all: set<Node>)
    returns (ghost heads': seq<Node?>, ghost bs': Buckets, ghost home': map<Node, nat>)
    requires Settling(t, heads, bs, home, all, b, k) && b < |bs| && bs[b] != [] && e == bs[b][0]
    requires Mod(e.hash, t.Length) != b
    modifies t, e`next
    ensures Settling(t, heads', bs', home', all, b, k) && |bs'| == |bs| && bs'[b] == Without(bs[b], 0)
  {
    var b2, next := Mod(e.hash, t.Length), e.next;
    assert bs[b][0] in home;
    heads', bs', home' := heads[b := e.next][b2 := e], Moved(bs, b, 0, b2), home[e := b2];
    MoveFirst(e, t[b2], heads, bs, home, b, b2);
    t[b] := next;
    t[b2] := e;
    assert home'.Keys == all;
  }

  /** The same for a later node, after `prev`. */
  method SendLater(prev: Node, e: Node, t: array<Node?>, ghost heads: seq<Node?>, ghost bs: Buckets,
                   ghost home: map<Node, nat>, b: nat, ghost i: nat, ghost k: nat, ghost all: set<Node>)
    returns (ghost heads': seq<Node?>, ghost bs': Buckets, ghost home': map<Node, nat>)
    requires Settling(t, heads, bs, home, all, b, k) && b < |bs| && 0 < i < |bs[b]| && e == bs[b][i]
    requires prev == bs[b][i - 1] && Mod(e.hash, t.Length) != b
    modifies t, e`next, prev`next
    ensures Settling(t, heads', bs', home', all, b, k) && |bs'| == |bs| && bs'[b] == Without(bs[b], i)
  {
    var b2 := Mod(e.hash, t.Length);
    assert bs[b][i] in home;
    heads', bs', home' := heads[b2 := e], Moved(bs, b, i, b2), home[e := b2];
    MoveLater(prev, e, t[b2], heads, bs, home, b, i, b2);
    t[b2] := e;
    assert home'.Keys == all;
  }

  /** The cursor of the scan: `e` is the node at `i`, `prev` the one before it, and all before belong. */
  ghost predicate Cursor(bs: Buckets, b: nat, i: nat, n: nat, prev: Node?, e: Node?)
    requires n > 0
    reads if b < |bs| then bs[b] else []
  {
    && b < |bs| && i <= |bs[b]| && Stay(bs, b, i, n)
    && prev == (if i == 0 then null else bs[b][i - 1])
    && e == (if i == |bs[b]| then null else bs[b][i])
  }

  lemma StayWithout(bs: Buckets, bs': Buckets, b: nat, i: nat, n: nat)
    requires n > 0 && b < |bs| == |bs'| && i < |bs[b]| && bs'[b] == Without(bs[b], i) && Stay(bs, b, i, n)
    ensures Stay(bs', b, i, n) && |bs'[b]| == |bs[b]| - 1 && (i > 0 ==> bs'[b][i - 1] == bs[b][i - 1])
  {
    forall j | 0 <= j < i ensures Mod(bs'[b][j].hash, n) == b { assert bs'[b][j] == bs[b][j]; }
  }

  /** A node that does not belong here moves to the front of its own bucket; the scan goes on after it. */
  method SendAway(prev: Node?, e: Node, t: array<Node?>, ghost heads: seq<Node?>, ghost bs: Buckets,
                  ghost home: map<Node, nat>, b: nat, ghost i: nat, ghost k: nat, ghost all: set<Node>)
    returns (e': Node?, ghost heads': seq<Node?>, ghost bs': Buckets, ghost home': map<Node, nat>)
    requires Settling(t, heads, bs, home, all, b, k) && Cursor(bs, b, i, t.Length, prev, e)
    requires Mod(e.hash, t.Length) != b
    modifies t, all`next
    ensures Settling(t, heads', bs', home', all, b, k) && |bs'| == |bs| && bs'[b] == Without(bs[b], i)
    ensures e' == if i == |bs'[b]| then null else bs'[b][i]
  {
    assert bs[b][i] in home;
    if prev == null {
      heads', bs', home' := SendFirst(e, t, heads, bs, home, b, k, all);
      assert Good(heads', bs', b);
      e' := t[b];
    } else {
      assert bs[b][i - 1] in home;
      heads', bs', home' := SendLater(prev, e, t, heads, bs, home, b, i, k, all);
      assert Good(heads', bs', b) && prev == bs'[b][i - 1];
      e' := prev.next;
    }
  }

  /** One node of the scan. */
  method SettleOne(prev: Node?, e: Node, t: array<Node?>, ghost heads: seq<Node?>, ghost bs: Buckets,
                   ghost home: map<Node, nat>, b: nat, ghost i: nat, ghost k: nat, ghost all: set<Node>)
    returns (prev': Node?, e': Node?, ghost heads': seq<Node?>, ghost bs': Buckets, ghost home': map<Node, nat>,
             ghost i': nat)
    requires Settling(t, heads, bs, home, all, b, k) && Cursor(bs, b, i, t.Length, prev, e)
    modifies t, all`next
    ensures Settling(t, heads', bs', home', all, b, k) && |bs'| == |bs| && Cursor(bs', b, i', t.Length, prev', e')
    ensures |bs'[b]| - i' < |bs[b]| - i
  {
    heads', bs', home', i' := heads, bs, home, i;
    assert Good(heads, bs, b) && bs[b][i] in home;
    if Mod(e.hash, t.Length) == b {
      prev', e', i' := e, e.next, i + 1;
    } else {
      prev' := prev;
      e', heads', bs', home' := SendAway(prev, e, t, heads, bs, home, b, i, k, all);
      StayWithout(bs, bs', b, i, t.Length);
    }
  }

  /** Scan one bucket of the old part, sending away what does not belong there. */
  method SettleBucket(t: array<Node?>, ghost heads: seq<Node?>, ghost bs: Buckets, ghost home: map<Node, nat>,
                      b: nat, ghost k: nat, ghost all: set<Node>)
    returns (ghost heads': seq<Node?>, ghost bs': Buckets, ghost home': map<Node, nat>)
    requires Settling(t, heads, bs, home, all, b, k) && b < k <= |bs|
    modifies t, all`next
    ensures Settling(t, heads', bs', home', all, b + 1, k) && |bs'| == |bs|
  {
    heads', bs', home' := heads, bs, home;
    var prev: Node?, e: Node? := null, t[b];
    ghost var i := 0;
    assert Good(heads', bs', b);
    while e != null
      invariant Settling(t, heads', bs', home', all, b, k) && |bs'| == |bs| && 0 <= i
      invariant Cursor(bs', b, i, t.Length, prev, e)
      decreases |bs'[b]| - i
    {
      prev, e, heads', bs', home', i := SettleOne(prev, e, t, heads', bs', home', b, i, k, all);
    }
  }

  /** The branch that has to stretch the table it has: nodes move between its own buckets. */
  method Redistribute(t: array<Node?>, k: nat, ghost heads: seq<Node?>, ghost bs: Buckets, ghost home: map<Node, nat>)
    returns (ghost heads': seq<Node?>, ghost bs': Buckets, ghost home': map<Node, nat>)
    requires Racked(heads, bs, home) && |bs| == k <= t.Length && 0 < t.Length
    requires forall c :: 0 <= c < t.Length ==> t[c] == if c < k then heads[c] else null
    modifies t, home.Keys`next
    ensures Rehashed(t, heads', bs', home', home.Keys)
  {
    Lengthen(heads, bs, home, t.Length - k);
    heads', bs', home' := heads + Nulls(t.Length - k), bs + Empties(t.Length - k), home;
    var b := 0;
    while b < k
      invariant 0 <= b <= k && |bs'| == t.Length && Settling(t, heads', bs', home', home.Keys, b, k)
    {
      heads', bs', home' := SettleBucket(t, heads', bs', home', b, k, home.Keys);
      b := b + 1;
    }
  }

  /** Any two rehashes of the same nodes agree on what is in each bucket. */
  lemma RehashedAlike(t: array<Node?>, heads: seq<Node?>, bs: Buckets, home: map<Node, nat>, all: set<Node>, b: nat)
    requires Rehashed(t, heads, bs, home, all) && b < t.Length
    ensures (set m | m in bs[b]) == (set m | m in all && Mod(m.hash, t.Length) == b)
  {
    forall m | m in all && Mod(m.hash, t.Length) == b ensures m in bs[b] {
      assert home[m] == b;
    }
    forall m | m in bs[b] ensures m in all && Mod(m.hash, t.Length) == b {
      var i :| 0 <= i < |bs[b]| && bs[b][i] == m;
      assert home[bs[b][i]] == b;
    }
  }
}
