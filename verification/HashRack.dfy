/** Buckets of singly linked nodes, after the element links of `ht-internal.h`. */
module HashRacks {
  import opened Distinctness

  /** What two elements are compared by: equal elements are the ones with equal keys. */
  type Key(==, !new)

  class Node {
    const key: Key
    var next: Node?
    var hash: nat

    constructor (key: Key)
      ensures this.key == key && next == null
    {
      this.key := key;
      next := null;
      hash := 0;
    }
  }

  type Buckets = seq<seq<Node>>

  /** The nodes of `s`, in order, are what `head` leads to. */
  ghost predicate Linked(head: Node?, s: seq<Node>)
    reads s`next
  {
    && head == (if s == [] then null else s[0])
    && forall i {:trigger s[i].next} :: 0 <= i < |s| ==> s[i].next == (if i + 1 < |s| then s[i + 1] else null)
  }

  /** `home` gives the bucket of every node there is. */
  ghost predicate Homed(bs: Buckets, home: map<Node, nat>) {
    && (forall b, i {:trigger bs[b][i]} :: 0 <= b < |bs| && 0 <= i < |bs[b]| ==>
          bs[b][i] in home && home[bs[b][i]] == b)
    && (forall n {:trigger home[n]} :: n in home ==> home[n] < |bs| && n in bs[home[n]])
  }

  ghost predicate Good(heads: seq<Node?>, bs: Buckets, b: int)
    requires |heads| == |bs| && 0 <= b < |bs|
    reads bs[b]`next
  {
    NoDup(bs[b]) && Linked(heads[b], bs[b])
  }

  /** Every bucket is a list of its own nodes, and no node is in two. */
  ghost predicate Racked(heads: seq<Node?>, bs: Buckets, home: map<Node, nat>)
    reads home.Keys`next
  {
    && |heads| == |bs| && Homed(bs, home)
    && forall b {:trigger Good(heads, bs, b)} :: 0 <= b < |bs| ==> Good(heads, bs, b)
  }

  lemma NotIn(bs: Buckets, home: map<Node, nat>, n: Node, b: int)
    requires Homed(bs, home) && 0 <= b < |bs| && (n in home ==> home[n] != b)
    ensures n !in bs[b]
  {
  }

  lemma HomedPush(bs: Buckets, home: map<Node, nat>, n: Node, b: nat)
    requires Homed(bs, home) && b < |bs| && n !in home
    ensures Homed(bs[b := [n] + bs[b]], home[n := b])
  {
    var bs', home' := bs[b := [n] + bs[b]], home[n := b];
    forall m | m in home' ensures home'[m] < |bs'| && m in bs'[home'[m]] {
      if m != n {
        assert home'[m] == home[m];
        assert m in bs[home[m]];
      } else {
        assert bs'[b][0] == n;
      }
    }
    forall c, i | 0 <= c < |bs'| && 0 <= i < |bs'[c]| ensures bs'[c][i] in home' && home'[bs'[c][i]] == c {
      if c == b && i > 0 { assert bs'[c][i] == bs[c][i - 1]; } else if c != b { assert bs'[c][i] == bs[c][i]; }
    }
  }

  lemma HomedWithout(bs: Buckets, home: map<Node, nat>, b: nat, i: nat)
    requires Homed(bs, home) && b < |bs| && i < |bs[b]| && NoDup(bs[b])
    ensures Homed(bs[b := Without(bs[b], i)], home - {bs[b][i]})
  {
    var n := bs[b][i];
    var bs', home' := bs[b := Without(bs[b], i)], home - {n};
    NoDupWithout(bs[b], i);
    forall m | m in home' ensures home'[m] < |bs'| && m in bs'[home'[m]] {
      assert home'[m] == home[m] && m in bs[home[m]];
      if home[m] == b {
        var j :| 0 <= j < |bs[b]| && bs[b][j] == m;
        assert bs'[b][if j < i then j else j - 1] == m;
      }
    }
    forall c, j | 0 <= c < |bs'| && 0 <= j < |bs'[c]| ensures bs'[c][j] in home' && home'[bs'[c][j]] == c {
      if c == b {
        assert bs'[c][j] == bs[b][if j < i then j else j + 1];
        assert bs'[c][j] != n;
      } else {
        assert bs'[c][j] == bs[c][j];
      }
    }
  }

  /** A node from outside goes to the front of a bucket. */
  method Push(n: Node, x: Node?, ghost heads: seq<Node?>, ghost bs: Buckets, ghost home: map<Node, nat>, ghost b: nat)
    requires Racked(heads, bs, home) && b < |bs| && n !in home && x == heads[b]
    modifies n`next
    ensures n.next == x
    ensures Racked(heads[b := n], bs[b := [n] + bs[b]], home[n := b])
  {
    ghost var heads', bs' := heads[b := n], bs[b := [n] + bs[b]];
    HomedPush(bs, home, n, b);
    assert Good(heads, bs, b);
    forall c | 0 <= c < |bs| ensures n !in bs[c] && Good(heads, bs, c) { NotIn(bs, home, n, c); }
    NoDupCons(n, bs[b]);
    n.next := x;
    forall c | 0 <= c < |bs'| ensures Good(heads', bs', c) {
      assert c != b ==> bs'[c] == bs[c] && heads'[c] == heads[c];
    }
  }

  /** The node after `p` leaves its bucket. */
  method Cut(p: Node, x: Node?, ghost heads: seq<Node?>, ghost bs: Buckets, ghost home: map<Node, nat>,
             ghost b: nat, ghost i: nat)
    requires Racked(heads, bs, home) && b < |bs| && 0 < i < |bs[b]| && p == bs[b][i - 1] && x == bs[b][i].next
    modifies p`next
    ensures Racked(heads, bs[b := Without(bs[b], i)], home - {bs[b][i]})
  {
    ghost var bs' := bs[b := Without(bs[b], i)];
    assert Good(heads, bs, b);
    HomedWithout(bs, home, b, i);
    NoDupWithout(bs[b], i);
    NoDupApart(bs[b], i - 1);
    forall c | 0 <= c < |bs| && c != b ensures p !in bs[c] && Good(heads, bs, c) {
      assert home[bs[b][i - 1]] == b;
      NotIn(bs, home, p, c);
    }
    p.next := x;
    forall c | 0 <= c < |bs'| ensures Good(heads, bs', c) {
      assert c != b ==> bs'[c] == bs[c];
    }
  }

  /** The first node leaves its bucket. */
  lemma Pop(heads: seq<Node?>, bs: Buckets, home: map<Node, nat>, b: nat)
    requires Racked(heads, bs, home) && b < |bs| && bs[b] != []
    ensures Racked(heads[b := bs[b][0].next], bs[b := Without(bs[b], 0)], home - {bs[b][0]})
  {
    var heads', bs' := heads[b := bs[b][0].next], bs[b := Without(bs[b], 0)];
    assert Good(heads, bs, b);
    HomedWithout(bs, home, b, 0);
    NoDupWithout(bs[b], 0);
    forall c | 0 <= c < |bs'| ensures Good(heads', bs', c) {
      if c != b { assert bs'[c] == bs[c] && Good(heads, bs, c); }
    }
  }

  lemma HomedSet(bs: Buckets, home: map<Node, nat>, b: nat, i: nat, n: Node)
    requires Homed(bs, home) && b < |bs| && i <= |bs[b]| && NoDup(bs[b]) && n !in home
    ensures var s := bs[b];
      Homed(bs[b := s[..i] + [n] + (if i < |s| then s[i + 1..] else [])],
            (if i < |s| then home - {s[i]} else home)[n := b])
  {
    var s := bs[b];
    var s' := s[..i] + [n] + (if i < |s| then s[i + 1..] else []);
    var bs', home' := bs[b := s'], (if i < |s| then home - {s[i]} else home)[n := b];
    if i < |s| { NoDupApart(s, i); }
    forall m | m in home' ensures home'[m] < |bs'| && m in bs'[home'[m]] {
      if m == n {
        assert s'[i] == n;
      } else {
        assert home'[m] == home[m] && m in bs[home[m]];
        if home[m] == b {
          var j :| 0 <= j < |s| && s[j] == m;
          assert s'[j] == m;
        }
      }
    }
    forall c, j | 0 <= c < |bs'| && 0 <= j < |bs'[c]| ensures bs'[c][j] in home' && home'[bs'[c][j]] == c {
      if c != b {
        assert bs'[c][j] == bs[c][j];
      } else if j != i {
        assert bs'[c][j] == bs[c][j];
      }
    }
  }

  /** Bucket `b` with `n` in place of its node at `i`, or behind its last one. */
  ghost function Put(s: seq<Node>, i: nat, n: Node): seq<Node>
    requires i <= |s|
  {
    s[..i] + [n] + if i < |s| then s[i + 1..] else []
  }

  ghost function PutHome(home: map<Node, nat>, s: seq<Node>, i: nat, n: Node, b: nat): map<Node, nat>
    requires i <= |s|
  {
    (if i < |s| then home - {s[i]} else home)[n := b]
  }

  lemma PutAt(s: seq<Node>, i: nat, n: Node)
    requires i <= |s|
    ensures |Put(s, i, n)| == (if i < |s| then |s| else |s| + 1) && Put(s, i, n)[i] == n
    ensures forall j :: 0 <= j < |s| && j != i ==> Put(s, i, n)[j] == s[j]
  {
  }

  lemma NoDupPut(s: seq<Node>, i: nat, n: Node)
    requires NoDup(s) && i <= |s| && n !in s
    ensures NoDup(Put(s, i, n))
  {
    var t := Put(s, i, n);
    forall j, k | 0 <= j < k < |t| ensures Apart(t, j, k) {
      if j != i && k != i {
        assert Apart(s, j, k);
      } else {
        assert t[if j == i then k else j] in s;
      }
    }
  }

  /** A node from outside takes the first place. */
  method PutFirst(n: Node, x: Node?, ghost heads: seq<Node?>, ghost bs: Buckets, ghost home: map<Node, nat>,
                  ghost b: nat)
    requires Racked(heads, bs, home) && b < |bs| && n !in home
    requires x == if bs[b] == [] then null else bs[b][0].next
    modifies n`next
    ensures Racked(heads[b := n], bs[b := Put(bs[b], 0, n)], PutHome(home, bs[b], 0, n, b))
  {
    ghost var heads', bs' := heads[b := n], bs[b := Put(bs[b], 0, n)];
    assert Good(heads, bs, b);
    HomedSet(bs, home, b, 0, n);
    forall c | 0 <= c < |bs| ensures n !in bs[c] && Good(heads, bs, c) { NotIn(bs, home, n, c); }
    NoDupPut(bs[b], 0, n);
    PutAt(bs[b], 0, n);
    n.next := x;
    assert Linked(n, bs'[b]);
    forall c | 0 <= c < |bs'| && c != b ensures Good(heads', bs', c) {
      assert bs'[c] == bs[c] && heads'[c] == heads[c];
    }
  }

  /** A node from outside takes a later place, after `p`. */
  method PutLater(p: Node, n: Node, x: Node?, ghost heads: seq<Node?>, ghost bs: Buckets, ghost home: map<Node, nat>,
                  ghost b: nat, ghost i: nat)
    requires Racked(heads, bs, home) && b < |bs| && 0 < i <= |bs[b]| && n !in home && p == bs[b][i - 1]
    requires x == if i == |bs[b]| then null else bs[b][i].next
    modifies n`next, p`next
    ensures Racked(heads, bs[b := Put(bs[b], i, n)], PutHome(home, bs[b], i, n, b))
  {
    ghost var bs' := bs[b := Put(bs[b], i, n)];
    assert Good(heads, bs, b) && home[bs[b][i - 1]] == b;
    HomedSet(bs, home, b, i, n);
    forall c | 0 <= c < |bs| ensures n !in bs[c] && (c != b ==> p !in bs[c]) && Good(heads, bs, c) {
      NotIn(bs, home, n, c);
      if c != b { NotIn(bs, home, p, c); }
    }
    NoDupPut(bs[b], i, n);
    NoDupApart(bs[b], i - 1);
    PutAt(bs[b], i, n);
    p.next := n;
    n.next := x;
    assert Linked(heads[b], bs'[b]);
    forall c | 0 <= c < |bs'| && c != b ensures Good(heads, bs', c) {
      assert bs'[c] == bs[c];
    }
  }
}
