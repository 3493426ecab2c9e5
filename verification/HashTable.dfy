/** The hash table of `ht-internal.h`: chained buckets that refine a finite map. */
module HashTables {
  import opened Distinctness
  import opened Modulus
  import opened HashRacks
  import opened HashGrowth
  import opened HashOrders
  import opened Orders

  const PRIMES: seq<nat> := [
    53, 97, 193, 389, 769, 1543, 3079, 6151, 12289, 24593, 49157, 98317, 196613, 393241, 786433, 1572869,
    3145739, 6291469, 12582917, 25165843, 50331653, 100663319, 201326611, 402653189, 805306457, 1610612741]

  const LAST := 25

  /** `(unsigned)(load * len)` for the load factor 0.5. */
  function Limit(len: nat): (limit: nat)
    ensures 2 * limit <= len < 2 * limit + 2
  {
    len / 2
  }

  lemma PrimesGrow(i: nat, j: nat)
    requires i < j <= LAST
    ensures PRIMES[i] < PRIMES[j]
  {
    if i + 1 < j { PrimesGrow(i, j - 1); }
  }

  /** A `struct type **`: the head of a bucket, the link inside a node, or null. */
  datatype Slot = NoSlot | Head(b: nat) | After(node: Node)

  /** The node a link belongs to, if it is not the head of a bucket. */
  ghost function Owner(p: Slot): set<Node> {
    if p.After? then {p.node} else {}
  }

  /** `view` names the given nodes by their keys. */
  ghost predicate Keyed(nodes: set<Node>, view: map<Key, Node>) {
    && (forall n :: n in nodes ==> n.key in view && view[n.key] == n)
    && (forall k :: k in view ==> view[k] in nodes && view[k].key == k)
  }

  lemma KeyedAdd(nodes: set<Node>, view: map<Key, Node>, n: Node)
    requires Keyed(nodes, view) && n !in nodes && n.key !in view
    ensures Keyed(nodes + {n}, view[n.key := n])
  {
  }

  lemma KeyedDrop(nodes: set<Node>, view: map<Key, Node>, n: Node)
    requires Keyed(nodes, view) && n in nodes
    ensures Keyed(nodes - {n}, view - {n.key})
  {
  }

  lemma KeyedSwap(nodes: set<Node>, view: map<Key, Node>, r: Node, n: Node)
    requires Keyed(nodes, view) && r in nodes && n !in nodes && n.key == r.key
    ensures Keyed(nodes - {r} + {n}, view[n.key := n])
  {
    KeyedDrop(nodes, view, r);
    KeyedAdd(nodes - {r}, view - {r.key}, n);
    assert (view - {r.key})[n.key := n] == view[n.key := n];
  }

  /** Every node carries the hash of its key and is in the bucket this names. */
  ghost predicate Hashed(home: map<Node, nat>, hashfn: Key -> nat, len: nat)
    reads home.Keys`hash
  {
    forall n {:trigger home[n]} :: n in home ==> n.hash == hashfn(n.key) && len > 0 && home[n] == Mod(n.hash, len)
  }

  lemma RehashedHashed(t: array<Node?>, hs: seq<Node?>, bs: Buckets, hm: map<Node, nat>, home: map<Node, nat>,
                       hashfn: Key -> nat, len: nat)
    requires Rehashed(t, hs, bs, hm, home.Keys) && Hashed(home, hashfn, len)
    ensures |bs| == |hs| == t.Length && Shows(t, hs) && hm.Keys == home.Keys
    ensures Racked(hs, bs, hm) && Hashed(hm, hashfn, t.Length)
  {
    forall n | n in hm ensures n.hash == hashfn(n.key) {
      assert home[n] == Mod(n.hash, len);
    }
  }

  lemma HashedAdd(home: map<Node, nat>, hashfn: Key -> nat, len: nat, n: Node)
    requires Hashed(home, hashfn, len) && len > 0 && n.hash == hashfn(n.key)
    ensures Hashed(home[n := Mod(n.hash, len)], hashfn, len) && home[n := Mod(n.hash, len)].Keys == home.Keys + {n}
  {
  }

  lemma HashedDrop(home: map<Node, nat>, hashfn: Key -> nat, len: nat, n: Node)
    requires Hashed(home, hashfn, len)
    ensures Hashed(home - {n}, hashfn, len) && (home - {n}).Keys == home.Keys - {n}
  {
  }

  lemma HashedSwap(home: map<Node, nat>, hashfn: Key -> nat, len: nat, r: Node, n: Node)
    requires Hashed(home, hashfn, len) && len > 0 && n.hash == hashfn(n.key)
    ensures var hm := (home - {r})[n := Mod(n.hash, len)]; Hashed(hm, hashfn, len) && hm.Keys == home.Keys - {r} + {n}
  {
  }

  lemma Counted(heads: seq<Node?>, bs: Buckets, home: map<Node, nat>)
    requires Racked(heads, bs, home)
    ensures |All(bs)| == |home.Keys|
  {
    AllOnce(heads, bs, home);
  }

  /** A key that no node of its bucket has is nowhere. */
  lemma Missing(heads: seq<Node?>, bs: Buckets, home: map<Node, nat>, view: map<Key, Node>, key: Key,
                hashfn: Key -> nat, len: nat)
    requires Racked(heads, bs, home) && |bs| == len > 0 && Hashed(home, hashfn, len) && Keyed(home.Keys, view)
    requires var b := Mod(hashfn(key), len); forall j :: 0 <= j < |bs[b]| ==> bs[b][j].key != key
    ensures key !in view
  {
    forall k | k in view ensures k != key {
      var b := home[view[k]];
      var j :| 0 <= j < |bs[b]| && bs[b][j] == view[k];
      assert b == Mod(hashfn(k), len) && bs[b][j].key == k;
    }
  }

  /** A node from outside goes to the front of bucket `b` of a table. */
  method PushHead(t: array<Node?>, n: Node, b: nat, ghost heads: seq<Node?>, ghost bs: Buckets,
                  ghost home: map<Node, nat>)
    requires Racked(heads, bs, home) && b < t.Length == |bs| && n !in home && Shows(t, heads)
    modifies t, n`next
    ensures Racked(heads[b := n], bs[b := [n] + bs[b]], home[n := b]) && Shows(t, heads[b := n])
  {
    Push(n, t[b], heads, bs, home, b);
    t[b] := n;
  }

  /** The head of bucket `b` after its node at `i` is gone. */
  ghost function HeadsWithout(heads: seq<Node?>, b: nat, i: nat, r: Node): seq<Node?>
    requires b < |heads|
    reads r`next
  {
    if i == 0 then heads[b := r.next] else heads
  }

  /** The first node of bucket `b` leaves a table. */
  method CutHead(t: array<Node?>, r: Node, b: nat, ghost heads: seq<Node?>, ghost bs: Buckets,
                 ghost home: map<Node, nat>)
    requires Racked(heads, bs, home) && b < t.Length == |bs| && bs[b] != [] && r == bs[b][0] && Shows(t, heads)
    modifies t
    ensures Racked(HeadsWithout(heads, b, 0, r), bs[b := Without(bs[b], 0)], home - {r})
    ensures Shows(t, HeadsWithout(heads, b, 0, r))
  {
    Pop(heads, bs, home, b);
    t[b] := r.next;
  }

  /** The node at `i` of bucket `b` leaves a table, given the link `p` to it. */
  method CutSlot(t: array<Node?>, p: Slot, r: Node, ghost heads: seq<Node?>, ghost bs: Buckets,
                 ghost home: map<Node, nat>, ghost b: nat, ghost i: nat)
    requires Racked(heads, bs, home) && b < t.Length == |bs| && i < |bs[b]| && r == bs[b][i] && Shows(t, heads)
    requires p == if i == 0 then Head(b) else After(bs[b][i - 1])
    modifies t, Owner(p)`next
    ensures Racked(HeadsWithout(heads, b, i, r), bs[b := Without(bs[b], i)], home - {r})
    ensures Shows(t, HeadsWithout(heads, b, i, r)) && r.next == old(r.next)
  {
    if p.Head? {
      CutHead(t, r, p.b, heads, bs, home);
    } else {
      assert bs[b][i - 1] in home;
      assert Good(heads, bs, b);
      NoDupApart(bs[b], i);
      Cut(p.node, r.next, heads, bs, home, b, i);
    }
  }

  ghost function PutHeads(heads: seq<Node?>, b: nat, i: nat, n: Node): (hs: seq<Node?>)
    requires b < |heads|
    ensures |hs| == |heads|
  {
    if i == 0 then heads[b := n] else heads
  }

  /** A node from outside takes the place the link `p` leads to. */
  method PutSlot(t: array<Node?>, p: Slot, n: Node, x: Node?, ghost heads: seq<Node?>, ghost bs: Buckets,
                 ghost home: map<Node, nat>, ghost b: nat, ghost i: nat)
    requires Racked(heads, bs, home) && b < t.Length == |bs| && i <= |bs[b]| && n !in home && Shows(t, heads)
    requires p == if i == 0 then Head(b) else After(bs[b][i - 1])
    requires x == if i == |bs[b]| then null else bs[b][i].next
    modifies t, Owner(p)`next, n`next
    ensures Racked(PutHeads(heads, b, i, n), bs[b := Put(bs[b], i, n)], PutHome(home, bs[b], i, n, b))
    ensures Shows(t, PutHeads(heads, b, i, n))
  {
    if p.Head? {
      t[p.b] := n;
      PutFirst(n, x, heads, bs, home, b);
    } else {
      PutLater(p.node, n, x, heads, bs, home, b, i);
    }
  }

  class HashTable {
    const hashfn: Key -> nat
    var table: array?<Node?>
    var tableLength: nat
    var nEntries: nat
    var loadLimit: nat
    var primeIdx: int
    ghost var heads: seq<Node?>
    ghost var buckets: Buckets
    ghost var home: map<Node, nat>
    /** The finite map this table stands for. */
    ghost var view: map<Key, Node>

    ghost predicate Laid()
      reads this, table
    {
      && |heads| == |buckets| == tableLength
      && (table == null ==> tableLength == 0)
      && (table != null ==> table.Length == tableLength > 0 && Shows(table, heads))
    }

    /** The sizes agree with the list of primes. */
    predicate Sized()
      reads this
    {
      if tableLength == 0 then loadLimit == 0 && primeIdx == -1
      else 0 <= primeIdx <= LAST && tableLength == PRIMES[primeIdx] && loadLimit == Limit(tableLength)
    }

    ghost predicate Valid()
      reads this, table, home.Keys
    {
      && Laid() && Sized()
      && Racked(heads, buckets, home) && Hashed(home, hashfn, tableLength)
      && Keyed(home.Keys, view) && nEntries == |All(buckets)|
    }

    /** `HT_INIT`. */
    constructor (hashfn: Key -> nat)
      ensures Valid() && view == map[] && this.hashfn == hashfn
    {
      this.hashfn := hashfn;
      table, tableLength, nEntries, loadLimit, primeIdx := null, 0, 0, 0, -1;
      heads, buckets, home, view := [], [], map[], map[];
    }

    /** `p` is the link that leads to position `i` of bucket `b`. */
    ghost predicate IsSlot(p: Slot, b: nat, i: nat)
      reads this`buckets
    {
      && b < |buckets| && i <= |buckets[b]|
      && p == if i == 0 then Head(b) else After(buckets[b][i - 1])
    }

    /** `HT_FIND_P_`: the link to the match for `elm`, or to the end of the bucket it would be in. */
    method FindP(elm: Node) returns (p: Slot, r: Node?, ghost b: nat, ghost i: nat)
      requires Valid() && elm.hash == hashfn(elm.key)
      ensures p == NoSlot <==> table == null
      ensures p == NoSlot ==> r == null
      ensures p != NoSlot ==> IsSlot(p, b, i) && b == Mod(elm.hash, tableLength)
      ensures p != NoSlot ==> r == if i < |buckets[b]| then buckets[b][i] else null
      ensures r == if elm.key in view then view[elm.key] else null
    {
      if table == null { return NoSlot, null, 0, 0; }
      var bucket := Mod(elm.hash, tableLength);
      b, i := bucket, 0;
      p, r := Head(bucket), table[bucket];
      assert Good(heads, buckets, b);
      while r != null
        invariant IsSlot(p, b, i) && r == if i < |buckets[b]| then buckets[b][i] else null
        invariant forall j :: 0 <= j < i ==> buckets[b][j].key != elm.key
        decreases |buckets[b]| - i
      {
        assert buckets[b][i] in home;
        if r.key == elm.key { return; }
        p, i := After(r), i + 1;
        r := r.next;
      }
      Missing(heads, buckets, home, view, elm.key, hashfn, tableLength);
    }

    /** `HT_SET_HASH_`: this changes nothing for an element that is in the table. */
    method SetHash(elm: Node)
      requires Valid()
      modifies elm`hash
      ensures Valid() && elm.hash == hashfn(elm.key)
    {
      elm.hash := hashfn(elm.key);
    }

    /** `HT_FIND`. */
    method Find(elm: Node) returns (r: Node?)
      requires Valid()
      modifies elm`hash
      ensures Valid() && r == if elm.key in view then view[elm.key] else null
    {
      SetHash(elm);
      var p; ghost var b, i;
      p, r, b, i := FindP(elm);
    }

    /** Whether a table with room for `size` entries can still be chosen. */
    predicate CanReach(size: nat)
      reads this
    {
      primeIdx == LAST || loadLimit > size || size < Limit(PRIMES[LAST])
    }

    /** The first prime after the current one whose load limit is above `size`. */
    method NextPrime(size: nat) returns (idx: nat)
      requires -1 <= primeIdx < LAST && size < Limit(PRIMES[LAST])
      ensures primeIdx < idx <= LAST && size < Limit(PRIMES[idx])
      ensures forall j :: primeIdx < j < idx ==> Limit(PRIMES[j]) <= size
    {
      idx := (primeIdx + 1) as nat;
      while Limit(PRIMES[idx]) <= size
        invariant primeIdx < idx <= LAST
        invariant forall j :: primeIdx < j < idx ==> Limit(PRIMES[j]) <= size
        decreases LAST - idx
      {
        assert idx < LAST;
        idx := idx + 1;
      }
    }

    /** Take over a rehashed table. */
    method Adopt(t: array<Node?>, idx: nat, ghost hs: seq<Node?>, ghost bs: Buckets, ghost hm: map<Node, nat>)
      requires idx <= LAST && t.Length == PRIMES[idx] == |bs| == |hs| && Shows(t, hs)
      modifies this`table, this`tableLength, this`loadLimit, this`primeIdx, this`heads, this`buckets, this`home
      ensures Laid() && Sized() && table == t && loadLimit == Limit(PRIMES[idx])
      ensures tableLength == t.Length && heads == hs && buckets == bs && home == hm
    {
      table, tableLength, primeIdx, loadLimit := t, t.Length, idx, Limit(t.Length);
      heads, buckets, home := hs, bs, hm;
    }

    /** The array `realloc` gives: the old heads, then nulls. */
    method Stretch(len: nat) returns (t: array<Node?>)
      requires Laid() && tableLength < len
      ensures fresh(t) && t.Length == len
      ensures forall c :: 0 <= c < len ==> t[c] == if c < tableLength then heads[c] else null
    {
      t := new Node?[len](_ => null);
      var c := 0;
      while c < tableLength
        invariant 0 <= c <= tableLength
        invariant forall d :: 0 <= d < len ==> t[d] == if d < c then heads[d] else null
        modifies t
      {
        assert table[c] == heads[c];
        t[c] := table[c];
        c := c + 1;
      }
    }

    /** Rehash into a table of `len` buckets, a fresh one or the old one stretched. */
    method Rehash(len: nat, canMalloc: bool)
      returns (t: array<Node?>, ghost hs: seq<Node?>, ghost bs: Buckets, ghost hm: map<Node, nat>)
      requires Valid() && tableLength < len
      modifies home.Keys`next
      ensures fresh(t) && t.Length == len && Rehashed(t, hs, bs, hm, home.Keys)
    {
      if canMalloc {
        t := new Node?[len](_ => null);
        hs, bs, hm := Refill(table, t, heads, buckets, home);
      } else {
        t := Stretch(len);
        hs, bs, hm := Redistribute(t, tableLength, heads, buckets, home);
      }
    }

    method Rebuild(idx: nat, canMalloc: bool)
      requires Valid() && idx <= LAST && tableLength < PRIMES[idx]
      modifies this`table, this`tableLength, this`loadLimit, this`primeIdx, this`heads, this`buckets, this`home
      modifies home.Keys`next
      ensures Valid() && home.Keys == old(home.Keys) && loadLimit == Limit(PRIMES[idx]) && fresh(table)
    {
      var t; ghost var hs, bs, hm;
      Counted(heads, buckets, home);
      t, hs, bs, hm := Rehash(PRIMES[idx], canMalloc);
      RehashedHashed(t, hs, bs, hm, home, hashfn, tableLength);
      Counted(hs, bs, hm);
      Adopt(t, idx, hs, bs, hm);
    }

    /**
     * `HT_GROW`. Either a new table can be had, or the old one can perhaps be stretched. The
     * elements stay the same whichever way the rehash goes.
     */
    method Grow(size: nat, canMalloc: bool, canRealloc: bool) returns (r: int)
      requires Valid() && CanReach(size)
      modifies this, home.Keys`next
      ensures Valid() && home.Keys == old(home.Keys) && unchanged(this`view, this`nEntries)
      ensures r == if canMalloc || canRealloc || old(primeIdx == LAST || loadLimit > size) then 0 else -1
      ensures r != 0 || old(primeIdx == LAST || loadLimit > size) ==>
        tableLength == old(tableLength) && loadLimit == old(loadLimit) && table == old(table)
      ensures r == 0 && old(primeIdx != LAST && loadLimit <= size) ==> loadLimit > size
      ensures fresh(table) || table == old(table)
    {
      if primeIdx == LAST { return 0; }
      if loadLimit > size { return 0; }
      var idx := NextPrime(size);
      if !canMalloc && !canRealloc { return -1; }
      if tableLength > 0 { PrimesGrow(primeIdx, idx); }
      Rebuild(idx, canMalloc);
      return 0;
    }

    /** One more entry can be taken without running off the list of primes. */
    predicate HasRoom()
      reads this
    {
      nEntries < loadLimit || CanReach(nEntries + 1)
    }

    /** Make room for one more entry if the load limit is reached. */
    method MakeRoom(canMalloc: bool, canRealloc: bool)
      requires Valid() && HasRoom() && (table == null ==> canMalloc || canRealloc)
      modifies this, home.Keys`next
      ensures Valid() && home.Keys == old(home.Keys) && unchanged(this`view, this`nEntries) && table != null
      ensures fresh(table) || table == old(table)
      ensures nEntries < loadLimit <==> old(nEntries < loadLimit || (primeIdx != LAST && (canMalloc || canRealloc)))
      ensures !old(nEntries < loadLimit || (primeIdx != LAST && (canMalloc || canRealloc))) ==>
        loadLimit == old(loadLimit)
    {
      if table == null || nEntries >= loadLimit {
        var _ := Grow(nEntries + 1, canMalloc, canRealloc);
      }
    }

    /** Record what a change to bucket `b` did. */
    method Note(ghost hs: seq<Node?>, ghost bs: Buckets, ghost hm: map<Node, nat>, ghost vw: map<Key, Node>, n: nat)
      requires Sized() && |hs| == |bs| == tableLength && table != null && table.Length == tableLength > 0
      requires Shows(table, hs)
      requires Racked(hs, bs, hm) && Hashed(hm, hashfn, tableLength) && Keyed(hm.Keys, vw) && n == |All(bs)|
      modifies this`heads, this`buckets, this`home, this`view, this`nEntries
      ensures Valid() && heads == hs && buckets == bs && home == hm && view == vw && nEntries == n
    {
      heads, buckets, home, view, nEntries := hs, bs, hm, vw, n;
    }

    /** Put a node from outside at the front of its bucket. */
    method PushIn(elm: Node)
      requires Valid() && table != null && elm !in home && elm.key !in view
      modifies this, table, elm
      ensures Valid() && home.Keys == old(home.Keys) + {elm} && view == old(view)[elm.key := elm]
      ensures nEntries == old(nEntries) + 1 && unchanged(this`table, this`tableLength, this`loadLimit, this`primeIdx)
    {
      elm.hash := hashfn(elm.key);
      var b := Mod(elm.hash, tableLength);
      HashedAdd(home, hashfn, tableLength, elm);
      KeyedAdd(home.Keys, view, elm);
      OrderSize(buckets, b, [elm] + buckets[b], |buckets|);
      PushHead(table, elm, b, heads, buckets, home);
      Note(heads[b := elm], buckets[b := [elm] + buckets[b]], home[elm := b], view[elm.key := elm], nEntries + 1);
    }

    /**
     * `HT_INSERT` of an element that no other one matches. The load limit is kept exactly when
     * it was not reached before or the table could grow.
     */
    method Insert(elm: Node, canMalloc: bool, canRealloc: bool)
      requires Valid() && HasRoom() && (table == null ==> canMalloc || canRealloc)
      requires elm !in home && elm.key !in view
      modifies this, table, home.Keys`next, elm
      ensures Valid() && home.Keys == old(home.Keys) + {elm} && view == old(view)[elm.key := elm]
      ensures nEntries == old(nEntries) + 1
      ensures nEntries <= loadLimit <==> old(nEntries < loadLimit || (primeIdx != LAST && (canMalloc || canRealloc)))
    {
      MakeRoom(canMalloc, canRealloc);
      PushIn(elm);
    }

    /** Take the node at position `i` of bucket `b` out, given the link `p` to it. */
    method TakeOut(p: Slot, r: Node, ghost b: nat, ghost i: nat)
      requires Valid() && IsSlot(p, b, i) && i < |buckets[b]| && r == buckets[b][i]
      modifies this`heads, this`buckets, this`home, this`view, this`nEntries, table, Owner(p)`next
      ensures Valid() && home == old(home) - {r} && view == old(view) - {r.key} && nEntries == old(nEntries) - 1
      ensures buckets == old(buckets[b := Without(buckets[b], i)]) && r.next == old(r.next)
    {
      assert buckets[b][i] in home;
      HashedDrop(home, hashfn, tableLength, r);
      KeyedDrop(home.Keys, view, r);
      ghost var bs, hm, vw := buckets[b := Without(buckets[b], i)], home - {r}, view - {r.key};
      OrderSize(buckets, b, Without(buckets[b], i), |buckets|);
      OrderAt(buckets, b, i);
      CutSlot(table, p, r, heads, buckets, home, b, i);
      Note(HeadsWithout(heads, b, i, r), bs, hm, vw, nEntries - 1);
    }

    /** The link of a node that has left is cleared. */
    method Detach(r: Node)
      requires Valid() && r !in home
      modifies r`next
      ensures Valid() && r.next == null
    {
      r.next := null;
    }

    /** `HT_REMOVE`. */
    method Remove(elm: Node) returns (r: Node?)
      requires Valid()
      modifies this, table, home.Keys`next, elm`hash
      ensures Valid() && r == if elm.key in old(view) then old(view)[elm.key] else null
      ensures view == old(view) - {elm.key}
      ensures home.Keys == if r == null then old(home.Keys) else old(home.Keys) - {r}
      ensures r != null ==> r.next == null && nEntries == old(nEntries) - 1
    {
      SetHash(elm);
      var p; ghost var b, i;
      p, r, b, i := FindP(elm);
      if p == NoSlot || r == null {
        assert view - {elm.key} == view;
        return;
      }
      TakeOut(p, r, b, i);
      Detach(r);
    }

    /** Put a node with a new key behind the last one of its bucket. */
    method PutLast(p: Slot, elm: Node, ghost b: nat, ghost i: nat)
      requires Valid() && table != null && IsSlot(p, b, i) && i == |buckets[b]| && b == Mod(elm.hash, tableLength)
      requires elm !in home && elm.key !in view && elm.hash == hashfn(elm.key)
      modifies this`heads, this`buckets, this`home, this`view, this`nEntries, table, Owner(p)`next, elm`next
      ensures Valid() && home.Keys == old(home.Keys) + {elm} && view == old(view)[elm.key := elm]
      ensures nEntries == old(nEntries) + 1
    {
      HashedAdd(home, hashfn, tableLength, elm);
      KeyedAdd(home.Keys, view, elm);
      ghost var bs, hm, vw := buckets[b := Put(buckets[b], i, elm)], home[elm := b], view[elm.key := elm];
      assert hm == PutHome(home, buckets[b], i, elm, b);
      OrderSize(buckets, b, Put(buckets[b], i, elm), |buckets|);
      PutSlot(table, p, elm, null, heads, buckets, home, b, i);
      Note(PutHeads(heads, b, i, elm), bs, hm, vw, nEntries + 1);
    }

    /** Put a node in the place of the one with the same key. */
    method PutOver(p: Slot, r: Node, elm: Node, ghost b: nat, ghost i: nat)
      requires Valid() && table != null && IsSlot(p, b, i) && i < |buckets[b]| && r == buckets[b][i]
      requires elm !in home && elm.key == r.key && elm.hash == hashfn(elm.key) && b == Mod(elm.hash, tableLength)
      modifies this`heads, this`buckets, this`home, this`view, this`nEntries, table, Owner(p)`next, elm`next
      ensures Valid() && home.Keys == old(home.Keys) - {r} + {elm} && view == old(view)[elm.key := elm]
      ensures nEntries == old(nEntries)
    {
      assert buckets[b][i] in home;
      HashedSwap(home, hashfn, tableLength, r, elm);
      KeyedSwap(home.Keys, view, r, elm);
      ghost var bs, hm, vw := buckets[b := Put(buckets[b], i, elm)], (home - {r})[elm := b], view[elm.key := elm];
      assert hm == PutHome(home, buckets[b], i, elm, b);
      OrderSize(buckets, b, Put(buckets[b], i, elm), |buckets|);
      PutSlot(table, p, elm, r.next, heads, buckets, home, b, i);
      Note(PutHeads(heads, b, i, elm), bs, hm, vw, nEntries);
    }

    /** Put a node where the link `p` leads: over the one with the same key, or behind the last. */
    method PutThere(p: Slot, r: Node?, elm: Node, ghost b: nat, ghost i: nat)
      requires Valid() && table != null && IsSlot(p, b, i) && r == if i < |buckets[b]| then buckets[b][i] else null
      requires elm !in home && elm.hash == hashfn(elm.key) && b == Mod(elm.hash, tableLength)
      requires r == if elm.key in view then view[elm.key] else null
      modifies this`heads, this`buckets, this`home, this`view, this`nEntries, table, Owner(p)`next, elm`next
      modifies (if r == null then {} else {r})`next
      ensures Valid() && view == old(view)[elm.key := elm]
      ensures home.Keys == (if r == null then old(home.Keys) else old(home.Keys) - {r}) + {elm}
      ensures nEntries == old(nEntries) + (if r == null then 1 else 0)
      ensures r != null ==> r.next == null
    {
      if r != null {
        PutOver(p, r, elm, b, i);
        Detach(r);
      } else {
        PutLast(p, elm, b, i);
      }
    }

    method ReplaceIn(elm: Node) returns (r: Node?)
      requires Valid() && table != null && elm !in home
      modifies this`heads, this`buckets, this`home, this`view, this`nEntries, table, home.Keys`next, elm
      ensures Valid() && r == if elm.key in old(view) then old(view)[elm.key] else null
      ensures view == old(view)[elm.key := elm]
      ensures home.Keys == (if r == null then old(home.Keys) else old(home.Keys) - {r}) + {elm}
      ensures nEntries == old(nEntries) + (if r == null then 1 else 0)
      ensures r != null ==> r.next == null
    {
      SetHash(elm);
      var p; ghost var b, i;
      p, r, b, i := FindP(elm);
      assert p.After? ==> buckets[b][i - 1] in home;
      PutThere(p, r, elm, b, i);
    }

    /** `HT_REPLACE` with an element that is not in the table and whose link is null. */
    method Replace(elm: Node, canMalloc: bool, canRealloc: bool) returns (r: Node?)
      requires Valid() && HasRoom() && (table == null ==> canMalloc || canRealloc)
      requires elm !in home && elm.next == null
      modifies this, table, home.Keys`next, elm
      ensures Valid() && r == if elm.key in old(view) then old(view)[elm.key] else null
      ensures view == old(view)[elm.key := elm]
      ensures home.Keys == (if r == null then old(home.Keys) else old(home.Keys) - {r}) + {elm}
      ensures nEntries == old(nEntries) + (if r == null then 1 else 0)
      ensures r != null ==> r.next == null
      ensures nEntries <= loadLimit <==>
        || old(nEntries < loadLimit || (primeIdx != LAST && (canMalloc || canRealloc)))
        || (r != null && old(nEntries <= loadLimit))
    {
      MakeRoom(canMalloc, canRealloc);
      r := ReplaceIn(elm);
    }

    /** `HT_CLEAR`: the elements themselves are left alone. */
    method Clear()
      modifies this
      ensures Valid() && view == map[] && home == map[]
    {
      table, tableLength, nEntries, loadLimit, primeIdx := null, 0, 0, 0, -1;
      heads, buckets, home, view := [], [], map[], map[];
    }

    /** The first bucket from `from` on that is not empty. */
    method FirstFrom(from: nat) returns (p: Slot, ghost b: nat)
      requires Valid() && from <= tableLength
      ensures p == NoSlot ==> b == tableLength
      ensures p != NoSlot ==> p == Head(b) && b < tableLength && buckets[b] != []
      ensures from <= b && forall c :: from <= c < b ==> buckets[c] == []
    {
      var c := from;
      while c < tableLength
        invariant from <= c <= tableLength
        invariant forall d :: from <= d < c ==> buckets[d] == []
      {
        assert Good(heads, buckets, c);
        if table[c] != null { return Head(c), c; }
        c := c + 1;
      }
      return NoSlot, c;
    }

    /** `p` leads to the node at place `o` of the order, or there is none when the order ends there. */
    ghost predicate Leads(p: Slot, b: nat, i: nat, o: nat)
      reads this`buckets
    {
      if p == NoSlot then o == |All(buckets)|
      else IsSlot(p, b, i) && i < |buckets[b]| && o == Ordinal(buckets, b, i)
    }

    lemma LeadsFirst(p: Slot, from: nat, b: nat)
      requires from <= b <= |buckets| && forall c :: from <= c < b ==> buckets[c] == []
      requires p == NoSlot ==> b == |buckets|
      requires p != NoSlot ==> p == Head(b) && b < |buckets| && buckets[b] != []
      ensures Leads(p, b, 0, Ordinal(buckets, from, 0))
    {
      OrderSkip(buckets, from, b);
    }

    /** `HT_START`. */
    method Start() returns (p: Slot, ghost b: nat)
      requires Valid()
      ensures Leads(p, b, 0, 0)
    {
      p, b := FirstFrom(0);
      LeadsFirst(p, 0, b);
    }

    /** The node a link leads to. */
    function Deref(p: Slot): Node?
      requires p.Head? ==> table != null && p.b < table.Length
      reads this`table, table, Owner(p)
    {
      match p
      case NoSlot => null
      case Head(b) => table[b]
      case After(n) => n.next
    }

    lemma DerefIs(p: Slot, b: nat, i: nat)
      requires Valid() && IsSlot(p, b, i)
      ensures p.Head? ==> table != null && p.b < table.Length
      ensures Deref(p) == if i < |buckets[b]| then buckets[b][i] else null
    {
      assert Good(heads, buckets, b);
    }

    /** `HT_NEXT`: on to the next place of the order. */
    method Next(p: Slot, ghost b: nat, ghost i: nat) returns (q: Slot, ghost b': nat, ghost i': nat)
      requires Valid() && IsSlot(p, b, i) && i < |buckets[b]|
      ensures Leads(q, b', i', Ordinal(buckets, b, i) + 1)
    {
      DerefIs(p, b, i);
      var e := Deref(p);
      assert Good(heads, buckets, b) && home[buckets[b][i]] == b;
      if e.next != null {
        return After(e), b, i + 1;
      }
      i' := 0;
      q, b' := FirstFrom(Mod(e.hash, tableLength) + 1);
      LeadsFirst(q, b + 1, b');
    }

    /** `HT_FOREACH`: every element, in order. */
    method VisitAll() returns (seen: seq<Node>)
      requires Valid()
      ensures seen == All(buckets)
    {
      seen := [];
      var p; ghost var b, i := 0, 0;
      p, b := Start();
      while p != NoSlot
        invariant Leads(p, b, i, |seen|) && |seen| <= |All(buckets)| && seen == All(buckets)[..|seen|]
        decreases |All(buckets)| - |seen|
      {
        DerefIs(p, b, i);
        OrderAt(buckets, b, i);
        seen := seen + [Deref(p)];
        p, b, i := Next(p, b, i);
        LeadsBound(p, b, i, |seen|);
      }
    }

    lemma LeadsBound(p: Slot, b: nat, i: nat, o: nat)
      requires Leads(p, b, i, o)
      ensures o <= |All(buckets)| && (o == |All(buckets)| <==> p == NoSlot)
    {
      if p != NoSlot { OrderAt(buckets, b, i); }
    }

    /** The place in the order stays the same when the node there goes, and so do the ones before it. */
    static lemma OrdinalWithout(bs: Buckets, b: nat, i: nat)
      requires b < |bs| && i < |bs[b]|
      ensures var bs', o := bs[b := Without(bs[b], i)], Ordinal(bs, b, i);
        && o < |All(bs)| && Ordinal(bs', b, i) == o && All(bs') == Without(All(bs), o)
    {
      OrderWithout(bs, b, i, |bs|);
      OrderSame(bs, bs[b := Without(bs[b], i)], b);
    }

    /** The place behind the last node of bucket `b`. */
    static lemma OrdinalNext(bs: Buckets, b: nat)
      requires b < |bs|
      ensures Ordinal(bs, b, |bs[b]|) == Ordinal(bs, b + 1, 0)
    {
    }

    /** The node `p` leads to, or the first one of a later bucket when there is none. */
    method Resume(p: Slot, c: nat, ghost b: nat, ghost i: nat) returns (q: Slot, ghost b': nat, ghost i': nat)
      requires Valid() && IsSlot(p, b, i) && c == b + 1
      ensures Leads(q, b', i', Ordinal(buckets, b, i))
    {
      DerefIs(p, b, i);
      if Deref(p) != null {
        return p, b, i;
      }
      i' := 0;
      q, b' := FirstFrom(c);
      OrdinalNext(buckets, b);
      LeadsFirst(q, c, b');
    }

    /** `HT_NEXT_RMV`: take out the node `p` leads to; what followed it is at its place now. */
    method NextRmv(p: Slot, ghost b: nat, ghost i: nat) returns (q: Slot, ghost b': nat, ghost i': nat)
      requires Valid() && IsSlot(p, b, i) && i < |buckets[b]|
      modifies this`heads, this`buckets, this`home, this`view, this`nEntries, table, Owner(p)`next
      ensures Valid() && home == old(home) - {old(buckets[b][i])} && view == old(view) - {old(buckets[b][i]).key}
      ensures nEntries == old(nEntries) - 1
      ensures old(Ordinal(buckets, b, i) < |All(buckets)|)
      ensures All(buckets) == Without(old(All(buckets)), old(Ordinal(buckets, b, i)))
      ensures Leads(q, b', i', old(Ordinal(buckets, b, i)))
    {
      DerefIs(p, b, i);
      var e := Deref(p);
      assert home[buckets[b][i]] == b;
      OrdinalWithout(buckets, b, i);
      var c := Mod(e.hash, tableLength) + 1;
      TakeOut(p, e, b, i);
      q, b', i' := Resume(p, c, b, i);
    }

    /** Where `HT_FOREACH_FN` stands: it has called `fn` on `calls`, and what is ahead is untouched. */
    ghost predicate Swept(fn: Key -> bool, all: seq<Node>, calls: seq<Node>, b: nat, i: nat)
      reads this`buckets
    {
      b <= |buckets| && Parted(fn, all, calls, All(buckets), Ordinal(buckets, b, i))
    }

    /** The callback wants the element gone. */
    method SweepOut(fn: Key -> bool, p: Slot, r: Node, ghost all: seq<Node>, ghost calls: seq<Node>, ghost b: nat,
                    ghost i: nat)
      requires Valid() && Swept(fn, all, calls, b, i) && fn(r.key)
      requires IsSlot(p, b, i) && i < |buckets[b]| && r == buckets[b][i]
      modifies this`heads, this`buckets, this`home, this`view, this`nEntries, table, Owner(p)`next
      ensures Valid() && Swept(fn, all, calls + [r], b, i) && IsSlot(p, b, i) && home.Keys == old(home.Keys) - {r}
      ensures |buckets| == |old(buckets)| && |buckets[b]| == |old(buckets)[b]| - 1
    {
      OrderAt(buckets, b, i);
      PartedCut(fn, all, calls, All(buckets), Ordinal(buckets, b, i));
      OrdinalWithout(buckets, b, i);
      TakeOut(p, r, b, i);
    }

    lemma SweepOn(fn: Key -> bool, r: Node, all: seq<Node>, calls: seq<Node>, b: nat, i: nat)
      requires Swept(fn, all, calls, b, i) && !fn(r.key) && b < |buckets| && i < |buckets[b]| && r == buckets[b][i]
      ensures Swept(fn, all, calls + [r], b, i + 1)
    {
      OrderAt(buckets, b, i);
      PartedKeep(fn, all, calls, All(buckets), Ordinal(buckets, b, i));
    }

    lemma SweepBucket(fn: Key -> bool, all: seq<Node>, calls: seq<Node>, b: nat)
      requires b < |buckets| && Swept(fn, all, calls, b, |buckets[b]|)
      ensures Swept(fn, all, calls, b + 1, 0)
    {
      OrdinalNext(buckets, b);
    }

    /** One call of the callback; the link moves on unless the element went. */
    method SweepOne(fn: Key -> bool, p: Slot, r: Node, ghost nodes: set<Node>, ghost all: seq<Node>,
                    ghost calls: seq<Node>, ghost b: nat, ghost i: nat)
      returns (p': Slot, ghost i': nat)
      requires Valid() && Swept(fn, all, calls, b, i) && home.Keys <= nodes
      requires IsSlot(p, b, i) && i < |buckets[b]| && r == buckets[b][i]
      modifies this`heads, this`buckets, this`home, this`view, this`nEntries, table, nodes`next
      ensures Valid() && Swept(fn, all, calls + [r], b, i') && IsSlot(p', b, i') && home.Keys <= nodes
      ensures |buckets| == |old(buckets)| && |buckets[b]| - i' == |old(buckets)[b]| - i - 1
    {
      if fn(r.key) {
        OwnerIn(p, b, i);
        SweepOut(fn, p, r, all, calls, b, i);
        return p, i;
      }
      SweepOn(fn, r, all, calls, b, i);
      return After(r), i + 1;
    }

    lemma OwnerIn(p: Slot, b: nat, i: nat)
      requires Valid() && IsSlot(p, b, i)
      ensures Owner(p) <= home.Keys
    {
      if i > 0 { assert buckets[b][i - 1] in home; }
    }

    /** The sweep stands at bucket `b`. */
    ghost predicate Sweeping(fn: Key -> bool, nodes: set<Node>, all: seq<Node>, calls: seq<Node>, b: nat)
      reads this, table, home.Keys
    {
      Valid() && Swept(fn, all, calls, b, 0) && home.Keys <= nodes
    }

    /** One bucket of the sweep. */
    method SweepList(fn: Key -> bool, b: nat, ghost nodes: set<Node>, ghost all: seq<Node>, ghost calls: seq<Node>)
      returns (ghost calls': seq<Node>)
      requires table != null && b < tableLength && Sweeping(fn, nodes, all, calls, b)
      modifies this`heads, this`buckets, this`home, this`view, this`nEntries, table, nodes`next
      ensures Sweeping(fn, nodes, all, calls', b + 1)
    {
      calls' := calls;
      var p := Head(b);
      ghost var i: nat := 0;
      DerefIs(p, b, i);
      var r := Deref(p);
      while r != null
        invariant Valid() && Swept(fn, all, calls', b, i) && home.Keys <= nodes
        invariant IsSlot(p, b, i) && r == if i < |buckets[b]| then buckets[b][i] else null
        decreases |buckets[b]| - i
      {
        var e: Node := r;
        p, i := SweepOne(fn, p, e, nodes, all, calls', b, i);
        calls' := calls' + [e];
        DerefIs(p, b, i);
        r := Deref(p);
      }
      SweepBucket(fn, all, calls', b);
    }

    lemma SweepStart(fn: Key -> bool)
      ensures Swept(fn, All(buckets), [], 0, 0)
    {
      assert All(buckets)[0..] == All(buckets) && [] + All(buckets) == All(buckets);
    }

    method SweepAll(fn: Key -> bool, ghost nodes: set<Node>, ghost all: seq<Node>) returns (ghost calls: seq<Node>)
      requires Valid() && table != null && all == All(buckets) && home.Keys <= nodes
      modifies this`heads, this`buckets, this`home, this`view, this`nEntries, table, nodes`next
      ensures Valid() && Swept(fn, all, calls, |buckets|, 0) && home.Keys <= nodes
    {
      SweepStart(fn);
      calls := SweepFrom(fn, nodes, all);
    }

    method SweepFrom(fn: Key -> bool, ghost nodes: set<Node>, ghost all: seq<Node>) returns (ghost calls: seq<Node>)
      requires table != null && Sweeping(fn, nodes, all, [], 0)
      modifies this`heads, this`buckets, this`home, this`view, this`nEntries, table, nodes`next
      ensures Sweeping(fn, nodes, all, calls, tableLength)
    {
      calls := [];
      var b, n := 0, tableLength;
      while b < n
        invariant 0 <= b <= n == tableLength && Sweeping(fn, nodes, all, calls, b)
      {
        calls := SweepList(fn, b, nodes, all, calls);
        b := b + 1;
      }
    }

    /**
     * `HT_FOREACH_FN`: the callback is called once for each element, in order, and the elements
     * it asks to be removed are the ones that go.
     */
    method ForeachFn(fn: Key -> bool) returns (ghost calls: seq<Node>)
      requires Valid()
      modifies this`heads, this`buckets, this`home, this`view, this`nEntries, table, home.Keys`next
      ensures Valid() && calls == old(All(buckets)) && All(buckets) == Kept(fn, old(All(buckets)))
    {
      if table == null { return []; }
      ghost var all := All(buckets);
      calls := SweepAll(fn, home.Keys, all);
      PartedEnd(fn, all, calls, All(buckets));
    }

    /** The lists can be walked; nothing is said about hashes, places, sizes or counts. */
    ghost predicate Walkable()
      reads this, table, home.Keys
    {
      && Racked(heads, buckets, home) && primeIdx <= LAST
      && |buckets| == (if table == null then 0 else table.Length)
      && (table != null && tableLength > 0 ==> table.Length == tableLength)
      && (table != null ==> Shows(table, heads))
    }

    /** What `HT_REP_IS_BAD_` calls internally consistent. */
    ghost predicate Consistent()
      requires primeIdx <= LAST
      reads this, table, home.Keys
    {
      if tableLength == 0 then table == null && nEntries == 0 && loadLimit == 0 && primeIdx == -1
      else
        && table != null && primeIdx >= 0 && loadLimit != 0 && nEntries <= loadLimit
        && tableLength == PRIMES[primeIdx] && loadLimit == Limit(tableLength)
        && Hashed(home, hashfn, tableLength) && nEntries == |home.Keys|
    }

    /** The nodes of bucket `b` carry the hash of their keys and belong there. */
    ghost predicate ListOk(b: nat, i: nat)
      requires b < |buckets| && i <= |buckets[b]| && tableLength > 0
      reads this, if b < |buckets| then buckets[b] else []
    {
      forall j {:trigger buckets[b][j]} :: 0 <= j < i ==>
        buckets[b][j].hash == hashfn(buckets[b][j].key) && Mod(buckets[b][j].hash, tableLength) == b
    }

    /** One bucket of the check: its length, or the code of the first fault. */
    method CheckList(b: nat) returns (bad: int, n: nat)
      requires Walkable() && table != null && b < tableLength
      ensures bad == 0 <==> ListOk(b, |buckets[b]|)
      ensures bad == 0 ==> n == |buckets[b]|
    {
      bad, n := 0, 0;
      assert Good(heads, buckets, b);
      var elm := table[b];
      while elm != null
        invariant n <= |buckets[b]| && ListOk(b, n)
        invariant elm == if n < |buckets[b]| then buckets[b][n] else null
        decreases |buckets[b]| - n
      {
        assert elm == buckets[b][n];
        if elm.hash != hashfn(elm.key) { return 1000 + b, n; }
        if Mod(elm.hash, tableLength) != b { return 10000 + b, n; }
        n, elm := n + 1, elm.next;
      }
    }

    lemma HashedLists()
      requires Racked(heads, buckets, home) && |buckets| == tableLength > 0
      ensures Hashed(home, hashfn, tableLength) <==> forall b :: 0 <= b < |buckets| ==> ListOk(b, |buckets[b]|)
    {
      if forall b :: 0 <= b < |buckets| ==> ListOk(b, |buckets[b]|) {
        forall n | n in home ensures n.hash == hashfn(n.key) && home[n] == Mod(n.hash, tableLength) {
          var b := home[n];
          assert ListOk(b, |buckets[b]|) && n in buckets[b];
          var j :| 0 <= j < |buckets[b]| && buckets[b][j] == n;
          assert Mod(buckets[b][j].hash, tableLength) == b;
        }
      }
      if Hashed(home, hashfn, tableLength) {
        forall b | 0 <= b < |buckets| ensures ListOk(b, |buckets[b]|) {
          forall j | 0 <= j < |buckets[b]|
            ensures buckets[b][j].hash == hashfn(buckets[b][j].key) && Mod(buckets[b][j].hash, tableLength) == b
          {
            assert home[buckets[b][j]] == b;
          }
        }
      }
    }

    /** All buckets of the check: how many nodes there are, or the code of the first fault. */
    method CheckLists() returns (bad: int, n: nat)
      requires Walkable() && table != null && tableLength > 0
      ensures bad == 0 <==> forall b :: 0 <= b < |buckets| ==> ListOk(b, |buckets[b]|)
      ensures bad == 0 ==> n == |Order(buckets, |buckets|)|
    {
      bad, n := 0, 0;
      var b := 0;
      while b < tableLength
        invariant b <= tableLength && n == |Order(buckets, b)|
        invariant forall c :: 0 <= c < b ==> ListOk(c, |buckets[c]|)
      {
        var m;
        bad, m := CheckList(b);
        if bad != 0 { return; }
        n, b := n + m, b + 1;
      }
      bad := 0;
    }

    /** `HT_REP_IS_BAD_` returns zero for the consistent tables and no others. */
    method RepIsBad() returns (r: int)
      requires Walkable()
      ensures r == 0 <==> Consistent()
    {
      if tableLength == 0 {
        return if table == null && nEntries == 0 && loadLimit == 0 && primeIdx == -1 then 0 else 1;
      }
      if table == null || primeIdx < 0 || loadLimit == 0 { return 2; }
      if nEntries > loadLimit { return 3; }
      if tableLength != PRIMES[primeIdx] { return 4; }
      if loadLimit != Limit(tableLength) { return 5; }
      var n;
      r, n := CheckLists();
      HashedLists();
      if r != 0 { return; }
      Counted(heads, buckets, home);
      if n != nEntries { return 6; }
    }

    /** A table that every operation has kept valid is consistent exactly while its load limit is kept. */
    lemma ValidConsistent()
      requires Valid()
      ensures Walkable() && (Consistent() <==> nEntries <= loadLimit)
    {
      if tableLength == 0 {
        Counted(heads, buckets, home);
      } else {
        LimitPositive(primeIdx);
        Counted(heads, buckets, home);
      }
    }
  }

  lemma LimitPositive(i: nat)
    requires i <= LAST
    ensures Limit(PRIMES[i]) > 0
  {
    if i > 0 { PrimesGrow(0, i); }
  }
}
