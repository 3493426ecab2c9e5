/**
 An evbuffer: a byte queue kept as a singly linked list of chains, after `buffer.c`.

 `last_with_datap` is a pointer to whichever `next` field points at the last chain with
 data; the model names the owner of that field (`null` stands for `&buf->first`).
 */
module Evbuffer {
  import opened Octets
  import opened Chains
  import opened Flattening
  import opened Options
  import opened Widths

  const MAX_AUTO_SIZE: nat := 4096
  const MAX_TO_COPY_IN_EXPAND: nat := 4096
  const MAX_TO_REALIGN_IN_EXPAND: nat := 2048

  ghost function Memory(cs: seq<Chain>): set<object> {
    set c | c in cs :: c.buffer
  }

  ghost predicate Unshared(cs: seq<Chain>, i: nat, j: nat)
    requires i < |cs| && j < |cs|
  {
    cs[i] != cs[j] && cs[i].buffer != cs[j].buffer
  }

  /** No chain occurs twice and no two share memory. */
  ghost predicate Separate(cs: seq<Chain>) {
    forall i: nat, j: nat {:trigger Unshared(cs, i, j)} :: i < |cs| && j < |cs| && i != j ==> Unshared(cs, i, j)
  }

  ghost predicate Outside(c: Chain, cs: seq<Chain>) {
    forall i :: 0 <= i < |cs| ==> cs[i] != c && cs[i].buffer != c.buffer
  }

  lemma ApartFrom(cs: seq<Chain>, k: nat)
    requires Separate(cs) && k < |cs|
    ensures forall i :: 0 <= i < |cs| && i != k ==> cs[i] != cs[k] && cs[i].buffer != cs[k].buffer
  {
    forall i: nat | i < |cs| && i != k ensures cs[i] != cs[k] && cs[i].buffer != cs[k].buffer {
      assert Unshared(cs, i, k);
    }
  }

  lemma SeparateSlice(cs: seq<Chain>, lo: nat, hi: nat)
    requires Separate(cs) && lo <= hi <= |cs|
    ensures Separate(cs[lo..hi])
  {
    forall i: nat, j: nat | i < hi - lo && j < hi - lo && i != j ensures Unshared(cs[lo..hi], i, j) {
      assert Unshared(cs, lo + i, lo + j);
    }
  }

  lemma SeparateConcat(a: seq<Chain>, b: seq<Chain>)
    requires Separate(a) && Separate(b) && forall i :: 0 <= i < |b| ==> Outside(b[i], a)
    ensures Separate(a + b)
  {
    forall i: nat, j: nat | i < |a + b| && j < |a + b| && i != j ensures Unshared(a + b, i, j) {
      if i < |a| && j < |a| {
        assert Unshared(a, i, j);
      } else if |a| <= i && |a| <= j {
        assert Unshared(b, i - |a|, j - |a|);
      } else if i < |a| {
        assert Outside(b[j - |a|], a);
      } else {
        assert Outside(b[i - |a|], a);
      }
    }
  }

  lemma SeparateUpdate(cs: seq<Chain>, k: nat, c: Chain)
    requires Separate(cs) && Outside(c, cs) && k < |cs|
    ensures Separate(cs[k := c])
  {
    var cs' := cs[k := c];
    forall i: nat, j: nat | i < |cs| && j < |cs| && i != j ensures Unshared(cs', i, j) {
      assert Unshared(cs, i, j);
    }
  }

  lemma SeparateSnoc(cs: seq<Chain>, c: Chain)
    requires Separate(cs) && Outside(c, cs)
    ensures Separate(cs + [c])
  {
    SeparateConcat(cs, [c]);
  }

  lemma SeparateCons(c: Chain, cs: seq<Chain>)
    requires Separate(cs) && Outside(c, cs)
    ensures Separate([c] + cs)
  {
    SeparateConcat([c], cs);
  }

  /** Each chain's `next` is the chain after it. */
  ghost predicate Linked(cs: seq<Chain>)
    reads cs`next
  {
    forall i {:trigger cs[i].next} :: 0 <= i < |cs| ==>
      cs[i].next == (if i + 1 < |cs| then cs[i + 1] else null)
  }

  /** Each chain holds its bytes, inside its memory. */
  ghost predicate Stored(cs: seq<Chain>, d: seq<seq<byte>>)
    reads cs`misalign, cs`off, Memory(cs)
  {
    && |d| == |cs|
    && (forall i {:trigger cs[i].Holds(d[i])} :: 0 <= i < |cs| ==> cs[i].Holds(d[i]))
  }

  ghost function Head(cs: seq<Chain>): Chain? {
    if cs == [] then null else cs[0]
  }

  ghost function Tail(cs: seq<Chain>): Chain? {
    if cs == [] then null else cs[|cs| - 1]
  }

  /** Chains with data come first, `n` of them, and `owner` leads to the last of them. */
  ghost predicate InOrder(cs: seq<Chain>, d: seq<seq<byte>>, n: nat, owner: Chain?) {
    && n <= |d| == |cs|
    && (forall i :: 0 <= i < n ==> d[i] != [])
    && (forall i :: n <= i < |d| ==> d[i] == [])
    && owner == (if n <= 1 then null else cs[n - 2])
  }

  lemma InOrderAppend(cs: seq<Chain>, d: seq<seq<byte>>, owner: Chain?, c: Chain, x: seq<byte>)
    requires InOrder(cs, d, |cs|, owner)
    ensures x == [] ==> InOrder(cs + [c], d + [x], |cs|, owner)
    ensures x != [] ==> InOrder(cs + [c], d + [x], |cs| + 1, Tail(cs))
  {
  }

  /** The position of the chain that `last_with_datap` leads to. */
  ghost function LastFull(n: nat): nat {
    if n == 0 then 0 else n - 1
  }

  lemma InOrderGrow(cs: seq<Chain>, d: seq<seq<byte>>, n: nat, owner: Chain?, x: seq<byte>)
    requires InOrder(cs, d, n, owner) && cs != []
    ensures var k := LastFull(n);
      InOrder(cs, d[k := d[k] + x], if x == [] then n else k + 1, owner)
  {
  }

  lemma InOrderFront(cs: seq<Chain>, d: seq<seq<byte>>, n: nat, owner: Chain?, x: seq<byte>)
    requires InOrder(cs, d, n, owner) && cs != []
    ensures InOrder(cs, d[0 := x + d[0]], if x != [] && n == 0 then 1 else n, owner)
  {
  }

  lemma InOrderPush(c: Chain, cs: seq<Chain>, d: seq<seq<byte>>, n: nat, owner: Chain?, x: seq<byte>)
    requires InOrder(cs, d, n, owner) && 0 < n && x != []
    ensures InOrder([c] + cs, [x] + d, n + 1, if owner == null then c else owner)
  {
  }

  lemma InOrderDrop(cs: seq<Chain>, d: seq<seq<byte>>, n: nat, owner: Chain?, k: nat, left: nat)
    requires InOrder(cs, d, n, owner) && k < n && left < |d[k]|
    ensures InOrder(cs[k..], Dropped(d, k, left), n - k, if k == n - 1 then null else owner)
    ensures Tail(cs[k..]) == Tail(cs)
  {
  }

  /** What pulling up to byte `left` of chain `k` into `tmp` does to the list. */
  ghost function Pulled(d: seq<seq<byte>>, k: nat, left: nat): seq<seq<byte>>
    requires k < |d| && left <= |d[k]|
  {
    [Flatten(d[..k]) + d[k][..left]] + d[k := d[k][left..]][k..]
  }

  lemma PulledFacts(tmp: Chain, cs: seq<Chain>, d: seq<seq<byte>>, n: nat, owner: Chain?, k: nat, left: nat)
    requires InOrder(cs, d, n, owner) && 0 < k < n && left < |d[k]| && Flatten(d[..k]) != []
    ensures InOrder([tmp] + cs[k..], Pulled(d, k, left), n - k + 1, if k == n - 1 then tmp else owner)
    ensures Flatten(Pulled(d, k, left)) == Flatten(d)
    ensures Tail([tmp] + cs[k..]) == Tail(cs)
  {
    FlattenPull(d, k, left);
  }

  /** No chain or memory is in both lists. */
  ghost predicate Disjoint(a: seq<Chain>, b: seq<Chain>) {
    forall i :: 0 <= i < |b| ==> Outside(b[i], a)
  }

  lemma DisjointParts(cs: seq<Chain>, k: nat)
    requires Separate(cs) && k <= |cs|
    ensures Disjoint(cs[k..], cs[..k])
  {
    forall i | 0 <= i < k ensures Outside(cs[..k][i], cs[k..]) {
      ApartFrom(cs, i);
    }
  }

  lemma DisjointSplit(a: seq<Chain>, b: seq<Chain>, k: nat)
    requires Disjoint(a, b) && k <= |b|
    ensures Disjoint(a, b[..k]) && Disjoint(a, b[k..])
  {
    assert forall i :: 0 <= i < |b| ==> Outside(b[i], a);
  }

  /** Chains that move from `b` to `a` are still in one list only. */
  lemma DisjointMoved(a: seq<Chain>, n: nat, b: seq<Chain>, k: nat)
    requires Disjoint(a, b) && Separate(b) && n <= |a| && k <= |b|
    ensures Disjoint(a[..n] + b[..k], b[k..])
  {
    forall i | 0 <= i < |b| - k ensures Outside(b[k..][i], a[..n] + b[..k]) {
      assert Outside(b[k + i], a);
      ApartFrom(b, k + i);
    }
  }

  lemma DisjointPrefix(a: seq<Chain>, b: seq<Chain>, n: nat)
    requires Disjoint(a, b) && n <= |a|
    ensures Disjoint(a[..n], b)
  {
    forall i | 0 <= i < |b| ensures Outside(b[i], a[..n]) {
      assert Outside(b[i], a);
    }
  }

  /** What is left of the order when the first `k` chains go. */
  lemma InOrderRest(cs: seq<Chain>, d: seq<seq<byte>>, n: nat, owner: Chain?, k: nat)
    requires InOrder(cs, d, n, owner) && k < n
    ensures InOrder(cs[k..], d[k..], n - k, if k == n - 1 then null else owner)
    ensures Tail(cs[k..]) == Tail(cs)
  {
  }

  lemma DisjointFrom(a: seq<Chain>, a': seq<Chain>, b: seq<Chain>)
    requires Disjoint(a, b)
    requires forall x :: x in a' ==> x in a || (x !in b && x.buffer !in Memory(b))
    ensures Disjoint(a', b)
  {
    forall i, j | 0 <= i < |b| && 0 <= j < |a'| ensures a'[j] != b[i] && a'[j].buffer != b[i].buffer {
      var x := a'[j];
      if x in a {
        var m :| 0 <= m < |a| && a[m] == x;
        assert Outside(b[i], a);
      } else {
        assert x in a' && b[i] in b;
      }
    }
  }

  lemma TakeTwice(t: seq<byte>, s: seq<byte>, a: nat, b: nat)
    requires a + b <= |s|
    ensures t + s[..a] + s[a..][..b] == t + s[..a + b] && s[a..][b..] == s[a + b..]
  {
  }

  lemma TakeAll(t: seq<byte>, s: seq<byte>)
    ensures t + s[..|s|] == t + s && s[|s|..] == [] && (s == [] ==> t + s == t)
  {
    assert s[..|s|] == s;
  }

  lemma TakeNone(a: seq<byte>, b: seq<byte>)
    ensures a + b[..0] == a && b[0..] == b
  {
  }

  /** Behind `total` bytes, `n` more can be had: in chain `c`, realigned if that is worth it, or in a new one. */
  predicate Takes(c: Chain?, total: nat, n: nat, mem: bool)
    reads {c}`misalign, {c}`off
  {
    && n <= SIZE_MAX - total
    && ((mem && Allocatable(n)) || (c != null && HasRoom(c, n)))
  }

  /** Chain `c` can take `n` more bytes, as it is or realigned. */
  predicate HasRoom(c: Chain, n: nat)
    reads c`misalign, c`off
  {
    c.misalign + c.off + n <= c.buffer.Length || ShouldRealign(c, n)
  }

  /** What a new chain is to hold when `n` bytes do not fit one of `cap`: twice that, within limits, or all of them. */
  function Spill(cap: nat, n: nat): nat {
    var twice := if cap <= MAX_AUTO_SIZE / 2 then cap * 2 else cap;
    if twice < n then n else twice
  }

  /** Is it worth moving the bytes of `c` down to make room for `n` more? */
  predicate ShouldRealign(c: Chain, n: nat)
    reads c`off
  {
    c.buffer.Length - c.off >= n && c.off < c.buffer.Length / 2 && c.off <= MAX_TO_REALIGN_IN_EXPAND
  }

  /** A position in an evbuffer: the offset from its start, and where that is in the chains. */
  datatype Ptr = Ptr(pos: int, chain: Chain?, posInChain: nat)

  class Evbuffer {
    var first: Chain?
    var last: Chain?
    var lastWithData: Chain?
    var totalLen: nat
    var freezeStart: bool
    var freezeEnd: bool

    ghost var chains: seq<Chain>
    ghost var data: seq<seq<byte>>
    ghost var full: nat

    ghost function Footprint(): set<object>
      reads this`chains
    {
      {this} + Parts()
    }

    /** The chains and their memory. */
    ghost function Parts(): set<object>
      reads this`chains
    {
      (set c: object | c in chains) + Memory(chains)
    }

    /** The chain that an add writes to first. */
    ghost function Taker(): Chain?
      reads this`chains, this`full
    {
      if LastFull(full) < |chains| then chains[LastFull(full)] else null
    }

    /** The list from `first` on, without the cached fields. */
    ghost predicate Built()
      reads this`first, this`chains, this`data, chains, Memory(chains)
    {
      && Separate(chains)
      && Linked(chains)
      && Stored(chains, data)
      && first == Head(chains)
    }

    ghost predicate Valid()
      reads this, chains, Memory(chains)
    {
      && Built()
      && InOrder(chains, data, full, lastWithData)
      && last == Tail(chains)
      && totalLen == |Flatten(data)|
    }

    /** The byte queue that the chains stand for. */
    ghost function Contents(): seq<byte>
      reads this`data
    {
      Flatten(data)
    }

    constructor ()
      ensures Valid() && chains == [] && Contents() == [] && fresh(Footprint())
      ensures !freezeStart && !freezeEnd
    {
      first, last, lastWithData, totalLen := null, null, null, 0;
      freezeStart, freezeEnd := false, false;
      chains, data, full := [], [], 0;
    }

    /** The chain that `*last_with_datap` names. */
    method LastWithData() returns (c: Chain?)
      requires Valid()
      ensures c == if |chains| == 0 then null else chains[LastFull(full)]
    {
      c := if lastWithData == null then first else lastWithData.next;
    }

    /** Walk from `last_with_datap` to the first empty chain. */
    method FindTrailing() returns (owner: Chain?, c: Chain?)
      requires Valid()
      ensures owner == (if full == 0 then null else chains[full - 1])
      ensures c == if full == |chains| then null else chains[full]
    {
      owner := lastWithData;
      ghost var k := if full <= 1 then 0 else full - 1;
      c := if owner == null then first else owner.next;
      while c != null && c.off != 0
        invariant k <= full && k <= |chains|
        invariant owner == (if k == 0 then null else chains[k - 1])
        invariant c == if k == |chains| then null else chains[k]
        decreases |chains| - k
      {
        assert chains[k].Holds(data[k]);
        owner := c;
        c := c.next;
        k := k + 1;
      }
      if k < |chains| { assert chains[k].Holds(data[k]); }
    }

    ghost function Owner(n: nat): set<Chain>
      requires n <= |chains|
      reads this`chains
    {
      if n == 0 then {} else {chains[n - 1]}
    }

    /** End the list after `n` chains. */
    method Cut(owner: Chain?, ghost n: nat)
      requires Built() && n <= |chains|
      requires owner == (if n == 0 then null else chains[n - 1])
      modifies this`first, this`chains, this`data, Owner(n)`next
      ensures Built()
      ensures chains == old(chains)[..n] && data == old(data)[..n]
    {
      SeparateSlice(chains, 0, n);
      if owner == null {
        first := null;
      } else {
        ApartFrom(chains, n - 1);
        owner.next := null;
      }
      chains := chains[..n];
      data := data[..n];
    }

    method FreeTrailingEmptyChains() returns (owner: Chain?)
      requires Valid()
      modifies this`first, this`chains, this`data, Owner(full)`next
      ensures owner == (if full == 0 then null else old(chains)[full - 1])
      ensures chains == old(chains)[..full] && data == old(data)[..full]
      ensures Built() && InOrder(chains, data, full, lastWithData)
    {
      var c;
      owner, c := FindTrailing();
      if c != null {
        Cut(owner, full);
      } else {
        assert chains[..full] == chains && data[..full] == data;
      }
    }

    /** Hang `chain` on the end of the list. */
    method Hang(owner: Chain?, chain: Chain, ghost d: seq<byte>)
      requires Built()
      requires owner == Tail(chains)
      requires chain.next == null && chain.Holds(d)
      requires Outside(chain, chains)
      modifies this`first, this`chains, this`data, Owner(|chains|)`next
      ensures Built()
      ensures chains == old(chains) + [chain] && data == old(data) + [d]
    {
      SeparateSnoc(chains, chain);
      if owner == null {
        first := chain;
      } else {
        ApartFrom(chains, |chains| - 1);
        owner.next := chain;
      }
      chains := chains + [chain];
      data := data + [d];
    }

    /** Bring the cached fields up to date with the list. */
    method Repair(lwd: Chain?, tail: Chain?, len: nat, ghost n: nat)
      requires Built() && InOrder(chains, data, n, lwd) && tail == Tail(chains) && len == |Flatten(data)|
      modifies this`lastWithData, this`last, this`totalLen, this`full
      ensures Valid() && full == n && lastWithData == lwd
    {
      lastWithData, last, totalLen, full := lwd, tail, len, n;
    }

    /** Add `chain` behind chains that all hold data. */
    method AppendChain(owner: Chain?, chain: Chain, ghost d: seq<byte>)
      requires Built() && InOrder(chains, data, full, lastWithData) && full == |chains|
      requires owner == Tail(chains)
      requires totalLen == |Flatten(data)|
      requires chain.next == null && chain.Holds(d)
      requires Outside(chain, chains)
      modifies this`first, this`last, this`lastWithData, this`totalLen
      modifies this`chains, this`data, this`full, Owner(full)`next
      ensures Valid()
      ensures chains == old(chains) + [chain] && data == old(data) + [d]
      ensures Contents() == old(Contents()) + d
    {
      FlattenSnoc(data, d);
      InOrderAppend(chains, data, lastWithData, chain, d);
      Hang(owner, chain, d);
      Repair(if chain.off != 0 then owner else lastWithData, chain, totalLen + chain.off,
             if d != [] then full + 1 else full);
    }

    method ChainInsert(chain: Chain, ghost d: seq<byte>)
      requires Valid()
      requires chain.next == null && chain.Holds(d)
      requires Outside(chain, chains)
      modifies this`first, this`last, this`lastWithData, this`totalLen
      modifies this`chains, this`data, this`full, Owner(full)`next
      ensures Valid()
      ensures chains == old(chains)[..old(full)] + [chain]
      ensures data == old(data)[..old(full)] + [d]
      ensures Contents() == old(Contents()) + d
      ensures forall x :: x in chains ==> x in old(chains) || x == chain
    {
      FlattenPrefix(data, full);
      var owner := FreeTrailingEmptyChains();
      AppendChain(owner, chain, d);
    }

    /** Write `src` behind the bytes of chain `k`. */
    method Write(c: Chain, src: seq<byte>, ghost k: nat)
      requires Separate(chains) && Stored(chains, data) && k < |chains| && c == chains[k]
      requires c.misalign + c.off + |src| <= c.buffer.Length
      modifies this`data, c`off, c.buffer
      ensures Stored(chains, data)
      ensures data == old(data)[k := old(data)[k] + src]
    {
      ApartFrom(chains, k);
      c.AppendBytes(src, data[k]);
      data := data[k := data[k] + src];
    }

    /** The current last chain has room for all of `src`. */
    method AddInPlace(c: Chain, src: seq<byte>)
      requires Valid() && |chains| > 0 && c == chains[LastFull(full)]
      requires c.misalign + c.off + |src| <= c.buffer.Length
      modifies this`data, this`full, this`totalLen, this`lastWithData, this`last, c`off, c.buffer
      ensures Valid()
      ensures full == if src == [] then old(full) else LastFull(old(full)) + 1
      ensures Contents() == old(Contents()) + src
    {
      ghost var k := LastFull(full);
      InOrderGrow(chains, data, full, lastWithData, src);
      FlattenGrow(data, k, src);
      Write(c, src, k);
      Repair(lastWithData, last, totalLen + |src|, if src == [] then full else k + 1);
    }

    /** Fill what room chain `c` has, then put the rest in a new chain. */
    method AddSpill(c: Chain, remain: nat, src: seq<byte>, tmp: Chain)
      requires Valid() && |chains| > 0 && c == chains[LastFull(full)]
      requires c.misalign + c.off + remain == c.buffer.Length && remain < |src|
      requires Outside(tmp, chains)
      requires tmp.next == null && tmp.misalign == 0 && tmp.Holds([]) && |src| <= tmp.buffer.Length
      modifies this`first, this`last, this`lastWithData, this`totalLen
      modifies this`chains, this`data, this`full, c`off, c`next, c.buffer, tmp`off, tmp.buffer
      ensures Valid()
      ensures Contents() == old(Contents()) + src && last == tmp
      ensures forall x :: x in chains ==> x in old(chains) || x == tmp
    {
      var a, b := src[..remain], src[remain..];
      assert Contents() + a + b == Contents() + src;
      tmp.AppendBytes(b, []);
      assert [] + b == b;
      AddInPlace(c, a);
      ChainInsert(tmp, b);
    }

    /** No chain yet: allocate one big enough for everything. */
    method AddFirst(src: seq<byte>, mem: bool) returns (r: int)
      requires Valid() && chains == []
      modifies this`first, this`last, this`lastWithData, this`totalLen
      modifies this`chains, this`data, this`full
      ensures Valid()
      ensures forall x :: x in chains ==> fresh(x) && fresh(x.buffer)
      ensures r == if mem && Allocatable(|src|) then 0 else -1
      ensures Contents() == if r == 0 then old(Contents()) + src else old(Contents())
    {
      var chain := NewChain(|src|, mem);
      if chain == null {
        return -1;
      }
      ChainInsert(chain, []);
      AddInPlace(chain, src);
      return 0;
    }

    /** Use the room in `chain`, realign it, or spill into a new chain. */
    method AddMore(chain: Chain, src: seq<byte>, mem: bool) returns (r: int)
      requires Valid() && chains != [] && chain == chains[LastFull(full)]
      modifies this`first, this`last, this`lastWithData, this`totalLen
      modifies this`chains, this`data, this`full, chain, chain.buffer
      ensures Valid()
      ensures forall x :: x in chains && x !in old(chains) ==> fresh(x) && fresh(x.buffer)
      ensures |src| <= SIZE_MAX - old(totalLen) ==> r == if old(Takes(chain, totalLen, |src|, mem)) then 0 else -1
      ensures r == 0 || r == -1
      ensures Contents() == if r == 0 then old(Contents()) + src else old(Contents())
      ensures r == 0 && !old(HasRoom(chain, |src|)) ==>
        && last != null && last !in old(chains)
        && Sized(last.buffer.Length + CHAIN_SIZE, Spill(chain.buffer.Length, |src|) + CHAIN_SIZE)
    {
      assert chains[LastFull(full)].Holds(data[LastFull(full)]);
      var remain := chain.buffer.Length - chain.misalign - chain.off;
      if |src| <= remain {
        AddInPlace(chain, src);
        return 0;
      }
      if ShouldRealign(chain, |src|) {
        ApartFrom(chains, LastFull(full));
        chain.Align(data[LastFull(full)]);
        AddInPlace(chain, src);
        return 0;
      }
      var toAlloc := chain.buffer.Length;
      if toAlloc <= MAX_AUTO_SIZE / 2 {
        toAlloc := toAlloc * 2;
      }
      if toAlloc < |src| {
        toAlloc := |src|;
      }
      var tmp := NewChain(toAlloc, mem);
      if tmp == null {
        return -1;
      }
      AddSpill(chain, remain, src, tmp);
      return 0;
    }

    /** All of `src` at the end, or nothing at all. */
    method Add(src: seq<byte>, mem: bool) returns (r: int)
      requires Valid()
      modifies this`first, this`last, this`lastWithData, this`totalLen, this`chains, this`data, this`full, Parts()
      ensures Valid()
      ensures forall x :: x in chains && x !in old(chains) ==> fresh(x) && fresh(x.buffer)
      ensures r == if !freezeEnd && old(Takes(Taker(), totalLen, |src|, mem)) then 0 else -1
      ensures Contents() == if r == 0 then old(Contents()) + src else old(Contents())
      ensures r == 0 && old(Taker() != null && !HasRoom(Taker(), |src|)) ==>
        && last != null && last !in old(chains)
        && Sized(last.buffer.Length + CHAIN_SIZE, Spill(old(Taker().buffer.Length), |src|) + CHAIN_SIZE)
    {
      if freezeEnd || SIZE_MAX - totalLen < |src| {
        return -1;
      }
      var chain := LastWithData();
      if chain == null {
        r := AddFirst(src, mem);
      } else {
        r := AddMore(chain, src, mem);
      }
    }

    /** Write `src` in front of the bytes of the first chain. */
    method AddFront(c: Chain, src: seq<byte>)
      requires Valid() && chains != [] && c == first && |src| <= c.misalign
      modifies this`data, this`full, this`totalLen, this`lastWithData, this`last
      modifies c`off, c`misalign, c.buffer
      ensures Valid() && c.misalign == old(c.misalign) - |src|
      ensures full == if src != [] && old(full) == 0 then 1 else old(full)
      ensures Contents() == src + old(Contents())
    {
      InOrderFront(chains, data, full, lastWithData, src);
      FlattenFront(data, src);
      ApartFrom(chains, 0);
      c.PrependBytes(src, data[0]);
      data := data[0 := src + data[0]];
      Repair(lastWithData, last, totalLen + |src|, if src != [] && full == 0 then 1 else full);
    }

    /** Make `tmp` the head of the list, before `c`. */
    method Lead(tmp: Chain, c: Chain, ghost d: seq<byte>)
      requires Built() && first == c
      requires Outside(tmp, chains) && tmp.Holds(d)
      modifies this`first, this`chains, this`data, tmp`next
      ensures Built()
      ensures chains == [tmp] + old(chains) && data == [d] + old(data)
    {
      SeparateCons(tmp, chains);
      first := tmp;
      tmp.next := c;
      chains := [tmp] + chains;
      data := [d] + data;
    }

    /** Put the new chain `tmp` before the chain `c` that has been first so far. */
    method PushFront(tmp: Chain, c: Chain, ghost d: seq<byte>)
      requires Valid() && 0 < full && c == first && d != []
      requires Outside(tmp, chains) && tmp.Holds(d)
      modifies this`first, this`last, this`lastWithData, this`totalLen
      modifies this`chains, this`data, this`full, tmp`next
      ensures Valid()
      ensures chains == [tmp] + old(chains) && data == [d] + old(data)
      ensures Contents() == d + old(Contents())
    {
      InOrderPush(tmp, chains, data, full, lastWithData, d);
      assert Flatten([d] + data) == d + Flatten(data) by {
        FlattenCons(d, data);
      }
      assert Tail([tmp] + chains) == Tail(chains);
      Lead(tmp, c, d);
      Repair(if lastWithData == null then tmp else lastWithData, last, totalLen + tmp.off, full + 1);
    }

    /** The room that `evbuffer_prepend` finds in front of the first chain's bytes. */
    ghost function FrontRoom(): nat
      reads this`first, first
    {
      if first == null then 0 else if first.off == 0 then first.buffer.Length else first.misalign
    }

    /** Treat an empty first chain as empty at the beginning. */
    method OpenFront(c: Chain)
      requires Valid() && chains != [] && c == first
      modifies c`misalign
      ensures Valid() && c.misalign == old(FrontRoom())
    {
      ApartFrom(chains, 0);
      assert chains[0].Holds(data[0]);
      if c.off == 0 {
        c.misalign := c.buffer.Length;
      }
    }

    method PrependRest(c: Chain, src: seq<byte>, mem: bool) returns (r: int)
      requires Valid() && 0 < full && c == first && src != []
      modifies this`first, this`last, this`lastWithData, this`totalLen
      modifies this`chains, this`data, this`full
      ensures Valid()
      ensures forall x :: x in chains && x !in old(chains) ==> fresh(x) && fresh(x.buffer)
      ensures r == if mem && Allocatable(|src|) then 0 else -1
      ensures Contents() == if r == 0 then src + old(Contents()) else old(Contents())
    {
      var tmp := NewChainAtEnd(src, mem);
      if tmp == null {
        return -1;
      }
      PushFront(tmp, c, src);
      return 0;
    }

    method PrependTo(c: Chain, src: seq<byte>, mem: bool) returns (r: int)
      requires Valid() && chains != [] && c == first
      modifies this`first, this`last, this`lastWithData, this`totalLen
      modifies this`chains, this`data, this`full, c, c.buffer
      ensures Valid()
      ensures forall x :: x in chains && x !in old(chains) ==> fresh(x) && fresh(x.buffer)
      ensures r == if |src| <= old(FrontRoom()) || (mem && Allocatable(|src| - old(FrontRoom()))) then 0 else -1
      ensures r == 0 ==> Contents() == src + old(Contents())
      ensures r == -1 ==> Contents() == src[|src| - old(FrontRoom())..] + old(Contents())
    {
      OpenFront(c);
      assert chains[0].Holds(data[0]);
      if |src| <= c.misalign {
        AddFront(c, src);
        return 0;
      }
      var k := |src| - c.misalign;
      ghost var was := Contents();
      assert src == src[..k] + src[k..];
      assert src[..k] + (src[k..] + was) == src + was;
      assert [] + was == was;
      if c.misalign != 0 {
        AddFront(c, src[k..]);
      }
      r := PrependRest(c, src[..k], mem);
    }

    /** `src` in front.  When memory runs out, the tail of `src` that fitted has already been added. */
    method Prepend(src: seq<byte>, mem: bool) returns (r: int)
      requires Valid()
      modifies Footprint()
      ensures Valid()
      ensures forall x :: x in chains && x !in old(chains) ==> fresh(x) && fresh(x.buffer)
      ensures freezeStart == old(freezeStart) && freezeEnd == old(freezeEnd)
      ensures r == 0 || r == -1
      ensures r == 0 ==> Contents() == src + old(Contents())
      ensures freezeStart || SIZE_MAX - old(totalLen) < |src| ==> r == -1 && Contents() == old(Contents())
      ensures !freezeStart && |src| <= SIZE_MAX - old(totalLen) ==>
        (r == 0 <==> (old(first) != null && |src| <= old(FrontRoom())) ||
                     (mem && Allocatable(|src| - old(FrontRoom()))))
      ensures !freezeStart && |src| <= SIZE_MAX - old(totalLen) && r == -1 ==>
        Contents() == src[|src| - old(FrontRoom())..] + old(Contents())
    {
      if freezeStart || SIZE_MAX - totalLen < |src| {
        return -1;
      }
      if first == null {
        var chain := NewChain(|src|, mem);
        if chain == null {
          return -1;
        }
        ChainInsert(chain, []);
        r := PrependTo(chain, src, mem);
      } else {
        r := PrependTo(first, src, mem);
      }
    }

    /** Forget all chains: they have been freed or handed to another buffer. */
    method ZeroChain()
      modifies this`first, this`last, this`lastWithData, this`totalLen
      modifies this`chains, this`data, this`full
      ensures Valid() && chains == [] && Contents() == []
    {
      first := null;
      chains, data := [], [];
      Repair(null, null, 0, 0);
    }

    /**
     Walk over the first chains while they are to go entirely; `lwd` is `last_with_datap`
     repaired on the way.
     */
    method PassChains(len: nat)
      returns (chain: Chain, previous: Chain, lwd: Chain?, remaining: nat, ghost k: nat)
      requires Valid() && len < totalLen
      ensures k < full && chain == chains[k] && (0 < k ==> previous == chains[k - 1])
      ensures remaining < |data[k]| && Offset(data, k) + remaining == len
      ensures lwd == if k == full - 1 then null else lastWithData
    {
      FlattenPrefix(data, full);
      OffsetIs(data, full);
      chain, previous, lwd, remaining, k := first, first, lastWithData, len, 0;
      assert chains[0].Holds(data[0]);
      while remaining >= chain.off
        invariant k < full && chain == chains[k] && chain.Holds(data[k])
        invariant 0 < k ==> previous == chains[k - 1]
        invariant Offset(data, k) + remaining == len
        invariant lwd == if k == full - 1 then null else lastWithData
        decreases full - k
      {
        if k == full - 1 {
          assert false;
        }
        remaining := remaining - chain.off;
        var named := if lwd == null then first else lwd.next;
        if chain == named {
          lwd := null;
        }
        if chain == lwd {
          lwd := null;
        }
        ApartFrom(chains, k);
        assert chains[k + 1].Holds(data[k + 1]);
        previous, chain := chain, chain.next;
        k := k + 1;
      }
    }

    /** Let the list start at chain `k`. */
    method StartAt(chain: Chain, ghost k: nat)
      requires Built() && k < |chains| && chain == chains[k]
      modifies this`first, this`chains, this`data
      ensures Built()
      ensures chains == old(chains)[k..] && data == old(data)[k..]
    {
      SeparateSlice(chains, k, |chains|);
      assert chains[k..] == chains[k..|chains|];
      first := chain;
      chains, data := chains[k..], data[k..];
    }

    /** Drop `n` bytes of the first chain. */
    method SkipFront(chain: Chain, n: nat)
      requires Built() && chains != [] && chain == first && n <= |data[0]|
      modifies this`data, chain`misalign, chain`off
      ensures Built()
      ensures data == old(data)[0 := old(data)[0][n..]]
    {
      ApartFrom(chains, 0);
      chain.Skip(n, data[0]);
      data := data[0 := data[0][n..]];
    }

    method DropTo(chain: Chain, n: nat, ghost k: nat)
      requires Built() && k < |chains| && chain == chains[k] && n <= |data[k]|
      modifies this`first, this`chains, this`data, chain`misalign, chain`off
      ensures Built()
      ensures chains == old(chains)[k..] && data == Dropped(old(data), k, n)
    {
      StartAt(chain, k);
      SkipFront(chain, n);
    }

    method DropFront(chain: Chain, lwd: Chain?, remaining: nat, len: nat, ghost k: nat, ghost n: nat)
      requires Built() && k < |chains| && chain == chains[k] && remaining <= |data[k]|
      requires InOrder(chains[k..], Dropped(data, k, remaining), n, lwd)
      requires last == Tail(chains[k..]) && len == |Flatten(Dropped(data, k, remaining))|
      modifies this`first, this`last, this`lastWithData, this`totalLen
      modifies this`chains, this`data, this`full, chain`off, chain`misalign
      ensures Valid() && chains == old(chains)[k..] && data == Dropped(old(data), k, remaining)
    {
      DropTo(chain, remaining, k);
      Repair(lwd, last, len, n);
    }

    method DrainSome(len: nat)
      requires Valid() && len < totalLen
      modifies this`first, this`last, this`lastWithData, this`totalLen
      modifies this`chains, this`data, this`full, set x | x in chains
      ensures Valid()
      ensures forall x :: x in chains ==> x in old(chains)
      ensures Contents() == old(Contents())[len..]
    {
      var chain, _, lwd, remaining, k := PassChains(len);
      OffsetIs(data, k);
      FlattenDrop(data, k, remaining);
      InOrderDrop(chains, data, full, lastWithData, k, remaining);
      DropFront(chain, lwd, remaining, totalLen - len, k, full - k);
    }

    method Drain(len: nat) returns (r: int)
      requires Valid()
      modifies this, set x: Chain | x in chains
      ensures Valid()
      ensures forall x :: x in chains ==> x in old(chains)
      ensures freezeStart == old(freezeStart) && freezeEnd == old(freezeEnd)
      ensures r == if freezeStart && old(totalLen) != 0 then -1 else 0
      ensures r == -1 ==> Contents() == old(Contents())
      ensures r == 0 ==> Contents() == old(Contents())[if len < old(totalLen) then len else old(totalLen)..]
    {
      if totalLen == 0 {
        return 0;
      }
      if freezeStart {
        return -1;
      }
      if len >= totalLen {
        ZeroChain();
      } else {
        DrainSome(len);
      }
      return 0;
    }

    /** `p` is a position in chain `i`, or the end when there is no such chain. */
    ghost predicate At(p: Ptr, i: nat)
      reads this`chains, this`data
    {
      if i < |chains| && i < |data| then
        && p.chain == chains[i] && p.posInChain <= |data[i]|
        && p.pos == Offset(data, i) + p.posInChain
      else
        p.chain == null && p.posInChain == 0 && p.pos == |Flatten(data)|
    }

    /** `out` is what has been copied from `base` on, and the copy goes on at `posInChain` of chain `i`. */
    ghost predicate Copying(out: seq<byte>, base: nat, chain: Chain?, posInChain: nat, i: nat)
      requires Valid()
      reads this, chains, Memory(chains)
    {
      && base + |out| <= |Contents()|
      && (forall j :: 0 <= j < |out| ==> out[j] == Contents()[base + j])
      && i <= |chains| && chain == (if i < |chains| then chains[i] else null)
      && Offset(data, i) + posInChain == base + |out|
      && (i < |chains| ==> posInChain <= |data[i]| == chain.off)
    }

    /** One `memcpy`, of `n` bytes of `chain`. */
    lemma CopyPiece(out: seq<byte>, chain: Chain, posInChain: nat, n: nat, base: nat, i: nat)
      requires Valid() && Copying(out, base, chain, posInChain, i) && posInChain + n <= chain.off
      ensures chain.misalign + posInChain + n <= chain.buffer.Length
      ensures Copying(out + chain.Bytes(posInChain, n), base, chain, posInChain + n, i)
    {
      assert chains[i].Holds(data[i]);
      FlattenRange(data, i, posInChain, posInChain + n);
      chain.BytesHeld(posInChain, n, data[i]);
    }

    lemma NextChain(out: seq<byte>, base: nat, chain: Chain, i: nat)
      requires Valid() && Copying(out, base, chain, chain.off, i)
      ensures Copying(out, base, chain.next, 0, i + 1)
    {
      if i + 1 < |chains| {
        assert chains[i + 1].Holds(data[i + 1]);
      }
    }

    lemma Copied(out: seq<byte>, base: nat, chain: Chain?, posInChain: nat, i: nat)
      requires Valid() && Copying(out, base, chain, posInChain, i)
      ensures out == Contents()[base..base + |out|]
    {
    }

    /** Copy the rest of chain `k` and of the ones after it, as long as `n` bytes use them up. */
    method CopyWhole(start: Chain, at: nat, n: nat, ghost k: nat, ghost base: nat)
      returns (out: seq<byte>, chain: Chain?, posInChain: nat, ghost i: nat)
      requires Valid() && k < |chains| && start == chains[k] && at <= |data[k]|
      requires base == Offset(data, k) + at && base + n <= totalLen
      ensures |out| <= n && Copying(out, base, chain, posInChain, i)
      ensures |out| < n ==> chain != null && n - |out| < chain.off - posInChain
    {
      chain, posInChain, i, out := start, at, k, [];
      assert chains[k].Holds(data[k]);
      OffsetEnd(data);
      while |out| < n && n - |out| >= chain.off - posInChain
        invariant |out| <= n && Copying(out, base, chain, posInChain, i)
        decreases |chains| - i
      {
        CopyPiece(out, chain, posInChain, chain.off - posInChain, base, i);
        out := out + chain.Bytes(posInChain, chain.off - posInChain);
        NextChain(out, base, chain, i);
        chain, posInChain := chain.next, 0;
        i := i + 1;
      }
    }

    /** Copy `n` bytes from `at` in chain `k` on; that is position `base` of the buffer. */
    method CopyRun(start: Chain, at: nat, n: nat, ghost k: nat, ghost base: nat) returns (out: seq<byte>)
      requires Valid() && k < |chains| && start == chains[k] && at <= |data[k]|
      requires base == Offset(data, k) + at && base + n <= totalLen
      ensures out == Contents()[base..base + n]
    {
      var chain, posInChain;
      ghost var i;
      out, chain, posInChain, i := CopyWhole(start, at, n, k, base);
      if |out| < n {
        var m := n - |out|;
        CopyPiece(out, chain, posInChain, m, base, i);
        out := out + chain.Bytes(posInChain, m);
        posInChain := posInChain + m;
      }
      Copied(out, base, chain, posInChain, i);
    }

    /** Copy out up to `datlen` bytes, from `pos` or from the start, leaving the buffer as it is. */
    method CopyoutFrom(pos: Option<Ptr>, datlen: nat, ghost i: nat) returns (r: int, out: seq<byte>)
      requires Valid() && (pos.Some? ==> At(pos.value, i))
      ensures var start := if pos.Some? then pos.value.pos else 0;
        0 <= start <= totalLen &&
        var n := if datlen < totalLen - start then datlen else totalLen - start;
        if pos.Some? && SSIZE_MAX - start < datlen then r == -1 && out == []
        else if n == 0 then r == 0 && out == []
        else if freezeStart then r == -1 && out == []
        else r == n && out == Contents()[start..start + n]
    {
      var chain: Chain?, posInChain, start, n := first, 0, 0, datlen;
      ghost var k := 0;
      if pos.Some? {
        AtBound(pos.value, i);
        if SSIZE_MAX - pos.value.pos < datlen {
          return -1, [];
        }
        chain, posInChain, start, k := pos.value.chain, pos.value.posInChain, pos.value.pos, i;
      }
      if totalLen - start < n {
        n := totalLen - start;
      }
      if n == 0 {
        return 0, [];
      }
      if freezeStart {
        return -1, [];
      }
      assert pos.None? ==> chains != [];
      out := CopyRun(chain, posInChain, n, k, start);
      r := n;
    }

    lemma AtBound(p: Ptr, i: nat)
      requires Valid() && At(p, i)
      ensures 0 <= p.pos <= totalLen
    {
      if i < |chains| {
        FlattenRange(data, i, 0, p.posInChain);
      }
    }

    /** Take up to `datlen` bytes off the front. */
    method Remove(datlen: nat) returns (r: int, out: seq<byte>)
      requires Valid()
      modifies this, set x: Chain | x in chains
      ensures Valid()
      ensures forall x :: x in chains ==> x in old(chains)
      ensures freezeStart == old(freezeStart) && freezeEnd == old(freezeEnd)
      ensures if freezeStart && datlen > 0 && old(totalLen) > 0
        then r == -1 && Contents() == old(Contents())
        else
          && |out| == (if datlen < old(totalLen) then datlen else old(totalLen))
          && r == AsInt(|out|) && old(Contents()) == out + Contents()
    {
      var n;
      n, out := CopyoutFrom(None, datlen, 0);
      ghost var was := Contents();
      assert n >= 0 ==> was == was[..n] + was[n..];
      if n > 0 {
        var d := Drain(n);
        if d < 0 {
          n := -1;
        }
      }
      return if n < 0 then -1 else AsInt(n), out;
    }

    /** The chains from `j` on are in place, and apart from `tmp`. */
    ghost predicate Rest(tmp: Chain, j: nat)
      requires j <= |chains| == |data|
      reads this`chains, this`data, chains, Memory(chains)
    {
      && Linked(chains)
      && (forall i {:trigger chains[i].Holds(data[i])} :: j <= i < |chains| ==> chains[i].Holds(data[i]))
      && (forall i :: j <= i < |chains| ==> chains[i] != tmp && chains[i].buffer != tmp.buffer)
    }

    /** `tmp` has the bytes before chain `k`, with room for `size` in all, of which `left` are missing. */
    ghost predicate Gathering(tmp: Chain, chain: Chain?, size: nat, left: nat, k: nat)
      requires k <= |chains| == |data|
      reads this`chains, this`data, chains, Memory(chains), tmp, tmp.buffer
    {
      && Rest(tmp, k)
      && chain == (if k < |chains| then chains[k] else null)
      && tmp.Holds(Flatten(data[..k]))
      && tmp.misalign + size <= tmp.buffer.Length
      && tmp.off + left == size
    }

    /** Copy all of `chain`. */
    method Absorb(tmp: Chain, chain: Chain, size: nat, left: nat, ghost k: nat) returns (next: Chain?)
      requires k < |chains| == |data| && Gathering(tmp, chain, size, left, k) && chain.off <= left
      modifies tmp`off, tmp.buffer
      ensures chain.off == |data[k]| <= left
      ensures Gathering(tmp, next, size, left - chain.off, k + 1)
    {
      assert chain.Holds(data[k]);
      chain.BytesHeld(0, chain.off, data[k]);
      assert chain.Bytes(0, chain.off) == data[k];
      FlattenStep(data, k);
      tmp.AppendBytes(chain.Bytes(0, chain.off), Flatten(data[..k]));
      next := chain.next;
    }

    /**
     Copy into `tmp` every chain that `size` bytes use up; note whether that takes the chain that
     `last_with_datap` names, or the owner of that pointer.
     */
    method Gather(tmp: Chain, start: Chain?, size: nat, named: Chain?, ghost j: nat)
      returns (chain: Chain?, left: nat, tookNamed: bool, tookOwner: bool, ghost k: nat)
      requires InOrder(chains, data, full, lastWithData) && Separate(chains) && 1 < full
      requires named == chains[full - 1] && j <= 1 && |data[0]| < size
      requires tmp.off <= size <= |Flatten(data)| && Gathering(tmp, start, size, size - tmp.off, j)
      modifies tmp`off, tmp.buffer
      ensures 0 < k && j <= k <= |chains| && Gathering(tmp, chain, size, left, k)
      ensures k < |chains| ==> k < full && left < |data[k]|
      ensures k == |chains| ==> left == 0
      ensures tookNamed <==> full <= k
      ensures tookOwner <==> j <= full - 2 < k
    {
      chain, left, tookNamed, tookOwner, k := start, size - tmp.off, false, false, j;
      while chain != null && left >= chain.off
        invariant j <= k <= |chains| && Gathering(tmp, chain, size, left, k)
        invariant tookNamed <==> full <= k
        invariant tookOwner <==> j <= full - 2 < k
        decreases |chains| - k
      {
        ApartFrom(chains, k);
        var next := Absorb(tmp, chain, size, left, k);
        left := left - chain.off;
        tookNamed := tookNamed || chain == named;
        tookOwner := tookOwner || chain == lastWithData;
        chain, k := next, k + 1;
      }
      if k < |chains| {
        assert chain.Holds(data[k]);
      } else {
        assert data[..k] == data;
      }
    }

    /** The list becomes `tmp`, with the first `size` bytes, and what is left of the chains from `k` on. */
    method Splice(tmp: Chain, chain: Chain?, ghost d: seq<byte>, ghost k: nat)
      requires Separate(chains) && k <= |chains| == |data|
      requires Rest(tmp, k) && tmp.Holds(d) && chain == (if k < |chains| then chains[k] else null)
      modifies this`first, this`chains, this`data, tmp`next
      ensures Built()
      ensures chains == [tmp] + old(chains)[k..] && data == [d] + old(data)[k..]
    {
      SeparateSlice(chains, k, |chains|);
      assert chains[k..] == chains[k..|chains|];
      SeparateCons(tmp, chains[k..]);
      first := tmp;
      tmp.next := chain;
      chains, data := [tmp] + chains[k..], [d] + data[k..];
    }

    /** Copy the first `left` bytes of `chain` too, and drop them there. */
    method TakePart(tmp: Chain, chain: Chain, size: nat, left: nat, ghost k: nat)
      requires Separate(chains) && k < |chains| == |data|
      requires Gathering(tmp, chain, size, left, k) && left < |data[k]|
      modifies this`data, tmp`off, tmp.buffer, chain`off, chain`misalign
      ensures data == old(data)[k := old(data)[k][left..]]
      ensures Rest(tmp, k) && tmp.Holds(Flatten(old(data)[..k]) + old(data)[k][..left])
    {
      ApartFrom(chains, k);
      assert chain.Holds(data[k]);
      chain.BytesHeld(0, left, data[k]);
      tmp.AppendBytes(chain.Bytes(0, left), Flatten(data[..k]));
      chain.Skip(left, data[k]);
      data := data[k := data[k][left..]];
    }

    method Relist(tmp: Chain, chain: Chain, size: nat, left: nat, ghost k: nat)
      requires Separate(chains) && k < |chains| == |data|
      requires Gathering(tmp, chain, size, left, k) && left < |data[k]|
      modifies this`first, this`chains, this`data, tmp`next, tmp`off, tmp.buffer, chain`off, chain`misalign
      ensures Built() && first == tmp && tmp.off == size
      ensures chains == [tmp] + old(chains)[k..]
      ensures data == Pulled(old(data), k, left)
    {
      ghost var x := Flatten(data[..k]) + data[k][..left];
      TakePart(tmp, chain, size, left, k);
      Splice(tmp, chain, x, k);
    }

    /** All chains have been used up. */
    method PullAll(tmp: Chain, size: nat)
      requires Separate(chains) && |chains| == |data| && chains != [] && Flatten(data) != []
      requires Gathering(tmp, null, size, 0, |chains|) && totalLen == |Flatten(data)|
      modifies this`first, this`last, this`lastWithData, this`totalLen, this`full
      modifies this`chains, this`data, tmp`next
      ensures Valid() && chains == [tmp]
      ensures Contents() == old(Contents())
    {
      ghost var d, k := data, |chains|;
      assert d[..k] == d && d[k..] == [] && chains[k..] == [];
      FlattenOne(Flatten(d));
      Splice(tmp, null, Flatten(d), k);
      assert chains == [tmp] && data == [Flatten(d)];
      Repair(null, tmp, totalLen, 1);
    }

    /** Chain `k` stays, less its first `left` bytes. */
    method PullPart(tmp: Chain, chain: Chain, size: nat, left: nat, lwd: Chain?, ghost k: nat, ghost n: nat)
      requires Separate(chains) && 0 < k < |chains| == |data|
      requires Gathering(tmp, chain, size, left, k) && left < |data[k]|
      requires InOrder([tmp] + chains[k..], Pulled(data, k, left), n, lwd)
      requires Flatten(Pulled(data, k, left)) == Flatten(data)
      requires last == Tail([tmp] + chains[k..]) && totalLen == |Flatten(data)|
      modifies this`first, this`last, this`lastWithData, this`totalLen, this`full
      modifies this`chains, this`data, tmp`next, tmp`off, tmp.buffer, chain`off, chain`misalign
      ensures Valid() && first == tmp && tmp.off == size
      ensures chains == [tmp] + old(chains)[k..]
      ensures Contents() == old(Contents())
    {
      Relist(tmp, chain, size, left, k);
      Repair(lwd, last, totalLen, n);
    }

    /** Pull the first `size` bytes together in `tmp`, which has the bytes before chain `j`. */
    method PullInto(tmp: Chain, start: Chain?, size: nat, named: Chain?, ghost j: nat)
      requires InOrder(chains, data, full, lastWithData) && Separate(chains) && 1 < full
      requires last == Tail(chains) && totalLen == |Flatten(data)| && j <= 1
      requires tmp.off <= size && |data[0]| < size <= totalLen && Gathering(tmp, start, size, size - tmp.off, j)
      requires if j == 1 then tmp == chains[0] else Outside(tmp, chains)
      requires named == chains[full - 1]
      modifies this`first, this`last, this`lastWithData, this`totalLen, this`full
      modifies this`chains, this`data, tmp, tmp.buffer, set x | x in chains
      ensures Valid() && first == tmp && tmp.off >= size
      ensures Contents() == old(Contents())
      ensures forall x :: x in chains ==> x in old(chains) || x == tmp
    {
      var chain, left, tookNamed, tookOwner, k := Gather(tmp, start, size, named, j);
      if chain == null {
        PullAll(tmp, size);
      } else {
        assert chain.Holds(data[k]);
        var lwd :=
          if tookNamed then null
          else if tookOwner then (if chain.off - left > 0 then tmp else null)
          else lastWithData;
        PulledFacts(tmp, chains, data, full, lastWithData, k, left);
        PullPart(tmp, chain, size, left, lwd, k, full - k + 1);
      }
    }

    /** There is room behind the first chain's bytes. */
    method PullInPlace(c: Chain, size: nat)
      requires Valid() && chains != [] && c == first && c.off < size <= totalLen
      requires size <= c.buffer.Length - c.misalign
      modifies this`first, this`last, this`lastWithData, this`totalLen, this`full
      modifies this`chains, this`data, c.buffer, set x | x in chains
      ensures Valid() && first == c && c.off >= size
      ensures Contents() == old(Contents())
      ensures forall x :: x in chains ==> x in old(chains)
    {
      assert chains[0].Holds(data[0]);
      MoreThanFirst();
      ApartFrom(chains, 0);
      assert data[..1] == [data[0]];
      FlattenOne(data[0]);
      PullInto(c, c.next, size, lastWithData.next, 1);
    }

    /** More bytes than the first chain holds means a second chain with data. */
    lemma MoreThanFirst()
      requires Valid() && chains != [] && |data[0]| < totalLen
      ensures 1 < full && lastWithData == chains[full - 2] && lastWithData.next == chains[full - 1]
      ensures chains[0].Holds(data[0]) && |data[0]| == first.off
    {
      assert chains[0].Holds(data[0]);
      if full <= 1 {
        FlattenFirst(data);
      }
    }

    method PullFresh(tmp: Chain, size: nat)
      requires Valid() && chains != [] && first.off < size <= totalLen && Outside(tmp, chains)
      requires tmp.misalign == 0 && tmp.Holds([]) && size <= tmp.buffer.Length
      modifies this`first, this`last, this`lastWithData, this`totalLen, this`full
      modifies this`chains, this`data, tmp, tmp.buffer, set x | x in chains
      ensures Valid() && first == tmp && tmp.off >= size
      ensures Contents() == old(Contents())
      ensures forall x :: x in chains ==> x in old(chains) || x == tmp
    {
      assert chains[0].Holds(data[0]);
      MoreThanFirst();
      assert data[..0] == [];
      PullInto(tmp, first, size, lastWithData.next, 0);
    }

    /** The first `n` bytes are one block of the first chain's memory. */
    ghost predicate Contiguous(n: nat)
      requires Valid()
      reads this, chains, Memory(chains)
    {
      && first != null && n <= first.off && first.misalign + n <= first.buffer.Length
      && n <= |Contents()| && first.Bytes(0, n) == Contents()[..n]
    }

    lemma FirstContiguous(n: nat)
      requires Valid() && first != null && n <= first.off
      ensures Contiguous(n)
    {
      assert chains[0].Holds(data[0]);
      first.BytesHeld(0, n, data[0]);
      FlattenRange(data, 0, 0, n);
    }

    /** Rearrange the chains so that the first `size` bytes (all, when negative) are contiguous. */
    method Pullup(size: int, mem: bool) returns (r: Chain?)
      requires Valid()
      modifies Footprint()
      ensures Valid() && Contents() == old(Contents())
      ensures forall x :: x in chains && x !in old(chains) ==> fresh(x) && fresh(x.buffer)
      ensures freezeStart == old(freezeStart) && freezeEnd == old(freezeEnd)
      ensures var n := if size < 0 then totalLen else size;
        && (n == 0 || n > totalLen ==> r == null)
        && (r != null ==> r == first && Contiguous(n))
        && (0 < n <= totalLen && mem && Allocatable(n) ==> r != null)
    {
      var n := if size < 0 then totalLen else size;
      if n == 0 || n > totalLen {
        return null;
      }
      var chain := first;
      assert chains != [];
      if chain.off < n {
        assert chains[0].Holds(data[0]);
        if n <= chain.buffer.Length - chain.misalign {
          PullInPlace(chain, n);
        } else {
          var tmp := NewChain(n, mem);
          if tmp == null {
            return null;
          }
          PullFresh(tmp, n);
        }
      }
      FirstContiguous(n);
      return first;
    }

    /** Put `tmp`, a copy of chain `k`, in its place; `owner` is the chain before it. */
    method Replace(owner: Chain?, c: Chain, tmp: Chain, ghost k: nat)
      requires Built() && k < |chains| && c == chains[k] && Outside(tmp, chains) && tmp.Holds(data[k])
      requires owner == if k == 0 then null else chains[k - 1]
      modifies this`first, this`chains, tmp`next, Owner(k)`next
      ensures Built() && chains == old(chains)[k := tmp]
    {
      SeparateUpdate(chains, k, tmp);
      tmp.next := c.next;
      if owner == null {
        first := tmp;
      } else {
        ApartFrom(chains, k - 1);
        owner.next := tmp;
      }
      chains := chains[k := tmp];
    }

    /** Move the last chain with data into a larger one. */
    method Resize(owner: Chain?, c: Chain, tmp: Chain)
      requires Valid() && 0 < full && c == chains[full - 1] && owner == lastWithData
      requires Outside(tmp, chains) && tmp.Holds(data[full - 1])
      modifies this`first, this`last, this`lastWithData, this`totalLen, this`full
      modifies this`chains, tmp`next, Owner(full - 1)`next
      ensures Valid() && chains == old(chains)[full - 1 := tmp]
      ensures full == old(full)
    {
      ghost var k := full - 1;
      assert InOrder(chains[k := tmp], data, full, lastWithData);
      var tail := if last == c then tmp else last;
      ApartFrom(chains, k);
      Replace(owner, c, tmp, k);
      Repair(lastWithData, tail, totalLen, full);
    }

    /** An empty chain for `n` bytes, in place of the empty chains at the end. */
    method InsertNew(n: nat, mem: bool) returns (r: Chain?)
      requires Valid()
      modifies this`first, this`last, this`lastWithData, this`totalLen
      modifies this`chains, this`data, this`full, Owner(full)`next
      ensures Valid() && Contents() == old(Contents())
      ensures forall x :: x in chains && x !in old(chains) ==> fresh(x) && fresh(x.buffer)
      ensures r != null <==> mem && Allocatable(n)
      ensures r != null ==> Writable(r, n)
    {
      r := NewChain(n, mem);
      if r != null {
        ChainInsert(r, []);
        assert data[|data| - 1] == [];
      }
    }

    /** `c` has room for `n` bytes, and no chain behind it holds data. */
    ghost predicate Writable(c: Chain, n: nat)
      reads this`chains, this`full, c
    {
      && c.misalign + c.off + n <= c.buffer.Length
      && exists i :: LastFull(full) <= i < |chains| && c == chains[i]
    }

    method ExpandFull(c: Chain, n: nat, mem: bool) returns (r: Chain?)
      requires Valid() && 0 < full && c == chains[full - 1] && c.misalign + c.off < c.buffer.Length
      modifies this`first, this`last, this`lastWithData, this`totalLen
      modifies this`chains, this`data, this`full, c.buffer, set x | x in chains
      ensures Valid() && Contents() == old(Contents())
      ensures forall x :: x in chains && x !in old(chains) ==> fresh(x) && fresh(x.buffer)
      ensures r != null ==> Writable(r, n)
      ensures mem && Allocatable(n + MAX_TO_COPY_IN_EXPAND) ==> r != null
    {
      assert chains[full - 1].Holds(data[full - 1]);
      var space := c.buffer.Length - (c.misalign + c.off);
      if n <= space {
        r := c;
      } else if ShouldRealign(c, n) {
        ApartFrom(chains, full - 1);
        c.Align(data[full - 1]);
        r := c;
      } else if space < c.buffer.Length / 8 || MAX_TO_COPY_IN_EXPAND < c.off || CHAIN_MAX - c.off <= n {
        if full < |chains| {
          assert chains[full].Holds(data[full]);
        }
        if c.next != null && n <= c.next.buffer.Length - (c.next.misalign + c.next.off) {
          r := c.next;
        } else {
          r := InsertNew(n, mem);
        }
      } else {
        r := Enlarged(c, n, mem, data[full - 1]);
        if r != null {
          Resize(lastWithData, c, r);
          assert chains[full - 1] == r;
        }
      }
    }

    /** Room for `n` more bytes in one chain, without changing the contents. */
    method ExpandSinglechain(n: nat, mem: bool) returns (r: Chain?)
      requires Valid()
      modifies Footprint()
      ensures Valid() && Contents() == old(Contents())
      ensures forall x :: x in chains && x !in old(chains) ==> fresh(x) && fresh(x.buffer)
      ensures freezeStart == old(freezeStart) && freezeEnd == old(freezeEnd)
      ensures r != null ==> Writable(r, n)
      ensures mem && Allocatable(n + MAX_TO_COPY_IN_EXPAND) ==> r != null
    {
      var c := LastWithData();
      if c != null {
        assert chains[LastFull(full)].Holds(data[LastFull(full)]);
        if c.misalign + c.off == c.buffer.Length {
          c := c.next;
          if LastFull(full) + 1 < |chains| {
            assert chains[LastFull(full) + 1].Holds(data[LastFull(full) + 1]);
          }
        }
      }
      if c != null && c.off == 0 && n <= c.buffer.Length - c.misalign {
        r := c;
      } else if c == null || c.off == 0 {
        r := InsertNew(n, mem);
      } else {
        r := ExpandFull(c, n, mem);
      }
    }

    /** A copy of `c` with room for `n` more bytes. */
    method Enlarged(c: Chain, n: nat, mem: bool, ghost d: seq<byte>) returns (tmp: Chain?)
      requires c.Holds(d)
      ensures tmp != null <==> mem && Allocatable(c.off + n)
      ensures tmp != null ==> fresh(tmp) && fresh(tmp.buffer) && tmp.Holds(d)
      ensures tmp != null ==> tmp.misalign + tmp.off + n <= tmp.buffer.Length
    {
      tmp := NewChain(c.off + n, mem);
      if tmp != null {
        c.BytesHeld(0, c.off, d);
        assert [] + c.Bytes(0, c.off) == d;
        tmp.AppendBytes(c.Bytes(0, c.off), []);
      }
    }

    /** Hang the list `cs`, which starts at `head`, on the end of this one. */
    method HangList(owner: Chain?, head: Chain, ghost cs: seq<Chain>, ghost d: seq<seq<byte>>)
      requires Built() && owner == Tail(chains)
      requires cs != [] && head == cs[0] && Separate(cs) && Linked(cs) && Stored(cs, d) && Disjoint(chains, cs)
      modifies this`first, this`chains, this`data, Owner(|chains|)`next
      ensures Built() && chains == old(chains) + cs && data == old(data) + d
    {
      SeparateConcat(chains, cs);
      if owner == null {
        first := head;
      } else {
        ApartFrom(chains, |chains| - 1);
        assert forall i :: 0 <= i < |cs| ==> Outside(cs[i], chains);
        owner.next := head;
      }
      chains, data := chains + cs, data + d;
    }

    /** This buffer has the list `cs` from now on. */
    method Adopt(head: Chain, lwd: Chain?, tail: Chain?, len: nat, ghost cs: seq<Chain>, ghost d: seq<seq<byte>>,
                 ghost n: nat)
      requires cs != [] && head == cs[0] && Separate(cs) && Linked(cs) && Stored(cs, d)
      requires InOrder(cs, d, n, lwd) && tail == Tail(cs) && len == |Flatten(d)|
      modifies this`first, this`last, this`lastWithData, this`totalLen
      modifies this`chains, this`data, this`full
      ensures Valid() && chains == cs && data == d && full == n
    {
      first := head;
      chains, data := cs, d;
      Repair(lwd, tail, len, n);
    }

    /** `APPEND_CHAIN`: free the empty chains at the end, and put the chains of `src` there. */
    method AppendAll(src: Evbuffer)
      requires Valid() && src.Valid() && src != this && Disjoint(chains, src.chains)
      requires 0 < full && 0 < src.full
      modifies this`first, this`last, this`lastWithData, this`totalLen
      modifies this`chains, this`data, this`full, Owner(full)`next
      ensures Valid() && chains == old(chains)[..old(full)] + src.chains
      ensures Contents() == old(Contents()) + src.Contents()
    {
      FlattenPrefix(data, full);
      var owner := FreeTrailingEmptyChains();
      HangOn(owner, src);
    }

    method HangOn(owner: Chain?, src: Evbuffer)
      requires Built() && InOrder(chains, data, full, lastWithData) && full == |chains| && 0 < full
      requires owner == Tail(chains) && totalLen == |Flatten(data)|
      requires src.Valid() && src != this && Disjoint(chains, src.chains) && 0 < src.full
      modifies this`first, this`last, this`lastWithData, this`totalLen
      modifies this`chains, this`data, this`full, Owner(full)`next
      ensures Valid() && chains == old(chains) + src.chains
      ensures Contents() == old(Contents()) + src.Contents()
    {
      JoinedOrder(chains, data, full, lastWithData, src.chains, src.data, src.full, src.lastWithData);
      FlattenConcat(data, src.data);
      HangList(owner, src.first, src.chains, src.data);
      Repair(if src.lastWithData == null then owner else src.lastWithData, src.last, totalLen + src.totalLen,
             full + src.full);
    }

    method MoveAll(src: Evbuffer)
      requires Valid() && src.Valid() && src != this && Disjoint(chains, src.chains) && src.totalLen != 0
      modifies this`first, this`last, this`lastWithData, this`totalLen
      modifies this`chains, this`data, this`full, set x | x in chains
      modifies src`first, src`last, src`lastWithData, src`totalLen, src`chains, src`data, src`full
      ensures Valid() && src.Valid() && src.chains == [] && src.Contents() == []
      ensures Contents() == old(Contents()) + old(src.Contents())
      ensures forall x :: x in chains ==> x in old(chains) || x in old(src.chains)
    {
      MoveOver(src);
      src.ZeroChain();
    }

    method MoveOver(src: Evbuffer)
      requires Valid() && src.Valid() && src != this && Disjoint(chains, src.chains) && src.totalLen != 0
      modifies this`first, this`last, this`lastWithData, this`totalLen
      modifies this`chains, this`data, this`full, set x | x in chains
      ensures Valid()
      ensures Contents() == old(Contents()) + src.Contents()
      ensures forall x :: x in chains ==> x in old(chains) || x in src.chains
    {
      FlattenPrefix(src.data, src.full);
      FlattenPrefix(data, full);
      if totalLen == 0 {
        Adopt(src.first, src.lastWithData, src.last, src.totalLen, src.chains, src.data, src.full);
      } else {
        AppendAll(src);
      }
    }

    /** Move all of `src` to the end of this buffer, chain by chain, without copying. */
    method AddBuffer(src: Evbuffer) returns (r: int)
      requires Valid() && src.Valid() && (src != this ==> Disjoint(chains, src.chains))
      modifies this`first, this`last, this`lastWithData, this`totalLen, this`chains, this`data, this`full
      modifies src`first, src`last, src`lastWithData, src`totalLen, src`chains, src`data, src`full, set x | x in chains
      ensures Valid() && src.Valid()
      ensures r == if old(src.totalLen) != 0 && src != this && (freezeEnd || src.freezeStart) then -1 else 0
      ensures src == this || r == -1 || old(src.totalLen) == 0 ==>
        Contents() == old(Contents()) && src.Contents() == old(src.Contents())
      ensures src == this || r == -1 || old(src.totalLen) == 0 ==>
        chains == old(chains) && src.chains == old(src.chains)
      ensures src != this && r == 0 && old(src.totalLen) != 0 ==>
        Contents() == old(Contents()) + old(src.Contents()) && src.Contents() == [] && src.chains == []
      ensures forall x :: x in chains ==> x in old(chains) || x in old(src.chains)
    {
      if src.totalLen == 0 || this == src {
        return 0;
      }
      if freezeEnd || src.freezeStart {
        return -1;
      }
      MoveAll(src);
      return 0;
    }

    /** Follow the chains with data from the one that `lwd` leads to, chain `p`, to the last, chain `n - 1`. */
    method AdvanceLastWithData(lwd: Chain?, ghost p: nat, ghost n: nat) returns (r: Chain?)
      requires Built() && p < n <= |chains| && lwd == (if p == 0 then null else chains[p - 1])
      requires forall i :: 0 <= i < n ==> data[i] != []
      requires forall i :: n <= i < |chains| ==> data[i] == []
      ensures r == if n <= 1 then null else chains[n - 2]
    {
      r := lwd;
      ghost var k := p;
      var named := if r == null then first else r.next;
      while named.next != null && NonEmpty(named.next, k + 1)
        invariant p <= k < n && named == chains[k] && r == if k == 0 then null else chains[k - 1]
        decreases n - k
      {
        r, named := named, named.next;
        k := k + 1;
      }
    }

    predicate NonEmpty(c: Chain, ghost k: nat)
      requires Built() && k < |chains| && c == chains[k]
      reads this`first, this`chains, this`data, chains, Memory(chains), c
      ensures NonEmpty(c, k) <==> data[k] != []
    {
      assert chains[k].Holds(data[k]);
      c.off != 0
    }

    /** Cut the list before chain `k`; this buffer keeps what comes after. */
    method SplitOff(chain: Chain, previous: Chain, ghost k: nat)
      requires Built() && 0 < k < |chains| && chain == chains[k] && previous == chains[k - 1]
      modifies previous`next, this`first, this`chains, this`data
      ensures Built() && chains == old(chains)[k..] && data == old(data)[k..]
      ensures Separate(old(chains)[..k]) && Linked(old(chains)[..k]) && Stored(old(chains)[..k], old(data)[..k])
      ensures Disjoint(chains, old(chains)[..k])
    {
      ApartFrom(chains, k - 1);
      SeparateSlice(chains, 0, k);
      SeparateSlice(chains, k, |chains|);
      assert chains[k..] == chains[k..|chains|] && chains[..k] == chains[0..k];
      DisjointParts(chains, k);
      previous.next := null;
      first := chain;
      chains, data := chains[k..], data[k..];
    }

    /** Add a list of chains that all hold data. */
    method TakeChains(head: Chain, tail: Chain, len: nat, ghost cs: seq<Chain>, ghost d: seq<seq<byte>>)
      requires Valid() && cs != [] && head == cs[0] && tail == Tail(cs)
      requires Separate(cs) && Linked(cs) && Stored(cs, d) && Disjoint(chains, cs)
      requires (forall i :: 0 <= i < |d| ==> d[i] != []) && len == |Flatten(d)|
      modifies this`first, this`last, this`lastWithData, this`totalLen
      modifies this`chains, this`data, this`full, Owner(full)`next
      ensures Valid() && chains == old(chains)[..old(full)] + cs && full == |chains|
      ensures Contents() == old(Contents()) + Flatten(d)
    {
      DisjointPrefix(chains, cs, full);
      assert Flatten(data[..full] + d) == Contents() + Flatten(d) by {
        FlattenPrefix(data, full);
        FlattenConcat(data[..full], d);
      }
      var owner := FreeTrailingEmptyChains();
      HangTaken(owner, head, tail, len, cs, d);
    }

    method HangTaken(owner: Chain?, head: Chain, tail: Chain, len: nat, ghost cs: seq<Chain>, ghost d: seq<seq<byte>>)
      requires Built() && InOrder(chains, data, full, lastWithData) && full == |chains|
      requires owner == Tail(chains)
      requires cs != [] && head == cs[0] && tail == Tail(cs)
      requires Separate(cs) && Linked(cs) && Stored(cs, d) && Disjoint(chains, cs)
      requires (forall i :: 0 <= i < |d| ==> d[i] != []) && totalLen + len == |Flatten(data + d)|
      modifies this`first, this`last, this`lastWithData, this`totalLen
      modifies this`chains, this`data, this`full, Owner(full)`next
      ensures Valid() && chains == old(chains) + cs && data == old(data) + d && full == |chains|
    {
      ghost var p, n := LastFull(full), full + |cs|;
      HangList(owner, head, cs, d);
      var lwd := AdvanceLastWithData(lastWithData, p, n);
      Repair(lwd, tail, totalLen + len, n);
    }

    /** Keep only the chains from `k` on. */
    method GiveUp(chain: Chain, previous: Chain, lwd: Chain?, len: nat, ghost k: nat, ghost n: nat)
      requires Built() && 0 < k < |chains| && chain == chains[k] && previous == chains[k - 1]
      requires InOrder(chains[k..], data[k..], n, lwd) && last == Tail(chains[k..]) && len == |Flatten(data[k..])|
      modifies previous`next, this`first, this`last, this`lastWithData, this`totalLen
      modifies this`chains, this`data, this`full
      ensures Valid() && chains == old(chains)[k..] && data == old(data)[k..] && full == n
      ensures Separate(old(chains)[..k]) && Linked(old(chains)[..k]) && Stored(old(chains)[..k], old(data)[..k])
      ensures Disjoint(chains, old(chains)[..k])
    {
      SplitOff(chain, previous, k);
      Repair(lwd, last, len, n);
    }

    /** Move the first `k` chains of `src`, `nread` bytes, to the end of this buffer. */
    method MoveChains(src: Evbuffer, chain: Chain, previous: Chain, lwd: Chain?, nread: nat, ghost k: nat)
      requires Valid() && src.Valid() && src != this && Disjoint(chains, src.chains)
      requires 0 < k < src.full && chain == src.chains[k] && previous == src.chains[k - 1]
      requires lwd == if k == src.full - 1 then null else src.lastWithData
      requires nread == Offset(src.data, k) <= src.totalLen
      modifies this`first, this`last, this`lastWithData, this`totalLen
      modifies this`chains, this`data, this`full, Owner(full)`next
      modifies src`first, src`last, src`lastWithData, src`totalLen, src`chains, src`data, src`full, previous`next
      ensures Valid() && src.Valid() && Disjoint(chains, src.chains)
      ensures Taker() == previous
      ensures src.chains == old(src.chains)[k..] && src.data == old(src.data)[k..]
      ensures Parts() <= old(Parts()) + old(src.Parts()) && src.Parts() <= old(src.Parts())
      ensures Contents() == old(Contents()) + old(src.Contents())[..nread]
      ensures src.Contents() == old(src.Contents())[nread..]
    {
      FlattenSplitAt(src.data, k);
      InOrderRest(src.chains, src.data, src.full, src.lastWithData, k);
      DisjointSplit(chains, src.chains, k);
      DisjointMoved(chains, full, src.chains, k);
      MoveStep(src, chain, previous, lwd, nread, k, src.full - k);
    }

    method MoveStep(src: Evbuffer, chain: Chain, previous: Chain, lwd: Chain?, nread: nat, ghost k: nat, ghost n: nat)
      requires Valid() && src.Built() && src != this
      requires 0 < k < |src.chains| && chain == src.chains[k] && previous == src.chains[k - 1]
      requires Disjoint(chains, src.chains[..k]) && Disjoint(chains, src.chains[k..])
      requires Disjoint(chains[..full] + src.chains[..k], src.chains[k..])
      requires InOrder(src.chains[k..], src.data[k..], n, lwd) && src.last == Tail(src.chains[k..])
      requires nread <= src.totalLen == |src.Contents()| && src.totalLen - nread == |Flatten(src.data[k..])|
      requires nread == |Flatten(src.data[..k])| && forall i :: 0 <= i < k ==> src.data[i] != []
      requires src.Contents()[..nread] == Flatten(src.data[..k]) && src.Contents()[nread..] == Flatten(src.data[k..])
      modifies this`first, this`last, this`lastWithData, this`totalLen
      modifies this`chains, this`data, this`full, Owner(full)`next
      modifies src`first, src`last, src`lastWithData, src`totalLen, src`chains, src`data, src`full, previous`next
      ensures Valid() && src.Valid() && Disjoint(chains, src.chains)
      ensures Taker() == previous
      ensures src.chains == old(src.chains)[k..] && src.data == old(src.data)[k..]
      ensures forall x :: x in chains ==> x in old(chains) || x in old(src.chains)
      ensures Contents() == old(Contents()) + old(src.Contents())[..nread]
      ensures src.Contents() == old(src.Contents())[nread..]
    {
      ghost var cs, d := src.chains[..k], src.data[..k];
      var head := src.first;
      src.GiveUp(chain, previous, lwd, src.totalLen - nread, k, n);
      TakeFrom(src, head, previous, nread, cs, d);
    }

    /** As `TakeChains`; the other buffer keeps what it has. */
    method TakeFrom(src: Evbuffer, head: Chain, tail: Chain, len: nat, ghost cs: seq<Chain>, ghost d: seq<seq<byte>>)
      requires Valid() && cs != [] && head == cs[0] && tail == Tail(cs)
      requires Separate(cs) && Linked(cs) && Stored(cs, d) && Disjoint(chains, cs)
      requires (forall i :: 0 <= i < |d| ==> d[i] != []) && len == |Flatten(d)|
      requires src.Valid() && src != this && Disjoint(chains, src.chains)
      modifies this`first, this`last, this`lastWithData, this`totalLen
      modifies this`chains, this`data, this`full, Owner(full)`next
      ensures Valid() && src.Valid() && chains == old(chains)[..old(full)] + cs && full == |chains|
      ensures Contents() == old(Contents()) + Flatten(d)
    {
      assert forall i :: 0 <= i < |src.chains| ==> Outside(src.chains[i], chains);
      TakeChains(head, tail, len, cs, d);
    }

    lemma PartsApart(src: Evbuffer)
      requires src != this && Disjoint(chains, src.chains)
      ensures forall i :: 0 <= i < |src.chains| ==> src.chains[i] !in Parts() && src.chains[i].buffer !in Parts()
    {
      forall i | 0 <= i < |src.chains| ensures src.chains[i] !in Parts() && src.chains[i].buffer !in Parts() {
        assert Outside(src.chains[i], chains);
      }
    }

    /** As `Add`; the other buffer keeps what it has. */
    method AddBeside(src: Evbuffer, bytes: seq<byte>, mem: bool) returns (r: int)
      requires Valid() && src.Valid() && src != this && Disjoint(chains, src.chains) && !freezeEnd
      modifies this`first, this`last, this`lastWithData, this`totalLen, this`chains, this`data, this`full, Parts()
      ensures Valid() && src.Valid() && Disjoint(chains, src.chains)
      ensures src.data == old(src.data) && src.chains == old(src.chains) && src.full == old(src.full)
      ensures forall x :: x in chains && x !in old(chains) ==> fresh(x) && fresh(x.buffer)
      ensures r == if old(Takes(Taker(), totalLen, |bytes|, mem)) then 0 else -1
      ensures Contents() == if r == 0 then old(Contents()) + bytes else old(Contents())
    {
      PartsApart(src);
      r := Add(bytes, mem);
      DisjointFrom(old(chains), chains, src.chains);
    }

    /** Copy the first `n` bytes of `src`, all in its first chain. */
    method CopyFront(src: Evbuffer, chain: Chain, n: nat, mem: bool) returns (r: int)
      requires Valid() && src.Valid() && src != this && Disjoint(chains, src.chains) && !freezeEnd
      requires src.chains != [] && chain == src.first && n < |src.data[0]|
      modifies this`first, this`last, this`lastWithData, this`totalLen, this`chains, this`data, this`full, Parts()
      ensures Valid() && src.Valid() && Disjoint(chains, src.chains)
      ensures src.data == old(src.data) && src.chains == old(src.chains) && src.full == old(src.full)
      ensures forall x :: x in chains && x !in old(chains) ==> fresh(x) && fresh(x.buffer)
      ensures n <= |src.Contents()|
      ensures Contents() == if r == 0 then old(Contents()) + src.Contents()[..n] else old(Contents())
      ensures r == if old(Takes(Taker(), totalLen, n, mem)) then 0 else -1
    {
      var bytes := src.FirstBytes(chain, n);
      r := AddBeside(src, bytes, mem);
    }

    /** Copy the first `n` bytes of `src`, all in its first chain, and drop them there even if copying failed. */
    method CopyPart(src: Evbuffer, chain: Chain, n: nat, mem: bool) returns (r: int)
      requires Valid() && src.Valid() && src != this && Disjoint(chains, src.chains) && !freezeEnd
      requires src.chains != [] && chain == src.first && n < |src.data[0]|
      modifies this`first, this`last, this`lastWithData, this`totalLen, this`chains, this`data, this`full, Parts()
      modifies src`first, src`last, src`lastWithData, src`totalLen, src`chains, src`data, src`full, chain`off,
        chain`misalign
      ensures Valid() && src.Valid() && Disjoint(chains, src.chains)
      ensures src.chains == old(src.chains)
      ensures forall x :: x in chains && x !in old(chains) ==> fresh(x) && fresh(x.buffer)
      ensures n <= |old(src.Contents())| && src.Contents() == old(src.Contents())[n..]
      ensures Contents() == if r == 0 then old(Contents()) + old(src.Contents())[..n] else old(Contents())
      ensures r == if old(Takes(Taker(), totalLen, n, mem)) then 0 else -1
    {
      r := CopyFront(src, chain, n, mem);
      src.DropBeside(this, chain, n);
    }

    /** As `DropHere`; the other buffer keeps what it has. */
    method DropBeside(dst: Evbuffer, chain: Chain, n: nat)
      requires Valid() && dst.Valid() && dst != this && Disjoint(dst.chains, chains)
      requires chains != [] && chain == first && n < |data[0]|
      modifies this`first, this`last, this`lastWithData, this`totalLen
      modifies this`chains, this`data, this`full, chain`off, chain`misalign
      ensures Valid() && dst.Valid() && chains == old(chains)
      ensures n <= |old(Contents())| && Contents() == old(Contents())[n..]
    {
      assert Outside(chains[0], dst.chains);
      DropHere(chain, n);
    }

    method FirstBytes(chain: Chain, n: nat) returns (bytes: seq<byte>)
      requires Valid() && chains != [] && chain == first && n <= |data[0]|
      ensures n <= |Contents()| && bytes == Contents()[..n]
    {
      assert chains[0].Holds(data[0]);
      chain.BytesHeld(0, n, data[0]);
      FlattenRange(data, 0, 0, n);
      bytes := chain.Bytes(0, n);
    }

    /** Drop fewer bytes than the first chain has. */
    method DropHere(chain: Chain, n: nat)
      requires Valid() && chains != [] && chain == first && n < |data[0]|
      modifies this`first, this`last, this`lastWithData, this`totalLen
      modifies this`chains, this`data, this`full, chain`off, chain`misalign
      ensures Valid() && chains == old(chains)
      ensures n <= |old(Contents())| && Contents() == old(Contents())[n..]
    {
      assert data[..0] == [] && chains[0..] == chains;
      FlattenDrop(data, 0, n);
      InOrderDrop(chains, data, full, lastWithData, 0, n);
      DropFront(chain, lastWithData, n, totalLen - n, 0, full);
    }

    /** Move the chains of `src` before `chain`, `m` bytes, if there are any. */
    method MoveWhole(src: Evbuffer, chain: Chain, previous: Chain, lwd: Chain?, m: nat, ghost t: seq<byte>,
                     ghost s: seq<byte>, ghost k: nat, ghost left: nat, ghost mem: bool, ghost ok: bool)
      requires Valid() && src.Valid() && src != this && Disjoint(chains, src.chains)
      requires t == Contents() && s == src.Contents()
      requires k < src.full && chain == src.chains[k] && (0 < k ==> previous == src.chains[k - 1])
      requires lwd == if k == src.full - 1 then null else src.lastWithData
      requires m == Offset(src.data, k) <= |s|
      requires ok == Takes(if k == 0 then Taker() else previous, |t| + m, left, mem)
      modifies this`first, this`last, this`lastWithData, this`totalLen, this`chains, this`data, this`full
      modifies src`first, src`last, src`lastWithData, src`totalLen, src`chains, src`data, src`full
      modifies Owner(full)`next, (set x | x in src.chains)`next
      ensures Valid() && src.Valid() && Disjoint(chains, src.chains)
      ensures ok == Takes(Taker(), totalLen, left, mem)
      ensures src.chains != [] && chain == src.first && src.data[0] == old(src.data[k])
      ensures Parts() <= old(Parts()) + old(src.Parts()) && src.Parts() <= old(src.Parts())
      ensures Contents() == t + s[..m] && src.Contents() == s[m..] && totalLen == |t| + m
    {
      TakeNone(t, s);
      if m != 0 {
        MoveChains(src, chain, previous, lwd, m, k);
      }
    }

    /** After `m` bytes of `s` have been moved behind `t`, copy the rest of `n` from the first chain. */
    method RemoveRest(src: Evbuffer, chain: Chain, left: nat, mem: bool, ghost t: seq<byte>, ghost s: seq<byte>,
                      ghost m: nat, ghost n: nat, ghost ok: bool)
      returns (r: int)
      requires Valid() && src.Valid() && src != this && Disjoint(chains, src.chains) && !freezeEnd
      requires src.chains != [] && chain == src.first && left < |src.data[0]| && m + left == n <= |s|
      requires ok == Takes(Taker(), totalLen, left, mem)
      requires Contents() == t + s[..m] && src.Contents() == s[m..] && totalLen == |t| + m
      modifies this`first, this`last, this`lastWithData, this`totalLen, this`chains, this`data, this`full, Parts()
      modifies src`first, src`last, src`lastWithData, src`totalLen, src`chains, src`data, src`full, src.Parts()
      ensures Valid() && src.Valid() && Disjoint(chains, src.chains)
      ensures src.Contents() == s[n..]
      ensures Contents() == if r == 0 then t + s[..n] else t + s[..m]
      ensures r == if ok then 0 else -1
    {
      TakeTwice(t, s, m, left);
      r := CopyPart(src, chain, left, mem);
    }

    /** Chain `k` of the buffer holds position `n`, `left` bytes into it. */
    ghost predicate Inside(k: nat, n: nat, left: nat)
      reads this`data
    {
      k < |data| && left < |data[k]| && Offset(data, k) + left == n
    }

    /** The part of chain `k` of `src` that has to be copied when the chains before it have moved can be copied. */
    ghost predicate CanCopy(src: Evbuffer, k: nat, left: nat, mem: bool)
      requires k < |src.data| && k <= |src.chains|
      reads this`chains, this`full, this`totalLen, src`data, src`chains, chains, src.chains
    {
      Takes(if k == 0 then Taker() else src.chains[k - 1], totalLen + Offset(src.data, k), left, mem)
    }

    /** The whole chains, then part of the next one, chain `k`. */
    method RemoveSome(src: Evbuffer, n: nat, mem: bool, ghost t: seq<byte>, ghost s: seq<byte>)
      returns (r: int, ghost k: nat, ghost left: nat)
      requires Valid() && src.Valid() && src != this && Disjoint(chains, src.chains) && !freezeEnd
      requires n < src.totalLen && t == Contents() && s == src.Contents()
      modifies this`first, this`last, this`lastWithData, this`totalLen, this`chains, this`data, this`full, Parts()
      modifies src`first, src`last, src`lastWithData, src`totalLen, src`chains, src`data, src`full, src.Parts()
      ensures Valid() && src.Valid() && Disjoint(chains, src.chains)
      ensures n <= |s| && src.Contents() == s[n..]
      ensures old(src.Inside(k, n, left)) && k <= |old(src.chains)|
      ensures r == if old(CanCopy(src, k, left, mem)) then 0 else -1
      ensures Contents() == t + s[..if r == 0 then n else n - left]
    {
      var chain, previous, lwd, rest, at := src.PassChains(n);
      k, left := at, rest;
      r := RemoveFrom(src, chain, previous, lwd, n, n - rest, rest, mem, t, s, k, CanCopy(src, k, rest, mem));
    }

    method RemoveFrom(src: Evbuffer, chain: Chain, previous: Chain, lwd: Chain?, n: nat, m: nat, left: nat, mem: bool,
                      ghost t: seq<byte>, ghost s: seq<byte>, ghost k: nat, ghost ok: bool)
      returns (r: int)
      requires Valid() && src.Valid() && src != this && Disjoint(chains, src.chains) && !freezeEnd
      requires t == Contents() && s == src.Contents()
      requires k < src.full && chain == src.chains[k] && (0 < k ==> previous == src.chains[k - 1])
      requires lwd == if k == src.full - 1 then null else src.lastWithData
      requires left < |src.data[k]| && Offset(src.data, k) == m && m + left == n <= |s|
      requires ok == Takes(if k == 0 then Taker() else previous, |t| + m, left, mem)
      modifies this`first, this`last, this`lastWithData, this`totalLen, this`chains, this`data, this`full, Parts()
      modifies src`first, src`last, src`lastWithData, src`totalLen, src`chains, src`data, src`full, src.Parts()
      ensures Valid() && src.Valid() && Disjoint(chains, src.chains)
      ensures src.Contents() == s[n..]
      ensures r == if ok then 0 else -1
      ensures Contents() == if r == 0 then t + s[..n] else t + s[..m]
    {
      MoveWhole(src, chain, previous, lwd, m, t, s, k, left, mem, ok);
      r := RemoveRest(src, chain, left, mem, t, s, m, n, ok);
    }

    /** Two different buffers, neither frozen at the ends that matter. */
    method RemoveFront(src: Evbuffer, n: nat, mem: bool, ghost s: seq<byte>)
      returns (r: int, ghost m: nat, ghost k: nat, ghost left: nat)
      requires Valid() && src.Valid() && src != this && Disjoint(chains, src.chains) && !freezeEnd && !src.freezeStart
      requires n > 0 && s == src.Contents()
      modifies this`first, this`last, this`lastWithData, this`totalLen, this`chains, this`data, this`full, Parts()
      modifies src`first, src`last, src`lastWithData, src`totalLen, src`chains, src`data, src`full, src.Parts()
      ensures Valid() && src.Valid() && Disjoint(chains, src.chains)
      ensures r == AsInt(if n < |s| then n else |s|) && m <= |s| && Contents() == old(Contents()) + s[..m]
      ensures |s| <= n ==> m == |s| && src.Contents() == []
      ensures |s| > n ==>
        && src.Contents() == s[n..] && old(src.Inside(k, n, left)) && k <= |old(src.chains)|
        && m == if old(CanCopy(src, k, left, mem)) then n else n - left
    {
      m, k, left := 0, 0, 0;
      if n >= src.totalLen {
        r, m := AsInt(src.totalLen), src.totalLen;
        TakeAll(Contents(), s);
        var _ := AddBuffer(src);
      } else {
        var done;
        done, k, left := RemoveSome(src, n, mem, Contents(), s);
        r, m := AsInt(n), if done == 0 then n else n - left;
      }
    }

    /**
     Move up to `n` bytes from the front of `src` to the end of this buffer, by relinking chains
     where possible.  The one part that is copied, from position `n - left` on, is lost if and only
     if it cannot be copied; it is dropped from `src` all the same.
     */
    method RemoveBuffer(src: Evbuffer, n: nat, mem: bool)
      returns (r: int, ghost m: nat, ghost k: nat, ghost left: nat)
      requires Valid() && src.Valid() && (src != this ==> Disjoint(chains, src.chains))
      modifies this`first, this`last, this`lastWithData, this`totalLen, this`chains, this`data, this`full, Parts()
      modifies src`first, src`last, src`lastWithData, src`totalLen, src`chains, src`data, src`full, src.Parts()
      ensures Valid() && src.Valid() && (src != this ==> Disjoint(chains, src.chains))
      ensures n == 0 || src == this ==> r == 0
      ensures n != 0 && src != this && old(freezeEnd || src.freezeStart) ==> r == -1
      ensures n == 0 || src == this || old(freezeEnd || src.freezeStart) ==>
        Contents() == old(Contents()) && src.Contents() == old(src.Contents())
      ensures n != 0 && src != this && !old(freezeEnd || src.freezeStart) ==>
        var s := old(src.Contents());
        && r == AsInt(if n < |s| then n else |s|) && m <= |s| && Contents() == old(Contents()) + s[..m]
        && (|s| <= n ==> m == |s| && src.Contents() == [])
        && (|s| > n ==>
              && src.Contents() == s[n..] && old(src.Inside(k, n, left)) && k <= |old(src.chains)|
              && m == if old(CanCopy(src, k, left, mem)) then n else n - left)
    {
      m, k, left := 0, 0, 0;
      if n == 0 || src == this {
        r := 0;
      } else if freezeEnd || src.freezeStart {
        r := -1;
      } else {
        r, m, k, left := RemoveFront(src, n, mem, src.Contents());
      }
    }

    /** Put the list `cs`, from `head` to `tail`, before this one. */
    method LeadList(head: Chain, tail: Chain, ghost cs: seq<Chain>, ghost d: seq<seq<byte>>)
      requires Built() && chains != []
      requires cs != [] && head == cs[0] && tail == Tail(cs)
      requires Separate(cs) && Linked(cs) && Stored(cs, d) && Disjoint(cs, chains)
      modifies this`first, this`chains, this`data, tail`next
      ensures Built() && chains == cs + old(chains) && data == d + old(data)
    {
      SeparateConcat(cs, chains);
      ApartFrom(cs, |cs| - 1);
      assert forall i :: 0 <= i < |chains| ==> Outside(chains[i], cs);
      tail.next := first;
      first := head;
      chains, data := cs + chains, d + data;
    }

    /** The documented meaning of `last_with_datap`: it names the last chain that holds data. */
    ghost predicate NamesLast()
      reads this, chains, lastWithData
    {
      exists i :: 0 <= i < |chains| == |data| && data[i] != [] && (forall j :: i < j < |data| ==> data[j] == [])
        && chains[i] == if lastWithData == null then first else lastWithData.next
    }

    method Cache(lwd: Chain?, len: nat, ghost n: nat)
      requires Built()
      modifies this`lastWithData, this`totalLen, this`full
      ensures Built() && lastWithData == lwd && totalLen == len && full == n
    {
      lastWithData, totalLen, full := lwd, len, n;
    }

    /** `PREPEND_CHAIN`: link the chains of `src` before these. */
    method PrependAll(src: Evbuffer)
      requires Valid() && src.Valid() && src != this && Disjoint(src.chains, chains)
      requires 0 < full && 0 < src.full
      modifies this`first, this`lastWithData, this`totalLen, this`chains, this`data, this`full, src.last`next
      ensures Built() && last == Tail(chains) && totalLen == |Contents()| && NamesLast()
      ensures chains == src.chains + old(chains) && data == src.data + old(data) && full == |src.chains| + old(full)
      ensures lastWithData == if old(full) == 1 then Tail(src.chains) else old(lastWithData)
      ensures Contents() == src.Contents() + old(Contents())
    {
      FlattenConcat(src.data, data);
      ghost var k := |src.chains| + full - 1;
      assert Tail(src.chains + chains) == Tail(chains);
      assert (src.data + data)[k] != [] && forall j :: k < j < |src.data + data| ==> (src.data + data)[j] == [];
      LeadList(src.first, src.last, src.chains, src.data);
      Cache(if lastWithData == null then src.last else lastWithData, totalLen + src.totalLen, |src.chains| + full);
      assert lastWithData == chains[k - 1];
      assert chains[k - 1].next == chains[k];
    }

    /**
     Move all of `src` to the front of this buffer.  The order of the chains survives exactly when
     `src` has no empty chains at its end, or this buffer had no bytes.
     */
    method PrependBuffer(src: Evbuffer) returns (r: int)
      requires Valid() && src.Valid() && (src != this ==> Disjoint(src.chains, chains))
      modifies this, src, set x | x in src.chains
      ensures src.Valid()
      ensures src.freezeStart == old(src.freezeStart) && src.freezeEnd == old(src.freezeEnd)
      ensures freezeStart == old(freezeStart) && freezeEnd == old(freezeEnd)
      ensures r == if old(src.totalLen) != 0 && src != this && (freezeStart || src.freezeStart) then -1 else 0
      ensures src == this || r == -1 || old(src.totalLen) == 0 ==>
        Valid() && Contents() == old(Contents()) && src.Contents() == old(src.Contents())
      ensures src != this && r == 0 && old(src.totalLen) != 0 ==>
        && Contents() == old(src.Contents()) + old(Contents()) && src.Contents() == []
        && Built() && last == Tail(chains) && totalLen == |Contents()| && NamesLast()
        && (Valid() <==> old(totalLen) == 0 || old(src.full) == |old(src.chains)|)
    {
      if src.totalLen == 0 || src == this {
        return 0;
      }
      if freezeStart || src.freezeStart {
        return -1;
      }
      MoveInFront(src);
      src.ZeroChain();
      return 0;
    }

    method MoveInFront(src: Evbuffer)
      requires Valid() && src.Valid() && src != this && Disjoint(src.chains, chains) && src.totalLen != 0
      modifies this`first, this`last, this`lastWithData, this`totalLen
      modifies this`chains, this`data, this`full, (set x | x in src.chains)`next
      ensures Contents() == src.Contents() + old(Contents())
      ensures Built() && last == Tail(chains) && totalLen == |Contents()| && NamesLast()
      ensures Valid() <==> old(totalLen) == 0 || src.full == |src.chains|
    {
      FlattenPrefix(src.data, src.full);
      FlattenPrefix(data, full);
      if totalLen == 0 {
        TakeNone(src.Contents(), Contents());
        Adopt(src.first, src.lastWithData, src.last, src.totalLen, src.chains, src.data, src.full);
        ValidNames();
      } else {
        JoinedOrder(src.chains, src.data, src.full, src.lastWithData, chains, data, full, lastWithData);
        PrependAll(src);
      }
    }

    lemma ValidNames()
      requires Valid() && 0 < full
      ensures NamesLast()
    {
      assert data[full - 1] != [];
      if full > 1 {
        assert chains[full - 2].next == chains[full - 1];
      }
    }
  }

  /** Empty chains before chains with data have no place in the order. */
  lemma JoinedOrder(a: seq<Chain>, da: seq<seq<byte>>, m: nat, oa: Chain?, b: seq<Chain>, db: seq<seq<byte>>, n: nat,
                    ob: Chain?)
    requires InOrder(a, da, m, oa) && InOrder(b, db, n, ob) && 0 < n
    ensures InOrder(a + b, da + db, |a| + n, if n == 1 then Tail(a) else ob) <==> m == |a|
  {
    if m < |a| {
      assert (da + db)[m] == [] && (da + db)[|a|] != [];
    }
  }

  /** A new buffer with one chain. */
  method OneChain(d: seq<byte>) returns (buf: Evbuffer)
    requires 0 < |d| <= MIN_BUFFER_SIZE
    ensures fresh(buf) && buf.Valid() && |buf.chains| == |buf.data|
    ensures forall i :: 0 <= i < |buf.chains| ==> fresh(buf.chains[i]) && fresh(buf.chains[i].buffer)
    ensures !buf.freezeStart && buf.data == [d] && buf.full == 1 && buf.totalLen == |d|
  {
    buf := new Evbuffer();
    var c := NewChainAtEnd(d, true);
    buf.ChainInsert(c, d);
    FlattenOne(d);
  }

  /** The same with an empty chain behind it. */
  method OneByteAndRoom(x: byte) returns (buf: Evbuffer)
    ensures fresh(buf) && buf.Valid() && |buf.chains| == |buf.data|
    ensures forall i :: 0 <= i < |buf.chains| ==> fresh(buf.chains[i]) && fresh(buf.chains[i].buffer)
    ensures !buf.freezeStart && buf.data == [[x], []] && buf.full == 1 && buf.totalLen == 1
  {
    buf := OneChain([x]);
    var c := NewChain(0, true);
    assert buf.data[..1] == [[x]];
    buf.ChainInsert(c, []);
    assert buf.data[0] == [x] && buf.data[1] == [];
    FlattenFirst(buf.data);
  }

  /** A prepend that leaves an empty chain between chains with bytes: the order is lost. */
  method PrependExample() returns (dst: Evbuffer)
    ensures !dst.Valid() && dst.Built() && dst.Contents() == [1, 2]
  {
    dst := OneChain([2]);
    ghost var cs := dst.chains;
    var src := OneByteAndRoom(1);
    ExampleFacts(src.data, dst.data);
    forall i | 0 <= i < |cs| ensures Outside(cs[i], src.chains) {}
    assert Disjoint(src.chains, cs);
    var r := dst.PrependBuffer(src);
    assert r == 0;
  }

  /** Two bytes that leave `src`, are reported as moved, and arrive nowhere. */
  method LossExample() returns (r: int, src: Evbuffer, dst: Evbuffer)
    ensures r == 2 && src.Contents() == [3] && dst.Contents() == []
  {
    src := OneChain([1, 2, 3]);
    ghost var cs := src.chains;
    FlattenOne([1, 2, 3]);
    dst := new Evbuffer();
    assert Disjoint(dst.chains, cs) && dst.Taker() == null;
    ghost var m, k, left;
    r, m, k, left := dst.RemoveBuffer(src, 2, false);
    assert [1, 2, 3][2..] == [3];
  }

  lemma ExampleFacts(a: seq<seq<byte>>, b: seq<seq<byte>>)
    requires a == [[1], []] && b == [[2]]
    ensures Flatten(a) == [1] && Flatten(b) == [2]
  {
    FlattenFirst(a);
    FlattenFirst(b);
  }
}
