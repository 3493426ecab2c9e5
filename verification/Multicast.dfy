/** Reference counts of multicast chains and their source buffers in `buffer.c`. */
module Multicasts {
  import opened Distinctness
  import opened Options

  type Id = nat

  /** A chain with its own bytes, or one that shows those of a parent chain in a source buffer. */
  datatype Origin = Own | Child(parent: Id, source: Id)

  /** A chain: its count, the buffer it is in, where its bytes come from, and whether it has any. */
  datatype Chain = Chain(refcnt: int, home: Option<Id>, origin: Origin, full: bool)

  /** A buffer: its count, whether its user still has it, and its chains. */
  datatype Buffer = Buffer(refcnt: int, held: bool, list: seq<Id>)

  type Chains = map<Id, Chain>
  type Buffers = map<Id, Buffer>

  /** The live chains that show the bytes of chain `p`. */
  ghost function Kids(cs: Chains, p: Id): set<Id> {
    set c | c in cs && cs[c].origin.Child? && cs[c].origin.parent == p
  }

  /** The live chains whose bytes come from buffer `b`. */
  ghost function Users(cs: Chains, b: Id): set<Id> {
    set c | c in cs && cs[c].origin.Child? && cs[c].origin.source == b
  }

  function One(b: bool): nat {
    if b then 1 else 0
  }

  /** The count of a chain: its place in a list, the chains that show it, and releases still to come. */
  ghost predicate ChainOk(cs: Chains, bs: Buffers, pc: multiset<Id>, c: Id)
    requires c in cs
  {
    && cs[c].refcnt == One(cs[c].home.Some?) + |Kids(cs, c)| + pc[c] && cs[c].refcnt > 0
    && (cs[c].home.Some? ==> cs[c].home.value in bs && c in bs[cs[c].home.value].list)
    && (cs[c].origin.Child? ==>
          && cs[c].origin.parent in cs && cs[cs[c].origin.parent].origin.Own?
          && cs[c].origin.source in bs)
  }

  /** The count of a buffer: its user, the chains that show its bytes, and releases still to come. */
  ghost predicate BufferOk(cs: Chains, bs: Buffers, pb: multiset<Id>, b: Id)
    requires b in bs
  {
    && bs[b].refcnt == One(bs[b].held) + |Users(cs, b)| + pb[b] && bs[b].refcnt > 0
    && NoDup(bs[b].list)
    && forall i {:trigger bs[b].list[i]} :: 0 <= i < |bs[b].list| ==>
         bs[b].list[i] in cs && cs[bs[b].list[i]].home == Some(b)
  }

  /** What holds when the chains in `pc` and the buffers in `pb` are about to be released. */
  ghost predicate Inv(cs: Chains, bs: Buffers, pc: multiset<Id>, pb: multiset<Id>) {
    && (forall c {:trigger ChainOk(cs, bs, pc, c)} :: c in cs ==> ChainOk(cs, bs, pc, c))
    && (forall b {:trigger BufferOk(cs, bs, pb, b)} :: b in bs ==> BufferOk(cs, bs, pb, b))
    && (forall c :: c in pc ==> c in cs)
    && (forall b :: b in pb ==> b in bs)
  }

  /** A parent and a source that something refers to are there. */
  lemma NeverReleased(cs: Chains, bs: Buffers, pc: multiset<Id>, pb: multiset<Id>, c: Id)
    requires Inv(cs, bs, pc, pb) && c in cs && cs[c].origin.Child?
    ensures var o := cs[c].origin;
      && o.parent in cs && cs[o.parent].refcnt > 0 && c in Kids(cs, o.parent)
      && o.source in bs && bs[o.source].refcnt > 0
  {
    assert ChainOk(cs, bs, pc, c);
    assert ChainOk(cs, bs, pc, cs[c].origin.parent);
    assert BufferOk(cs, bs, pb, cs[c].origin.source);
  }

  /** A release that is not the last one. */
  lemma Dropped(cs: Chains, bs: Buffers, pc: multiset<Id>, pb: multiset<Id>, c: Id)
    requires Inv(cs, bs, pc, pb) && c in pc && cs[c].refcnt > 1
    ensures Inv(cs[c := cs[c].(refcnt := cs[c].refcnt - 1)], bs, pc - multiset{c}, pb)
  {
    var cs', pc' := cs[c := cs[c].(refcnt := cs[c].refcnt - 1)], pc - multiset{c};
    forall x | x in cs' ensures ChainOk(cs', bs, pc', x) {
      assert ChainOk(cs, bs, pc, x) && Kids(cs', x) == Kids(cs, x);
    }
    forall b | b in bs ensures BufferOk(cs', bs, pb, b) {
      assert BufferOk(cs, bs, pb, b) && Users(cs', b) == Users(cs, b);
    }
  }

  lemma KidsWithout(cs: Chains, c: Id, x: Id)
    requires c in cs
    ensures |Kids(cs - {c}, x)| == |Kids(cs, x)| - One(cs[c].origin.Child? && cs[c].origin.parent == x)
  {
    assert Kids(cs - {c}, x) == Kids(cs, x) - {c};
  }

  lemma UsersWithout(cs: Chains, c: Id, b: Id)
    requires c in cs
    ensures |Users(cs - {c}, b)| == |Users(cs, b)| - One(cs[c].origin.Child? && cs[c].origin.source == b)
  {
    assert Users(cs - {c}, b) == Users(cs, b) - {c};
  }

  lemma Childless(cs: Chains, bs: Buffers, pc: multiset<Id>, c: Id, x: Id)
    requires c in cs && ChainOk(cs, bs, pc, c) && c in pc && cs[c].refcnt == 1 && x in cs
    ensures cs[c].home == None && pc[c] == 1 && (cs[x].origin.Child? ==> cs[x].origin.parent != c)
  {
    assert cs[x].origin.Child? && cs[x].origin.parent == c ==> x in Kids(cs, c);
  }

  /** What is to be released once chain `c` has gone. */
  ghost function NextChains(cs: Chains, c: Id, pc: multiset<Id>): multiset<Id>
    requires c in cs
  {
    match cs[c].origin
    case Own => pc - multiset{c}
    case Child(p, _) => pc - multiset{c} + multiset{p}
  }

  ghost function NextBuffers(cs: Chains, c: Id, pb: multiset<Id>): multiset<Id>
    requires c in cs
  {
    match cs[c].origin
    case Own => pb
    case Child(_, s) => pb + multiset{s}
  }

  lemma GoneChain(cs: Chains, bs: Buffers, pc: multiset<Id>, c: Id, x: Id)
    requires c in cs && ChainOk(cs, bs, pc, c) && c in pc && cs[c].refcnt == 1 && x in cs && x != c
    requires ChainOk(cs, bs, pc, x)
    ensures ChainOk(cs - {c}, bs, NextChains(cs, c, pc), x)
  {
    KidsWithout(cs, c, x);
    Childless(cs, bs, pc, c, x);
  }

  lemma GoneBuffer(cs: Chains, bs: Buffers, pc: multiset<Id>, pb: multiset<Id>, c: Id, b: Id)
    requires c in cs && ChainOk(cs, bs, pc, c) && c in pc && cs[c].refcnt == 1 && b in bs && BufferOk(cs, bs, pb, b)
    ensures BufferOk(cs - {c}, bs, NextBuffers(cs, c, pb), b)
  {
    UsersWithout(cs, c, b);
    Childless(cs, bs, pc, c, c);
  }

  lemma GonePending(cs: Chains, bs: Buffers, pc: multiset<Id>, pb: multiset<Id>, c: Id)
    requires c in cs && ChainOk(cs, bs, pc, c) && c in pc && cs[c].refcnt == 1
    requires (forall x :: x in pc ==> x in cs) && (forall b :: b in pb ==> b in bs)
    ensures forall x :: x in NextChains(cs, c, pc) ==> x in cs - {c}
    ensures forall b :: b in NextBuffers(cs, c, pb) ==> b in bs
  {
    Childless(cs, bs, pc, c, c);
  }

  /** The last release of a chain: what it refers to is to be released next. */
  lemma Gone(cs: Chains, bs: Buffers, pc: multiset<Id>, pb: multiset<Id>, c: Id)
    requires Inv(cs, bs, pc, pb) && c in pc && cs[c].refcnt == 1
    ensures Inv(cs - {c}, bs, NextChains(cs, c, pc), NextBuffers(cs, c, pb))
  {
    var cs', pc', pb' := cs - {c}, NextChains(cs, c, pc), NextBuffers(cs, c, pb);
    assert ChainOk(cs, bs, pc, c);
    GonePending(cs, bs, pc, pb, c);
    forall x | x in cs' ensures ChainOk(cs', bs, pc', x) {
      assert ChainOk(cs, bs, pc, x);
      GoneChain(cs, bs, pc, c, x);
    }
    forall b | b in bs ensures BufferOk(cs', bs, pb', b) {
      assert BufferOk(cs, bs, pb, b);
      GoneBuffer(cs, bs, pc, pb, c, b);
    }
  }

  /** A buffer's release that is not the last one. */
  lemma BufferDropped(cs: Chains, bs: Buffers, pc: multiset<Id>, pb: multiset<Id>, b: Id)
    requires Inv(cs, bs, pc, pb) && b in pb && bs[b].refcnt > 1
    ensures Inv(cs, bs[b := bs[b].(refcnt := bs[b].refcnt - 1)], pc, pb - multiset{b})
  {
    var bs', pb' := bs[b := bs[b].(refcnt := bs[b].refcnt - 1)], pb - multiset{b};
    forall x | x in cs ensures ChainOk(cs, bs', pc, x) { assert ChainOk(cs, bs, pc, x); }
    forall x | x in bs' ensures BufferOk(cs, bs', pb', x) { assert BufferOk(cs, bs, pb, x); }
  }

  /** Chains taken out of their lists. */
  ghost function Homeless(cs: Chains, list: seq<Id>): Chains {
    map c | c in cs :: if c in list then cs[c].(home := None) else cs[c]
  }

  lemma {:induction false} CountOf(s: seq<Id>, c: Id)
    requires NoDup(s)
    ensures multiset(s)[c] == One(c in s)
  {
    if s != [] {
      var t := s[..|s| - 1];
      assert s == t + [s[|s| - 1]];
      forall i, j | 0 <= i < j < |t| ensures Apart(t, i, j) { assert Apart(s, i, j); }
      CountOf(t, c);
      NoDupApart(s, |s| - 1);
      forall i | 0 <= i < |t| ensures t[i] != s[|s| - 1] { assert t[i] == s[i]; }
    }
  }

  /** The last release of a buffer: its chains are to be released next. */
  lemma BufferGone(cs: Chains, bs: Buffers, pc: multiset<Id>, pb: multiset<Id>, b: Id)
    requires Inv(cs, bs, pc, pb) && b in pb && bs[b].refcnt == 1
    ensures Inv(Homeless(cs, bs[b].list), bs - {b}, pc + multiset(bs[b].list), pb - multiset{b})
  {
    var list := bs[b].list;
    var cs', bs', pc', pb' := Homeless(cs, list), bs - {b}, pc + multiset(list), pb - multiset{b};
    assert BufferOk(cs, bs, pb, b);
    assert Users(cs, b) == {};
    forall x | x in cs' ensures ChainOk(cs', bs', pc', x) {
      assert ChainOk(cs, bs, pc, x);
      CountOf(list, x);
      assert Kids(cs', x) == Kids(cs, x);
      assert x in list ==> cs[x].home == Some(b);
      assert cs[x].origin.Child? && cs[x].origin.source == b ==> x in Users(cs, b);
    }
    forall x | x in bs' ensures BufferOk(cs', bs', pb', x) {
      assert BufferOk(cs, bs, pb, x);
      assert Users(cs', x) == Users(cs, x);
    }
    forall c | c in pc' ensures c in cs' { assert c in pc || c in list; }
  }

  /** Chains put into the list of buffer `d`. */
  function Rehomed(cs: Chains, list: seq<Id>, d: Id): Chains {
    map c | c in cs :: if c in list then cs[c].(home := Some(d)) else cs[c]
  }

  lemma ListOwn(cs: Chains, bs: Buffers, pb: multiset<Id>, b: Id, c: Id)
    requires b in bs && BufferOk(cs, bs, pb, b) && c in bs[b].list
    ensures c in cs && cs[c].home == Some(b)
  {
  }

  lemma NoDupPrefix(s: seq<Id>, k: nat)
    requires NoDup(s) && k <= |s|
    ensures NoDup(s[..k]) && NoDup(s[k..]) && forall i :: k <= i < |s| ==> s[i] !in s[..k]
  {
    forall i, j | 0 <= i < j < k ensures Apart(s[..k], i, j) { assert Apart(s, i, j); }
    forall i, j | 0 <= i < j < |s| - k ensures Apart(s[k..], i, j) { assert Apart(s, i + k, j + k); }
    forall i | k <= i < |s| ensures s[i] !in s[..k] { NoDupApart(s, i); }
  }

  /** The list falls into the chains that go and those that stay. */
  ghost predicate Splits(list: seq<Id>, gone: seq<Id>, kept: seq<Id>) {
    && NoDup(gone) && NoDup(kept)
    && (forall i {:trigger list[i]} :: 0 <= i < |list| ==> list[i] in gone || list[i] in kept)
    && (forall i {:trigger gone[i]} :: 0 <= i < |gone| ==> gone[i] in list && gone[i] !in kept)
    && (forall i {:trigger kept[i]} :: 0 <= i < |kept| ==> kept[i] in list && kept[i] !in gone)
  }

  lemma SplitsAt(list: seq<Id>, k: nat)
    requires NoDup(list) && k <= |list|
    ensures Splits(list, list[..k], list[k..]) && Splits(list, list[k..], list[..k])
  {
    NoDupPrefix(list, k);
    assert list == list[..k] + list[k..];
    forall i | 0 <= i < k ensures list[..k][i] !in list[k..] { NoDupApart(list, i); }
    forall i | 0 <= i < |list| - k ensures list[k..][i] !in list[..k] { assert list[k..][i] == list[i + k]; }
  }

  /** Some chains leave the list of buffer `b` and are to be released. */
  lemma Detached(cs: Chains, bs: Buffers, b: Id, gone: seq<Id>, kept: seq<Id>)
    requires Inv(cs, bs, multiset{}, multiset{}) && b in bs && Splits(bs[b].list, gone, kept)
    ensures Inv(Homeless(cs, gone), bs[b := bs[b].(list := kept)], multiset(gone), multiset{})
  {
    var cs', bs', pc := Homeless(cs, gone), bs[b := bs[b].(list := kept)], multiset(gone);
    assert BufferOk(cs, bs, multiset{}, b);
    forall x | x in cs' ensures ChainOk(cs', bs', pc, x) {
      assert ChainOk(cs, bs, multiset{}, x);
      DetachedChain(cs, bs, b, gone, kept, x);
    }
    forall x | x in bs' ensures BufferOk(cs', bs', multiset{}, x) {
      assert BufferOk(cs, bs, multiset{}, x);
      assert Users(cs', x) == Users(cs, x);
      DetachedList(cs, bs, b, gone, kept, x);
    }
    forall c | c in pc ensures c in cs' { ListOwn(cs, bs, multiset{}, b, c); }
  }

  lemma DetachedChain(cs: Chains, bs: Buffers, b: Id, gone: seq<Id>, kept: seq<Id>, x: Id)
    requires b in bs && x in cs && BufferOk(cs, bs, multiset{}, b) && ChainOk(cs, bs, multiset{}, x)
    requires Splits(bs[b].list, gone, kept)
    ensures ChainOk(Homeless(cs, gone), bs[b := bs[b].(list := kept)], multiset(gone), x)
  {
    CountOf(gone, x);
    assert Kids(Homeless(cs, gone), x) == Kids(cs, x);
    if x in gone { ListOwn(cs, bs, multiset{}, b, x); }
  }

  lemma DetachedList(cs: Chains, bs: Buffers, b: Id, gone: seq<Id>, kept: seq<Id>, x: Id)
    requires b in bs && x in bs && BufferOk(cs, bs, multiset{}, b) && BufferOk(cs, bs, multiset{}, x)
    requires Splits(bs[b].list, gone, kept)
    ensures var cs', list := Homeless(cs, gone), if x == b then kept else bs[x].list;
      NoDup(list) && forall i {:trigger list[i]} :: 0 <= i < |list| ==> list[i] in cs' && cs'[list[i]].home == Some(x)
  {
    var list := if x == b then kept else bs[x].list;
    forall i | 0 <= i < |list| ensures list[i] in cs && cs[list[i]].home == Some(x) && list[i] !in gone {
      if x == b {
        assert list[i] == kept[i];
        ListOwn(cs, bs, multiset{}, b, list[i]);
      } else {
        assert list[i] == bs[x].list[i];
        if list[i] in gone { ListOwn(cs, bs, multiset{}, b, list[i]); }
      }
    }
  }

  /** Chains that are in no list go to the end of buffer `d`: they are not to be released any more. */
  lemma Attached(cs: Chains, bs: Buffers, moved: seq<Id>, d: Id)
    requires Inv(cs, bs, multiset(moved), multiset{}) && d in bs && NoDup(moved)
    requires forall i {:trigger moved[i]} :: 0 <= i < |moved| ==> moved[i] in cs && cs[moved[i]].home == None
    ensures Inv(Rehomed(cs, moved, d), bs[d := bs[d].(list := bs[d].list + moved)], multiset{}, multiset{})
  {
    var cs', bs' := Rehomed(cs, moved, d), bs[d := bs[d].(list := bs[d].list + moved)];
    forall x | x in cs' ensures ChainOk(cs', bs', multiset{}, x) {
      assert ChainOk(cs, bs, multiset(moved), x);
      CountOf(moved, x);
      assert Kids(cs', x) == Kids(cs, x);
    }
    forall x | x in bs' ensures BufferOk(cs', bs', multiset{}, x) {
      assert BufferOk(cs, bs, multiset{}, x);
      assert Users(cs', x) == Users(cs, x);
      AttachedList(cs, bs, moved, d, x);
    }
  }

  lemma AttachedList(cs: Chains, bs: Buffers, moved: seq<Id>, d: Id, x: Id)
    requires x in bs && BufferOk(cs, bs, multiset{}, x) && NoDup(moved)
    requires forall i {:trigger moved[i]} :: 0 <= i < |moved| ==> moved[i] in cs && cs[moved[i]].home == None
    ensures var cs', list := Rehomed(cs, moved, d), if x == d then bs[x].list + moved else bs[x].list;
      NoDup(list) && forall i {:trigger list[i]} :: 0 <= i < |list| ==> list[i] in cs' && cs'[list[i]].home == Some(x)
  {
    var old', list := bs[x].list, if x == d then bs[x].list + moved else bs[x].list;
    forall i | 0 <= i < |old'| ensures old'[i] in cs && cs[old'[i]].home == Some(x) && old'[i] !in moved {
      assert old'[i] == bs[x].list[i];
    }
    forall i | 0 <= i < |moved| ensures moved[i] !in old' {}
    if x == d { NoDupConcat(old', moved); }
    forall i | 0 <= i < |list| ensures list[i] in cs && Rehomed(cs, moved, d)[list[i]].home == Some(x) {
      assert list[i] == if i < |old'| then old'[i] else moved[i - |old'|];
    }
  }

  /** The chain that shows the bytes of chain `p` from buffer `s`. */
  function Kid(p: Id, s: Id, b: Id): Chain {
    Chain(1, Some(b), Child(p, s), true)
  }

  function ChainsWith(cs: Chains, b: Id, p: Id, s: Id, n: Id): Chains
    requires p in cs
  {
    cs[p := cs[p].(refcnt := cs[p].refcnt + 1)][n := Kid(p, s, b)]
  }

  function BuffersWith(bs: Buffers, b: Id, s: Id, n: Id): Buffers
    requires b in bs && s in bs && b != s
  {
    bs[s := bs[s].(refcnt := bs[s].refcnt + 1)][b := bs[b].(list := bs[b].list + [n])]
  }

  /** A new chain in buffer `b` shows the bytes of chain `p` of buffer `s`, which both count it. */
  lemma Referenced(cs: Chains, bs: Buffers, b: Id, p: Id, s: Id, n: Id)
    requires Inv(cs, bs, multiset{}, multiset{}) && b in bs && s in bs && b != s && p in cs && cs[p].origin.Own?
    requires n !in cs
    ensures Inv(ChainsWith(cs, b, p, s, n), BuffersWith(bs, b, s, n), multiset{}, multiset{})
  {
    var cs', bs' := ChainsWith(cs, b, p, s, n), BuffersWith(bs, b, s, n);
    forall x | x in cs' ensures ChainOk(cs', bs', multiset{}, x) {
      ReferencedKids(cs, bs, b, p, s, n, x);
      if x in cs { ReferencedChain(cs, bs, b, p, s, n, x); } else { ReferencedNew(cs, bs, b, p, s, n); }
    }
    forall x | x in bs' ensures BufferOk(cs', bs', multiset{}, x) {
      ReferencedBuffer(cs, bs, b, p, s, n, x);
    }
  }

  lemma ReferencedNew(cs: Chains, bs: Buffers, b: Id, p: Id, s: Id, n: Id)
    requires b in bs && s in bs && b != s && p in cs && cs[p].origin.Own? && n !in cs
    requires |Kids(ChainsWith(cs, b, p, s, n), n)| == 0
    ensures ChainOk(ChainsWith(cs, b, p, s, n), BuffersWith(bs, b, s, n), multiset{}, n)
  {
    var list := bs[b].list + [n];
    assert list[|list| - 1] == n;
  }

  lemma ReferencedBuffer(cs: Chains, bs: Buffers, b: Id, p: Id, s: Id, n: Id, x: Id)
    requires Inv(cs, bs, multiset{}, multiset{}) && b in bs && s in bs && b != s && p in cs && n !in cs && x in bs
    ensures BufferOk(ChainsWith(cs, b, p, s, n), BuffersWith(bs, b, s, n), multiset{}, x)
  {
    assert BufferOk(cs, bs, multiset{}, x);
    assert Users(ChainsWith(cs, b, p, s, n), x) == Users(cs, x) + if x == s then {n} else {};
    ReferencedList(cs, bs, b, p, s, n, x);
  }

  lemma ReferencedChain(cs: Chains, bs: Buffers, b: Id, p: Id, s: Id, n: Id, x: Id)
    requires Inv(cs, bs, multiset{}, multiset{}) && b in bs && s in bs && b != s && p in cs && cs[p].origin.Own?
    requires n !in cs
    requires x in cs && |Kids(ChainsWith(cs, b, p, s, n), x)| == |Kids(cs, x)| + One(x == p)
    ensures ChainOk(ChainsWith(cs, b, p, s, n), BuffersWith(bs, b, s, n), multiset{}, x)
  {
    assert ChainOk(cs, bs, multiset{}, x);
  }

  lemma ReferencedKids(cs: Chains, bs: Buffers, b: Id, p: Id, s: Id, n: Id, x: Id)
    requires Inv(cs, bs, multiset{}, multiset{}) && p in cs && n !in cs
    ensures |Kids(ChainsWith(cs, b, p, s, n), x)| == (if x in cs then |Kids(cs, x)| else 0) + One(x == p)
  {
    assert Kids(ChainsWith(cs, b, p, s, n), x) == Kids(cs, x) + if x == p then {n} else {};
    if x !in cs {
      forall c ensures c !in Kids(cs, x) {
        if c in cs { assert ChainOk(cs, bs, multiset{}, c); }
      }
      assert Kids(cs, x) == {};
    }
  }

  lemma ReferencedList(cs: Chains, bs: Buffers, b: Id, p: Id, s: Id, n: Id, x: Id)
    requires x in bs && BufferOk(cs, bs, multiset{}, x) && n !in cs && p in cs
    ensures var cs', list := ChainsWith(cs, b, p, s, n), if x == b then bs[x].list + [n] else bs[x].list;
      NoDup(list) && forall i {:trigger list[i]} :: 0 <= i < |list| ==> list[i] in cs' && cs'[list[i]].home == Some(x)
  {
    var list := bs[x].list;
    forall i | 0 <= i < |list| ensures list[i] in cs && cs[list[i]].home == Some(x) { assert list[i] == bs[x].list[i]; }
    if x == b { NoDupConcat(list, [n]); }
  }

  /** A buffer whose user still has it. */
  predicate Held(bs: Buffers, b: Id) {
    b in bs && bs[b].held
  }

  /** Releases only take away; buffers that users have, and the chains in them, stay as they are. */
  ghost predicate Keeps(cs: Chains, bs: Buffers, cs': Chains, bs': Buffers) {
    && (forall c :: c in cs' ==> c in cs) && (forall b :: b in bs' ==> b in bs)
    && (forall b :: Held(bs, b) ==> Held(bs', b) && bs'[b].list == bs[b].list)
    && (forall c {:trigger cs[c]} :: c in cs && cs[c].home.Some? && Held(bs, cs[c].home.value) ==>
          c in cs' && cs'[c].home == cs[c].home && cs'[c].origin == cs[c].origin && cs'[c].full == cs[c].full)
    && (forall c {:trigger cs'[c]} :: c in cs' ==>
          && (cs'[c].home.Some? ==> cs'[c].home == cs[c].home)
          && cs'[c].origin == cs[c].origin && cs'[c].full == cs[c].full)
  }

  lemma KeepsOn(cs: Chains, bs: Buffers, cs': Chains, bs': Buffers, cs'': Chains, bs'': Buffers)
    requires Keeps(cs, bs, cs', bs') && Keeps(cs', bs', cs'', bs'')
    ensures Keeps(cs, bs, cs'', bs'')
  {
    forall c | c in cs && cs[c].home.Some? && Held(bs, cs[c].home.value)
      ensures c in cs'' && cs''[c].home == cs[c].home && cs''[c].origin == cs[c].origin && cs''[c].full == cs[c].full
    {
      assert cs'[c].home == cs[c].home;
    }
    forall c | c in cs''
      ensures (cs''[c].home.Some? ==> cs''[c].home == cs[c].home) && cs''[c].origin == cs[c].origin
      ensures cs''[c].full == cs[c].full
    {
      assert c in cs' && cs''[c].origin == cs'[c].origin;
    }
  }

  lemma DroppedKeeps(cs: Chains, bs: Buffers, pc: multiset<Id>, pb: multiset<Id>, c: Id)
    requires Inv(cs, bs, pc, pb) && c in pc
    ensures Keeps(cs, bs, cs[c := cs[c].(refcnt := cs[c].refcnt - 1)], bs)
    ensures cs[c].refcnt <= 1 ==> Keeps(cs, bs, cs - {c}, bs)
  {
    assert ChainOk(cs, bs, pc, c);
  }

  lemma BufferDroppedKeeps(cs: Chains, bs: Buffers, pc: multiset<Id>, pb: multiset<Id>, b: Id)
    requires Inv(cs, bs, pc, pb) && b in pb
    ensures Keeps(cs, bs, cs, bs[b := bs[b].(refcnt := bs[b].refcnt - 1)])
    ensures bs[b].refcnt <= 1 ==> Keeps(cs, bs, Homeless(cs, bs[b].list), bs - {b})
  {
    assert BufferOk(cs, bs, pb, b);
  }

  lemma BufferLess(cs: Chains, bs: Buffers, pc: multiset<Id>, pb: multiset<Id>, b: Id)
    requires Inv(cs, bs, pc, pb) && b in pb && bs[b].refcnt > 1
    ensures var bs' := bs[b := bs[b].(refcnt := bs[b].refcnt - 1)];
      Inv(cs, bs', pc, pb - multiset{b}) && Keeps(cs, bs, cs, bs') && |bs'| == |bs|
  {
    BufferDropped(cs, bs, pc, pb, b);
    BufferDroppedKeeps(cs, bs, pc, pb, b);
    assert bs[b := bs[b].(refcnt := bs[b].refcnt - 1)].Keys == bs.Keys;
  }

  lemma BufferOver(cs: Chains, bs: Buffers, pc: multiset<Id>, pb: multiset<Id>, b: Id)
    requires Inv(cs, bs, pc, pb) && b in pb && bs[b].refcnt <= 1
    ensures Inv(Homeless(cs, bs[b].list), bs - {b}, pc + multiset(bs[b].list), pb - multiset{b})
    ensures Keeps(cs, bs, Homeless(cs, bs[b].list), bs - {b}) && |bs - {b}| < |bs|
  {
    assert BufferOk(cs, bs, pb, b);
    BufferGone(cs, bs, pc, pb, b);
    BufferDroppedKeeps(cs, bs, pc, pb, b);
    assert (bs - {b}).Keys == bs.Keys - {b};
  }

  class Memory {
    var chains: Chains
    var bufs: Buffers

    ghost predicate Valid()
      reads this
    {
      Inv(chains, bufs, multiset{}, multiset{})
    }

    /**
     * `evbuffer_chain_free`. One pending release of `c` is carried out; a chain that shows
     * another's bytes passes the release on when it goes.
     */
    method ChainFree(c: Id, ghost pc: multiset<Id>, ghost pb: multiset<Id>)
      requires Inv(chains, bufs, pc, pb) && c in pc
      modifies this
      ensures Inv(chains, bufs, pc - multiset{c}, pb)
      ensures Keeps(old(chains), old(bufs), chains, bufs)
      ensures |chains| <= old(|chains|) && |bufs| <= old(|bufs|)
      decreases |chains| + |bufs|, 0
    {
      assert ChainOk(chains, bufs, pc, c);
      var chain := chains[c];
      if chain.refcnt > 1 {
        Dropped(chains, bufs, pc, pb, c);
        DroppedKeeps(chains, bufs, pc, pb, c);
        chains := chains[c := chain.(refcnt := chain.refcnt - 1)];
        return;
      }
      Gone(chains, bufs, pc, pb, c);
      DroppedKeeps(chains, bufs, pc, pb, c);
      chains := chains - {c};
      ghost var cs, bs := chains, bufs;
      if chain.origin.Child? {
        PassOn(chain.origin.parent, chain.origin.source, pc - multiset{c}, pb);
        KeepsOn(old(chains), old(bufs), cs, bs, chains, bufs);
      }
    }

    /** The releases a chain passes on to its parent and its source. */
    method PassOn(p: Id, s: Id, ghost pc: multiset<Id>, ghost pb: multiset<Id>)
      requires Inv(chains, bufs, pc + multiset{p}, pb + multiset{s})
      modifies this
      ensures Inv(chains, bufs, pc, pb)
      ensures Keeps(old(chains), old(bufs), chains, bufs)
      ensures |chains| <= old(|chains|) && |bufs| <= old(|bufs|)
      decreases |chains| + |bufs|, 1
    {
      ChainFree(p, pc + multiset{p}, pb + multiset{s});
      assert pc + multiset{p} - multiset{p} == pc;
      ghost var cs, bs := chains, bufs;
      Decref(s, pc, pb + multiset{s});
      KeepsOn(old(chains), old(bufs), cs, bs, chains, bufs);
      assert pb + multiset{s} - multiset{s} == pb;
    }

    /** `evbuffer_decref_and_unlock_`. One pending release of buffer `b` is carried out. */
    method Decref(b: Id, ghost pc: multiset<Id>, ghost pb: multiset<Id>)
      requires Inv(chains, bufs, pc, pb) && b in pb
      modifies this
      ensures Inv(chains, bufs, pc, pb - multiset{b})
      ensures Keeps(old(chains), old(bufs), chains, bufs)
      ensures b in bufs <==> old(bufs)[b].refcnt > 1
      ensures |chains| <= old(|chains|) && |bufs| <= old(|bufs|)
      decreases |chains| + |bufs|, 0
    {
      var buf := bufs[b];
      if buf.refcnt > 1 {
        BufferLess(chains, bufs, pc, pb, b);
        bufs := bufs[b := buf.(refcnt := buf.refcnt - 1)];
      } else {
        BufferOver(chains, bufs, pc, pb, b);
        chains, bufs := Unhomed(chains, buf.list), bufs - {b};
        FreeAfter(buf.list, pc, pb - multiset{b}, old(chains), old(bufs));
      }
    }

    /** The chains of a buffer that has gone; `cs` and `bs` are the state before it went. */
    method FreeAfter(list: seq<Id>, ghost pc: multiset<Id>, ghost pb: multiset<Id>, ghost cs: Chains, ghost bs: Buffers)
      requires Inv(chains, bufs, pc + multiset(list), pb) && Keeps(cs, bs, chains, bufs)
      modifies this
      ensures Inv(chains, bufs, pc, pb) && Keeps(cs, bs, chains, bufs)
      ensures |chains| <= old(|chains|) && |bufs| <= old(|bufs|) && forall b :: b in bufs ==> b in old(bufs)
      decreases |chains| + |bufs|, 3
    {
      FreeAll(list, pc, pb);
      KeepsOn(cs, bs, old(chains), old(bufs), chains, bufs);
    }

    /** `evbuffer_free_all_chains` on chains that are in no list any more. */
    method FreeAll(list: seq<Id>, ghost pc: multiset<Id>, ghost pb: multiset<Id>)
      requires Inv(chains, bufs, pc + multiset(list), pb)
      modifies this
      ensures Inv(chains, bufs, pc, pb)
      ensures Keeps(old(chains), old(bufs), chains, bufs)
      ensures |chains| <= old(|chains|) && |bufs| <= old(|bufs|)
      decreases |chains| + |bufs|, 2
    {
      var i := 0;
      assert list[0..] == list;
      while i < |list|
        invariant 0 <= i <= |list| && Inv(chains, bufs, pc + multiset(list[i..]), pb)
        invariant |chains| <= old(|chains|) && |bufs| <= old(|bufs|)
        invariant Keeps(old(chains), old(bufs), chains, bufs)
      {
        OneLess(list, i, pc);
        FreeNext(list[i], pc + multiset(list[i..]), pb, old(chains), old(bufs));
        i := i + 1;
      }
      assert pc + multiset(list[i..]) == pc;
    }

    static lemma OneLess(list: seq<Id>, i: nat, pc: multiset<Id>)
      requires i < |list|
      ensures list[i] in pc + multiset(list[i..])
      ensures pc + multiset(list[i..]) - multiset{list[i]} == pc + multiset(list[i + 1..])
    {
      assert list[i..] == [list[i]] + list[i + 1..];
    }

    /** One chain more; `cs` and `bs` are the state before the first. */
    method FreeNext(c: Id, ghost pc: multiset<Id>, ghost pb: multiset<Id>, ghost cs: Chains, ghost bs: Buffers)
      requires Inv(chains, bufs, pc, pb) && c in pc && Keeps(cs, bs, chains, bufs)
      modifies this
      ensures Inv(chains, bufs, pc - multiset{c}, pb) && Keeps(cs, bs, chains, bufs)
      ensures |chains| <= old(|chains|) && |bufs| <= old(|bufs|)
      decreases |chains| + |bufs|, 1
    {
      ChainFree(c, pc, pb);
      KeepsOn(cs, bs, old(chains), old(bufs), chains, bufs);
    }

    constructor ()
      ensures Valid() && chains == map[] && bufs == map[]
    {
      chains, bufs := map[], map[];
    }

    /** `evbuffer_new`. */
    method NewBuffer(b: Id)
      requires Valid() && b !in bufs
      modifies this
      ensures Valid() && chains == old(chains) && bufs == old(bufs)[b := Buffer(1, true, [])]
    {
      BufferAdded(chains, bufs, b);
      bufs := bufs[b := Buffer(1, true, [])];
    }

    /** A chain with bytes of its own takes the place of those without bytes at the end of a list. */
    method NewChain(b: Id, c: Id, full: bool) returns (ghost cs: Chains, ghost bs: Buffers)
      requires Valid() && Held(bufs, b) && c !in chains
      modifies this
      ensures Valid() && Held(bufs, b) && Trims(old(chains), old(bufs), b, cs, bs)
      ensures chains == cs[c := Chain(1, Some(b), Own, full)]
      ensures bufs == bs[b := bs[b].(list := bs[b].list + [c])]
    {
      Trim(b);
      cs, bs := chains, bufs;
      ChainAdded(chains, bufs, b, c, full);
      chains := chains[c := Chain(1, Some(b), Own, full)];
      bufs := bufs[b := bufs[b].(list := bufs[b].list + [c])];
    }

    /** The whole chains that a drain of a user's buffer goes past. */
    method Drain(b: Id, k: nat)
      requires Valid() && Held(bufs, b) && k <= |bufs[b].list|
      modifies this
      ensures Valid() && Held(bufs, b) && bufs[b].list == old(bufs)[b].list[k..]
      ensures forall x :: x != b && Held(old(bufs), x) ==> Held(bufs, x) && bufs[x].list == old(bufs)[x].list
    {
      assert BufferOk(chains, bufs, multiset{}, b);
      SplitsAt(bufs[b].list, k);
      Discard(b, bufs[b].list[..k], bufs[b].list[k..]);
    }

    /** Some chains of a user's buffer are released. */
    method Discard(b: Id, gone: seq<Id>, kept: seq<Id>)
      requires Valid() && Held(bufs, b) && Splits(bufs[b].list, gone, kept)
      modifies this
      ensures Valid() && Held(bufs, b) && bufs[b].list == kept
      ensures Keeps(Homeless(old(chains), gone), old(bufs)[b := old(bufs)[b].(list := kept)], chains, bufs)
      ensures forall x :: x != b && Held(old(bufs), x) ==> Held(bufs, x) && bufs[x].list == old(bufs)[x].list
    {
      Detached(chains, bufs, b, gone, kept);
      chains, bufs := Unhomed(chains, gone), bufs[b := bufs[b].(list := kept)];
      assert multiset{} + multiset(gone) == multiset(gone);
      ghost var bs := bufs;
      FreeAll(gone, multiset{}, multiset{});
      assert Held(bs, b);
      forall x | x != b && Held(old(bufs), x) ensures Held(bufs, x) && bufs[x].list == old(bufs)[x].list {
        assert Held(bs, x);
      }
    }

    /**
     * The first `k` chains of buffer `s` go to the end of buffer `d`, in place of those without bytes there, as in the
     * buffer moves.
     */
    method Move(s: Id, d: Id, k: nat) returns (ghost cs: Chains, ghost bs: Buffers)
      requires Valid() && Held(bufs, s) && Held(bufs, d) && s != d && 0 < k <= |bufs[s].list|
      modifies this
      ensures Valid() && Trims(old(chains), old(bufs), d, cs, bs) && s in bs && k <= |bs[s].list|
      ensures chains == Rehomed(cs, bs[s].list[..k], d)
      ensures bufs == bs[s := bs[s].(list := bs[s].list[k..])][d := bs[d].(list := bs[d].list + bs[s].list[..k])]
    {
      Trim(d);
      cs, bs := chains, bufs;
      Carry(s, d, k);
    }

    method Carry(s: Id, d: Id, k: nat)
      requires Valid() && s in bufs && d in bufs && s != d && k <= |bufs[s].list|
      modifies this
      ensures Valid() && chains == Rehomed(old(chains), old(bufs)[s].list[..k], d)
      ensures bufs == old(bufs)[s := old(bufs)[s].(list := old(bufs)[s].list[k..])]
                               [d := old(bufs)[d].(list := old(bufs)[d].list + old(bufs)[s].list[..k])]
    {
      var moved := bufs[s].list[..k];
      assert BufferOk(chains, bufs, multiset{}, s);
      SplitsAt(bufs[s].list, k);
      Detached(chains, bufs, s, moved, bufs[s].list[k..]);
      forall i | 0 <= i < |moved| ensures moved[i] in chains { assert moved[i] == bufs[s].list[i]; }
      var cs, bs := Unhomed(chains, moved), bufs[s := bufs[s].(list := bufs[s].list[k..])];
      Attached(cs, bs, moved, d);
      assert Rehomed(cs, moved, d) == Rehomed(chains, moved, d);
      chains, bufs := Rehomed(cs, moved, d), bs[d := bs[d].(list := bs[d].list + moved)];
    }

    /** `evbuffer_free`: the user lets go of a buffer, which goes unless chains elsewhere show its bytes. */
    method Free(b: Id)
      requires Valid() && Held(bufs, b)
      modifies this
      ensures Valid() && (b in bufs <==> Users(old(chains), b) != {})
      ensures forall x :: x != b && Held(old(bufs), x) ==> Held(bufs, x) && bufs[x].list == old(bufs)[x].list
    {
      LetGo(chains, bufs, b);
      assert BufferOk(chains, bufs, multiset{}, b);
      bufs := bufs[b := bufs[b].(held := false)];
      ghost var bs := bufs;
      Decref(b, multiset{}, multiset{b});
      assert multiset{b} - multiset{b} == multiset{};
      assert forall x :: x != b && Held(old(bufs), x) ==> Held(bs, x);
    }

    /** One chain of `APPEND_CHAIN_MULTICAST`. */
    method Refer(outb: Id, inb: Id, c: Id, n: Id)
      requires Valid() && outb in bufs && inb in bufs && outb != inb && c in chains && chains[c].origin.Own?
      requires n !in chains
      modifies this
      ensures Valid() && chains == ChainsWith(old(chains), outb, c, inb, n)
      ensures bufs == BuffersWith(old(bufs), outb, inb, n)
    {
      Referenced(chains, bufs, outb, c, inb, n);
      chains := ChainsWith(chains, outb, c, inb, n);
      bufs := BuffersWith(bufs, outb, inb, n);
    }

    /** `evbuffer_chain_insert` replaces the chains without bytes at the end of a list. */
    method Trim(b: Id)
      requires Valid() && Held(bufs, b)
      modifies this
      ensures Valid() && Trims(old(chains), old(bufs), b, chains, bufs)
    {
      assert BufferOk(chains, bufs, multiset{}, b);
      var list := bufs[b].list;
      var k := |list|;
      assert list[..k] == list;
      while k > 0 && !Full(chains, list[k - 1])
        invariant 0 <= k <= |list| && Trimmed(chains, list) == Trimmed(chains, list[..k])
      {
        assert list[..k][..k - 1] == list[..k - 1] && list[..k][k - 1] == list[k - 1];
        k := k - 1;
      }
      assert k > 0 ==> list[..k][k - 1] == list[k - 1];
      assert Trimmed(chains, list) == list[..k];
      SplitsAt(list, k);
      TrimmedPrefix(chains, list);
      if k == |list| {
        assert list[..k] == list && bufs[b := bufs[b].(list := list)] == bufs;
        assert Homeless(chains, list[k..]) == chains;
      } else {
        Discard(b, list[k..], list[..k]);
      }
    }

    /** All chains of a list are released while the list still names them. */
    method FreeNamed(b: Id)
      requires Valid() && Held(bufs, b)
      modifies this
      ensures b in bufs && bufs[b].list == old(bufs)[b].list
      ensures Valid() <==> bufs[b].list == []
      ensures forall c :: c in bufs[b].list && Kids(old(chains), c) == {} ==> c !in chains
      ensures bufs[b].list == [] ==> chains == old(chains) && bufs == old(bufs)
    {
      var list := bufs[b].list;
      if list == [] { return; }
      assert BufferOk(chains, bufs, multiset{}, b);
      SplitsAt(list, |list|);
      assert list[..|list|] == list && list[|list|..] == [];
      Discard(b, list, []);
      forall c | c in list
        ensures (c in chains ==> chains[c].home == None) && (Kids(old(chains), c) == {} ==> c !in chains)
      {
        NamedGone(old(chains), chains, bufs, list, c);
      }
      bufs := bufs[b := bufs[b].(list := list)];
      assert list[0] in list && bufs[b].list[0] == list[0];
      assert !BufferOk(chains, bufs, multiset{}, b);
    }

    /**
     * `evbuffer_add_buffer_reference`: every chain of `inb` that has bytes gets a chain at the end
     * of `outb` that shows them, in order, unless one of them shows bytes itself. The new chains
     * are named by `ids`; `cs` and `bs` are the state once `outb` ends in a chain with bytes.
     *
     * An `outb` with chains but without bytes has its chains freed and its list left as it is. The
     * first insertion reads the freed head then, and nothing can be said from there on.
     */
    method AddReference(outb: Id, inb: Id, ids: seq<Id>) returns (r: int, ghost cs: Chains, ghost bs: Buffers)
      requires Valid() && Held(bufs, outb) && Held(bufs, inb) && |ids| == |bufs[inb].list| && NoDup(ids)
      requires forall i {:trigger ids[i]} :: 0 <= i < |ids| ==> ids[i] !in chains
      modifies this
      ensures Valid() <==> r == -1 || !old(Dangles(chains, bufs, outb, inb))
      ensures r == if old(Refused(chains, bufs, outb, inb)) then -1 else 0
      ensures r == -1 || !HasBytes(old(chains), old(bufs)[inb].list) ==> chains == old(chains) && bufs == old(bufs)
      ensures r == 0 && HasBytes(old(chains), old(bufs)[inb].list) && !old(Dangles(chains, bufs, outb, inb)) ==>
        && Trims(old(chains), old(bufs), outb, cs, bs) && inb in bs && bs[inb].list == old(bufs)[inb].list
        && Referred(cs, bs, chains, bufs, outb, inb, bs[inb].list, ids, |ids|)
      ensures r == 0 && old(Dangles(chains, bufs, outb, inb)) ==>
        && outb in bufs && bufs[outb].list == old(bufs)[outb].list
        && forall c :: c in bufs[outb].list && Kids(old(chains), c) == {} ==> c !in chains
    {
      cs, bs := chains, bufs;
      var list := bufs[inb].list;
      if !HasBytes(chains, list) { return 0, cs, bs; }
      if outb == inb { return -1, cs, bs; }
      assert BufferOk(chains, bufs, multiset{}, inb);
      if !AllOwn(chains, list) { return -1, cs, bs; }
      r := 0;
      if !HasBytes(chains, bufs[outb].list) {
        FreeNamed(outb);
        if bufs[outb].list != [] { return; }
      }
      Trim(outb);
      cs, bs := chains, bufs;
      assert Held(bs, inb);
      TrimSplits(old(chains), old(bufs), outb);
      KeptOwn(old(chains), old(bufs), old(bufs)[outb].list[|bufs[outb].list|..], bufs[outb].list, cs, bs, outb, inb);
      ReferAll(outb, inb, ids, list);
    }

    /** What a caller may do next. */
    predicate Can(op: Op)
      reads this
    {
      match op
      case NewBuffer(b) => b !in bufs
      case NewChain(b, c, _) => Held(bufs, b) && c !in chains
      case Drain(b, k) => Held(bufs, b) && k <= |bufs[b].list|
      case Move(s, d, k) => Held(bufs, s) && Held(bufs, d) && s != d && 0 < k <= |bufs[s].list|
      case Free(b) => Held(bufs, b)
      case AddReference(outb, inb, ids) =>
        && Held(bufs, outb) && Held(bufs, inb) && |ids| == |bufs[inb].list| && AllDifferent(ids)
        && (forall i {:trigger ids[i]} :: 0 <= i < |ids| ==> ids[i] !in chains)
        && (Refused(chains, bufs, outb, inb) || !Dangles(chains, bufs, outb, inb))
    }

    method Perform(op: Op)
      requires Valid() && Can(op)
      modifies this
      ensures Valid()
    {
      ghost var cs, bs;
      match op
      case NewBuffer(b) => NewBuffer(b);
      case NewChain(b, c, full) => cs, bs := NewChain(b, c, full);
      case Drain(b, k) => Drain(b, k);
      case Move(s, d, k) => cs, bs := Move(s, d, k);
      case Free(b) => Free(b);
      case AddReference(outb, inb, ids) =>
        forall i, j | 0 <= i < j < |ids| ensures Apart(ids, i, j) { assert ids[i] != ids[j]; }
        var r;
        r, cs, bs := AddReference(outb, inb, ids);
    }

    /** No chain shows the bytes of a chain that was released, or of a buffer that was. */
    ghost predicate Safe()
      reads this
    {
      forall c {:trigger chains[c]} :: c in chains && chains[c].origin.Child? ==>
        var o := chains[c].origin;
        o.parent in chains && chains[o.parent].refcnt > 0 && o.source in bufs && bufs[o.source].refcnt > 0
    }

    /** Every run is safe: the operations of `ops`, one after the other, up to the first that a caller may not do. */
    method Run(ops: seq<Op>) returns (n: nat)
      requires Valid()
      modifies this
      ensures Valid() && Safe() && n <= |ops| && (n < |ops| ==> !Can(ops[n]))
    {
      n := 0;
      while n < |ops| && Can(ops[n])
        invariant n <= |ops| && Valid()
      {
        Perform(ops[n]);
        n := n + 1;
      }
      forall c | c in chains && chains[c].origin.Child?
        ensures var o := chains[c].origin;
          o.parent in chains && chains[o.parent].refcnt > 0 && o.source in bufs && bufs[o.source].refcnt > 0
      {
        NeverReleased(chains, bufs, multiset{}, multiset{}, c);
      }
    }

    /** The chains of `inb` from the first to the last. */
    method ReferAll(outb: Id, inb: Id, ids: seq<Id>, list: seq<Id>)
      requires Valid() && outb in bufs && inb in bufs && outb != inb && |ids| == |list| && NoDup(ids)
      requires list == bufs[inb].list
      requires (forall i {:trigger ids[i]} :: 0 <= i < |ids| ==> ids[i] !in chains) && AllOwn(chains, list)
      modifies this
      ensures Valid() && Referred(old(chains), old(bufs), chains, bufs, outb, inb, list, ids, |ids|)
    {
      ghost var cs, bs := chains, bufs;
      MakeReady(cs, bs, inb, ids);
      var i := 0;
      ReferredNone(cs, bs, outb, inb, list, ids);
      while i < |list|
        invariant 0 <= i <= |list| && Valid() && Referred(cs, bs, chains, bufs, outb, inb, list, ids, i)
      {
        ReferredFacts(cs, bs, chains, bufs, outb, inb, list, ids, i);
        if chains[list[i]].full {
          ReferredMore(cs, bs, chains, bufs, outb, inb, list, ids, i);
          Refer(outb, inb, list[i], ids[i]);
        } else {
          ReferredSkip(cs, bs, chains, bufs, outb, inb, list, ids, i);
        }
        i := i + 1;
      }
    }
  }

  predicate AllDifferent(ids: seq<Id>) {
    forall i, j {:trigger ids[i], ids[j]} :: 0 <= i < j < |ids| ==> ids[i] != ids[j]
  }

  /** What callers do with buffers. */
  datatype Op =
    | NewBuffer(b: Id)
    | NewChain(b: Id, c: Id, full: bool)
    | Drain(b: Id, k: nat)
    | Move(s: Id, d: Id, k: nat)
    | Free(b: Id)
    | AddReference(outb: Id, inb: Id, ids: seq<Id>)

  /** Buffer 0 has chain 2 without bytes, and buffer 1 chain 3 with bytes. */
  lemma ExampleFacts(cs: Chains, bs: Buffers)
    requires cs == map[2 := Chain(1, Some(0), Own, false), 3 := Chain(1, Some(1), Own, true)]
    requires bs == map[0 := Buffer(1, true, [2]), 1 := Buffer(1, true, [3])]
    ensures Dangles(cs, bs, 0, 1) && !Refused(cs, bs, 0, 1) && Kids(cs, 2) == {}
  {
    assert Full(cs, bs[1].list[0]);
  }

  /** A new buffer, expanded before it is given a reference: its list names a chain that is gone. */
  method DanglingHead() returns (m: Memory)
    ensures !m.Valid() && 0 in m.bufs && m.bufs[0].list == [2] && 2 !in m.chains
  {
    m := new Memory();
    m.NewBuffer(0);
    m.NewBuffer(1);
    ghost var none: seq<Id> := [];
    assert none + [2] == [2] && none + [3] == [3];
    ghost var cs, bs := m.NewChain(0, 2, false);
    assert m.bufs == map[0 := Buffer(1, true, [2]), 1 := Buffer(1, true, [])];
    cs, bs := m.NewChain(1, 3, true);
    assert m.bufs == map[0 := Buffer(1, true, [2]), 1 := Buffer(1, true, [3])];
    ExampleFacts(m.chains, m.bufs);
    var r;
    r, cs, bs := m.AddReference(0, 1, [4]);
    assert m.bufs[0].list[0] == 2;
  }

  /** The reference is refused. */
  predicate Refused(cs: Chains, bs: Buffers, outb: Id, inb: Id)
    requires inb in bs
  {
    HasBytes(cs, bs[inb].list) && (outb == inb || !AllOwn(cs, bs[inb].list))
  }

  /** The chains of `outb` are freed under its head: it has some, and none with bytes. */
  predicate Dangles(cs: Chains, bs: Buffers, outb: Id, inb: Id)
    requires outb in bs && inb in bs
  {
    HasBytes(cs, bs[inb].list) && !HasBytes(cs, bs[outb].list) && bs[outb].list != []
  }

  /** The chains without bytes at the end of the list of `b` have been released, and nothing else that users have. */
  ghost predicate Trims(cs: Chains, bs: Buffers, b: Id, cs': Chains, bs': Buffers)
    requires b in bs
  {
    && Held(bs', b) && bs'[b].list == Trimmed(cs, bs[b].list) <= bs[b].list
    && (bs'[b].list == bs[b].list ==> cs' == cs && bs' == bs)
    && Keeps(Homeless(cs, bs[b].list[|bs'[b].list|..]), bs[b := bs[b].(list := bs'[b].list)], cs', bs')
    && (forall x :: x != b && Held(bs, x) ==> Held(bs', x) && bs'[x].list == bs[x].list)
  }

  /** A chain that has been released from its list is gone unless others show its bytes. */
  lemma NamedGone(cs: Chains, cs': Chains, bs': Buffers, list: seq<Id>, c: Id)
    requires Inv(cs', bs', multiset{}, multiset{}) && c in list
    requires forall x {:trigger cs'[x]} :: x in cs' ==> x in cs && cs'[x].origin == cs[x].origin
    requires c in cs' ==> cs'[c].home == None
    ensures Kids(cs, c) == {} ==> c !in cs'
  {
    if c in cs' {
      assert ChainOk(cs', bs', multiset{}, c);
      assert Kids(cs', c) <= Kids(cs, c);
    }
  }

  predicate Full(cs: Chains, c: Id) {
    c in cs && cs[c].full
  }

  predicate HasBytes(cs: Chains, list: seq<Id>) {
    exists i :: 0 <= i < |list| && Full(cs, list[i])
  }

  /** The chains have bytes of their own. */
  predicate AllOwn(cs: Chains, list: seq<Id>) {
    forall i {:trigger list[i]} :: 0 <= i < |list| ==> !Shows(cs, list[i])
  }

  /** A list without the chains at its end that have no bytes. */
  function Trimmed(cs: Chains, list: seq<Id>): seq<Id> {
    if list == [] || Full(cs, list[|list| - 1]) then list else Trimmed(cs, list[..|list| - 1])
  }

  lemma {:induction false} TrimmedPrefix(cs: Chains, list: seq<Id>)
    ensures Trimmed(cs, list) <= list
  {
    if list != [] { TrimmedPrefix(cs, list[..|list| - 1]); }
  }

  lemma TrimSplits(cs: Chains, bs: Buffers, b: Id)
    requires Inv(cs, bs, multiset{}, multiset{}) && b in bs
    ensures var kept := Trimmed(cs, bs[b].list);
      |kept| <= |bs[b].list| && Splits(bs[b].list, bs[b].list[|kept|..], kept)
  {
    assert BufferOk(cs, bs, multiset{}, b);
    TrimmedPrefix(cs, bs[b].list);
    var list, kept := bs[b].list, Trimmed(cs, bs[b].list);
    assert list[..|kept|] == kept;
    SplitsAt(list, |kept|);
  }

  /** The names given for those of the first `k` chains that have bytes. */
  function Names(cs: Chains, list: seq<Id>, ids: seq<Id>, k: nat): seq<Id>
    requires k <= |list| == |ids|
  {
    if k == 0 then [] else Names(cs, list, ids, k - 1) + if Full(cs, list[k - 1]) then [ids[k - 1]] else []
  }

  /** Chain `c` is one of the first `k` and has bytes. */
  predicate Chosen(cs: Chains, list: seq<Id>, k: nat, c: Id)
    requires k <= |list|
  {
    Full(cs, c) && c in list[..k]
  }

  /** The new chains are at the end of `outb`, in order, and `inb` counts them. */
  ghost predicate Listed(cs: Chains, bs: Buffers, bs': Buffers, outb: Id, inb: Id, list: seq<Id>, ids: seq<Id>,
                         k: nat) {
    && k <= |list| == |ids| && outb in bs && inb in bs && outb != inb
    && bs' == bs[inb := bs[inb].(refcnt := bs[inb].refcnt + |Names(cs, list, ids, k)|)]
                [outb := bs[outb].(list := bs[outb].list + Names(cs, list, ids, k))]
  }

  /** The old chains are as they were, but for the counts of those referred to. */
  ghost predicate Counted(cs: Chains, cs': Chains, list: seq<Id>, k: nat) {
    k <= |list| && forall c :: c in cs ==>
      c in cs' && cs'[c] == cs[c].(refcnt := cs[c].refcnt + One(Chosen(cs, list, k, c)))
  }

  /** The new chains show what they should, and there are no others. */
  ghost predicate Shown(cs: Chains, cs': Chains, outb: Id, inb: Id, list: seq<Id>, ids: seq<Id>, k: nat) {
    && k <= |list| == |ids|
    && (forall i {:trigger ids[i]} :: 0 <= i < k && Full(cs, list[i]) ==>
          ids[i] in cs' && cs'[ids[i]] == Kid(list[i], inb, outb))
    && (forall c :: c in cs' ==> c in cs || c in Names(cs, list, ids, k))
  }

  /**
   * The first `k` chains of `inb` have been referred to: each one with bytes has a new chain in
   * `outb`, in order, and counts it; the source buffer counts them all; nothing else has changed.
   */
  ghost predicate Referred(cs: Chains, bs: Buffers, cs': Chains, bs': Buffers, outb: Id, inb: Id,
                           list: seq<Id>, ids: seq<Id>, k: nat) {
    && Listed(cs, bs, bs', outb, inb, list, ids, k) && Counted(cs, cs', list, k)
    && Shown(cs, cs', outb, inb, list, ids, k)
  }

  /** What is referred to, and the names for it. */
  ghost predicate Ready(cs: Chains, list: seq<Id>, ids: seq<Id>) {
    && |list| == |ids| && NoDup(list) && NoDup(ids)
    && (forall i {:trigger list[i]} :: 0 <= i < |list| ==> list[i] in cs && cs[list[i]].origin.Own?)
    && (forall i {:trigger ids[i]} :: 0 <= i < |ids| ==> ids[i] !in cs)
  }

  lemma MakeReady(cs: Chains, bs: Buffers, inb: Id, ids: seq<Id>)
    requires Inv(cs, bs, multiset{}, multiset{}) && inb in bs && |ids| == |bs[inb].list| && NoDup(ids)
    requires AllOwn(cs, bs[inb].list)
    requires forall i {:trigger ids[i]} :: 0 <= i < |ids| ==> ids[i] !in cs
    ensures Ready(cs, bs[inb].list, ids)
  {
    assert BufferOk(cs, bs, multiset{}, inb);
    var list := bs[inb].list;
    forall i | 0 <= i < |list| ensures list[i] in cs && cs[list[i]].origin.Own? { assert list[i] == bs[inb].list[i]; }
  }

  /** The chains of a user's buffer are still its own after releases elsewhere. */
  lemma KeptOwn(cs: Chains, bs: Buffers, gone: seq<Id>, kept: seq<Id>, cs': Chains, bs': Buffers, outb: Id, inb: Id)
    requires Inv(cs, bs, multiset{}, multiset{}) && Held(bs, outb) && Held(bs, inb) && outb != inb
    requires AllOwn(cs, bs[inb].list)
    requires Splits(bs[outb].list, gone, kept)
    requires Keeps(Homeless(cs, gone), bs[outb := bs[outb].(list := kept)], cs', bs')
    ensures AllOwn(cs', bs[inb].list)
  {
    var list := bs[inb].list;
    assert BufferOk(cs, bs, multiset{}, inb) && BufferOk(cs, bs, multiset{}, outb);
    forall i | 0 <= i < |list| ensures !Shows(cs', list[i]) {
      var c := list[i];
      assert c == bs[inb].list[i] && cs[c].home == Some(inb);
      if c in gone { ListOwn(cs, bs, multiset{}, outb, c); }
      assert Homeless(cs, gone)[c] == cs[c];
    }
  }

  lemma ReferredNone(cs: Chains, bs: Buffers, outb: Id, inb: Id, list: seq<Id>, ids: seq<Id>)
    requires outb in bs && inb in bs && outb != inb && |list| == |ids|
    ensures Referred(cs, bs, cs, bs, outb, inb, list, ids, 0)
  {
    assert bs[outb].list + [] == bs[outb].list;
  }

  lemma {:induction false} NamesIn(cs: Chains, list: seq<Id>, ids: seq<Id>, k: nat, c: Id)
    requires k <= |list| == |ids|
    ensures c in Names(cs, list, ids, k) ==> c in ids[..k]
  {
    if k > 0 {
      NamesIn(cs, list, ids, k - 1, c);
      assert ids[..k] == ids[..k - 1] + [ids[k - 1]];
    }
  }

  /** The chain at hand is as it was, and its name is not taken. */
  lemma ReferredFacts(cs: Chains, bs: Buffers, cs': Chains, bs': Buffers, outb: Id, inb: Id,
                      list: seq<Id>, ids: seq<Id>, k: nat)
    requires Referred(cs, bs, cs', bs', outb, inb, list, ids, k) && Ready(cs, list, ids) && k < |list|
    ensures outb in bs' && inb in bs' && list[k] in cs' && ids[k] !in cs'
    ensures cs'[list[k]] == cs[list[k]]
  {
    NamesIn(cs, list, ids, k, ids[k]);
    NoDupApart(ids, k);
    NoDupApart(list, k);
    assert list[k] in cs && list[k] !in list[..k];
  }

  lemma ListedMore(cs: Chains, bs: Buffers, bs': Buffers, outb: Id, inb: Id, list: seq<Id>, ids: seq<Id>, k: nat)
    requires Listed(cs, bs, bs', outb, inb, list, ids, k) && k < |list| && Full(cs, list[k])
    ensures Listed(cs, bs, BuffersWith(bs', outb, inb, ids[k]), outb, inb, list, ids, k + 1)
  {
    var names := Names(cs, list, ids, k);
    assert bs[outb].list + names + [ids[k]] == bs[outb].list + (names + [ids[k]]);
  }

  lemma CountedMore(cs: Chains, cs': Chains, outb: Id, inb: Id, list: seq<Id>, ids: seq<Id>, k: nat)
    requires Counted(cs, cs', list, k) && Ready(cs, list, ids) && k < |list| && Full(cs, list[k]) && list[k] in cs'
    ensures Counted(cs, ChainsWith(cs', outb, list[k], inb, ids[k]), list, k + 1)
  {
    var p, n := list[k], ids[k];
    var cs'' := ChainsWith(cs', outb, p, inb, n);
    NoDupApart(list, k);
    assert list[..k + 1] == list[..k] + [p] && p !in list[..k];
    forall c | c in cs
      ensures c in cs'' && cs''[c] == cs[c].(refcnt := cs[c].refcnt + One(Chosen(cs, list, k + 1, c)))
    {
      assert c in cs' && cs'[c] == cs[c].(refcnt := cs[c].refcnt + One(Chosen(cs, list, k, c)));
    }
  }

  lemma ShownMore(cs: Chains, cs': Chains, outb: Id, inb: Id, list: seq<Id>, ids: seq<Id>, k: nat)
    requires Shown(cs, cs', outb, inb, list, ids, k) && Ready(cs, list, ids) && k < |list| && Full(cs, list[k])
    requires list[k] in cs'
    ensures Shown(cs, ChainsWith(cs', outb, list[k], inb, ids[k]), outb, inb, list, ids, k + 1)
  {
    var p, n := list[k], ids[k];
    var cs'' := ChainsWith(cs', outb, p, inb, n);
    NoDupApart(ids, k);
    assert p in cs;
    forall i | 0 <= i < k + 1 && Full(cs, list[i]) ensures ids[i] in cs'' && cs''[ids[i]] == Kid(list[i], inb, outb) {
      if i < k { assert ids[i] in cs' && ids[i] !in cs; }
    }
  }

  lemma ReferredMore(cs: Chains, bs: Buffers, cs': Chains, bs': Buffers, outb: Id, inb: Id,
                     list: seq<Id>, ids: seq<Id>, k: nat)
    requires Referred(cs, bs, cs', bs', outb, inb, list, ids, k) && Ready(cs, list, ids) && k < |list|
    requires Full(cs, list[k])
    requires outb in bs' && inb in bs' && list[k] in cs'
    ensures Referred(cs, bs, ChainsWith(cs', outb, list[k], inb, ids[k]), BuffersWith(bs', outb, inb, ids[k]),
                     outb, inb, list, ids, k + 1)
  {
    ListedMore(cs, bs, bs', outb, inb, list, ids, k);
    CountedMore(cs, cs', outb, inb, list, ids, k);
    ShownMore(cs, cs', outb, inb, list, ids, k);
  }

  lemma ReferredSkip(cs: Chains, bs: Buffers, cs': Chains, bs': Buffers, outb: Id, inb: Id,
                     list: seq<Id>, ids: seq<Id>, k: nat)
    requires Referred(cs, bs, cs', bs', outb, inb, list, ids, k) && k < |list| && !Full(cs, list[k])
    ensures Referred(cs, bs, cs', bs', outb, inb, list, ids, k + 1)
  {
    assert Names(cs, list, ids, k + 1) == Names(cs, list, ids, k);
    assert list[..k + 1] == list[..k] + [list[k]];
    forall c | c in cs ensures Chosen(cs, list, k + 1, c) == Chosen(cs, list, k, c) {}
  }

  /** The chain shows the bytes of another one. */
  predicate Shows(cs: Chains, c: Id) {
    c in cs && cs[c].origin.Child?
  }

  lemma BufferAdded(cs: Chains, bs: Buffers, b: Id)
    requires Inv(cs, bs, multiset{}, multiset{}) && b !in bs
    ensures Inv(cs, bs[b := Buffer(1, true, [])], multiset{}, multiset{})
  {
    var bs' := bs[b := Buffer(1, true, [])];
    forall x | x in cs ensures ChainOk(cs, bs', multiset{}, x) { assert ChainOk(cs, bs, multiset{}, x); }
    forall c ensures c !in Users(cs, b) {
      if c in cs { assert ChainOk(cs, bs, multiset{}, c); }
    }
    assert Users(cs, b) == {};
    forall x | x in bs' ensures BufferOk(cs, bs', multiset{}, x) {
      if x in bs { assert BufferOk(cs, bs, multiset{}, x); }
    }
  }

  lemma LetGo(cs: Chains, bs: Buffers, b: Id)
    requires Inv(cs, bs, multiset{}, multiset{}) && b in bs && bs[b].held
    ensures Inv(cs, bs[b := bs[b].(held := false)], multiset{}, multiset{b})
  {
    var bs' := bs[b := bs[b].(held := false)];
    forall x | x in cs ensures ChainOk(cs, bs', multiset{}, x) { assert ChainOk(cs, bs, multiset{}, x); }
    forall x | x in bs' ensures BufferOk(cs, bs', multiset{b}, x) { assert BufferOk(cs, bs, multiset{}, x); }
  }

  lemma ChainAdded(cs: Chains, bs: Buffers, b: Id, c: Id, full: bool)
    requires Inv(cs, bs, multiset{}, multiset{}) && b in bs && c !in cs
    ensures var cs', bs' := cs[c := Chain(1, Some(b), Own, full)], bs[b := bs[b].(list := bs[b].list + [c])];
      Inv(cs', bs', multiset{}, multiset{})
  {
    var cs', bs' := cs[c := Chain(1, Some(b), Own, full)], bs[b := bs[b].(list := bs[b].list + [c])];
    forall x ensures x !in Kids(cs, c) {
      if x in cs { assert ChainOk(cs, bs, multiset{}, x); }
    }
    forall x | x in cs' ensures ChainOk(cs', bs', multiset{}, x) {
      assert Kids(cs', x) == Kids(cs, x);
      if x == c { assert Kids(cs, c) == {}; } else { assert ChainOk(cs, bs, multiset{}, x); }
    }
    forall x | x in bs' ensures BufferOk(cs', bs', multiset{}, x) {
      assert BufferOk(cs, bs, multiset{}, x);
      assert Users(cs', x) == Users(cs, x);
      if x == b {
        forall i | 0 <= i < |bs[b].list| ensures bs[b].list[i] in cs {}
        NoDupConcat(bs[b].list, [c]);
      }
    }
  }

  /** The same as `Homeless`, to be carried out. */
  function Unhomed(cs: Chains, list: seq<Id>): (r: Chains)
    ensures r == Homeless(cs, list) && |r| == |cs|
  {
    var r := map c | c in cs :: if c in list then cs[c].(home := None) else cs[c];
    assert r.Keys == cs.Keys;
    r
  }
}
