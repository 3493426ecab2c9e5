/** The bytes of a list of chains, in order. */
module Flattening {
  import opened Octets

  ghost function Flatten(d: seq<seq<byte>>): seq<byte> {
    if d == [] then [] else d[0] + Flatten(d[1..])
  }

  lemma {:induction false} FlattenConcat(a: seq<seq<byte>>, b: seq<seq<byte>>)
    ensures Flatten(a + b) == Flatten(a) + Flatten(b)
  {
    if a == [] {
      assert a + b == b;
    } else {
      FlattenConcat(a[1..], b);
      assert (a + b)[1..] == a[1..] + b;
      assert a[0] + (Flatten(a[1..]) + Flatten(b)) == (a[0] + Flatten(a[1..])) + Flatten(b);
    }
  }

  lemma {:induction false} FlattenEmpty(d: seq<seq<byte>>)
    requires forall i :: 0 <= i < |d| ==> d[i] == []
    ensures Flatten(d) == []
  {
    if d != [] {
      FlattenEmpty(d[1..]);
    }
  }

  lemma FlattenOne(x: seq<byte>)
    ensures Flatten([x]) == x
  {
    assert [x][1..] == [];
  }

  lemma FlattenCons(x: seq<byte>, d: seq<seq<byte>>)
    ensures Flatten([x] + d) == x + Flatten(d)
  {
    assert ([x] + d)[1..] == d;
  }

  lemma FlattenSnoc(d: seq<seq<byte>>, x: seq<byte>)
    ensures Flatten(d + [x]) == Flatten(d) + x
  {
    FlattenConcat(d, [x]);
    FlattenOne(x);
  }

  lemma FlattenSplit(d: seq<seq<byte>>, k: nat)
    requires k <= |d|
    ensures Flatten(d) == Flatten(d[..k]) + Flatten(d[k..])
  {
    assert d == d[..k] + d[k..];
    FlattenConcat(d[..k], d[k..]);
  }

  /** Splitting a list at chain `k`. */
  lemma FlattenAt(d: seq<seq<byte>>, k: nat)
    requires k < |d|
    ensures Flatten(d) == Flatten(d[..k]) + d[k] + Flatten(d[k + 1..])
  {
    FlattenSplit(d, k);
    assert d[k..] == [d[k]] + d[k + 1..];
    FlattenCons(d[k], d[k + 1..]);
    Assoc(Flatten(d[..k]), d[k], Flatten(d[k + 1..]));
  }

  lemma Assoc(a: seq<byte>, b: seq<byte>, c: seq<byte>)
    ensures a + (b + c) == a + b + c
  {
  }

  lemma FlattenUpdate(d: seq<seq<byte>>, k: nat, x: seq<byte>)
    requires k < |d|
    ensures Flatten(d[k := x]) == Flatten(d[..k]) + x + Flatten(d[k + 1..])
  {
    var d' := d[k := x];
    FlattenAt(d', k);
    assert d'[..k] == d[..k] && d'[k + 1..] == d[k + 1..];
  }

  lemma FlattenFirst(d: seq<seq<byte>>)
    requires d != [] && forall i :: 1 <= i < |d| ==> d[i] == []
    ensures Flatten(d) == d[0]
  {
    FlattenEmpty(d[1..]);
  }

  lemma FlattenPrefix(d: seq<seq<byte>>, n: nat)
    requires n <= |d| && forall i :: n <= i < |d| ==> d[i] == []
    ensures Flatten(d) == Flatten(d[..n])
  {
    FlattenConcat(d[..n], d[n..]);
    assert d == d[..n] + d[n..];
    FlattenEmpty(d[n..]);
  }

  lemma FlattenGrow(d: seq<seq<byte>>, k: nat, x: seq<byte>)
    requires k < |d| && forall i :: k < i < |d| ==> d[i] == []
    ensures Flatten(d[k := d[k] + x]) == Flatten(d) + x
  {
    FlattenUpdate(d, k, d[k] + x);
    FlattenAt(d, k);
    FlattenEmpty(d[k + 1..]);
    assert Flatten(d[..k]) + (d[k] + x) == Flatten(d[..k]) + d[k] + x;
  }

  lemma FlattenFront(d: seq<seq<byte>>, x: seq<byte>)
    requires d != []
    ensures Flatten(d[0 := x + d[0]]) == x + Flatten(d)
  {
    assert d[0 := x + d[0]][1..] == d[1..];
    assert x + d[0] + Flatten(d[1..]) == x + (d[0] + Flatten(d[1..]));
  }

  /** What is left when the chains before `k` and `n` bytes of chain `k` go. */
  ghost function Dropped(d: seq<seq<byte>>, k: nat, n: nat): seq<seq<byte>>
    requires k < |d| && n <= |d[k]|
  {
    d[k..][0 := d[k][n..]]
  }

  /** Dropping bytes that end inside chain `k`. */
  lemma FlattenDrop(d: seq<seq<byte>>, k: nat, n: nat)
    requires k < |d| && n <= |d[k]|
    ensures |Flatten(d[..k])| + n <= |Flatten(d)|
    ensures Flatten(Dropped(d, k, n)) == Flatten(d)[|Flatten(d[..k])| + n..]
    ensures Flatten(d)[..|Flatten(d[..k])| + n] == Flatten(d[..k]) + d[k][..n]
  {
    FlattenAt(d, k);
    var e := d[k..][0 := d[k][n..]];
    assert e[1..] == d[k + 1..];
    var a, b := Flatten(d[..k]), Flatten(d[k + 1..]);
    assert d[k] == d[k][..n] + d[k][n..];
    assert Flatten(d) == (a + d[k][..n]) + (d[k][n..] + b);
  }

  lemma FlattenStep(d: seq<seq<byte>>, k: nat)
    requires k < |d|
    ensures Flatten(d[..k + 1]) == Flatten(d[..k]) + d[k]
  {
    assert d[..k + 1] == d[..k] + [d[k]];
    FlattenSnoc(d[..k], d[k]);
  }

  /** Where chain `k` starts in the whole. */
  ghost function Offset(d: seq<seq<byte>>, k: nat): nat
    requires k <= |d|
  {
    if k == 0 then 0 else Offset(d, k - 1) + |d[k - 1]|
  }

  lemma {:induction false} OffsetIs(d: seq<seq<byte>>, k: nat)
    requires k <= |d|
    ensures Offset(d, k) == |Flatten(d[..k])|
  {
    if k > 0 {
      OffsetIs(d, k - 1);
      FlattenStep(d, k - 1);
    }
  }

  lemma OffsetEnd(d: seq<seq<byte>>)
    ensures Offset(d, |d|) == |Flatten(d)|
  {
    OffsetIs(d, |d|);
    assert d[..|d|] == d;
  }

  /** The bytes of chain `k` in the whole. */
  lemma FlattenRange(d: seq<seq<byte>>, k: nat, lo: nat, hi: nat)
    requires k < |d| && lo <= hi <= |d[k]|
    ensures Offset(d, k) + hi <= |Flatten(d)|
    ensures d[k][lo..hi] == Flatten(d)[Offset(d, k) + lo..Offset(d, k) + hi]
  {
    OffsetIs(d, k);
    FlattenAt(d, k);
    Middle(Flatten(d[..k]), d[k], Flatten(d[k + 1..]), lo, hi);
  }

  lemma Middle(a: seq<byte>, b: seq<byte>, c: seq<byte>, lo: nat, hi: nat)
    requires lo <= hi <= |b|
    ensures (a + b + c)[|a| + lo..|a| + hi] == b[lo..hi]
  {
  }

  /** Moving the bytes up to `n` in chain `k` into one chain at the front changes nothing. */
  lemma FlattenPull(d: seq<seq<byte>>, k: nat, n: nat)
    requires k < |d| && n <= |d[k]|
    ensures Flatten([Flatten(d[..k]) + d[k][..n]] + d[k := d[k][n..]][k..]) == Flatten(d)
  {
    var x := Flatten(d[..k]) + d[k][..n];
    assert d[k := d[k][n..]][k..] == Dropped(d, k, n);
    assert x + Flatten(Dropped(d, k, n)) == Flatten(d) by {
      FlattenDrop(d, k, n);
    }
    FlattenCons(x, Dropped(d, k, n));
  }

  /** Splitting the bytes where chain `k` starts. */
  lemma FlattenSplitAt(d: seq<seq<byte>>, k: nat)
    requires k <= |d|
    ensures Offset(d, k) == |Flatten(d[..k])| && Offset(d, k) + |Flatten(d[k..])| == |Flatten(d)|
    ensures Flatten(d)[..Offset(d, k)] == Flatten(d[..k])
    ensures Flatten(d)[Offset(d, k)..] == Flatten(d[k..])
  {
    OffsetIs(d, k);
    FlattenSplit(d, k);
  }
}
