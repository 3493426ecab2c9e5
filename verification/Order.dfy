/** Lists in a row, read one after the other. */
module Orders {
  import opened Distinctness

  /** The elements of the first `k` lists. */
  ghost function Order<T>(bs: seq<seq<T>>, k: nat): seq<T>
    requires k <= |bs|
  {
    if k == 0 then [] else Order(bs, k - 1) + bs[k - 1]
  }

  ghost function All<T>(bs: seq<seq<T>>): seq<T> {
    Order(bs, |bs|)
  }

  /** The place of position `i` of list `b` in the order. */
  ghost function Ordinal<T>(bs: seq<seq<T>>, b: nat, i: nat): nat
    requires b <= |bs|
  {
    |Order(bs, b)| + i
  }

  lemma {:induction false} OrderPrefix<T>(bs: seq<seq<T>>, k: nat, m: nat)
    requires k <= m <= |bs|
    ensures Order(bs, k) <= Order(bs, m)
  {
    if k < m { OrderPrefix(bs, k, m - 1); }
  }

  lemma OrderAt<T>(bs: seq<seq<T>>, b: nat, i: nat)
    requires b < |bs| && i < |bs[b]|
    ensures Ordinal(bs, b, i) < |All(bs)| && All(bs)[Ordinal(bs, b, i)] == bs[b][i]
  {
    OrderPrefix(bs, b + 1, |bs|);
    assert Order(bs, b + 1)[Ordinal(bs, b, i)] == bs[b][i];
  }

  /** Empty lists do not count. */
  lemma {:induction false} OrderSkip<T>(bs: seq<seq<T>>, k: nat, m: nat)
    requires k <= m <= |bs| && forall c :: k <= c < m ==> bs[c] == []
    ensures Order(bs, k) == Order(bs, m)
  {
    if k < m { OrderSkip(bs, k, m - 1); }
  }

  lemma {:induction false} OrderSame<T>(bs: seq<seq<T>>, bs': seq<seq<T>>, k: nat)
    requires k <= |bs| == |bs'| && forall c :: 0 <= c < k ==> bs[c] == bs'[c]
    ensures Order(bs, k) == Order(bs', k)
  {
    if k > 0 { OrderSame(bs, bs', k - 1); }
  }

  lemma {:induction false} OrderSize<T>(bs: seq<seq<T>>, b: nat, s: seq<T>, k: nat)
    requires b < |bs| && k <= |bs|
    ensures |Order(bs[b := s], k)| == |Order(bs, k)| + if b < k then |s| - |bs[b]| else 0
  {
    if k > 0 { OrderSize(bs, b, s, k - 1); }
  }

  /** Taking one element out of its list takes it out of the order. */
  lemma {:induction false} OrderWithout<T>(bs: seq<seq<T>>, b: nat, i: nat, k: nat)
    requires b < k <= |bs| && i < |bs[b]|
    ensures Ordinal(bs, b, i) < |Order(bs, k)|
    ensures Order(bs[b := Without(bs[b], i)], k) == Without(Order(bs, k), Ordinal(bs, b, i))
  {
    var bs', o := bs[b := Without(bs[b], i)], Ordinal(bs, b, i);
    if k == b + 1 {
      OrderSame(bs, bs', b);
      assert Order(bs, b) + Without(bs[b], i) == Without(Order(bs, b) + bs[b], o);
    } else {
      OrderWithout(bs, b, i, k - 1);
      assert Without(Order(bs, k - 1), o) + bs[k - 1] == Without(Order(bs, k - 1) + bs[k - 1], o);
    }
  }
}
