/** Which names `dnsname_to_labels` takes, how many bytes they get, and which packets can be built. */
module DnsRooms {
  import opened Octets
  import opened DnsNames
  import opened DnsPackets
  import opened Options

  /** A label starts at `i`. */
  predicate Starts(n: Name, i: nat) {
    i == 0 || (i <= |n| && n[i - 1] == DOT)
  }

  /** A label of more than 63 bytes starts at `i`. */
  predicate LongAt(n: Name, i: nat) {
    Starts(n, i) && i + 63 < |n| && forall k {:trigger n[k]} :: i <= k <= i + 63 ==> n[k] != DOT
  }

  predicate Listed(t: seq<Entry>, n: Name) {
    exists i {:trigger t[i]} :: 0 <= i < |t| && t[i].name == n
  }

  /** The part of the name from `i` on starts at a label and has been written before. */
  predicate Seen(n: Name, t: Option<seq<Entry>>, i: nat) {
    t.Some? && i <= |n| && Starts(n, i) && Listed(t.value, n[i..])
  }

  /** Labels are spelled out before `c`; what comes from there on has been written before, or `c` is past the end. */
  ghost predicate Spelled(n: Name, t: Option<seq<Entry>>, c: nat) {
    (c == |n| + 1 || Seen(n, t, c)) && forall i {:trigger Seen(n, t, i)} :: 0 <= i < c ==> !Seen(n, t, i)
  }

  /** No label that is spelled out is too long. */
  ghost predicate Short(n: Name, c: nat) {
    forall i {:trigger LongAt(n, i)} :: 0 <= i < c ==> !LongAt(n, i)
  }

  /** How far the labels and the pointer reach, the closing zero not counted. */
  function Reach(n: Name, c: nat): nat {
    if c <= |n| then c + 2 else c
  }

  /** The closing zero, unless a pointer or an empty last label ends the name. */
  function Closing(n: Name, c: nat): nat {
    if c <= |n| || n == [] || n[|n| - 1] == DOT then 0 else 1
  }

  lemma {:induction false} LookupListed(t: seq<Entry>, n: Name)
    ensures Lookup(t, n) >= 0 <==> Listed(t, n)
  {
    if t != [] {
      LookupListed(t[1..], n);
      if t[0].name != n {
        if Listed(t, n) {
          var i :| 0 <= i < |t| && t[i].name == n;
          assert t[1..][i - 1].name == n;
        }
        if Listed(t[1..], n) {
          var i :| 0 <= i < |t[1..]| && t[1..][i].name == n;
          assert t[i + 1].name == n;
        }
      } else {
        assert t[0].name == n;
      }
    }
  }

  lemma Unseen(n: Name, t: Option<seq<Entry>>)
    ensures Seen(n, t, 0) <==> t.Some? && Lookup(t.value, n) >= 0
  {
    assert n[0..] == n;
    if t.Some? { LookupListed(t.value, n); }
  }

  lemma {:induction false} SpelledExists(n: Name, t: Option<seq<Entry>>, i: nat) returns (c: nat)
    requires i <= |n| + 1 && forall k {:trigger Seen(n, t, k)} :: 0 <= k < i ==> !Seen(n, t, k)
    ensures Spelled(n, t, c)
    decreases |n| + 1 - i
  {
    if i == |n| + 1 || Seen(n, t, i) { c := i; } else { c := SpelledExists(n, t, i + 1); }
  }

  /** The first label has no dot in it, so nothing starts there. */
  lemma FirstLabel(n: Name, i: nat)
    requires 0 < i <= LabelEnd(n)
    ensures !Starts(n, i)
  {
    DotFromFirst(n, 0, i - 1);
  }

  lemma FirstLong(n: Name)
    ensures LongAt(n, 0) <==> LabelEnd(n) > 63
  {
    var d := LabelEnd(n);
    if d > 63 {
      forall k | 0 <= k <= 63 ensures n[k] != DOT { DotFromFirst(n, 0, k); }
    } else if d < |n| {
      assert n[d] == DOT;
    }
  }

  /** What starts in the rest of the name starts in the name. */
  lemma RestStarts(n: Name, d: nat, m: Name, i: nat)
    requires d == LabelEnd(n) < |n| && m == Rest(n) && i <= |m|
    ensures Starts(n, d + 1 + i) == Starts(m, i) && n[d + 1 + i..] == m[i..]
  {
  }

  lemma RestLong(n: Name, d: nat, m: Name, i: nat)
    requires d == LabelEnd(n) < |n| && m == Rest(n)
    ensures LongAt(n, d + 1 + i) == LongAt(m, i)
  {
    if i <= |m| {
      RestStarts(n, d, m, i);
      assert forall k {:trigger n[k]} :: d + 1 + i <= k < |n| ==> n[k] == m[k - d - 1];
      assert forall k {:trigger m[k]} :: i <= k < |m| ==> m[k] == n[k + d + 1];
    }
  }

  lemma ListedMore(t: seq<Entry>, n: Name, j: nat, m: Name)
    requires |m| < |n|
    ensures Listed(Remember(t, n, j), m) == Listed(t, m)
  {
    var u := Remember(t, n, j);
    if Listed(t, m) {
      var i :| 0 <= i < |t| && t[i].name == m;
      assert u[i].name == m;
    }
    if Listed(u, m) {
      var i :| 0 <= i < |u| && u[i].name == m;
      assert i < |t| && t[i].name == m;
    }
  }

  lemma RestSeen(n: Name, t: Option<seq<Entry>>, j: nat, d: nat, m: Name, i: nat)
    requires d == LabelEnd(n) < |n| && m == Rest(n)
    ensures Seen(n, t, d + 1 + i) == Seen(m, Noted(t, n, j), i)
  {
    if i <= |m| {
      RestStarts(n, d, m, i);
      if t.Some? { ListedMore(t.value, n, j, m[i..]); }
    }
  }

  /** The rest of the name is spelled out up to the same place. */
  lemma RestSpelled(n: Name, t: Option<seq<Entry>>, j: nat, d: nat, m: Name, c: nat)
    requires d == LabelEnd(n) < |n| && m == Rest(n) && Spelled(n, t, c) && c > 0
    ensures c >= d + 1 && Spelled(m, Noted(t, n, j), c - d - 1)
    ensures Short(n, c) <==> !LongAt(n, 0) && Short(m, c - d - 1)
  {
    if c <= d { FirstLabel(n, c); }
    var t' := Noted(t, n, j);
    if c <= |n| { RestSeen(n, t, j, d, m, c - d - 1); }
    forall i | 0 <= i < c - d - 1 ensures !Seen(m, t', i) { RestSeen(n, t, j, d, m, i); }
    forall i | 0 <= i < c - d - 1 ensures LongAt(n, d + 1 + i) == LongAt(m, i) { RestLong(n, d, m, i); }
    if !LongAt(n, 0) && Short(m, c - d - 1) {
      forall i | 0 <= i < c ensures !LongAt(n, i) {
        if 0 < i <= d { FirstLabel(n, i); }
        if i > d { assert !LongAt(m, i - d - 1); }
      }
    }
  }

  /** A failure, if any, is at the first spelled label that is too long or does not fit. */
  ghost predicate Refused(n: Name, c: nat, j: nat, bufLen: nat, code: int) {
    if exists i {:trigger LongAt(n, i)} :: 0 <= i < c && LongAt(n, i) && (i == 0 || j + i <= bufLen)
    then code == -1 else code == -2
  }

  /** `e` is what the exact law says for a name spelled out up to `c` from position `j` on. */
  ghost predicate Lawful(n: Name, c: nat, j: nat, bufLen: nat, e: Encoded) {
    && (e.Done? <==> Short(n, c) && j + Reach(n, c) <= bufLen)
    && (e.Done? ==> |e.bytes| == Reach(n, c) + Closing(n, c))
    && (e.Failed? ==> Refused(n, c, j, bufLen, e.code))
  }

  /** The name has been written before. */
  lemma LawfulPointer(n: Name, t: Option<seq<Entry>>, j: nat, bufLen: nat, e: Encoded)
    requires e == Encode(n, t, j, bufLen) && Seen(n, t, 0)
    ensures Lawful(n, 0, j, bufLen, e)
  {
    Unseen(n, t);
  }

  /** The name is one label. */
  lemma LawfulLast(n: Name, t: Option<seq<Entry>>, j: nat, bufLen: nat, c: nat, e: Encoded)
    requires e == Encode(n, t, j, bufLen) && LabelEnd(n) == |n| && Spelled(n, t, c) && c > 0
    ensures Lawful(n, c, j, bufLen, e)
  {
    Unseen(n, t);
    assert !Seen(n, t, 0);
    FirstLong(n);
    forall i | 0 < i <= |n| ensures !Starts(n, i) { FirstLabel(n, i); }
    if n != [] { DotFromFirst(n, 0, |n| - 1); }
  }

  /** The first label is refused. */
  lemma LawfulStop(n: Name, t: Option<seq<Entry>>, j: nat, bufLen: nat, c: nat, e: Encoded)
    requires e == Encode(n, t, j, bufLen) && Spelled(n, t, c) && c > 0 && LabelEnd(n) < |n|
    requires LabelEnd(n) > 63 || j + LabelEnd(n) + 1 > bufLen
    ensures Lawful(n, c, j, bufLen, e)
  {
    Unseen(n, t);
    assert !Seen(n, t, 0);
    FirstLong(n);
    RestSpelled(n, t, j, LabelEnd(n), Rest(n), c);
    forall i | 0 < i <= LabelEnd(n) ensures !Starts(n, i) { FirstLabel(n, i); }
  }

  /** The first label of `n` is written, and `m` is the rest, in the terms of the law. */
  ghost predicate Linked(n: Name, j: nat, bufLen: nat, c: nat, e: Encoded, m: Name, j': nat, c': nat, e': Encoded) {
    && LabelEnd(n) < |n| && LabelEnd(n) <= 63 && m == Rest(n) && j' == j + LabelEnd(n) + 1 <= bufLen
    && c == c' + LabelEnd(n) + 1 && (Short(n, c) <==> Short(m, c')) && e == Prefixed(Lab(n), e')
  }

  /** The first label is written, and the rest follows the law. */
  lemma LawfulStep(n: Name, j: nat, bufLen: nat, c: nat, e: Encoded, m: Name, j': nat, c': nat, e': Encoded)
    requires Linked(n, j, bufLen, c, e, m, j', c', e') && Lawful(m, c', j', bufLen, e')
    ensures Lawful(n, c, j, bufLen, e)
  {
    if m != [] { assert m[|m| - 1] == n[|n| - 1]; }
    if e.Failed? { RefusedRest(n, LabelEnd(n), m, c, j, bufLen, e.code); }
  }

  lemma RefusedRest(n: Name, d: nat, m: Name, c: nat, j: nat, bufLen: nat, code: int)
    requires d == LabelEnd(n) < |n| && d <= 63 && m == Rest(n) && d + 1 <= c && j + d + 1 <= bufLen
    requires Refused(m, c - d - 1, j + d + 1, bufLen, code)
    ensures Refused(n, c, j, bufLen, code)
  {
    FirstLong(n);
    if i :| 0 <= i < c && LongAt(n, i) && (i == 0 || j + i <= bufLen) {
      assert i > d by {
        forall k | 0 < k <= d ensures !Starts(n, k) { FirstLabel(n, k); }
      }
      RestLong(n, d, m, i - d - 1);
      assert LongAt(m, i - d - 1);
    }
    if i :| 0 <= i < c - d - 1 && LongAt(m, i) && (i == 0 || j + d + 1 + i <= bufLen) {
      RestLong(n, d, m, i);
      assert LongAt(n, i + d + 1);
    }
  }

  /** The loop ends at this label. */
  lemma LawfulEnd(n: Name, t: Option<seq<Entry>>, j: nat, bufLen: nat, c: nat, e: Encoded)
    requires Spelled(n, t, c) && e == Encode(n, t, j, bufLen)
    requires c == 0 || LabelEnd(n) == |n| || LabelEnd(n) > 63 || j + LabelEnd(n) + 1 > bufLen
    ensures Lawful(n, c, j, bufLen, e)
  {
    if c == 0 {
      LawfulPointer(n, t, j, bufLen, e);
    } else if LabelEnd(n) == |n| {
      LawfulLast(n, t, j, bufLen, c, e);
    } else {
      LawfulStop(n, t, j, bufLen, c, e);
    }
  }

  /** The first label is written: what the rest of the name is up against. */
  lemma StepOf(n: Name, t: Option<seq<Entry>>, j: nat, bufLen: nat, e: Encoded)
    returns (m: Name, t': Option<seq<Entry>>, j': nat, e': Encoded)
    requires !Seen(n, t, 0) && e == Encode(n, t, j, bufLen)
    requires LabelEnd(n) < |n| && LabelEnd(n) <= 63 && j + LabelEnd(n) + 1 <= bufLen
    ensures m == Rest(n) && |m| < |n| && t' == Noted(t, n, j) && j' == j + LabelEnd(n) + 1
    ensures e' == Encode(m, t', j', bufLen) && e == Prefixed(Lab(n), e')
  {
    Unseen(n, t);
    Unfold(n, t, j, bufLen);
    m, t', j' := Rest(n), Noted(t, n, j), j + LabelEnd(n) + 1;
    e' := Encode(m, t', j', bufLen);
  }

  lemma RestLaw(n: Name, t: Option<seq<Entry>>, j: nat, m: Name, t': Option<seq<Entry>>, c: nat) returns (c': nat)
    requires LabelEnd(n) < |n| && LabelEnd(n) <= 63 && m == Rest(n) && t' == Noted(t, n, j) && Spelled(n, t, c) && c > 0
    ensures !Seen(n, t, 0) && c == c' + LabelEnd(n) + 1 && Spelled(m, t', c') && (Short(n, c) <==> Short(m, c'))
  {
    FirstLong(n);
    RestSpelled(n, t, j, LabelEnd(n), m, c);
    c' := c - LabelEnd(n) - 1;
  }

  /** What the rest of the name is up against, and that its law is enough. */
  lemma StepLaw(n: Name, t: Option<seq<Entry>>, j: nat, bufLen: nat, c: nat, e: Encoded)
    returns (m: Name, t': Option<seq<Entry>>, j': nat, c': nat, e': Encoded)
    requires Spelled(n, t, c) && c > 0 && e == Encode(n, t, j, bufLen)
    requires LabelEnd(n) < |n| && LabelEnd(n) <= 63 && j + LabelEnd(n) + 1 <= bufLen
    ensures |m| < |n| && Spelled(m, t', c') && e' == Encode(m, t', j', bufLen) && t'.Some? == t.Some?
    ensures Linked(n, j, bufLen, c, e, m, j', c', e')
  {
    c' := RestLaw(n, t, j, Rest(n), Noted(t, n, j), c);
    m, t', j', e' := StepOf(n, t, j, bufLen, e);
  }

  /**
   * The loop of `dnsname_to_labels` in closed form. Labels are spelled out up to the first tail of the name that has
   * been written before. It succeeds if and only if none of these labels has over 63 bytes and they fit with the
   * pointer behind them; the code is -1 when a label that is too long is reached, and -2 otherwise.
   */
  lemma {:induction false} EncodeExact(n: Name, t: Option<seq<Entry>>, j: nat, bufLen: nat, c: nat, e: Encoded)
    requires Spelled(n, t, c) && e == Encode(n, t, j, bufLen)
    ensures Lawful(n, c, j, bufLen, e)
    decreases |n|
  {
    if c == 0 || LabelEnd(n) == |n| || LabelEnd(n) > 63 || j + LabelEnd(n) + 1 > bufLen {
      LawfulEnd(n, t, j, bufLen, c, e);
    } else {
      var m, t', j', c', e' := StepLaw(n, t, j, bufLen, c, e);
      EncodeExact(m, t', j', bufLen, c', e');
      LawfulStep(n, j, bufLen, c, e, m, j', c', e');
    }
  }

  /**
   * `dnsname_to_labels` as a whole: it succeeds if and only if the name has at most 255 bytes, no label that is spelled
   * out has over 63, and what is written fits; how many bytes it writes; and which code it fails with.
   */
  lemma EncodeNameExact(n: Name, t: Option<seq<Entry>>, j: nat, bufLen: nat, c: nat)
    requires Spelled(n, t, c)
    ensures var e := EncodeName(n, t, j, bufLen);
      && (e.Done? <==> |n| <= 255 && Short(n, c) && j + Reach(n, c) <= bufLen)
      && (e.Done? ==> |e.bytes| == Reach(n, c) + Closing(n, c))
      && (e.Failed? ==> if |n| > 255 then e.code == -2 else Refused(n, c, j, bufLen, e.code))
  {
    if |n| <= 255 { EncodeExact(n, t, j, bufLen, c, Encode(n, t, j, bufLen)); }
  }

  lemma {:induction false} WellFormedShort(n: Name, i: nat)
    requires WellFormed(n) && i <= |n|
    ensures !LongAt(n, i)
    decreases |n|
  {
    if n != [] {
      var d, m := LabelEnd(n), Rest(n);
      FirstLong(n);
      if 0 < i <= d {
        FirstLabel(n, i);
      } else if i > d {
        WellFormedShort(m, i - d - 1);
        RestLong(n, d, m, i - d - 1);
      }
    }
  }

  /** Every well-formed name of at most 255 bytes that has room is encoded, in at most two bytes more than it has. */
  lemma Encodes(n: Name, t: Option<seq<Entry>>, j: nat, bufLen: nat)
    requires WellFormed(n) && |n| <= 255 && j + |n| + 2 <= bufLen
    ensures EncodeName(n, t, j, bufLen).Done? && |EncodeName(n, t, j, bufLen).bytes| <= |n| + 2
  {
    var c := SpelledExists(n, t, 0);
    EncodeNameExact(n, t, j, bufLen, c);
    forall i | 0 <= i < c ensures !LongAt(n, i) { if i <= |n| { WellFormedShort(n, i); } }
  }

  // What is remembered.

  /** Nothing is forgotten, and a name is remembered if there is room for one more. */
  lemma {:induction false} Kept(n: Name, t: seq<Entry>, j: nat, bufLen: nat, e: Encoded)
    requires e == Encode(n, Some(t), j, bufLen) && e.Done?
    ensures e.table.Some? && t <= e.table.value
    ensures |t| < MAX_LABELS ==> Listed(e.table.value, n)
    decreases |n|
  {
    Unseen(n, Some(t));
    if Seen(n, Some(t), 0) {
      assert n[0..] == n;
    } else {
      var u := Remember(t, n, j);
      if |t| < MAX_LABELS { assert u[|t|].name == n; }
      if LabelEnd(n) < |n| {
        var m, t', j', e' := StepOf(n, Some(t), j, bufLen, e);
        Kept(m, u, j', bufLen, e');
        if |t| < MAX_LABELS { assert e.table.value[|t|] == u[|t|]; }
      }
    }
  }

  lemma DoneFits(n: Name, t: Option<seq<Entry>>, j: nat, bufLen: nat, e: Encoded)
    requires e == Encode(n, t, j, bufLen) && e.Done? && !Seen(n, t, 0)
    ensures LabelEnd(n) <= 63 && j + LabelEnd(n) + 1 <= bufLen
  {
    Unseen(n, t);
  }

  lemma StepKept(n: Name, t: seq<Entry>, j: nat, bufLen: nat, c: nat, e: Encoded, i: nat)
    returns (m: Name, u: seq<Entry>, j': nat, c': nat, e': Encoded, i': nat)
    requires Spelled(n, Some(t), c) && e == Encode(n, Some(t), j, bufLen) && e.Done?
    requires 0 < i < c && i <= |n| && Starts(n, i)
    ensures |m| < |n| && Spelled(m, Some(u), c') && e' == Encode(m, Some(u), j', bufLen) && e'.Done?
    ensures i' < c' && i' <= |m| && Starts(m, i') && e'.table == e.table && m[i'..] == n[i..]
  {
    var d := LabelEnd(n);
    if i <= d { FirstLabel(n, i); }
    assert !Seen(n, Some(t), 0);
    DoneFits(n, Some(t), j, bufLen, e);
    var t';
    m, t', j', c', e' := StepLaw(n, Some(t), j, bufLen, c, e);
    u, i' := t'.value, i - d - 1;
    RestStarts(n, d, m, i');
  }

  /** The tails of a name that are spelled out are remembered, as long as the table does not fill up. */
  lemma {:induction false} Remembered(n: Name, t: seq<Entry>, j: nat, bufLen: nat, c: nat, e: Encoded, i: nat)
    requires Spelled(n, Some(t), c) && e == Encode(n, Some(t), j, bufLen) && e.Done?
    requires i < c && i <= |n| && Starts(n, i)
    ensures e.table.Some? && (|e.table.value| < MAX_LABELS ==> Listed(e.table.value, n[i..]))
    decreases |n|
  {
    Kept(n, t, j, bufLen, e);
    if i == 0 {
      assert n[0..] == n;
    } else {
      var m, u, j', c', e', i' := StepKept(n, t, j, bufLen, c, e, i);
      Remembered(m, u, j', bufLen, c', e', i');
    }
  }

  /** A name that was written with room left in the table takes two bytes the next time. */
  lemma SecondTime(n: Name, t: seq<Entry>, j: nat, bufLen: nat, j': nat)
    requires EncodeName(n, Some(t), j, bufLen).Done? && |t| < MAX_LABELS && j' + 2 <= bufLen
    ensures var e := EncodeName(n, EncodeName(n, Some(t), j, bufLen).table, j', bufLen); e.Done? && |e.bytes| == 2
  {
    var e := EncodeName(n, Some(t), j, bufLen);
    Kept(n, t, j, bufLen, e);
    assert n[0..] == n && Seen(n, e.table, 0);
    EncodeNameExact(n, e.table, j', bufLen, 0);
  }

  // Packets.

  /** The item fits behind the packet. */
  ghost predicate Fits(p: Packet, item: Item, bufLen: nat) {
    match item
    case RawItem(bytes) => |p.bytes| + |bytes| <= bufLen
    case NameItem(n) =>
      |n| <= 255 && exists c {:trigger Spelled(n, Some(p.table), c)} ::
        Spelled(n, Some(p.table), c) && Short(n, c) && |p.bytes| + Reach(n, c) <= bufLen
  }

  lemma AppendExact(p: Packet, item: Item, bufLen: nat)
    ensures Append(p, item, bufLen).Some? <==> Fits(p, item, bufLen)
  {
    if item.NameItem? {
      var n, t := item.name, Some(p.table);
      var e := EncodeName(n, t, |p.bytes|, bufLen);
      var c := SpelledExists(n, t, 0);
      forall b | Spelled(n, t, b) ensures b == c { SpelledOnce(n, t, b, c); }
      EncodeNameExact(n, t, |p.bytes|, bufLen, c);
      if e.Done? { Kept(n, p.table, |p.bytes|, bufLen, e); }
    }
  }

  lemma SpelledOnce(n: Name, t: Option<seq<Entry>>, b: nat, c: nat)
    requires Spelled(n, t, b) && Spelled(n, t, c)
    ensures b == c
  {
    assert b <= |n| ==> Seen(n, t, b);
    assert c <= |n| ==> Seen(n, t, c);
  }

  /** A packet can be built if and only if each item fits behind what comes before it. */
  lemma BuildExact(items: seq<Item>, item: Item, bufLen: nat)
    ensures Build(items + [item], bufLen).Some? <==>
            Build(items, bufLen).Some? && Fits(Build(items, bufLen).value, item, bufLen)
  {
    assert (items + [item])[..|items|] == items;
    if Build(items, bufLen).Some? { AppendExact(Build(items, bufLen).value, item, bufLen); }
  }

  /** The room that is enough for an item whatever has been written before. */
  function Size(item: Item): nat {
    match item case RawItem(bytes) => |bytes| case NameItem(n) => |n| + 2
  }

  function Sizes(items: seq<Item>): nat {
    if items == [] then 0 else Sizes(items[..|items| - 1]) + Size(items[|items| - 1])
  }

  /** Well-formed names of at most 255 bytes and other items can be put together if there is room for all. */
  lemma {:induction false} Builds(items: seq<Item>, bufLen: nat)
    requires NamesWellFormed(items) && Sizes(items) <= bufLen
    requires forall i {:trigger items[i]} :: 0 <= i < |items| && items[i].NameItem? ==> |items[i].name| <= 255
    ensures Build(items, bufLen).Some? && |Build(items, bufLen).value.bytes| <= Sizes(items)
  {
    if items != [] {
      var before, item := items[..|items| - 1], items[|items| - 1];
      Builds(before, bufLen);
      var p := Build(before, bufLen).value;
      if item.NameItem? {
        Encodes(item.name, Some(p.table), |p.bytes|, bufLen);
        Kept(item.name, p.table, |p.bytes|, bufLen, EncodeName(item.name, Some(p.table), |p.bytes|, bufLen));
      }
    }
  }
}
