/** The encoder as it works on a byte buffer and a label table, after `evdns.c`. */
module DnsEncoding {
  import opened Octets
  import opened DnsNames
  import opened DnsPackets
  import opened Options

  /** Where the names of the current message were put. */
  class LabelTable {
    var labels: seq<Entry>

    constructor ()
      ensures labels == []
    {
      labels := [];
    }

    /** The first position noted for a name, or -1. */
    method GetPos(n: Name) returns (r: int)
      ensures r == Lookup(labels, n)
      ensures r < 0 ==> forall i :: 0 <= i < |labels| ==> labels[i].name != n
    {
      var i := 0;
      while i < |labels|
        invariant 0 <= i <= |labels|
        invariant Lookup(labels, n) == Lookup(labels[i..], n)
        invariant forall k :: 0 <= k < i ==> labels[k].name != n
      {
        if labels[i].name == n { return labels[i].pos; }
        assert labels[i..][1..] == labels[i + 1..];
        i := i + 1;
      }
      assert labels[i..] == [];
      return -1;
    }

    /** Note a position, unless the table is full. */
    method Add(n: Name, pos: nat)
      modifies this
      ensures labels == Remember(old(labels), n, pos)
    {
      if |labels| == MAX_LABELS { return; }
      labels := labels + [Entry(n, pos)];
    }
  }

  /** A name is a C string: it holds no zero byte. */
  predicate NoZero(n: Name) {
    forall i :: 0 <= i < |n| ==> n[i] != 0
  }

  lemma NoZeroRest(n: Name)
    requires NoZero(n)
    ensures NoZero(Rest(n))
  {
  }

  ghost function TableOf(table: LabelTable?): Option<seq<Entry>>
    reads table
  {
    if table == null then None else Some(table.labels)
  }

  /** The bytes `w` stand in `buf` from `j` on. */
  ghost predicate Stands(buf: array<byte>, j: nat, w: seq<byte>)
    reads buf
  {
    j + |w| <= buf.Length && forall i :: 0 <= i < |w| ==> buf[j + i] == w[i]
  }

  method Write(buf: array<byte>, j: nat, w: seq<byte>, ghost from: nat, ghost before: seq<byte>)
    requires j + |w| <= buf.Length && from + |before| == j && Stands(buf, from, before)
    modifies buf
    ensures Stands(buf, from, before + w)
    ensures forall i :: 0 <= i < from || j + |w| <= i < buf.Length ==> buf[i] == old(buf[i])
  {
    forall i | 0 <= i < |w| { buf[j + i] := w[i]; }
    forall i | 0 <= i < |before + w| ensures buf[from + i] == (before + w)[i] {
      if i >= |before| { assert buf[j + (i - |before|)] == w[i - |before|]; }
    }
  }

  /** What the whole encoding `e` is, given what is written and what remains. */
  ghost predicate Remains(e: Encoded, j: nat, bufLen: nat, rest: Name, t: Option<seq<Entry>>, w: seq<byte>) {
    e == Prefixed(w, Encode(rest, t, j, bufLen))
  }

  lemma PrefixedTwice(a: seq<byte>, b: seq<byte>, e: Encoded)
    ensures Prefixed(a, Prefixed(b, e)) == Prefixed(a + b, e)
  {
    if e.Done? { assert a + (b + e.bytes) == a + b + e.bytes; }
  }

  lemma RemainsStep(e: Encoded, j: nat, bufLen: nat, rest: Name, t: Option<seq<Entry>>, w: seq<byte>)
    requires Remains(e, j, bufLen, rest, t, w)
    requires t.Some? ==> Lookup(t.value, rest) < 0
    requires LabelEnd(rest) < |rest| && LabelEnd(rest) <= 63 && j + |Lab(rest)| <= bufLen
    ensures Remains(e, j + |Lab(rest)|, bufLen, Rest(rest), Noted(t, rest, j), w + Lab(rest))
  {
    Unfold(rest, t, j, bufLen);
    PrefixedTwice(w, Lab(rest), Encode(Rest(rest), Noted(t, rest, j), j + |Lab(rest)|, bufLen));
  }

  lemma RemainsNothing(n: Name, t0: Option<seq<Entry>>, j0: nat, bufLen: nat)
    ensures Remains(Encode(n, t0, j0, bufLen), j0, bufLen, n, t0, [])
  {
    var e := Encode(n, t0, j0, bufLen);
    if e.Done? { assert [] + e.bytes == e.bytes; }
  }

  /** Note the name in the table, if there is one, and write its first label. */
  method Put(buf: array<byte>, j: nat, n: Name, table: LabelTable?, ghost j0: nat, ghost w: seq<byte>)
    requires LabelEnd(n) <= 63 && j + |Lab(n)| <= buf.Length && j == j0 + |w| && Stands(buf, j0, w)
    modifies buf, table
    ensures TableOf(table) == Noted(old(TableOf(table)), n, j)
    ensures Stands(buf, j0, w + Lab(n))
    ensures forall i :: 0 <= i < j0 || j + |Lab(n)| <= i < buf.Length ==> buf[i] == old(buf[i])
  {
    if table != null { table.Add(n, j); }
    Write(buf, j, Lab(n), j0, w);
  }

  /** The closing zero, unless the last label was empty and is one already. */
  method Close(buf: array<byte>, j: nat, last: Name, ghost j0: nat, ghost w: seq<byte>) returns (r: nat)
    requires NoZero(last) && LabelEnd(last) == |last| <= 63 && j + |last| + (if last == [] then 1 else 2) <= buf.Length
    requires j == j0 + |w| && Stands(buf, j0, w + Lab(last))
    modifies buf
    ensures var bytes := w + ([|last|] + last + (if last == [] then [] else [0]));
      r == j0 + |bytes| && Stands(buf, j0, bytes)
    ensures forall i :: 0 <= i < j0 || r <= i < buf.Length ==> buf[i] == old(buf[i])
  {
    r := j + |last| + 1;
    assert buf[j0 + (|w| + |last|)] == (w + Lab(last))[|w| + |last|];
    assert Lab(last) == [|last|] + last;
    if buf[r - 1] != 0 {
      Write(buf, r, [0], j0, w + Lab(last));
      r := r + 1;
      assert w + Lab(last) + [0] == w + ([|last|] + last + [0]);
    } else {
      assert w + Lab(last) == w + ([|last|] + last + []);
    }
  }

  /** What a finished encoding leaves behind. */
  ghost predicate Finished(e: Encoded, buf: array<byte>, bufLen: nat, j0: nat, t: Option<seq<Entry>>, r: int)
    reads buf
  {
    && e.table == t
    && match e
       case Failed(code, _) => r == code < 0
       case Done(bytes, _) => r == j0 + |bytes| <= bufLen + 1 && Stands(buf, j0, bytes)
  }

  /** Only the bytes from `lo` up to `hi` may differ. */
  twostate predicate Only(buf: array<byte>, lo: nat, hi: nat)
    reads buf
  {
    forall i :: 0 <= i < buf.Length && (i < lo || hi <= i) ==> buf[i] == old(buf[i])
  }

  /** The name, or the rest of it, has been seen before. */
  method PutPointer(buf: array<byte>, bufLen: nat, j: nat, ref: nat, ghost j0: nat, ghost w: seq<byte>) returns (r: int)
    requires bufLen <= buf.Length && j == j0 + |w| && (w != [] ==> Stands(buf, j0, w))
    modifies buf
    ensures r == if j + 2 > bufLen then -2 else j + 2
    ensures r >= 0 ==> Stands(buf, j0, w + Pointer(ref))
    ensures Only(buf, j0, if r < 0 then j0 else r)
  {
    if j + 2 > bufLen { return -2; }
    Write(buf, j, Pointer(ref), j0, w);
    return j + 2;
  }

  lemma RemainsPointer(e: Encoded, j: nat, bufLen: nat, rest: Name, t: Option<seq<Entry>>, w: seq<byte>)
    requires Remains(e, j, bufLen, rest, t, w) && t.Some? && Lookup(t.value, rest) >= 0
    ensures e == if j + 2 > bufLen then Failed(-2, t) else Done(w + Pointer(Lookup(t.value, rest)), t)
  {
  }

  lemma RemainsEnd(e: Encoded, j: nat, bufLen: nat, rest: Name, t: Option<seq<Entry>>, w: seq<byte>)
    requires Remains(e, j, bufLen, rest, t, w) && (t.Some? ==> Lookup(t.value, rest) < 0)
    ensures var d := LabelEnd(rest);
      && (d > 63 ==> e == Failed(-1, t))
      && (d <= 63 && j + |Lab(rest)| > bufLen ==> e == Failed(-2, t))
      && (d <= 63 && j + |Lab(rest)| <= bufLen && d == |rest| ==>
            e == Done(w + ([|rest|] + rest + (if rest == [] then [] else [0])), Noted(t, rest, j)))
  {
  }

  /** One round of the loop: either the encoding is over or one label has been laid down. */
  method Round(buf: array<byte>, bufLen: nat, j: nat, rest: Name, table: LabelTable?,
               ghost j0: nat, ghost w: seq<byte>, ghost e: Encoded) returns (over: bool, r: int)
    requires bufLen <= buf.Length && NoZero(rest) && Within(e, j0, buf.Length)
    requires j == j0 + |w| && (w != [] ==> Stands(buf, j0, w)) && Remains(e, j, bufLen, rest, TableOf(table), w)
    modifies buf, table
    ensures over ==> Finished(e, buf, bufLen, j0, TableOf(table), r) && Only(buf, j0, if r < 0 then j else r)
    ensures !over ==>
      && LabelEnd(rest) < |rest| && LabelEnd(rest) <= 63 && j + |Lab(rest)| <= bufLen
      && Stands(buf, j0, w + Lab(rest)) && Only(buf, j0, j + |Lab(rest)|)
      && Remains(e, j + |Lab(rest)|, bufLen, Rest(rest), TableOf(table), w + Lab(rest))
  {
    if table != null {
      var ref := table.GetPos(rest);
      if ref >= 0 {
        RemainsPointer(e, j, bufLen, rest, TableOf(table), w);
        r := PutPointer(buf, bufLen, j, ref, j0, w);
        return true, r;
      }
    }
    RemainsEnd(e, j, bufLen, rest, TableOf(table), w);
    var d := LabelEnd(rest);
    if d > 63 { return true, -1; }
    if j + d + 1 > bufLen { return true, -2; }
    if d < |rest| { RemainsStep(e, j, bufLen, rest, TableOf(table), w); }
    Put(buf, j, rest, table, j0, w);
    if d == |rest| {
      r := Close(buf, j, rest, j0, w);
      return true, r;
    }
    return false, 0;
  }

  /** What is written from `j0` on stays below `length`. */
  predicate Within(e: Encoded, j0: nat, length: nat) {
    e.Done? ==> j0 + |e.bytes| <= length
  }

  /**
   * `dnsname_to_labels`. A name that just fits `bufLen` has its closing zero written one byte
   * further, so the buffer must have that byte then; `OnePast` says exactly when.
   */
  method NameToLabels(buf: array<byte>, bufLen: nat, j0: nat, name: Name, table: LabelTable?) returns (r: int)
    requires bufLen <= buf.Length && NoZero(name)
    requires Within(EncodeName(name, TableOf(table), j0, bufLen), j0, buf.Length)
    modifies buf, table
    ensures Finished(EncodeName(name, old(TableOf(table)), j0, bufLen), buf, bufLen, j0, TableOf(table), r)
    ensures Only(buf, j0, if r < 0 then if bufLen < j0 then j0 else bufLen else r)
  {
    if |name| > 255 { return -2; }
    r := WriteLabels(buf, bufLen, j0, name, table, Encode(name, TableOf(table), j0, bufLen));
  }

  /** The loop of `dnsname_to_labels`. */
  method WriteLabels(buf: array<byte>, bufLen: nat, j0: nat, name: Name, table: LabelTable?, ghost e: Encoded)
    returns (r: int)
    requires bufLen <= buf.Length && NoZero(name) && Within(e, j0, buf.Length)
    requires e == Encode(name, TableOf(table), j0, bufLen)
    modifies buf, table
    ensures Finished(e, buf, bufLen, j0, TableOf(table), r)
    ensures Only(buf, j0, if r < 0 then if bufLen < j0 then j0 else bufLen else r)
  {
    ghost var w: seq<byte> := [];
    var rest, j: nat := name, j0;
    RemainsNothing(name, TableOf(table), j0, bufLen);
    while true
      invariant Remains(e, j, bufLen, rest, TableOf(table), w) && NoZero(rest)
      invariant j == j0 + |w| && (w != [] ==> j <= bufLen && Stands(buf, j0, w))
      invariant Only(buf, j0, j)
      decreases |rest|
    {
      var over;
      over, r := Round(buf, bufLen, j, rest, table, j0, w, e);
      if over { return; }
      NoZeroRest(rest);
      w := w + Lab(rest);
      j := j + LabelEnd(rest) + 1;
      rest := Rest(rest);
    }
  }

  /** Some tail of the name that starts at a label is in the table. */
  predicate Shared(n: Name, t: seq<Entry>)
    decreases |n|
  {
    Lookup(t, n) >= 0 || (LabelEnd(n) < |n| && Shared(Rest(n), t))
  }

  lemma {:induction false} LookupMore(t: seq<Entry>, e: Entry, m: Name)
    requires m != e.name
    ensures Lookup(t + [e], m) == Lookup(t, m)
  {
    if t != [] && t[0].name != m {
      LookupMore(t[1..], e, m);
      assert (t + [e])[1..] == t[1..] + [e];
    }
  }

  lemma {:induction false} SharedMore(t: seq<Entry>, n: Name, j: nat, m: Name)
    requires |m| < |n|
    ensures Lookup(Remember(t, n, j), m) == Lookup(t, m) && Shared(m, Remember(t, n, j)) == Shared(m, t)
    decreases |m|
  {
    LookupMore(t, Entry(n, j), m);
    if LabelEnd(m) < |m| { SharedMore(t, n, j, Rest(m)); }
  }

  /** The name ends in a label that is not empty. */
  predicate Open(n: Name) {
    n != [] && n[|n| - 1] != DOT
  }

  lemma OpenRest(n: Name)
    requires LabelEnd(n) < |n|
    ensures Open(n) == Open(Rest(n)) && |Rest(n)| + LabelEnd(n) + 1 == |n|
  {
    if Rest(n) != [] { assert Rest(n)[|Rest(n)| - 1] == n[|n| - 1]; }
  }

  /** The name shares no tail with an earlier one, does not end in a dot, and fills the buffer exactly. */
  predicate Fills(n: Name, t: Option<seq<Entry>>, j: nat, bufLen: nat) {
    (t.Some? ==> !Shared(n, t.value)) && Open(n) && j + |n| + 1 == bufLen
  }

  lemma FillsRest(n: Name, t: Option<seq<Entry>>, j: nat, bufLen: nat)
    requires LabelEnd(n) < |n| && LabelEnd(n) <= 63 && (t.Some? ==> Lookup(t.value, n) < 0)
    ensures Fills(n, t, j, bufLen) == Fills(Rest(n), Noted(t, n, j), j + |Lab(n)|, bufLen)
  {
    OpenRest(n);
    if t.Some? { SharedMore(t.value, n, j, Rest(n)); }
  }

  /** The first label is written, and the rest follows. */
  lemma StepPast(n: Name, t: Option<seq<Entry>>, j: nat, bufLen: nat, e: Encoded)
    returns (m: Name, t': Option<seq<Entry>>, j': nat, e': Encoded)
    requires e == Encode(n, t, j, bufLen) && e.Done? && LabelEnd(n) < |n| && (t.Some? ==> Lookup(t.value, n) < 0)
    ensures |m| < |n| && e' == Encode(m, t', j', bufLen) && e'.Done? && j' + |e'.bytes| == j + |e.bytes|
    ensures Fills(n, t, j, bufLen) == Fills(m, t', j', bufLen)
  {
    Unfold(n, t, j, bufLen);
    m, t', j' := Rest(n), Noted(t, n, j), j + |Lab(n)|;
    e' := Encode(m, t', j', bufLen);
    FillsRest(n, t, j, bufLen);
  }

  /** The name is one label, or has been seen before. */
  lemma LastPast(n: Name, t: Option<seq<Entry>>, j: nat, bufLen: nat, e: Encoded)
    requires e == Encode(n, t, j, bufLen) && e.Done? && (LabelEnd(n) == |n| || (t.Some? && Lookup(t.value, n) >= 0))
    ensures j + |e.bytes| == bufLen + 1 <==> Fills(n, t, j, bufLen)
  {
    if LabelEnd(n) == |n| && n != [] { DotFromFirst(n, 0, |n| - 1); }
  }

  /**
   * The closing zero goes one byte beyond `bufLen` if and only if the name shares no tail with one
   * written before, does not end in a dot, and its labels fill the buffer exactly.
   */
  lemma {:induction false} OnePast(n: Name, t: Option<seq<Entry>>, j: nat, bufLen: nat, e: Encoded)
    requires e == Encode(n, t, j, bufLen) && e.Done?
    ensures j + |e.bytes| == bufLen + 1 <==> Fills(n, t, j, bufLen)
    decreases |n|
  {
    if LabelEnd(n) == |n| || (t.Some? && Lookup(t.value, n) >= 0) {
      LastPast(n, t, j, bufLen, e);
    } else {
      var m, t', j', e' := StepPast(n, t, j, bufLen, e);
      OnePast(m, t', j', bufLen, e');
    }
  }

  /** One byte in a buffer of two: its closing zero goes to the third. */
  lemma OnePastExample()
    ensures Encode([97], None, 0, 2) == Done([1, 97, 0], None)
  {
    assert LabelEnd([97]) == 1;
  }
}
