/** DNS names on the wire with compression (section 4.1.4 of RFC 1035), after `evdns.c`. */
module DnsNames {
  import opened Octets
  import opened Options

  const DOT: byte := 46
  const MAX_LABELS: nat := 128
  const POINTER_LIMIT: nat := 0x4000

  type Name = seq<byte>
  datatype Entry = Entry(name: Name, pos: nat)
  /** The first dot of `n` at or after `i`, or its end. */
  function DotFrom(n: Name, i: nat): (d: nat)
    requires i <= |n|
    ensures i <= d <= |n| && (d < |n| ==> n[d] == DOT)
    decreases |n| - i
  {
    if i == |n| || n[i] == DOT then i else DotFrom(n, i + 1)
  }

  /** Where the first label of `n` ends. */
  function LabelEnd(n: Name): (d: nat)
    ensures d <= |n| && (d < |n| ==> n[d] == DOT)
  {
    DotFrom(n, 0)
  }

  lemma {:induction false} DotFromFirst(n: Name, i: nat, k: nat)
    requires i <= k < |n| && k < DotFrom(n, i)
    ensures n[k] != DOT
    decreases |n| - i
  {
    if i < k { DotFromFirst(n, i + 1, k); }
  }

  /** The labels of a name; a dot at the very end adds none. */
  function Labels(n: Name): seq<Name>
    decreases |n|
  {
    if n == [] then [] else
      var d := LabelEnd(n);
      [n[..d]] + if d == |n| then [] else Labels(n[d + 1..])
  }

  /** No label is empty or longer than 63 bytes. */
  predicate WellFormed(n: Name)
    decreases |n|
  {
    n == [] || var d := LabelEnd(n); 0 < d <= 63 && (d == |n| || WellFormed(n[d + 1..]))
  }

  /** The position of the first table entry for `n`, or -1. */
  function Lookup(table: seq<Entry>, n: Name): (r: int)
    ensures -1 <= r
    ensures r >= 0 ==> exists i :: 0 <= i < |table| && table[i] == Entry(n, r)
  {
    if table == [] then -1 else if table[0].name == n then table[0].pos else Lookup(table[1..], n)
  }

  function Remember(table: seq<Entry>, n: Name, j: nat): seq<Entry> {
    if |table| == MAX_LABELS then table else table + [Entry(n, j)]
  }

  /** `ref | 0xc000` as two bytes: fourteen bits of the position survive. */
  function Pointer(pos: nat): (b: seq<byte>)
    ensures |b| == 2 && b[0] >= 64 && Target(b[0], b[1]) == pos % POINTER_LIMIT
  {
    var r := pos % POINTER_LIMIT;
    [0xC0 + r / 256, r % 256]
  }

  /** The position that a pointer's two bytes name. */
  function Target(high: byte, low: byte): nat {
    (high as int) % 64 * 256 + low as int
  }

  /** The part of a name after its first label. */
  function Rest(n: Name): (rest: Name)
    ensures LabelEnd(n) < |n| ==> |rest| < |n|
  {
    var d := LabelEnd(n);
    if d == |n| then [] else n[d + 1..]
  }

  /** The first label of a name with its length in front. */
  function Lab(n: Name): (b: seq<byte>)
    requires LabelEnd(n) <= 63
    ensures |b| == LabelEnd(n) + 1
  {
    [LabelEnd(n)] + n[..LabelEnd(n)]
  }

  /** What was written, or the error code; either way the table as it is afterwards. */
  datatype Encoded =
    | Done(bytes: seq<byte>, table: Option<seq<Entry>>)
    | Failed(code: int, table: Option<seq<Entry>>)

  function Prefixed(b: seq<byte>, e: Encoded): Encoded {
    match e
    case Done(bytes, table) => Done(b + bytes, table)
    case Failed(_, _) => e
  }

  function Noted(table: Option<seq<Entry>>, n: Name, j: nat): Option<seq<Entry>> {
    if table.Some? then Some(Remember(table.value, n, j)) else None
  }

  /** What the loop of `dnsname_to_labels` writes from position `j` on, with or without a table. */
  function Encode(n: Name, table: Option<seq<Entry>>, j: nat, bufLen: nat): Encoded
    decreases |n|
  {
    if table.Some? && Lookup(table.value, n) >= 0 then
      if j + 2 > bufLen then Failed(-2, table) else Done(Pointer(Lookup(table.value, n)), table)
    else
      var d := LabelEnd(n);
      if d > 63 then Failed(-1, table)
      else if j + d + 1 > bufLen then Failed(-2, table)
      else if d == |n| then Done([d] + n + (if d == 0 then [] else [0]), Noted(table, n, j))
      else Prefixed(Lab(n), Encode(Rest(n), Noted(table, n, j), j + |Lab(n)|, bufLen))
  }

  lemma Unfold(n: Name, t: Option<seq<Entry>>, j: nat, bufLen: nat)
    requires LabelEnd(n) < |n| && LabelEnd(n) <= 63 && j + |Lab(n)| <= bufLen
    requires t.Some? ==> Lookup(t.value, n) < 0
    ensures Encode(n, t, j, bufLen) == Prefixed(Lab(n), Encode(Rest(n), Noted(t, n, j), j + |Lab(n)|, bufLen))
  {
  }

  /** The labels at `pos`, reading only below `limit`, with every pointer strictly backwards. */
  ghost function Decode(buf: seq<byte>, limit: nat, pos: nat): Option<seq<Name>>
    requires limit <= |buf|
    decreases limit, limit - pos
  {
    if pos >= limit then None
    else if buf[pos] == 0 then Some([])
    else if buf[pos] >= 64 then
      if pos + 1 >= limit then None
      else
        var target := Target(buf[pos], buf[pos + 1]);
        if target >= pos then None else Decode(buf, pos, target)
    else
      var k := pos + 1 + buf[pos];
      if k > limit then None
      else match Decode(buf, limit, k)
        case None => None
        case Some(rest) => Some([buf[pos + 1..k]] + rest)
  }

  /** Where a name that starts at `pos` ends. */
  ghost function End(buf: seq<byte>, limit: nat, pos: nat): nat
    requires limit <= |buf|
    decreases limit - pos
  {
    if pos >= limit then pos
    else if buf[pos] == 0 then pos + 1
    else if buf[pos] >= 64 then pos + 2
    else End(buf, limit, pos + 1 + buf[pos])
  }

  ghost predicate Agree(a: seq<byte>, b: seq<byte>, n: nat) {
    n <= |a| && n <= |b| && forall i :: 0 <= i < n ==> a[i] == b[i]
  }

  /** Later bytes do not change what has been encoded. */
  lemma {:induction false} DecodeStable(buf: seq<byte>, buf': seq<byte>, limit: nat, limit': nat, pos: nat)
    requires Agree(buf, buf', limit) && limit <= limit' <= |buf'|
    requires Decode(buf, limit, pos).Some?
    ensures Decode(buf', limit', pos) == Decode(buf, limit, pos)
    ensures End(buf', limit', pos) == End(buf, limit, pos) <= limit
    decreases limit, limit - pos
  {
    if buf[pos] >= 64 {
      DecodeStable(buf, buf', pos, pos, Target(buf[pos], buf[pos + 1]));
    } else if buf[pos] != 0 {
      var k := pos + 1 + buf[pos];
      assert buf[pos + 1..k] == buf'[pos + 1..k];
      DecodeStable(buf, buf', limit, limit', k);
    }
  }

  ghost predicate EntryOk(buf: seq<byte>, e: Entry) {
    e.pos < |buf| && e.pos < POINTER_LIMIT && Decode(buf, |buf|, e.pos) == Some(Labels(e.name))
  }

  /** Every entry for a name of at most `n` bytes leads to that name. */
  ghost predicate TableOk(buf: seq<byte>, table: seq<Entry>, n: nat) {
    forall i :: 0 <= i < |table| && |table[i].name| <= n ==> EntryOk(buf, table[i])
  }

  lemma TableGrows(buf: seq<byte>, more: seq<byte>, table: seq<Entry>, n: nat)
    requires TableOk(buf, table, n)
    ensures TableOk(buf + more, table, n)
  {
    forall i | 0 <= i < |table| && |table[i].name| <= n ensures EntryOk(buf + more, table[i]) {
      DecodeStable(buf, buf + more, |buf|, |buf + more|, table[i].pos);
    }
  }

  /** `out` written after `buf` reads back as `n` and ends where `out` does. */
  ghost predicate Reads(buf: seq<byte>, out: seq<byte>, n: Name) {
    var all := buf + out;
    Decode(all, |all|, |buf|) == Some(Labels(n)) && End(all, |all|, |buf|) == |all|
  }

  lemma PointerDecodes(buf: seq<byte>, r: nat)
    requires r < |buf| && r < POINTER_LIMIT && Decode(buf, |buf|, r).Some?
    ensures var buf' := buf + Pointer(r);
      Decode(buf', |buf'|, |buf|) == Decode(buf, |buf|, r) && End(buf', |buf'|, |buf|) == |buf'|
  {
    var buf' := buf + Pointer(r);
    DecodeStable(buf, buf', |buf|, |buf|, r);
    assert buf'[|buf|] == Pointer(r)[0] && buf'[|buf| + 1] == Pointer(r)[1];
  }

  /** A pointer written after `buf` leads to the name it was looked up for. */
  lemma PointerSound(buf: seq<byte>, n: Name, table: seq<Entry>)
    requires Lookup(table, n) >= 0 && TableOk(buf, table, |n|)
    ensures Reads(buf, Pointer(Lookup(table, n)), n)
  {
    var r := Lookup(table, n);
    var i :| 0 <= i < |table| && table[i] == Entry(n, r);
    assert EntryOk(buf, table[i]);
    PointerDecodes(buf, r);
  }

  /** One label in front of labels already laid down. */
  lemma LabelDecodes(buf: seq<byte>, lab: Name, rest: seq<byte>, ls: seq<Name>)
    requires 0 < |lab| <= 63
    requires var mid := buf + ([|lab|] + lab);
      Decode(mid + rest, |mid + rest|, |mid|) == Some(ls) && End(mid + rest, |mid + rest|, |mid|) == |mid + rest|
    ensures var all := buf + ([|lab|] + lab + rest);
      Decode(all, |all|, |buf|) == Some([lab] + ls) && End(all, |all|, |buf|) == |all|
  {
    var mid := buf + ([|lab|] + lab);
    var all := buf + ([|lab|] + lab + rest);
    assert mid + rest == all;
    assert all[|buf| + 1..|mid|] == lab;
  }

  lemma LabelSound(buf: seq<byte>, n: Name, rest: seq<byte>)
    requires WellFormed(n) && n != []
    requires Reads(buf + Lab(n), rest, Rest(n))
    ensures Reads(buf, Lab(n) + rest, n)
  {
    LabelDecodes(buf, n[..LabelEnd(n)], rest, Labels(Rest(n)));
  }

  /** The table after a name was written: the old entries, then entries that hold in the packet. */
  ghost predicate Extends(all: seq<byte>, before: seq<Entry>, after: seq<Entry>) {
    before <= after && forall i :: |before| <= i < |after| ==> EntryOk(all, after[i])
  }

  lemma ExtendsNoted(buf: seq<byte>, out: seq<byte>, n: Name, table: seq<Entry>, after: seq<Entry>)
    requires Reads(buf, out, n) && |buf| < POINTER_LIMIT && out != []
    requires Extends(buf + out, Remember(table, n, |buf|), after)
    ensures Extends(buf + out, table, after)
  {
  }

  /** The first label of `n` laid down, with `n` remembered, is a fit start for the rest of `n`. */
  lemma NotedOk(buf: seq<byte>, out: seq<byte>, n: Name, table: seq<Entry>, m: nat)
    requires TableOk(buf, table, |n|) && m < |n|
    ensures TableOk(buf + out, Remember(table, n, |buf|), m)
  {
    TableGrows(buf, out, table, |n|);
  }

  lemma {:induction false} LastSound(buf: seq<byte>, n: Name)
    requires WellFormed(n) && LabelEnd(n) == |n|
    ensures Reads(buf, [|n|] + n + (if |n| == 0 then [] else [0]), n)
  {
    if n == [] {
      assert [|n|] + n + [] == [0] && (buf + [0])[|buf|] == 0;
    } else {
      var mid := buf + ([|n|] + n[..|n|]);
      assert n[..|n|] == n && (mid + [0])[|mid|] == 0;
      LabelSound(buf, n, [0]);
    }
  }

  ghost predicate Sound(buf: seq<byte>, n: Name, table: Option<seq<Entry>>, e: Encoded) {
    && e.Done? && e.bytes != [] && Reads(buf, e.bytes, n)
    && e.table.Some? == table.Some?
    && (table.Some? ==> Extends(buf + e.bytes, table.value, e.table.value))
  }

  lemma PrefixedSound(buf: seq<byte>, mid: seq<byte>, n: Name, table: Option<seq<Entry>>, e: Encoded, all: Encoded)
    requires WellFormed(n) && n != [] && |buf| < POINTER_LIMIT && all == Prefixed(Lab(n), e)
    requires mid == buf + Lab(n) && Sound(mid, Rest(n), Noted(table, n, |buf|), e)
    ensures Sound(buf, n, table, all)
  {
    LabelSound(buf, n, e.bytes);
    assert mid + e.bytes == buf + (Lab(n) + e.bytes);
    if table.Some? { ExtendsNoted(buf, Lab(n) + e.bytes, n, table.value, e.table.value); }
  }

  lemma PointerCase(buf: seq<byte>, n: Name, table: seq<Entry>, bufLen: nat)
    requires Lookup(table, n) >= 0 && TableOk(buf, table, |n|)
    requires Encode(n, Some(table), |buf|, bufLen).Done?
    ensures Sound(buf, n, Some(table), Encode(n, Some(table), |buf|, bufLen))
  {
    PointerSound(buf, n, table);
  }

  lemma LastCase(buf: seq<byte>, n: Name, table: Option<seq<Entry>>, e: Encoded)
    requires WellFormed(n) && LabelEnd(n) == |n| && |buf| < POINTER_LIMIT
    requires e == Done([|n|] + n + (if |n| == 0 then [] else [0]), Noted(table, n, |buf|))
    ensures Sound(buf, n, table, e)
  {
    LastSound(buf, n);
    if table.Some? { ExtendsNoted(buf, e.bytes, n, table.value, e.table.value); }
  }

  lemma StepFits(n: Name, table: Option<seq<Entry>>, j: nat, bufLen: nat)
    requires LabelEnd(n) < |n| && (table.Some? ==> Lookup(table.value, n) < 0)
    requires Encode(n, table, j, bufLen).Done?
    ensures LabelEnd(n) <= 63 && j + |Lab(n)| <= bufLen
  {
  }

  /** The rest of the name is encoded where the first label ends. */
  lemma StepCase(buf: seq<byte>, mid: seq<byte>, n: Name, table: Option<seq<Entry>>, bufLen: nat)
    requires LabelEnd(n) < |n| && LabelEnd(n) <= 63 && (table.Some? ==> Lookup(table.value, n) < 0)
    requires Encode(n, table, |buf|, bufLen).Done? && mid == buf + Lab(n) && |mid| <= bufLen
    ensures Encode(Rest(n), Noted(table, n, |buf|), |mid|, bufLen).Done?
  {
    Unfold(n, table, |buf|, bufLen);
  }

  lemma StepDone(buf: seq<byte>, mid: seq<byte>, n: Name, table: Option<seq<Entry>>, bufLen: nat, all: Encoded)
    requires WellFormed(n) && n != [] && LabelEnd(n) < |n| && (table.Some? ==> Lookup(table.value, n) < 0)
    requires all == Encode(n, table, |buf|, bufLen)
    requires mid == buf + Lab(n) && |mid| <= bufLen <= POINTER_LIMIT
    requires Sound(mid, Rest(n), Noted(table, n, |buf|), Encode(Rest(n), Noted(table, n, |buf|), |mid|, bufLen))
    ensures Sound(buf, n, table, all)
  {
    Unfold(n, table, |buf|, bufLen);
    PrefixedSound(buf, mid, n, table, Encode(Rest(n), Noted(table, n, |buf|), |mid|, bufLen), all);
  }

  /**
   * What is written for a well-formed name reads back as that name, and every position put in
   * the table on the way, the one of the name still being written included, leads to its name.
   */
  lemma {:induction false} EncodeSound(buf: seq<byte>, n: Name, table: Option<seq<Entry>>, bufLen: nat)
    requires WellFormed(n) && bufLen <= POINTER_LIMIT
    requires table.Some? ==> TableOk(buf, table.value, |n|)
    requires Encode(n, table, |buf|, bufLen).Done?
    ensures Sound(buf, n, table, Encode(n, table, |buf|, bufLen))
    decreases |n|
  {
    var d := LabelEnd(n);
    if table.Some? && Lookup(table.value, n) >= 0 {
      PointerCase(buf, n, table.value, bufLen);
    } else if d == |n| {
      LastCase(buf, n, table, Encode(n, table, |buf|, bufLen));
    } else {
      StepFits(n, table, |buf|, bufLen);
      var mid := buf + Lab(n);
      StepCase(buf, mid, n, table, bufLen);
      if table.Some? { NotedOk(buf, Lab(n), n, table.value, |Rest(n)|); }
      EncodeSound(mid, Rest(n), Noted(table, n, |buf|), bufLen);
      StepDone(buf, mid, n, table, bufLen, Encode(n, table, |buf|, bufLen));
    }
  }

  /** A label can be taken off again: the name behind it is what is left. */
  lemma LabelUndone(buf: seq<byte>, n: Name, rest: seq<byte>)
    requires 0 < LabelEnd(n) <= 63 && rest != []
    requires Reads(buf, Lab(n) + rest, n)
    ensures Reads(buf + Lab(n), rest, Rest(n))
  {
    var mid := buf + Lab(n);
    var all := buf + (Lab(n) + rest);
    assert mid + rest == all;
    assert all[|buf|] == LabelEnd(n);
    assert Labels(n)[1..] == Labels(Rest(n));
    var tail := Decode(all, |all|, |mid|);
    assert ([all[|buf| + 1..|mid|]] + tail.value)[1..] == tail.value;
  }

  lemma {:induction false} PlainNotEmpty(n: Name, j: nat, bufLen: nat)
    requires Encode(n, None, j, bufLen).Done?
    ensures Encode(n, None, j, bufLen).bytes != [] && Encode(n, None, j, bufLen).table == None
    decreases |n|
  {
    if LabelEnd(n) < |n| {
      Unfold(n, None, j, bufLen);
      PlainNotEmpty(Rest(n), j + |Lab(n)|, bufLen);
    }
  }

  lemma PlainLast(buf: seq<byte>, n: Name, bytes: seq<byte>, bufLen: nat)
    requires Encode(n, None, |buf|, bufLen) == Done(bytes, None) && LabelEnd(n) == |n|
    ensures WellFormed(n) && bytes == [|n|] + n + (if |n| == 0 then [] else [0])
  {
  }

  /** The first label and what is written after it. */
  lemma PlainUnfold(buf: seq<byte>, mid: seq<byte>, n: Name, bytes: seq<byte>, bufLen: nat) returns (rest: seq<byte>)
    requires Encode(n, None, |buf|, bufLen) == Done(bytes, None) && LabelEnd(n) < |n|
    requires LabelEnd(n) <= 63 && mid == buf + Lab(n) && |mid| <= bufLen
    ensures bytes == Lab(n) + rest && rest != []
    ensures Encode(Rest(n), None, |mid|, bufLen) == Done(rest, None)
  {
    Unfold(n, None, |buf|, bufLen);
    var e := Encode(Rest(n), Noted(None, n, |buf|), |mid|, bufLen);
    assert e.Done?;
    PlainNotEmpty(Rest(n), |mid|, bufLen);
    rest := e.bytes;
  }

  lemma PlainZero(buf: seq<byte>, n: Name, bytes: seq<byte>)
    requires n != [] && LabelEnd(n) == 0 && Lab(n) <= bytes
    ensures !Reads(buf, bytes, n) && !WellFormed(n)
  {
    assert (buf + bytes)[|buf|] == Lab(n)[0] == 0;
    assert Labels(n) != [];
  }

  lemma PlainStep(buf: seq<byte>, n: Name, rest: seq<byte>, bytes: seq<byte>)
    requires 0 < LabelEnd(n) < |n| && LabelEnd(n) <= 63 && rest != [] && bytes == Lab(n) + rest
    requires Reads(buf + Lab(n), rest, Rest(n)) <==> WellFormed(Rest(n))
    ensures Reads(buf, bytes, n) <==> WellFormed(n)
  {
    if WellFormed(Rest(n)) {
      LabelSound(buf, n, rest);
    } else if Reads(buf, bytes, n) {
      LabelUndone(buf, n, rest);
    }
  }

  /** Without compression the well-formed names are exactly the ones that come back. */
  lemma {:induction false} PlainRoundTrip(buf: seq<byte>, n: Name, bytes: seq<byte>, bufLen: nat)
    requires Encode(n, None, |buf|, bufLen) == Done(bytes, None)
    ensures Reads(buf, bytes, n) <==> WellFormed(n)
    decreases |n|
  {
    if LabelEnd(n) == |n| {
      PlainLast(buf, n, bytes, bufLen);
      LastSound(buf, n);
    } else {
      StepFits(n, None, |buf|, bufLen);
      var mid := buf + Lab(n);
      var rest := PlainUnfold(buf, mid, n, bytes, bufLen);
      if LabelEnd(n) == 0 {
        PlainZero(buf, n, bytes);
      } else {
        PlainRoundTrip(mid, Rest(n), rest, bufLen);
        PlainStep(buf, n, rest, bytes);
      }
    }
  }
}
