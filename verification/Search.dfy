/** Searching an evbuffer across its chains agrees with searching its bytes, after `buffer.c`. */
module EvbufferSearch {
  import opened Octets
  import opened Chains
  import opened Flattening
  import opened Evbuffer
  import opened Options
  import opened Widths

  const NOT_FOUND := Ptr(-1, null, 0)

  /** Byte `j` of chain `i`. */
  lemma ByteAt(b: Evbuffer, i: nat, j: nat)
    requires b.Valid() && i < |b.chains| && j < b.chains[i].off
    ensures var c := b.chains[i];
      && c.misalign + j < c.buffer.Length
      && Offset(b.data, i) + j < |b.Contents()|
      && c.Byte(j) == b.Contents()[Offset(b.data, i) + j]
  {
    assert b.chains[i].Holds(b.data[i]);
    FlattenRange(b.data, i, j, j + 1);
    assert b.data[i][j..j + 1][0] == b.data[i][j];
  }

  lemma InChain(b: Evbuffer, i: nat)
    requires b.Valid() && i < |b.chains|
    ensures var c := b.chains[i]; c.misalign + c.off <= c.buffer.Length && c.off == |b.data[i]|
    ensures Offset(b.data, i) + b.chains[i].off == Offset(b.data, i + 1) <= |b.Contents()|
    ensures b.chains[i].next == if i + 1 < |b.chains| then b.chains[i + 1] else null
  {
    assert b.chains[i].Holds(b.data[i]);
    FlattenRange(b.data, i, 0, |b.data[i]|);
  }

  datatype How = Set | Add

  /** Move a position: succeeds exactly when the target is inside the buffer or at its end. */
  method PtrSet(b: Evbuffer, pos: Ptr, position: nat, how: How, ghost i: nat) returns (r: int, p: Ptr, ghost j: nat)
    requires b.Valid() && (how.Add? && pos.pos >= 0 ==> i <= |b.chains| && b.At(pos, i))
    ensures how.Add? && (pos.pos < 0 || SIZE_MAX - position < pos.pos) ==> r == -1 && p == pos
    ensures !(how.Add? && (pos.pos < 0 || SIZE_MAX - position < pos.pos)) ==>
      var target := if how.Set? then position else pos.pos + position;
      if target <= |b.Contents()| then
        r == 0 && p.pos == target && j <= |b.chains| && b.At(p, j) && (j < |b.chains| ==> p.posInChain < |b.data[j]|)
      else
        r == -1 && p == NOT_FOUND
  {
    j := 0;
    var chain, at, left := b.first, 0, position;
    var target := position;
    if how.Add? {
      if pos.pos < 0 || SIZE_MAX - position < pos.pos {
        return -1, pos, j;
      }
      chain, at, target, j := pos.chain, pos.posInChain, pos.pos + position, i;
    }
    OffsetEnd(b.data);
    if j < |b.chains| { InChain(b, j); }
    while chain != null && at + left >= chain.off
      invariant j <= |b.chains| && chain == (if j < |b.chains| then b.chains[j] else null)
      invariant 0 <= at && 0 <= left && Offset(b.data, j) + at + left == target
      invariant if j < |b.chains| then at <= |b.data[j]| == chain.off else at == 0
      decreases |b.chains| - j
    {
      InChain(b, j);
      left := left - (chain.off - at);
      if j + 1 < |b.chains| { InChain(b, j + 1); }
      chain, at := chain.next, 0;
      j := j + 1;
    }
    if chain != null {
      InChain(b, j);
      return 0, Ptr(target, chain, at + left), j;
    } else if left == 0 {
      return 0, Ptr(target, null, 0), j;
    } else {
      return -1, NOT_FOUND, j;
    }
  }

  ghost predicate MatchAt(s: seq<byte>, what: seq<byte>, m: nat) {
    m + |what| <= |s| && s[m..m + |what|] == what
  }

  ghost predicate NoMatch(s: seq<byte>, what: seq<byte>, lo: nat, hi: nat) {
    forall m :: lo <= m < hi ==> !MatchAt(s, what, m)
  }

  /** Comparing piece by piece: `n` bytes agree, and the next ones are `piece`. */
  lemma CompareStep(s: seq<byte>, p: nat, what: seq<byte>, n: nat, piece: seq<byte>)
    requires p + |what| <= |s| && n + |piece| <= |what|
    requires s[p..p + n] == what[..n] && piece == s[p + n..p + n + |piece|]
    ensures piece == what[n..n + |piece|] ==> s[p..p + n + |piece|] == what[..n + |piece|]
    ensures piece != what[n..n + |piece|] ==> s[p..p + |what|] != what
  {
    if piece == what[n..n + |piece|] {
      assert what[..n + |piece|] == what[..n] + piece;
      assert s[p..p + n + |piece|] == s[p..p + n] + piece;
    }
    if s[p..p + |what|] == what {
      assert forall k :: 0 <= k < |piece| ==> piece[k] == s[p..p + |what|][n + k];
    }
  }

  /** The first `n` bytes of `what` agree with those from `p` on, and the comparison goes on at `at` of chain `j`. */
  ghost predicate Comparing(b: Evbuffer, p: nat, what: seq<byte>, n: nat, chain: Chain?, at: nat, j: nat)
    requires b.Valid()
    reads b, b.chains, Memory(b.chains)
  {
    && n <= |what| && p + |what| <= |b.Contents()| && j <= |b.chains|
    && b.Contents()[p..p + n] == what[..n]
    && (n < |what| ==>
          && chain == (if j < |b.chains| then b.chains[j] else null)
          && (j < |b.chains| ==> at <= chain.off)
          && p + n == Offset(b.data, j) + at)
  }

  function Comparable(what: seq<byte>, n: nat, chain: Chain, at: nat): nat
    requires n <= |what| && at <= chain.off
    reads chain
  {
    if |what| - n + at > chain.off then chain.off - at else |what| - n
  }

  lemma ComparePiece(b: Evbuffer, p: nat, what: seq<byte>, n: nat, chain: Chain, at: nat, j: nat)
    requires b.Valid() && Comparing(b, p, what, n, chain, at, j) && n < |what|
    ensures at <= chain.off && j < |b.chains|
    ensures var m := Comparable(what, n, chain, at);
      && chain.misalign + at + m <= chain.buffer.Length
      && (chain.Bytes(at, m) == what[n..n + m] ==> Comparing(b, p, what, n + m, chain.next, 0, j + 1))
      && (chain.Bytes(at, m) != what[n..n + m] ==> !MatchAt(b.Contents(), what, p))
  {
    InChain(b, j);
    var m := Comparable(what, n, chain, at);
    BytesAt(b, j, at, m);
    CompareStep(b.Contents(), p, what, n, chain.Bytes(at, m));
    if j + 1 < |b.chains| { InChain(b, j + 1); }
  }

  /** `memcmp` from `pos` on: are the next bytes those of `what`? */
  method PtrMemcmp(b: Evbuffer, pos: Ptr, what: seq<byte>, ghost i: nat) returns (same: bool)
    requires b.Valid() && b.totalLen <= SIZE_MAX && i <= |b.chains| && b.At(pos, i)
    ensures same <==> MatchAt(b.Contents(), what, pos.pos)
  {
    if SIZE_MAX - |what| < pos.pos || pos.pos + |what| > b.totalLen {
      return false;
    }
    ghost var j := i;
    var chain, at: nat, n: nat := pos.chain, pos.posInChain, 0;
    CompareStart(b, pos, what, i);
    while n < |what| && chain != null
      invariant Comparing(b, pos.pos, what, n, chain, at, j)
      decreases |b.chains| - j
    {
      ComparePiece(b, pos.pos, what, n, chain, at, j);
      var m := Comparable(what, n, chain, at);
      if chain.Bytes(at, m) != what[n..n + m] {
        return false;
      }
      n, at, chain := n + m, 0, chain.next;
      j := j + 1;
    }
    CompareEnd(b, pos.pos, what, n, chain, at, j);
    return true;
  }

  lemma CompareStart(b: Evbuffer, pos: Ptr, what: seq<byte>, i: nat)
    requires b.Valid() && i <= |b.chains| && b.At(pos, i) && 0 <= pos.pos && pos.pos + |what| <= |b.Contents()|
    ensures Comparing(b, pos.pos, what, 0, pos.chain, pos.posInChain, i)
  {
    OffsetEnd(b.data);
    if i < |b.chains| { InChain(b, i); }
  }

  lemma CompareEnd(b: Evbuffer, p: nat, what: seq<byte>, n: nat, chain: Chain?, at: nat, j: nat)
    requires b.Valid() && Comparing(b, p, what, n, chain, at, j) && (n == |what| || chain == null)
    ensures MatchAt(b.Contents(), what, p)
  {
    OffsetEnd(b.data);
    assert what[..|what|] == what;
  }

  lemma BytesAt(b: Evbuffer, i: nat, at: nat, n: nat)
    requires b.Valid() && i < |b.chains| && at + n <= b.chains[i].off
    ensures var c := b.chains[i];
      && c.misalign + at + n <= c.buffer.Length
      && Offset(b.data, i) + at + n <= |b.Contents()|
      && c.Bytes(at, n) == b.Contents()[Offset(b.data, i) + at..Offset(b.data, i) + at + n]
  {
    var c := b.chains[i];
    assert b.chains[i].Holds(b.data[i]);
    FlattenRange(b.data, i, at, at + n);
    c.BytesHeld(at, n, b.data[i]);
  }

  const CR: byte := 13
  const LF: byte := 10
  const NUL: byte := 0
  const CHUNK_SZ: nat := 128

  datatype Stop = One(ch: byte) | Eol

  predicate IsStop(stop: Stop, x: byte) {
    if stop.Eol? then x == CR || x == LF else x == stop.ch
  }

  /** `memchr` between two places in a chain. */
  function IndexIn(chain: Chain, from: nat, upto: nat, ch: byte): (k: nat)
    requires from <= upto <= chain.off && chain.misalign + chain.off <= chain.buffer.Length
    reads chain, chain.buffer
    ensures from <= k <= upto && (k < upto ==> chain.Byte(k) == ch)
    ensures forall j :: from <= j < k ==> chain.Byte(j) != ch
    decreases upto - from
  {
    if from == upto || chain.Byte(from) == ch then from else IndexIn(chain, from + 1, upto, ch)
  }

  /** `find_eol_char`: two searches per chunk instead of one test per byte. */
  function FindEolChar(chain: Chain, from: nat): (k: nat)
    requires from <= chain.off && chain.misalign + chain.off <= chain.buffer.Length
    reads chain, chain.buffer
    ensures from <= k <= chain.off && (k < chain.off ==> IsStop(Eol, chain.Byte(k)))
    ensures forall j :: from <= j < k ==> !IsStop(Eol, chain.Byte(j))
    decreases chain.off - from
  {
    if from == chain.off then from
    else
      var upto := if from + CHUNK_SZ < chain.off then from + CHUNK_SZ else chain.off;
      var cr, lf := IndexIn(chain, from, upto, CR), IndexIn(chain, from, upto, LF);
      if cr < upto then (if lf < upto && lf < cr then lf else cr)
      else if lf < upto then lf
      else FindEolChar(chain, upto)
  }

  lemma FirstDiffers(s: seq<byte>, what: seq<byte>, m: nat)
    requires what != [] && m < |s| && s[m] != what[0]
    ensures !MatchAt(s, what, m)
  {
    if m + |what| <= |s| {
      assert s[m..m + |what|][0] != what[0];
    }
  }

  /** Bytes that are not the first byte of `what` start no match. */
  lemma SkipTo(b: Evbuffer, what: seq<byte>, lo: nat, i: nat, at: nat)
    requires b.Valid() && what != [] && i < |b.chains| && at <= b.chains[i].off
    requires b.chains[i].misalign + b.chains[i].off <= b.chains[i].buffer.Length
    requires NoMatch(b.Contents(), what, lo, Offset(b.data, i) + at)
    ensures NoMatch(b.Contents(), what, lo, Offset(b.data, i) + IndexIn(b.chains[i], at, b.chains[i].off, what[0]))
  {
    var c, k := b.chains[i], IndexIn(b.chains[i], at, b.chains[i].off, what[0]);
    forall m | lo <= m < Offset(b.data, i) + k ensures !MatchAt(b.Contents(), what, m) {
      if Offset(b.data, i) + at <= m {
        ByteAt(b, i, m - Offset(b.data, i));
        FirstDiffers(b.Contents(), what, m);
      }
    }
  }

  /** The least match of `what` that lies wholly between `lo` and `hi`, or not found. */
  ghost predicate Located(s: seq<byte>, what: seq<byte>, lo: nat, hi: nat, pos: int) {
    if pos == -1 then
      forall m :: lo <= m && m + |what| <= hi ==> !MatchAt(s, what, m)
    else
      lo <= pos && pos + |what| <= hi && MatchAt(s, what, pos) && NoMatch(s, what, lo, pos)
  }

  /** Look for the next first byte in the chain of `p`, and compare there; step past it on a mismatch. */
  method Probe(b: Evbuffer, what: seq<byte>, p: Ptr, ghost i: nat, ghost lo: nat)
    returns (q: Ptr, seen: bool, hit: bool)
    requires b.Valid() && b.totalLen <= SIZE_MAX && what != []
    requires i < |b.chains| && b.At(p, i) && lo <= p.pos && NoMatch(b.Contents(), what, lo, p.pos)
    ensures b.At(q, i) && p.pos <= q.pos && (hit ==> seen) && (seen && !hit ==> p.pos < q.pos)
    ensures !seen ==> q.posInChain == |b.data[i]|
    ensures NoMatch(b.Contents(), what, lo, q.pos) && (hit ==> MatchAt(b.Contents(), what, q.pos))
  {
    InChain(b, i);
    SkipTo(b, what, lo, i, p.posInChain);
    var k := IndexIn(p.chain, p.posInChain, p.chain.off, what[0]);
    q, seen, hit := Ptr(p.pos + (k - p.posInChain), p.chain, k), k < p.chain.off, false;
    if seen {
      hit := PtrMemcmp(b, q, what, i);
      if !hit {
        q := Ptr(q.pos + 1, q.chain, k + 1);
      }
    }
  }

  /** What stopping early proves: beyond `pos`, matches end after `hi`. */
  lemma NothingLeft(s: seq<byte>, what: seq<byte>, lo: nat, hi: nat, pos: nat)
    requires NoMatch(s, what, lo, pos) && hi < pos + |what|
    ensures Located(s, what, lo, hi, -1)
  {
  }

  /** One round of the search; `end` bounds it, when there is one. */
  method SearchStep(b: Evbuffer, what: seq<byte>, p: Ptr, end: Option<Ptr>, ghost i: nat, ghost ei: nat,
                    ghost lo: nat, ghost hi: nat)
    returns (done: bool, r: Ptr, ghost j: nat)
    requires b.Valid() && b.totalLen <= SIZE_MAX && what != []
    requires i < |b.chains| && b.At(p, i) && lo <= p.pos && NoMatch(b.Contents(), what, lo, p.pos)
    requires if end.Some? then ei <= |b.chains| && b.At(end.value, ei) && hi == end.value.pos else hi == |b.Contents()|
    ensures j <= |b.chains| && (r != NOT_FOUND ==> b.At(r, j))
    ensures done ==> Located(b.Contents(), what, lo, hi, r.pos) && (r.pos == -1 ==> r == NOT_FOUND)
    ensures !done ==> r != NOT_FOUND && p.pos <= r.pos && NoMatch(b.Contents(), what, lo, r.pos)
    ensures !done ==> j == i + 1 || (j == i && p.pos < r.pos)
  {
    var seen, hit;
    r, seen, hit := Probe(b, what, p, i, lo);
    done, j := true, i;
    InChain(b, i);
    if hit {
      if end.Some? && r.pos + |what| > end.value.pos {
        NothingLeft(b.Contents(), what, lo, hi, r.pos);
        r := NOT_FOUND;
      }
    } else if !seen && end.Some? && r.chain == end.value.chain {
      ApartFrom(b.chains, i);
      NothingLeft(b.Contents(), what, lo, hi, r.pos);
      r := NOT_FOUND;
    } else {
      done := false;
      if r.posInChain == r.chain.off {
        OffsetEnd(b.data);
        r, j := Ptr(r.pos, r.chain.next, 0), i + 1;
      }
    }
  }

  /** The least match of `what` between `start` and `end`; an empty `what` is found at once. */
  method SearchRange(b: Evbuffer, what: seq<byte>, start: Option<Ptr>, end: Option<Ptr>, ghost si: nat, ghost ei: nat)
    returns (r: Ptr, ghost i: nat)
    requires b.Valid() && b.totalLen <= SIZE_MAX
    requires start.Some? ==> si <= |b.chains| && b.At(start.value, si)
    requires end.Some? ==> ei <= |b.chains| && b.At(end.value, ei)
    ensures var from := if start.Some? then start.value else Ptr(0, b.first, 0);
      if what == [] || SSIZE_MAX < |what| then r == from
      else
        && from.pos >= 0 && (end.Some? ==> end.value.pos >= 0)
        && Located(b.Contents(), what, from.pos, if end.Some? then end.value.pos else |b.Contents()|, r.pos)
        && (if r.pos == -1 then r == NOT_FOUND else i <= |b.chains| && b.At(r, i))
  {
    r, i := Ptr(0, b.first, 0), 0;
    if start.Some? {
      r, i := start.value, si;
    }
    b.AtBound(r, i);
    if end.Some? { b.AtBound(end.value, ei); }
    if what == [] || SSIZE_MAX < |what| {
      return;
    }
    ghost var lo, hi := r.pos, if end.Some? then end.value.pos else |b.Contents()|;
    while r.chain != null
      invariant i <= |b.chains| && b.At(r, i) && lo <= r.pos
      invariant NoMatch(b.Contents(), what, lo, r.pos)
      decreases |b.chains| - i, |b.Contents()| - r.pos
    {
      var done;
      done, r, i := SearchStep(b, what, r, end, i, ei, lo, hi);
      if done {
        return;
      }
      b.AtBound(r, i);
    }
    NothingLeft(b.Contents(), what, lo, hi, r.pos);
    r := NOT_FOUND;
  }

  function FindIn(chain: Chain, from: nat, stop: Stop): (k: nat)
    requires from <= chain.off && chain.misalign + chain.off <= chain.buffer.Length
    reads chain, chain.buffer
    ensures from <= k <= chain.off && (k < chain.off ==> IsStop(stop, chain.Byte(k)))
    ensures forall j :: from <= j < k ==> !IsStop(stop, chain.Byte(j))
  {
    if stop.Eol? then FindEolChar(chain, from) else IndexIn(chain, from, chain.off, stop.ch)
  }

  ghost predicate NoStop(s: seq<byte>, stop: Stop, lo: nat, hi: nat) {
    forall k :: lo <= k < hi && k < |s| ==> !IsStop(stop, s[k])
  }

  lemma ScanChain(b: Evbuffer, stop: Stop, lo: nat, i: nat, at: nat)
    requires b.Valid() && i < |b.chains| && at <= b.chains[i].off
    requires b.chains[i].misalign + b.chains[i].off <= b.chains[i].buffer.Length
    requires NoStop(b.Contents(), stop, lo, Offset(b.data, i) + at)
    ensures var k := FindIn(b.chains[i], at, stop);
      && NoStop(b.Contents(), stop, lo, Offset(b.data, i) + k)
      && (k < b.chains[i].off ==>
        Offset(b.data, i) + k < |b.Contents()| && IsStop(stop, b.Contents()[Offset(b.data, i) + k]))
  {
    var k := FindIn(b.chains[i], at, stop);
    forall m | lo <= m < Offset(b.data, i) + k && m < |b.Contents()| ensures !IsStop(stop, b.Contents()[m]) {
      if Offset(b.data, i) + at <= m {
        ByteAt(b, i, m - Offset(b.data, i));
      }
    }
    if k < b.chains[i].off {
      ByteAt(b, i, k);
    }
  }

  /** One chain of the scan: the stop byte in it, or the start of the next chain. */
  method ScanStep(b: Evbuffer, q: Ptr, stop: Stop, ghost lo: nat, ghost j: nat) returns (found: bool, q': Ptr)
    requires b.Valid() && j <= |b.chains| && b.At(q, j) && q.chain != null && lo <= q.pos
    requires NoStop(b.Contents(), stop, lo, q.pos)
    ensures j < |b.chains| && lo <= q'.pos && NoStop(b.Contents(), stop, lo, q'.pos)
    ensures found ==> b.At(q', j) && q'.posInChain < |b.data[j]|
    ensures found ==> q'.pos < |b.Contents()| && IsStop(stop, b.Contents()[q'.pos])
    ensures !found ==> b.At(q', j + 1)
  {
    OffsetEnd(b.data);
    InChain(b, j);
    ScanChain(b, stop, lo, j, q.posInChain);
    var k := FindIn(q.chain, q.posInChain, stop);
    if k < q.chain.off {
      return true, Ptr(q.pos + (k - q.posInChain), q.chain, k);
    }
    return false, Ptr(q.pos + (q.chain.off - q.posInChain), q.chain.next, 0);
  }

  /** `evbuffer_strchr` and `evbuffer_find_eol_char`: the first stop byte from `p` on. */
  method Scan(b: Evbuffer, p: Ptr, stop: Stop, ghost i: nat) returns (found: bool, q: Ptr, ghost j: nat)
    requires b.Valid() && i <= |b.chains| && b.At(p, i) && p.pos >= 0
    ensures found ==> j < |b.chains| && b.At(q, j) && q.posInChain < |b.data[j]|
    ensures found ==> p.pos <= q.pos < |b.Contents()| && IsStop(stop, b.Contents()[q.pos])
    ensures NoStop(b.Contents(), stop, p.pos, if found then q.pos else |b.Contents()|)
  {
    q, j := p, i;
    while q.chain != null
      invariant j <= |b.chains| && b.At(q, j) && p.pos <= q.pos
      invariant NoStop(b.Contents(), stop, p.pos, q.pos)
      decreases |b.chains| - j
    {
      found, q := ScanStep(b, q, stop, p.pos, j);
      if found { return; }
      j := j + 1;
    }
    found := false;
  }

  /** How far the bytes of `chain` from `at` on are all line ends. */
  function SpanIn(chain: Chain, at: nat): (k: nat)
    requires at <= chain.off && chain.misalign + chain.off <= chain.buffer.Length
    reads chain, chain.buffer
    ensures at <= k <= chain.off && (k < chain.off ==> !IsStop(Eol, chain.Byte(k)))
    ensures forall j :: at <= j < k ==> IsStop(Eol, chain.Byte(j))
    decreases chain.off - at
  {
    if at == chain.off || !IsStop(Eol, chain.Byte(at)) then at else SpanIn(chain, at + 1)
  }

  ghost predicate AllEol(s: seq<byte>, lo: nat, hi: nat) {
    hi <= |s| && forall k :: lo <= k < hi ==> IsStop(Eol, s[k])
  }

  lemma SpanChain(b: Evbuffer, lo: nat, i: nat, at: nat)
    requires b.Valid() && i < |b.chains| && at <= b.chains[i].off
    requires b.chains[i].misalign + b.chains[i].off <= b.chains[i].buffer.Length
    requires AllEol(b.Contents(), lo, Offset(b.data, i) + at)
    ensures var k := SpanIn(b.chains[i], at);
      && AllEol(b.Contents(), lo, Offset(b.data, i) + k)
      && (k < b.chains[i].off ==>
        Offset(b.data, i) + k < |b.Contents()| && !IsStop(Eol, b.Contents()[Offset(b.data, i) + k]))
  {
    InChain(b, i);
    var k := SpanIn(b.chains[i], at);
    forall m | lo <= m < Offset(b.data, i) + k ensures IsStop(Eol, b.Contents()[m]) {
      if Offset(b.data, i) + at <= m {
        ByteAt(b, i, m - Offset(b.data, i));
      }
    }
    if k < b.chains[i].off {
      ByteAt(b, i, k);
    }
  }

  /** One chain of the count: where the line ends stop in it, or the start of the next chain. */
  method SpanStep(b: Evbuffer, q: Ptr, ghost lo: nat, ghost j: nat) returns (stopped: bool, q': Ptr)
    requires b.Valid() && j <= |b.chains| && b.At(q, j) && q.chain != null && lo <= q.pos
    requires AllEol(b.Contents(), lo, q.pos)
    ensures j < |b.chains| && q.pos <= q'.pos && AllEol(b.Contents(), lo, q'.pos)
    ensures stopped ==> q'.pos < |b.Contents()| && !IsStop(Eol, b.Contents()[q'.pos])
    ensures !stopped ==> b.At(q', j + 1)
  {
    OffsetEnd(b.data);
    InChain(b, j);
    SpanChain(b, lo, j, q.posInChain);
    var k := SpanIn(q.chain, q.posInChain);
    stopped := k < q.chain.off;
    q' := Ptr(q.pos + (k - q.posInChain), q.chain.next, 0);
  }

  /** `evbuffer_strspn` with CR and LF: how many line-end bytes follow `p`. */
  method Span(b: Evbuffer, p: Ptr, ghost i: nat) returns (count: nat)
    requires b.Valid() && i <= |b.chains| && b.At(p, i) && p.pos >= 0
    ensures AllEol(b.Contents(), p.pos, p.pos + count)
    ensures p.pos + count < |b.Contents()| ==> !IsStop(Eol, b.Contents()[p.pos + count])
  {
    var q := p;
    ghost var j := i;
    b.AtBound(p, i);
    while q.chain != null
      invariant j <= |b.chains| && p.pos <= q.pos && b.At(q, j) && AllEol(b.Contents(), p.pos, q.pos)
      decreases |b.chains| - j
    {
      var stopped;
      stopped, q := SpanStep(b, q, p.pos, j);
      if stopped { return q.pos - p.pos; }
      j := j + 1;
    }
    count := q.pos - p.pos;
  }

  /** One position back, within the chain when possible. */
  method PtrSubtract(b: Evbuffer, pos: Ptr, howfar: nat, ghost i: nat) returns (r: int, p: Ptr, ghost j: nat)
    requires b.Valid() && (pos.pos >= 0 ==> i <= |b.chains| && b.At(pos, i))
    ensures r == if 0 <= howfar <= pos.pos then 0 else -1
    ensures r == 0 ==> p.pos == pos.pos - howfar && j <= |b.chains| && b.At(p, j)
    ensures r == 0 && 0 < howfar ==> j < |b.chains| && p.posInChain < |b.data[j]|
  {
    if pos.pos < 0 || pos.pos < howfar {
      return -1, pos, i;
    }
    b.AtBound(pos, i);
    if pos.chain != null && howfar <= pos.posInChain {
      return 0, Ptr(pos.pos - howfar, pos.chain, pos.posInChain - howfar), i;
    }
    r, p, j := PtrSet(b, pos, pos.pos - howfar, Set, 0);
  }

  datatype EolStyle = AnyEol | CrlfStrict | Crlf | LfOnly | NulOnly

  const CRLF: seq<byte> := [CR, LF]

  /** The first line end from `lo` on is the `n` bytes at `k`. */
  ghost predicate EolAt(style: EolStyle, s: seq<byte>, lo: nat, k: int, n: nat) {
    && lo <= k && k + n <= |s| && 0 < n
    && match style
       case AnyEol => NoStop(s, Eol, lo, k) && AllEol(s, k, k + n) && (k + n < |s| ==> !IsStop(Eol, s[k + n]))
       case CrlfStrict => n == 2 && MatchAt(s, CRLF, k) && NoMatch(s, CRLF, lo, k)
       case Crlf =>
         && s[k + n - 1] == LF && NoStop(s, One(LF), lo, k + n - 1)
         && n == (if lo < k + n - 1 && s[k + n - 2] == CR then 2 else 1)
       case LfOnly => n == 1 && s[k] == LF && NoStop(s, One(LF), lo, k)
       case NulOnly => n == 1 && s[k] == NUL && NoStop(s, One(NUL), lo, k)
  }

  ghost predicate NoEol(style: EolStyle, s: seq<byte>, lo: nat) {
    match style
    case AnyEol => NoStop(s, Eol, lo, |s|)
    case CrlfStrict => Located(s, CRLF, lo, |s|, -1)
    case Crlf => NoStop(s, One(LF), lo, |s|)
    case LfOnly => NoStop(s, One(LF), lo, |s|)
    case NulOnly => NoStop(s, One(NUL), lo, |s|)
  }

  /** After an LF at `it`, not at the start: take a CR before it into the line end. */
  method BackOverCr(b: Evbuffer, it: Ptr, ghost i: nat) returns (r: Ptr, n: nat, ghost j: nat)
    requires b.Valid() && i <= |b.chains| && b.At(it, i) && 0 < it.pos < |b.Contents()|
    ensures n == if b.Contents()[it.pos - 1] == CR then 2 else 1
    ensures j <= |b.chains| && b.At(r, j) && r.pos + n == it.pos + 1
  {
    r, n, j := it, 1, i;
    var ok, it2;
    ghost var k;
    ok, it2, k := PtrSubtract(b, it, 1, i);
    ByteUnder(b, it2, k);
    if it2.chain.Byte(it2.posInChain) == CR {
      r, n, j := it2, 2, k;
    }
  }

  lemma ByteUnder(b: Evbuffer, p: Ptr, i: nat)
    requires b.Valid() && i < |b.chains| && b.At(p, i) && p.posInChain < |b.data[i]|
    ensures p.chain.misalign + p.posInChain < p.chain.buffer.Length && 0 <= p.pos < |b.Contents()|
    ensures p.chain.Byte(p.posInChain) == b.Contents()[p.pos]
  {
    InChain(b, i);
    ByteAt(b, i, p.posInChain);
  }

  /** The byte that the search for a line end looks for. */
  function StopOf(style: EolStyle): Stop {
    match style
    case AnyEol => Eol
    case NulOnly => One(NUL)
    case _ => One(LF)
  }

  /** The same for the styles whose line ends are found by one byte. */
  method ScanEol(b: Evbuffer, start: Ptr, style: EolStyle, ghost i: nat) returns (it: Ptr, n: nat, ghost j: nat)
    requires b.Valid() && i <= |b.chains| && b.At(start, i) && 0 <= start.pos && !style.CrlfStrict?
    ensures it.pos == -1 ==> it == NOT_FOUND && NoEol(style, b.Contents(), start.pos)
    ensures it.pos != -1 ==> EolAt(style, b.Contents(), start.pos, it.pos, n) && j <= |b.chains| && b.At(it, j)
  {
    var found;
    n := 1;
    found, it, j := Scan(b, start, StopOf(style), i);
    if !found {
      it := NOT_FOUND;
    } else if style.AnyEol? {
      n := Span(b, it, j);
    } else if style.Crlf? && it.pos != start.pos {
      it, n, j := BackOverCr(b, it, j);
    }
  }

  /** The first line end from `start` on, and its length. */
  method SearchEol(b: Evbuffer, start: Ptr, style: EolStyle, ghost i: nat) returns (it: Ptr, n: nat, ghost j: nat)
    requires b.Valid() && b.totalLen <= SIZE_MAX && i <= |b.chains| && b.At(start, i) && 0 <= start.pos
    ensures it.pos == -1 ==> it == NOT_FOUND && NoEol(style, b.Contents(), start.pos)
    ensures it.pos != -1 ==> EolAt(style, b.Contents(), start.pos, it.pos, n) && j <= |b.chains| && b.At(it, j)
  {
    if style.CrlfStrict? {
      n := 2;
      it, j := SearchRange(b, CRLF, Some(start), None, i, 0);
    } else {
      it, n, j := ScanEol(b, start, style, i);
    }
  }

  /** Take one line off the front: the contents are the line, its end, and what is left. */
  method Readln(b: Evbuffer, style: EolStyle, mem: bool) returns (line: Option<seq<byte>>, ghost eol: seq<byte>)
    requires b.Valid() && b.totalLen <= SIZE_MAX
    modifies b, set x: Chain | x in b.chains
    ensures b.Valid()
    ensures line.None? ==> b.Contents() == old(b.Contents())
    ensures line.None? <==> b.freezeStart || !mem || NoEol(style, old(b.Contents()), 0)
    ensures line.Some? ==> old(b.Contents()) == line.value + eol + b.Contents()
    ensures line.Some? ==> EolAt(style, old(b.Contents()), 0, |line.value|, |eol|)
    ensures b.freezeStart == old(b.freezeStart) && b.freezeEnd == old(b.freezeEnd)
  {
    eol := [];
    if b.freezeStart {
      return None, eol;
    }
    var it, n;
    ghost var i;
    it, n, i := SearchEol(b, Ptr(0, b.first, 0), style, 0);
    if it.pos < 0 {
      return None, eol;
    }
    ghost var s := b.Contents();
    EolExcludes(style, s, 0, it.pos, n);
    if !mem {
      return None, eol;
    }
    var taken;
    taken, eol := TakeLine(b, it.pos, n);
    return Some(taken), eol;
  }

  /** Remove `k` bytes, then drop `n` more. */
  method TakeLine(b: Evbuffer, k: nat, n: nat) returns (line: seq<byte>, ghost eol: seq<byte>)
    requires b.Valid() && !b.freezeStart && k + n <= |b.Contents()|
    modifies b, set x: Chain | x in b.chains
    ensures b.Valid() && b.freezeStart == old(b.freezeStart) && b.freezeEnd == old(b.freezeEnd)
    ensures old(b.Contents()) == line + eol + b.Contents() && |line| == k && |eol| == n
  {
    ghost var s := b.Contents();
    var _, taken := b.Remove(k);
    ghost var rest := b.Contents();
    assert rest == rest[..n] + rest[n..];
    assert s == taken + rest[..n] + rest[n..];
    line, eol := taken, rest[..n];
    var _ := b.Drain(n);
  }

  lemma EolExcludes(style: EolStyle, s: seq<byte>, lo: nat, k: nat, n: nat)
    requires EolAt(style, s, lo, k, n)
    ensures !NoEol(style, s, lo)
  {
    match style
    case AnyEol => assert IsStop(Eol, s[k]);
    case CrlfStrict => assert MatchAt(s, CRLF, k);
    case Crlf => assert IsStop(One(LF), s[k + n - 1]);
    case LfOnly => assert IsStop(One(LF), s[k]);
    case NulOnly => assert IsStop(One(NUL), s[k]);
  }
}
