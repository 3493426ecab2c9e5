/** The encoders and decoders of `event_tagging.c` as they fill byte arrays and drain buffers. */
module TagStreams {
  import opened Octets
  import opened Tagging
  import opened Options
  import opened Powers
  import opened Widths

  /** A byte with its low half replaced. */
  function SetLow(b: byte, d: nat): (r: byte)
    requires d < 16
    ensures r as int % 16 == d && r as int / 16 == b as int / 16
  {
    b as int / 16 * 16 + d
  }

  /** A byte with its high half replaced. */
  function SetHigh(b: byte, d: nat): (r: byte)
    requires d < 16
    ensures r as int / 16 == d && r as int % 16 == b as int % 16
  {
    16 * d + b as int % 16
  }

  function SetNib(b: byte, low: bool, d: nat): (r: byte)
    requires d < 16
    ensures Half(r, low) == d && Half(r, !low) == Half(b, !low)
  {
    if low then SetLow(b, d) else SetHigh(b, d)
  }

  function Half(b: byte, low: bool): (d: nat)
    ensures d < 16
  {
    if low then b as int % 16 else b as int / 16
  }

  /** Nibble `j` of the array from `at` on. */
  function NibAt(data: array<byte>, at: nat, j: nat): nat
    requires at + j / 2 < data.Length
    reads data
  {
    Half(data[at + j / 2], j % 2 == 1)
  }

  /** Nibble `j` of what is to be written. */
  function Want(ns: seq<nat>, j: nat): nat {
    if j < |ns| then ns[j] else 0
  }

  lemma {:induction false} PackWant(ns: seq<nat>, j: nat)
    requires AllNibbles(ns) && j / 2 < |Pack(ns)|
    ensures Nib(Pack(ns), j) == Want(ns, j)
  {
    if |ns| > 1 && j >= 2 {
      PackWant(ns[2..], j - 2);
      assert Pack(ns)[1..] == Pack(ns[2..]);
      assert Pack(ns)[j / 2] == Pack(ns)[1..][(j - 2) / 2];
    }
  }

  /** Bytes with the right nibbles are the right bytes. */
  lemma SameByte(a: byte, b: byte)
    requires Half(a, true) == Half(b, true) && Half(a, false) == Half(b, false)
    ensures a == b
  {
    assert a == a as int / 16 * 16 + a as int % 16;
    assert b == b as int / 16 * 16 + b as int % 16;
  }

  lemma Written(data: array<byte>, at: nat, ns: seq<nat>)
    requires AllNibbles(ns) && at + |Pack(ns)| <= data.Length
    requires forall j {:trigger NibAt(data, at, j)} :: 0 <= j < 2 * |Pack(ns)| ==> NibAt(data, at, j) == Want(ns, j)
    ensures forall i :: 0 <= i < |Pack(ns)| ==> data[at + i] == Pack(ns)[i]
  {
    forall i | 0 <= i < |Pack(ns)| ensures data[at + i] == Pack(ns)[i] {
      PackWant(ns, 2 * i);
      PackWant(ns, 2 * i + 1);
      assert NibAt(data, at, 2 * i) == Want(ns, 2 * i) && NibAt(data, at, 2 * i + 1) == Want(ns, 2 * i + 1);
      SameByte(data[at + i], Pack(ns)[i]);
    }
  }

  /** `memset` to zero. */
  method Zero(data: array<byte>, at: nat, n: nat)
    requires at + n <= data.Length
    modifies data
    ensures forall i :: at <= i < at + n ==> data[i] == 0
    ensures forall i :: 0 <= i < data.Length && !(at <= i < at + n) ==> data[i] == old(data[i])
  {
    forall i | at <= i < at + n { data[i] := 0; }
  }

  method PutNib(data: array<byte>, at: nat, j: nat, d: nat)
    requires at + j / 2 < data.Length && d < 16
    modifies data
    ensures NibAt(data, at, j) == d
    ensures forall k {:trigger NibAt(data, at, k)} :: 0 <= k && at + k / 2 < data.Length && k != j ==>
      NibAt(data, at, k) == old(NibAt(data, at, k))
    ensures forall i :: 0 <= i < data.Length && i != at + j / 2 ==> data[i] == old(data[i])
  {
    data[at + j / 2] := SetNib(data[at + j / 2], j % 2 == 1, d);
  }

  lemma NibblesStep(n: nat, k: nat, number: nat)
    requires k <= |Nibbles(n)| && Nibbles(number) == Nibbles(n)[k..] && number > 0
    ensures k < |Nibbles(n)| && Nibbles(n)[k] == number % 16 && Nibbles(number / 16) == Nibbles(n)[k + 1..]
  {
    assert Nibbles(number)[0] == number % 16 && Nibbles(number)[1..] == Nibbles(number / 16);
    assert Nibbles(n)[k..][1..] == Nibbles(n)[k + 1..];
  }

  /** The nibbles from 1 to `off` are written, and none after them. */
  ghost predicate Filled(data: array<byte>, at: nat, ns: seq<nat>, off: nat, width: nat)
    requires at + width + 1 <= data.Length
    reads data
  {
    forall j {:trigger NibAt(data, at, j)} :: 1 <= j < 2 * width + 2 ==>
      NibAt(data, at, j) == if j < off then Want(ns, j) else 0
  }

  /** The loop of `ENCODE_INT_INTERNAL`: nibbles from the low end on, after room for their count. */
  method PutDigits(data: array<byte>, at: nat, n: nat, width: nat) returns (off: nat)
    requires width <= 8 && n < Pow16(2 * width) && at + width + 1 <= data.Length
    requires Filled(data, at, Counted(n), 1, width)
    modifies data
    ensures off == |Nibbles(n)| + 1 && Filled(data, at, Counted(n), off, width)
    ensures forall i :: 0 <= i < data.Length && !(at <= i < at + width + 1) ==> data[i] == old(data[i])
  {
    var number := n;
    off := 1;
    NibblesCount(n, 2 * width);
    NibblesBack(n);
    assert Nibbles(n)[0..] == Nibbles(n);
    while number != 0
      invariant 1 <= off <= |Nibbles(n)| + 1 && Nibbles(number) == Nibbles(n)[off - 1..]
      invariant Filled(data, at, Counted(n), off, width)
      invariant forall i :: 0 <= i < data.Length && !(at <= i < at + width + 1) ==> data[i] == old(data[i])
      decreases number
    {
      NibblesStep(n, off - 1, number);
      assert Counted(n)[off] == number % 16;
      PutNib(data, at, off, number % 16);
      number := number / 16;
      off := off + 1;
    }
  }

  /** `ENCODE_INT_INTERNAL` for a number of `width` bytes, written from `at` on. */
  method EncodeInt(data: array<byte>, at: nat, n: nat, width: nat) returns (len: nat)
    requires width <= 8 && n < Pow16(2 * width) && n < UINT64 && at + width + 1 <= data.Length
    modifies data
    ensures len == |IntBytes(n)| <= width + 1 && forall i :: 0 <= i < len ==> data[at + i] == IntBytes(n)[i]
    ensures forall i :: 0 <= i < at ==> data[i] == old(data[i])
  {
    NibblesCount(n, 2 * width);
    Zero(data, at, width + 1);
    var off := PutDigits(data, at, n, width);
    var nibbles := 0;
    if off > 2 { nibbles := off - 2; }
    PutNib(data, at, 0, nibbles);
    CountedNibbles(n, 2 * width);
    Written(data, at, Counted(n));
    return (off + 1) / 2;
  }

  /** `evtag_encode_tag`: the groups of a tag, and how many there are. */
  method EncodeTag(tag: nat) returns (data: array<byte>, bytes: nat)
    requires tag < UINT32
    ensures fresh(data) && bytes == |TagBytes(tag)| <= data.Length == 5
    ensures forall i :: 0 <= i < bytes ==> data[i] == TagBytes(tag)[i]
  {
    data := new byte[5](_ => 0);
    bytes := 0;
    var t := tag;
    TagBound(tag, 0);
    while true
      invariant 0 <= bytes <= 4 && bytes + |TagBytes(t)| == |TagBytes(tag)| <= 5
      invariant TagBytes(tag)[bytes..] == TagBytes(t)
      invariant forall i :: 0 <= i < bytes ==> data[i] == TagBytes(tag)[i]
      decreases t
    {
      var lower: nat := t % 128;
      ghost var was := t;
      t := t / 128;
      if t != 0 { lower := lower + 128; }
      assert TagBytes(tag)[bytes] == TagBytes(was)[0] == lower;
      data[bytes] := lower;
      bytes := bytes + 1;
      if t == 0 {
        break;
      }
      assert TagBytes(was)[1..] == TagBytes(t);
      assert TagBytes(tag)[bytes - 1..][1..] == TagBytes(tag)[bytes..];
    }
  }

  lemma {:induction false} TagBound(tag: nat, i: nat)
    requires i <= 4 && tag < 16 * Groups(4 - i)
    ensures |TagBytes(tag)| <= 5 - i
    decreases 4 - i
  {
    if tag >= 128 { TagBound(tag / 128, i + 1); }
  }

  function Groups(k: nat): nat {
    if k == 0 then 1 else 128 * Groups(k - 1)
  }

  /** `x << 7 * i`. */
  function Shift(x: nat, i: nat): nat {
    if i == 0 then x else 128 * Shift(x, i - 1)
  }

  lemma {:induction false} ShiftSum(low: nat, n: nat, i: nat)
    ensures Shift(low + 128 * n, i) == Shift(low, i) + Shift(n, i + 1)
  {
    if i > 0 { ShiftSum(low, n, i - 1); }
  }

  /** A tag whose first `i` groups came to `number`, given what the rest comes to. */
  ghost function Shifted(number: nat, i: nat, rest: Option<Read>): Option<Read> {
    if rest.None? then None else Some(Read(number + Shift(rest.value.number, i), i + rest.value.length))
  }

  lemma ShiftStep(data: seq<byte>, number: nat, i: nat)
    requires data != [] && data[0] >= 128 && i <= 4 && (i < 4 || data[0] % 128 <= 15)
    ensures Shifted(number, i, ReadTagAt(data, i)) ==
            Shifted(number + Shift(data[0] % 128, i), i + 1, ReadTagAt(data[1..], i + 1))
  {
    var rest := ReadTagAt(data[1..], i + 1);
    if rest.Some? { ShiftSum(data[0] % 128, rest.value.number, i); }
  }

  /** The loop of `decode_tag_internal`. */
  method DecodeTag(data: seq<byte>) returns (r: Option<Read>)
    ensures r == ReadTag(data)
  {
    var number: nat, count: nat, shift := 0, 0, 0;
    ghost var all := ReadTag(data);
    assert data[0..] == data && Shifted(0, 0, all) == all;
    while count < |data|
      invariant count <= |data| && shift == 7 * count
      invariant all == Shifted(number, count, ReadTagAt(data[count..], count))
    {
      var lower := data[count];
      ghost var rest := data[count..];
      assert rest[0] == lower && rest[1..] == data[count + 1..];
      if shift >= 28 {
        if shift > 28 { return None; }
        if lower % 128 > 15 { return None; }
      }
      if lower >= 128 { ShiftStep(rest, number, count); }
      number := number + Shift(lower % 128, count);
      shift, count := shift + 7, count + 1;
      if lower < 128 { return Some(Read(number, count)); }
    }
    return None;
  }

  /** `DECODE_INT_INTERNAL`: a number of at most `max` nibbles, `offset` bytes into the data. */
  method DecodeInt(data: seq<byte>, offset: nat, max: nat) returns (r: Option<Read>)
    requires offset <= |data|
    ensures r == ReadInt(data[offset..], max)
  {
    var len := |data| - offset;
    if len <= 0 { return None; }
    ghost var d := data[offset..];
    var nibbles: nat := data[offset] as int / 16 + 1;
    assert d[0] == data[offset];
    if nibbles > max || nibbles / 2 + 1 > len { return None; }
    len := nibbles / 2 + 1;
    var number := 0;
    ghost var m := nibbles;
    while nibbles > 0
      invariant nibbles <= m && number == Number(d, nibbles + 1, m)
    {
      assert d[nibbles / 2] == data[offset + nibbles / 2];
      if nibbles % 2 == 1 {
        number := number * 16 + data[offset + nibbles / 2] as int % 16;
      } else {
        number := number * 16 + data[offset + nibbles / 2] as int / 16;
      }
      nibbles := nibbles - 1;
    }
    return Some(Read(number, len));
  }

  /** An evbuffer, as far as these functions use it: bytes added at the end and drained from the front. */
  class Buffer {
    var data: seq<byte>

    method Drain(n: nat)
      requires n <= |data|
      modifies this
      ensures data == old(data)[n..]
    {
      data := data[n..];
    }

    method AddArray(a: array<byte>, n: nat, ghost bytes: seq<byte>)
      requires n <= a.Length && n == |bytes| && forall i :: 0 <= i < n ==> a[i] == bytes[i]
      modifies this
      ensures data == old(data) + bytes
    {
      assert a[..n] == bytes;
      data := data + a[..n];
    }

    method AddTag(tag: nat)
      requires tag < UINT32
      modifies this
      ensures data == old(data) + TagBytes(tag)
    {
      var a, n := EncodeTag(tag);
      AddArray(a, n, TagBytes(tag));
    }

    /** `evtag_encode_int` and `evtag_encode_int64`. */
    method AddInt(n: nat, width: nat)
      requires 4 <= width <= 8 && n < Pow16(2 * width) && n < UINT64
      modifies this
      ensures data == old(data) + IntBytes(n)
    {
      var a := new byte[9](_ => 0);
      var len := EncodeInt(a, 0, n, width);
      AddArray(a, len, IntBytes(n));
    }

    /** `evtag_marshal`; a string is marshalled the same way. */
    method Marshal(tag: nat, payload: seq<byte>)
      requires tag < UINT32 && |payload| < UINT32
      modifies this
      ensures data == old(data) + Record(tag, payload)
    {
      Pow16Is();
      ghost var before := data;
      AddTag(tag);
      AddInt(|payload|, 4);
      data := data + payload;
      RecordAfter(before, tag, payload);
    }

    static lemma RecordAfter(before: seq<byte>, tag: nat, payload: seq<byte>)
      requires tag < UINT32 && |payload| < UINT32
      ensures before + TagBytes(tag) + IntBytes(|payload|) + payload == before + Record(tag, payload)
    {
      var t, n := TagBytes(tag), IntBytes(|payload|);
      assert before + t + n + payload == before + (t + n + payload);
    }

    /** `evtag_marshal_int` and `evtag_marshal_int64`. */
    method MarshalInt(tag: nat, n: nat, width: nat)
      requires tag < UINT32 && 4 <= width <= 8 && n < Pow16(2 * width) && n < UINT64
      modifies this
      ensures |IntBytes(n)| < UINT32 && data == old(data) + Record(tag, IntBytes(n))
    {
      SmallInt(n);
      var a := new byte[9](_ => 0);
      var len := EncodeInt(a, 0, n, width);
      assert a[..len] == IntBytes(n);
      Marshal(tag, a[..len]);
    }

    /** `evtag_marshal_timeval`: only the low 32 bits of each field are sent. */
    method MarshalTimeval(tag: nat, sec: int, usec: int)
      requires tag < UINT32
      modifies this
      ensures var tv := Timeval(sec % UINT32, usec % UINT32);
        |TimevalBytes(tv)| < UINT32 && data == old(data) + Record(tag, TimevalBytes(tv))
    {
      Pow16Is();
      var s: nat, u: nat := sec % UINT32, usec % UINT32;
      var a := new byte[10](_ => 0);
      var len := EncodeInt(a, 0, s, 4);
      ghost var first := a[..len];
      assert first == IntBytes(s);
      var more := EncodeInt(a, len, u, 4);
      assert a[..len] == first && a[len..len + more] == IntBytes(u);
      assert a[..len + more] == a[..len] + a[len..len + more];
      Marshal(tag, a[..len + more]);
    }

    /** `evtag_payload_length` and, with the header, `evtag_peek_length`, which is a 32-bit sum. */
    method PeekLength() returns (payload: Option<nat>, record: Option<nat>)
      ensures ReadHeader(data).None? ==> payload == None && record == None
      ensures ReadHeader(data).Some? ==>
        var h := ReadHeader(data).value; payload == Some(h.payload) && record == Some((h.payload + h.length) % UINT32)
    {
      var tag := DecodeTag(data);
      if tag.None? { return None, None; }
      var n := DecodeInt(data, tag.value.length, 8);
      if n.None? { return None, None; }
      return Some(n.value.number), Some((n.value.number + n.value.length + tag.value.length) % UINT32);
    }

    /** `evbuffer_drain` of a length that may be negative. */
    method DrainSigned(n: int)
      requires n <= |data|
      modifies this
      ensures data == DrainInt(old(data), n)
    {
      data := if n < 0 then [] else data[n..];
    }

    /** The tag at the front goes; the same for the number at the front. */
    method TakeTag() returns (r: Option<nat>)
      modifies this
      ensures match ReadTag(old(data))
        case None => r == None && data == old(data)
        case Some(t) => r == Some(t.number) && data == old(data)[t.length..]
    {
      var t := DecodeTag(data);
      if t.None? { return None; }
      Drain(t.value.length);
      return Some(t.value.number);
    }

    /** `evtag_decode_int`. */
    method TakeLength() returns (r: Option<nat>)
      modifies this
      ensures match ReadInt(old(data), 8)
        case None => r == None && data == old(data)
        case Some(n) => r == Some(n.number) && data == old(data)[n.length..]
    {
      assert data[0..] == data;
      var n := DecodeInt(data, 0, 8);
      if n.None? { return None; }
      Drain(n.value.length);
      return Some(n.value.number);
    }

    /** `evtag_unmarshal_header`. */
    method UnmarshalHeader() returns (r: Option<Head>)
      modifies this
      ensures Taken(r, data) == TakeHeader(old(data))
    {
      var tag := TakeTag();
      if tag.None? { return None; }
      ghost var mid := data;
      var n := TakeLength();
      if n.None? { return None; }
      LengthFits(mid);
      if |data| < n.value || AsInt(n.value) == -1 { return None; }
      return Some(Head(tag.value, AsInt(n.value)));
    }

    /** `evtag_consume`. */
    method Consume() returns (ok: bool)
      modifies this
      ensures (ok, data) == Consumed(old(data))
    {
      var h := UnmarshalHeader();
      if h.None? { return false; }
      DrainSigned(h.value.payload);
      return true;
    }

    /** `evtag_unmarshal`: the payload goes to the end of another buffer. */
    method Unmarshal(dst: Buffer) returns (r: Option<nat>)
      requires dst != this
      modifies this, dst
      ensures data == TakeRecord(old(data)).rest
      ensures TakeRecord(old(data)).value.None? ==> r == None && dst.data == old(dst.data)
      ensures TakeRecord(old(data)).value.Some? ==>
        var rec := TakeRecord(old(data)).value.value; r == Some(rec.tag) && dst.data == old(dst.data) + rec.payload
    {
      var h := UnmarshalHeader();
      if h.None? || h.value.payload < 0 { return None; }
      dst.data := dst.data + data[..h.value.payload];
      Drain(h.value.payload);
      return Some(h.value.tag);
    }

    /** `evtag_unmarshal_int` with `max` 8 and `evtag_unmarshal_int64` with `max` 16. */
    method UnmarshalInt(need: nat, max: nat) returns (r: Option<Read>)
      modifies this
      ensures Taken(r, data) == TakeInt(old(data), need, max)
    {
      var tag := TakeTag();
      if tag.None? || tag.value != need { return None; }
      var len := TakeLength();
      if len.None? { return None; }
      r := UnmarshalNumber(len.value, max);
    }

    method UnmarshalNumber(len: nat, max: nat) returns (r: Option<Read>)
      modifies this
      ensures Taken(r, data) == NumberIn(old(data), len, max)
    {
      if |data| < len { return None; }
      assert data[0..] == data;
      r := DecodeInt(data, 0, max);
      Drain(len);
      if r.None? || r.value.length > len { return None; }
    }

    /** `evtag_unmarshal_fixed`. A record of another length is left behind its header. */
    method UnmarshalFixed(need: nat, len: nat) returns (r: Option<seq<byte>>)
      modifies this
      ensures Taken(r, data) == TakeWanted(old(data), need, Some(len))
    {
      var h := UnmarshalHeader();
      if h.None? || h.value.tag != need || h.value.payload != len { return None; }
      r := Some(data[..len]);
      Drain(len);
    }

    /** `evtag_unmarshal_string`; no memory can be had for a negative length. */
    method UnmarshalString(need: nat) returns (r: Option<seq<byte>>)
      modifies this
      ensures Taken(r, data) == TakeWanted(old(data), need, None)
    {
      var h := UnmarshalHeader();
      if h.None? || h.value.tag != need || h.value.payload < 0 { return None; }
      r := Some(data[..h.value.payload]);
      Drain(h.value.payload);
    }

    /** `evtag_unmarshal_timeval`. */
    method UnmarshalTimeval(need: nat) returns (r: Option<Timeval>)
      modifies this
      ensures Taken(r, data) == TakeTimeval(old(data), need)
    {
      var h := UnmarshalHeader();
      if h.None? { return None; }
      r := None;
      if h.value.tag == need {
        assert data[0..] == data;
        var sec := DecodeInt(data, 0, 8);
        if sec.Some? {
          var usec := DecodeInt(data, sec.value.length, 8);
          if usec.Some? && sec.value.length + usec.value.length <= h.value.payload {
            r := Some(Timeval(sec.value.number, usec.value.number));
          }
        }
      }
      DrainSigned(h.value.payload);
    }
  }

  /** `evtag_peek_length` gives the size of a record, as long as that has 32 bits. */
  lemma PeekLengthIs(tag: nat, payload: seq<byte>, suffix: seq<byte>)
    requires tag < UINT32 && |payload| < UINT32
    ensures var data := Record(tag, payload) + suffix;
      && ReadHeader(data).Some?
      && (var h := ReadHeader(data).value;
          (h.payload + h.length) % UINT32 == |Record(tag, payload)| <==> |Record(tag, payload)| < UINT32)
  {
    HeaderRoundTrip(tag, payload, suffix);
    var n := |Record(tag, payload)|;
    if n < UINT32 { assert n % UINT32 == n; }
  }
}
