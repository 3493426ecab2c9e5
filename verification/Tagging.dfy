/** The tagged wire format of `event_tagging.c`: tags in groups of seven bits, integers in nibbles. */
module Tagging {
  import opened Octets
  import opened Options
  import opened Powers
  import opened Widths

  /** A number read and the bytes it took. */
  datatype Read = Read(number: nat, length: nat)

  // Tags.

  /** Groups of seven bits, low end first, with the high bit on all but the last. */
  function TagBytes(tag: nat): (b: seq<byte>)
    ensures |b| > 0
  {
    if tag < 128 then [tag] else [128 + tag % 128] + TagBytes(tag / 128)
  }

  /** The tag whose group `i` starts `data`; five groups at most, and no more than 32 bits. */
  function ReadTagAt(data: seq<byte>, i: nat): (r: Option<Read>)
    ensures r.Some? ==> 0 < r.value.length <= |data|
    decreases |data|
  {
    if data == [] || i > 4 || (i == 4 && data[0] % 128 > 15) then None
    else if data[0] < 128 then Some(Read(data[0], 1))
    else
      match ReadTagAt(data[1..], i + 1)
      case None => None
      case Some(Read(n, k)) => Some(Read(data[0] % 128 + 128 * n, k + 1))
  }

  function ReadTag(data: seq<byte>): (r: Option<Read>)
    ensures r.Some? ==> 0 < r.value.length <= |data|
  {
    ReadTagAt(data, 0)
  }

  /** How large a tag can be when `i` groups of it have been read. */
  function TagRoom(i: nat): nat
    requires i <= 4
    decreases 4 - i
  {
    if i == 4 then 16 else 128 * TagRoom(i + 1)
  }

  lemma {:induction false} TagBack(tag: nat, i: nat, suffix: seq<byte>)
    requires i <= 4 && tag < TagRoom(i)
    ensures ReadTagAt(TagBytes(tag) + suffix, i) == Some(Read(tag, |TagBytes(tag)|))
    decreases tag
  {
    var data := TagBytes(tag) + suffix;
    if tag >= 128 {
      assert i < 4;
      assert tag / 128 < TagRoom(i + 1);
      TagBack(tag / 128, i + 1, suffix);
      assert data[0] == 128 + tag % 128 && data[1..] == TagBytes(tag / 128) + suffix;
    } else {
      assert data[0] == tag;
    }
  }

  /** Every 32-bit tag comes back, whatever follows it. */
  lemma TagRoundTrip(tag: nat, suffix: seq<byte>)
    requires tag < UINT32
    ensures ReadTag(TagBytes(tag) + suffix) == Some(Read(tag, |TagBytes(tag)|))
  {
    assert TagRoom(3) == 128 * 16;
    assert TagRoom(2) == 128 * 128 * 16;
    assert TagRoom(1) == 128 * 128 * 128 * 16;
    TagBack(tag, 0, suffix);
  }

  // Integers.

  /** The nibbles of a number, low end first. */
  function Nibbles(n: nat): seq<nat> {
    if n == 0 then [] else [n % 16] + Nibbles(n / 16)
  }

  ghost predicate AllNibbles(ns: seq<nat>) {
    forall i :: 0 <= i < |ns| ==> ns[i] < 16
  }

  function ValueOf(ns: seq<nat>): nat {
    if ns == [] then 0 else ns[0] + 16 * ValueOf(ns[1..])
  }

  lemma {:induction false} NibblesBack(n: nat)
    ensures ValueOf(Nibbles(n)) == n && AllNibbles(Nibbles(n))
  {
    if n > 0 {
      NibblesBack(n / 16);
      assert Nibbles(n)[1..] == Nibbles(n / 16);
    }
  }

  lemma {:induction false} NibblesCount(n: nat, k: nat)
    requires n < Pow16(k)
    ensures |Nibbles(n)| <= k
  {
    if n > 0 {
      assert k > 0 && n / 16 < Pow16(k - 1);
      NibblesCount(n / 16, k - 1);
    }
  }

  /** Nibble `j` of some bytes, the high half of a byte before the low one. */
  function Nib(data: seq<byte>, j: nat): (d: nat)
    requires j / 2 < |data|
    ensures d < 16
  {
    if j % 2 == 1 then data[j / 2] as int % 16 else data[j / 2] as int / 16
  }

  /** The number in nibbles `j` to `m`, low end first. */
  function Number(data: seq<byte>, j: nat, m: nat): nat
    requires m / 2 < |data|
    decreases m + 1 - j
  {
    if j > m then 0 else Nib(data, j) + 16 * Number(data, j + 1, m)
  }

  /** Two nibbles to a byte; an odd one at the end gets a zero. */
  function Pack(ns: seq<nat>): (b: seq<byte>)
    requires forall i :: 0 <= i < |ns| ==> ns[i] < 16
    ensures |b| == (|ns| + 1) / 2
  {
    if ns == [] then [] else if |ns| == 1 then [16 * ns[0]] else [16 * ns[0] + ns[1]] + Pack(ns[2..])
  }

  lemma {:induction false} PackNib(ns: seq<nat>, suffix: seq<byte>, j: nat)
    requires AllNibbles(ns) && j < |ns|
    ensures Nib(Pack(ns) + suffix, j) == ns[j]
  {
    var data := Pack(ns) + suffix;
    if j < 2 {
      assert data[0] == Pack(ns)[0];
    } else {
      PackNib(ns[2..], suffix, j - 2);
      assert data[1..] == Pack(ns[2..]) + suffix;
      assert data[j / 2] == data[1..][(j - 2) / 2];
    }
  }

  lemma {:induction false} PackNumber(ns: seq<nat>, data: seq<byte>, j: nat)
    requires AllNibbles(ns) && 0 < j <= |ns| && (|ns| - 1) / 2 < |data|
    requires forall i {:trigger Nib(data, i)} :: 0 <= i < |ns| ==> Nib(data, i) == ns[i]
    ensures Number(data, j, |ns| - 1) == ValueOf(ns[j..])
    decreases |ns| - j
  {
    if j < |ns| {
      PackNumber(ns, data, j + 1);
      assert ns[j..][1..] == ns[j + 1..];
    }
  }

  /** A number as nibbles, after one that says how many there are, less one. */
  function Counted(n: nat): (ns: seq<nat>)
    ensures |ns| == |Nibbles(n)| + 1
  {
    var k := |Nibbles(n)|;
    [if k == 0 then 0 else k - 1] + Nibbles(n)
  }

  lemma CountedNibbles(n: nat, max: nat)
    requires n < Pow16(max) && max <= 16
    ensures AllNibbles(Counted(n)) && |Counted(n)| <= max + 1
  {
    NibblesBack(n);
    NibblesCount(n, max);
  }

  function IntBytes(n: nat): (b: seq<byte>)
    requires n < UINT64
    ensures |b| == |Nibbles(n)| / 2 + 1
  {
    Pow16Is();
    CountedNibbles(n, 16);
    Pack(Counted(n))
  }

  lemma Pow16Is()
    ensures Pow16(8) == UINT32 && Pow16(16) == UINT64
  {
    assert Pow16(4) == 0x1_0000;
    assert Pow16(12) == 0x1_0000_0000_0000 by { assert Pow16(8) == UINT32; }
  }

  /** `DECODE_INT_INTERNAL`: a number of at most `max` nibbles. */
  function ReadInt(data: seq<byte>, max: nat): (r: Option<Read>)
    ensures r.Some? ==> 0 < r.value.length <= |data|
  {
    if data == [] then None
    else
      var m := data[0] as int / 16 + 1;
      if m > max || m / 2 + 1 > |data| then None else Some(Read(Number(data, 1, m), m / 2 + 1))
  }

  /** Every number comes back, whatever follows it. */
  lemma IntRoundTrip(n: nat, max: nat, suffix: seq<byte>)
    requires 0 < max <= 16 && n < Pow16(max) && n < UINT64
    ensures ReadInt(IntBytes(n) + suffix, max) == Some(Read(n, |IntBytes(n)|))
  {
    var ns, data := Counted(n), IntBytes(n) + suffix;
    CountedNibbles(n, max);
    forall i | 0 <= i < |ns| ensures Nib(data, i) == ns[i] { PackNib(ns, suffix, i); }
    assert data[0] as int / 16 == Nib(data, 0) == ns[0];
    if n == 0 {
      assert data[0] == 0;
    } else {
      PackNumber(ns, data, 1);
      NibblesBack(n);
      assert ns[1..] == Nibbles(n);
    }
  }

  // Records.

  /** What `evtag_marshal` appends. */
  function Record(tag: nat, payload: seq<byte>): (b: seq<byte>)
    requires |payload| < UINT32
  {
    TagBytes(tag) + IntBytes(|payload|) + payload
  }

  /** A header that is looked at: the tag, the length of the payload and the length of the header itself. */
  datatype Header = Header(tag: nat, payload: nat, length: nat)

  function ReadHeader(data: seq<byte>): (r: Option<Header>)
    ensures r.Some? ==> 0 < r.value.length <= |data|
  {
    match ReadTag(data)
    case None => None
    case Some(Read(tag, k)) =>
      match ReadInt(data[k..], 8)
      case None => None
      case Some(Read(n, j)) => Some(Header(tag, n, k + j))
  }

  lemma Parts(a: seq<byte>, b: seq<byte>, c: seq<byte>, d: seq<byte>)
    ensures a + b + c + d == a + (b + c + d) && b + c + d == b + (c + d)
    ensures (a + (b + c + d))[|a|..] == b + (c + d) && (a + b + c + d)[|a| + |b|..] == c + d
  {
  }

  lemma TagOfRecord(tag: nat, payload: seq<byte>, suffix: seq<byte>)
    requires tag < UINT32 && |payload| < UINT32
    ensures var data := Record(tag, payload) + suffix;
      ReadTag(data) == Some(Read(tag, |TagBytes(tag)|)) && |TagBytes(tag)| <= |data|
  {
    var t, n := TagBytes(tag), IntBytes(|payload|);
    Parts(t, n, payload, suffix);
    TagRoundTrip(tag, n + payload + suffix);
  }

  lemma LengthOfRecord(tag: nat, payload: seq<byte>, suffix: seq<byte>)
    requires |payload| < UINT32
    ensures var data := Record(tag, payload) + suffix;
      && ReadInt(data[|TagBytes(tag)|..], 8) == Some(Read(|payload|, |IntBytes(|payload|)|))
      && data[|TagBytes(tag)| + |IntBytes(|payload|)|..] == payload + suffix
  {
    var t, n := TagBytes(tag), IntBytes(|payload|);
    Parts(t, n, payload, suffix);
    Pow16Is();
    IntRoundTrip(|payload|, 8, payload + suffix);
  }

  lemma HeaderRoundTrip(tag: nat, payload: seq<byte>, suffix: seq<byte>)
    requires tag < UINT32 && |payload| < UINT32
    ensures var data := Record(tag, payload) + suffix;
      && ReadHeader(data) == Some(Header(tag, |payload|, |TagBytes(tag)| + |IntBytes(|payload|)|))
      && data[|TagBytes(tag)| + |IntBytes(|payload|)|..] == payload + suffix
  {
    TagOfRecord(tag, payload, suffix);
    LengthOfRecord(tag, payload, suffix);
  }

  // Taking records off a stream. Every outcome says what is left, also when it is an error.

  datatype Taken<T> = Taken(value: Option<T>, rest: seq<byte>)

  /** A header that was taken off: the payload's length is an `int` now. */
  datatype Head = Head(tag: nat, payload: int)

  /**
   * `evtag_unmarshal_header`: what it drains it has drained even when the payload is not all there.
   * A length that comes out as -1 cannot be told from a failure.
   */
  function TakeHeader(data: seq<byte>): (r: Taken<Head>)
    ensures r.value.Some? ==> r.value.value.payload <= |r.rest| && |r.rest| < |data|
  {
    match ReadTag(data)
    case None => Taken(None, data)
    case Some(Read(tag, k)) =>
      match ReadInt(data[k..], 8)
      case None => Taken(None, data[k..])
      case Some(Read(n, j)) =>
        var rest := data[k + j..];
        if |rest| < n || n >= UINT32 || AsInt(n) == -1 then Taken(None, rest)
        else Taken(Some(Head(tag, AsInt(n))), rest)
  }

  /** `evbuffer_drain` of an `int`: a negative one is a huge size and takes everything. */
  function DrainInt(data: seq<byte>, n: int): seq<byte> {
    if n < 0 || n > |data| then [] else data[n..]
  }

  datatype Rec = Rec(tag: nat, payload: seq<byte>)

  /** `evtag_unmarshal`. For a negative length `evbuffer_add` is asked for a huge size and fails. */
  function TakeRecord(data: seq<byte>): (r: Taken<Rec>)
    ensures r.value.Some? ==> |r.rest| < |data|
  {
    match TakeHeader(data)
    case Taken(None, rest) => Taken(None, rest)
    case Taken(Some(h), rest) =>
      if h.payload < 0 then Taken(None, rest) else Taken(Some(Rec(h.tag, rest[..h.payload])), rest[h.payload..])
  }

  /** `evtag_unmarshal_fixed` and `evtag_unmarshal_string`, which want a tag and perhaps a length. */
  function TakeWanted(data: seq<byte>, need: nat, len: Option<nat>): (r: Taken<seq<byte>>)
  {
    match TakeHeader(data)
    case Taken(None, rest) => Taken(None, rest)
    case Taken(Some(h), rest) =>
      if h.tag != need || h.payload < 0 || (len.Some? && h.payload != len.value) then Taken(None, rest)
      else Taken(Some(rest[..h.payload]), rest[h.payload..])
  }

  /** `evtag_consume`: whether it went well, and what is left. */
  function Consumed(data: seq<byte>): (bool, seq<byte>) {
    match TakeHeader(data)
    case Taken(None, rest) => (false, rest)
    case Taken(Some(h), rest) => (true, DrainInt(rest, h.payload))
  }

  /** `evtag_unmarshal_int` and its 64-bit twin, which keep the length unsigned: the number and the bytes it took. */
  function TakeInt(data: seq<byte>, need: nat, max: nat): (r: Taken<Read>)
    ensures r.value.Some? ==> |r.rest| < |data|
  {
    match ReadTag(data)
    case None => Taken(None, data)
    case Some(Read(tag, k)) =>
      if tag != need then Taken(None, data[k..])
      else match ReadInt(data[k..], 8)
        case None => Taken(None, data[k..])
        case Some(Read(n, j)) =>
          NumberIn(data[k + j..], n, max)
  }

  /** A number in a payload of `n` bytes, which goes whether it is one or not. */
  function NumberIn(rest: seq<byte>, n: nat, max: nat): (r: Taken<Read>)
    ensures |r.rest| <= |rest|
  {
    if |rest| < n then Taken(None, rest)
    else match ReadInt(rest, max)
      case None => Taken(None, rest[n..])
      case Some(x) => Taken(if x.length > n then None else Some(x), rest[n..])
  }

  datatype Timeval = Timeval(sec: nat, usec: nat)

  /** `evtag_unmarshal_timeval`. */
  function TakeTimeval(data: seq<byte>, need: nat): (r: Taken<Timeval>)
  {
    match TakeHeader(data)
    case Taken(None, rest) => Taken(None, rest)
    case Taken(Some(h), rest) =>
      var left := DrainInt(rest, h.payload);
      if h.tag != need then Taken(None, left)
      else match ReadInt(rest, 8)
        case None => Taken(None, left)
        case Some(s) =>
          match ReadInt(rest[s.length..], 8)
          case None => Taken(None, left)
          case Some(u) =>
            Taken(if s.length + u.length > h.payload then None else Some(Timeval(s.number, u.number)), left)
  }

  /** The header of a record comes off; its length is right up to 2^31 - 1 and negative from there on. */
  lemma HeaderTaken(tag: nat, payload: seq<byte>, suffix: seq<byte>)
    requires tag < UINT32 && |payload| < UINT32
    ensures TakeHeader(Record(tag, payload) + suffix) ==
      Taken(if |payload| == UINT32 - 1 then None else Some(Head(tag, AsInt(|payload|))), payload + suffix)
  {
    TagOfRecord(tag, payload, suffix);
    LengthOfRecord(tag, payload, suffix);
  }

  lemma PayloadOff(payload: seq<byte>, suffix: seq<byte>)
    ensures (payload + suffix)[..|payload|] == payload && (payload + suffix)[|payload|..] == suffix
  {
  }

  /** A record is taken off exactly, with what follows it untouched, if and only if it is shorter than 2^31. */
  lemma RecordRoundTrip(tag: nat, payload: seq<byte>, suffix: seq<byte>)
    requires tag < UINT32 && |payload| < UINT32
    ensures var r := TakeRecord(Record(tag, payload) + suffix);
      && (r == Taken(Some(Rec(tag, payload)), suffix) <==> |payload| <= INT_MAX)
      && (r.value.None? <==> |payload| > INT_MAX)
    ensures var r := TakeWanted(Record(tag, payload) + suffix, tag, None);
      (r == Taken(Some(payload), suffix) <==> |payload| <= INT_MAX) && (r.value.None? <==> |payload| > INT_MAX)
    ensures var r := TakeWanted(Record(tag, payload) + suffix, tag, Some(|payload|));
      (r == Taken(Some(payload), suffix) <==> |payload| <= INT_MAX) && (r.value.None? <==> |payload| > INT_MAX)
  {
    HeaderTaken(tag, payload, suffix);
    PayloadOff(payload, suffix);
  }

  /** One record is consumed and no more if it is shorter than 2^31; a longer one takes the rest of the buffer along. */
  lemma ConsumeRoundTrip(tag: nat, payload: seq<byte>, suffix: seq<byte>)
    requires tag < UINT32 && |payload| < UINT32
    ensures Consumed(Record(tag, payload) + suffix) == (true, suffix) <==>
            |payload| <= INT_MAX || (suffix == [] && |payload| < UINT32 - 1)
    ensures INT_MAX < |payload| < UINT32 - 1 ==> Consumed(Record(tag, payload) + suffix) == (true, [])
  {
    HeaderTaken(tag, payload, suffix);
    PayloadOff(payload, suffix);
  }

  /** A record of 2^31 bytes is not given back, and consuming it loses the record after it. */
  lemma LongRecord()
    ensures var payload := seq(INT_MAX + 1, _ => 0);
      && TakeRecord(Record(1, payload) + Record(2, [])).value == None
      && Consumed(Record(1, payload) + Record(2, [])) == (true, [])
  {
    var payload: seq<byte> := seq(INT_MAX + 1, _ => 0);
    assert Record(2, []) != [];
    RecordRoundTrip(1, payload, Record(2, []));
    ConsumeRoundTrip(1, payload, Record(2, []));
  }

  lemma TakeIntRoundTrip(tag: nat, n: nat, max: nat, suffix: seq<byte>)
    requires tag < UINT32 && 0 < max <= 16 && n < Pow16(max) && n < UINT64
    ensures |IntBytes(n)| < UINT32
    ensures TakeInt(Record(tag, IntBytes(n)) + suffix, tag, max) == Taken(Some(Read(n, |IntBytes(n)|)), suffix)
  {
    var payload := IntBytes(n);
    SmallInt(n);
    TagOfRecord(tag, payload, suffix);
    LengthOfRecord(tag, payload, suffix);
    NumberBackIn(n, max, suffix);
    var data, k, j := Record(tag, payload) + suffix, |TagBytes(tag)|, |IntBytes(|payload|)|;
    assert k + j <= |data| && data[k + j..] == payload + suffix;
    IntTaken(data, tag, max, k, |payload|, j);
  }

  lemma NumberBackIn(n: nat, max: nat, suffix: seq<byte>)
    requires 0 < max <= 16 && n < Pow16(max) && n < UINT64
    ensures NumberIn(IntBytes(n) + suffix, |IntBytes(n)|, max) == Taken(Some(Read(n, |IntBytes(n)|)), suffix)
  {
    IntRoundTrip(n, max, suffix);
    PayloadOff(IntBytes(n), suffix);
  }

  /** What `TakeInt` is once the tag and the length have been read. */
  lemma IntTaken(data: seq<byte>, tag: nat, max: nat, k: nat, n: nat, j: nat)
    requires ReadTag(data) == Some(Read(tag, k)) && k <= |data|
    requires ReadInt(data[k..], 8) == Some(Read(n, j)) && k + j <= |data|
    ensures TakeInt(data, tag, max) == NumberIn(data[k + j..], n, max)
  {
  }

  lemma SmallInt(n: nat)
    requires n < UINT64
    ensures |IntBytes(n)| <= 9
  {
    Pow16Is();
    NibblesCount(n, 16);
  }

  function TimevalBytes(tv: Timeval): seq<byte>
    requires tv.sec < UINT32 && tv.usec < UINT32
  {
    IntBytes(tv.sec) + IntBytes(tv.usec)
  }

  lemma TwoParts(a: seq<byte>, b: seq<byte>, c: seq<byte>)
    ensures a + b + c == a + (b + c) && (a + b + c)[|a|..] == b + c && (a + b + c)[|a| + |b|..] == c
  {
  }

  lemma TimevalRoundTrip(tag: nat, tv: Timeval, suffix: seq<byte>)
    requires tag < UINT32 && tv.sec < UINT32 && tv.usec < UINT32
    ensures |TimevalBytes(tv)| < UINT32
    ensures TakeTimeval(Record(tag, TimevalBytes(tv)) + suffix, tag) == Taken(Some(tv), suffix)
  {
    var s, u := IntBytes(tv.sec), IntBytes(tv.usec);
    SmallInt(tv.sec);
    SmallInt(tv.usec);
    HeaderTaken(tag, s + u, suffix);
    Pow16Is();
    IntRoundTrip(tv.sec, 8, u + suffix);
    IntRoundTrip(tv.usec, 8, suffix);
    TwoParts(s, u, suffix);
  }

  // Streams of records of any kind.

  datatype Item =
    | RawItem(tag: nat, bytes: seq<byte>)
    | TextItem(tag: nat, bytes: seq<byte>)
    | IntItem(tag: nat, number: nat)
    | Int64Item(tag: nat, number: nat)
    | TimeItem(tag: nat, time: Timeval)

  /** The tag and the numbers of an item have their width, and its length can be sent. */
  predicate Fit(x: Item) {
    x.tag < UINT32 && match x
      case RawItem(_, bytes) => |bytes| < UINT32
      case TextItem(_, bytes) => |bytes| < UINT32
      case IntItem(_, n) => n < UINT32
      case Int64Item(_, n) => n < UINT64
      case TimeItem(_, tv) => tv.sec < UINT32 && tv.usec < UINT32
  }

  function Payload(x: Item): (b: seq<byte>)
    requires Fit(x)
    ensures |b| < UINT32
  {
    match x
    case RawItem(_, bytes) => bytes
    case TextItem(_, bytes) => bytes
    case IntItem(_, n) => SmallInt(n); IntBytes(n)
    case Int64Item(_, n) => SmallInt(n); IntBytes(n)
    case TimeItem(_, tv) => SmallInt(tv.sec); SmallInt(tv.usec); TimevalBytes(tv)
  }

  function Wire(x: Item): seq<byte>
    requires Fit(x)
  {
    Record(x.tag, Payload(x))
  }

  /** What the reader asks for next: any record, or one of a kind with a tag. */
  datatype Want = WantAny | WantText(tag: nat) | WantInt(tag: nat) | WantInt64(tag: nat) | WantTime(tag: nat)

  function WantOf(x: Item): Want {
    match x
    case RawItem(_, _) => WantAny
    case TextItem(tag, _) => WantText(tag)
    case IntItem(tag, _) => WantInt(tag)
    case Int64Item(tag, _) => WantInt64(tag)
    case TimeItem(tag, _) => WantTime(tag)
  }

  /** The unmarshaller for what is wanted. */
  function TakeItem(data: seq<byte>, w: Want): Taken<Item> {
    match w
    case WantAny => (match TakeRecord(data)
      case Taken(None, rest) => Taken(None, rest)
      case Taken(Some(r), rest) => Taken(Some(RawItem(r.tag, r.payload)), rest))
    case WantText(tag) => (match TakeWanted(data, tag, None)
      case Taken(None, rest) => Taken(None, rest)
      case Taken(Some(b), rest) => Taken(Some(TextItem(tag, b)), rest))
    case WantInt(tag) => (match TakeInt(data, tag, 8)
      case Taken(None, rest) => Taken(None, rest)
      case Taken(Some(n), rest) => Taken(Some(IntItem(tag, n.number)), rest))
    case WantInt64(tag) => (match TakeInt(data, tag, 16)
      case Taken(None, rest) => Taken(None, rest)
      case Taken(Some(n), rest) => Taken(Some(Int64Item(tag, n.number)), rest))
    case WantTime(tag) => (match TakeTimeval(data, tag)
      case Taken(None, rest) => Taken(None, rest)
      case Taken(Some(tv), rest) => Taken(Some(TimeItem(tag, tv)), rest))
  }

  /** An item comes back, or does not because it is too long. */
  ghost predicate Back(x: Item, suffix: seq<byte>)
    requires Fit(x)
  {
    var r := TakeItem(Wire(x) + suffix, WantOf(x));
    if |Payload(x)| <= INT_MAX then r == Taken(Some(x), suffix) else r.value == None
  }

  lemma BytesBack(x: Item, suffix: seq<byte>)
    requires Fit(x) && (x.RawItem? || x.TextItem?)
    ensures Back(x, suffix)
  {
    RecordRoundTrip(x.tag, x.bytes, suffix);
  }

  lemma NumberBack(x: Item, suffix: seq<byte>)
    requires Fit(x) && (x.IntItem? || x.Int64Item?)
    ensures Back(x, suffix)
  {
    Pow16Is();
    SmallInt(x.number);
    TakeIntRoundTrip(x.tag, x.number, if x.IntItem? then 8 else 16, suffix);
  }

  lemma TimeBack(x: Item, suffix: seq<byte>)
    requires Fit(x) && x.TimeItem?
    ensures Back(x, suffix)
  {
    SmallInt(x.time.sec);
    SmallInt(x.time.usec);
    TimevalRoundTrip(x.tag, x.time, suffix);
  }

  /** An item comes back, with what follows it untouched, if and only if it is shorter than 2^31. */
  lemma ItemRoundTrip(x: Item, suffix: seq<byte>)
    requires Fit(x)
    ensures Back(x, suffix)
  {
    if x.TimeItem? {
      TimeBack(x, suffix);
    } else if x.RawItem? || x.TextItem? {
      BytesBack(x, suffix);
    } else {
      NumberBack(x, suffix);
    }
  }

  predicate AllFit(xs: seq<Item>) {
    forall i {:trigger xs[i]} :: 0 <= i < |xs| ==> Fit(xs[i])
  }

  /** A list of items as one stream. */
  function Stream(xs: seq<Item>): seq<byte>
    requires AllFit(xs)
  {
    if xs == [] then [] else Wire(xs[0]) + Stream(xs[1..])
  }

  function Wants(xs: seq<Item>): seq<Want> {
    if xs == [] then [] else [WantOf(xs[0])] + Wants(xs[1..])
  }

  /** One unmarshaller after the other; the buffer has to be empty at the end. */
  function TakeAll(data: seq<byte>, ws: seq<Want>): Option<seq<Item>>
    decreases |ws|
  {
    if ws == [] then if data == [] then Some([]) else None
    else match TakeItem(data, ws[0])
      case Taken(None, _) => None
      case Taken(Some(x), rest) => Onto(x, TakeAll(rest, ws[1..]))
  }

  function Onto(x: Item, rest: Option<seq<Item>>): Option<seq<Item>> {
    if rest.None? then None else Some([x] + rest.value)
  }

  predicate AllShort(xs: seq<Item>)
    requires AllFit(xs)
  {
    xs == [] || (|Payload(xs[0])| <= INT_MAX && AllShort(xs[1..]))
  }

  lemma StreamStep(xs: seq<Item>, data: seq<byte>, ws: seq<Want>)
    requires AllFit(xs) && xs != [] && data == Stream(xs) && ws == Wants(xs)
    ensures ws[1..] == Wants(xs[1..])
    ensures TakeAll(data, ws) ==
      if |Payload(xs[0])| <= INT_MAX then Onto(xs[0], TakeAll(Stream(xs[1..]), ws[1..])) else None
  {
    ItemRoundTrip(xs[0], Stream(xs[1..]));
    assert ws[0] == WantOf(xs[0]) && ws[1..] == Wants(xs[1..]);
  }

  lemma StreamCons(xs: seq<Item>, back: Option<seq<Item>>, rest: Option<seq<Item>>)
    requires AllFit(xs) && xs != [] && rest == if AllShort(xs[1..]) then Some(xs[1..]) else None
    requires back == if |Payload(xs[0])| <= INT_MAX then Onto(xs[0], rest) else None
    ensures back == if AllShort(xs) then Some(xs) else None
  {
    assert [xs[0]] + xs[1..] == xs;
  }

  /**
   * Every stream of records comes back, read by the matching unmarshallers, and is used up, if
   * and only if no payload has 2^31 bytes or more.
   */
  lemma {:induction false} StreamRoundTrip(xs: seq<Item>)
    requires AllFit(xs)
    ensures TakeAll(Stream(xs), Wants(xs)) == if AllShort(xs) then Some(xs) else None
  {
    if xs != [] {
      var data, ws := Stream(xs), Wants(xs);
      StreamStep(xs, data, ws);
      StreamRoundTrip(xs[1..]);
      StreamCons(xs, TakeAll(data, ws), TakeAll(Stream(xs[1..]), ws[1..]));
    }
  }

  // What has been read stays read when more bytes follow.

  lemma {:induction false} ReadTagMore(data: seq<byte>, more: seq<byte>, i: nat)
    requires ReadTagAt(data, i).Some?
    ensures ReadTagAt(data + more, i) == ReadTagAt(data, i)
    decreases |data|
  {
    if data[0] >= 128 {
      ReadTagMore(data[1..], more, i + 1);
      assert (data + more)[1..] == data[1..] + more;
    }
  }

  lemma {:induction false} NumberMore(data: seq<byte>, more: seq<byte>, j: nat, m: nat)
    requires m / 2 < |data|
    ensures Number(data + more, j, m) == Number(data, j, m)
    decreases m + 1 - j
  {
    if j <= m { NumberMore(data, more, j + 1, m); }
  }

  lemma ReadIntMore(data: seq<byte>, more: seq<byte>, max: nat)
    requires ReadInt(data, max).Some?
    ensures ReadInt(data + more, max) == ReadInt(data, max)
  {
    NumberMore(data, more, 1, data[0] as int / 16 + 1);
  }

  // What can be read at all.

  /** A number read has no more bits than it may have. */
  lemma NumberFits(data: seq<byte>, max: nat)
    requires ReadInt(data, max).Some?
    ensures ReadInt(data, max).value.number < Pow16(max)
  {
    var m: nat := data[0] as int / 16 + 1;
    NumberBound(data, 1, m);
    Pow16Grows(m, max);
  }

  /** A number of eight nibbles has 32 bits. */
  lemma LengthFits(data: seq<byte>)
    ensures ReadInt(data, 8).Some? ==> ReadInt(data, 8).value.number < UINT32
  {
    if ReadInt(data, 8).Some? {
      NumberFits(data, 8);
      Pow16Is();
    }
  }

  lemma {:induction false} NumberBound(data: seq<byte>, j: nat, m: nat)
    requires m / 2 < |data| && j <= m + 1
    ensures Number(data, j, m) < Pow16(m + 1 - j)
    decreases m + 1 - j
  {
    if j <= m { NumberBound(data, j + 1, m); }
  }

  lemma {:induction false} Pow16Grows(a: nat, b: nat)
    requires a <= b
    ensures 0 < Pow16(a) <= Pow16(b)
  {
    if a < b { Pow16Grows(a, b - 1); } else if a > 0 { Pow16Grows(a - 1, b - 1); }
  }

  lemma {:induction false} TagFits(data: seq<byte>, i: nat)
    requires ReadTagAt(data, i).Some?
    ensures i <= 4 && ReadTagAt(data, i).value.number < TagRoom(i)
    decreases |data|
  {
    assert ReadTagAt(data[1..], 5).None?;
    if data[0] >= 128 && i < 4 { TagFits(data[1..], i + 1); }
  }

  /** A tag that is read has 32 bits and takes at most five bytes, of which only the last is below 128. */
  lemma TagRead(data: seq<byte>)
    requires ReadTag(data).Some?
    ensures ReadTag(data).value.number < UINT32 && ReadTag(data).value.length <= 5
    ensures forall k {:trigger data[k]} :: 0 <= k < ReadTag(data).value.length ==>
      (data[k] < 128 <==> k + 1 == ReadTag(data).value.length)
  {
    TagFits(data, 0);
    assert TagRoom(0) == UINT32 by { assert TagRoom(2) == 0x40000; }
    TagGroups(data, 0);
  }

  lemma {:induction false} TagGroups(data: seq<byte>, i: nat)
    requires ReadTagAt(data, i).Some? && i <= 4
    ensures ReadTagAt(data, i).value.length <= 5 - i
    ensures forall k {:trigger data[k]} :: 0 <= k < ReadTagAt(data, i).value.length ==>
      (data[k] < 128 <==> k + 1 == ReadTagAt(data, i).value.length)
    decreases |data|
  {
    if data[0] >= 128 {
      TagFits(data[1..], i + 1);
      TagGroups(data[1..], i + 1);
      assert forall k {:trigger data[k]} :: 0 < k < |data| ==> data[k] == data[1..][k - 1];
    }
  }

  /** A record with another tag, or of another length than a fixed one, is not taken. */
  lemma OtherTag(tag: nat, need: nat, payload: seq<byte>, suffix: seq<byte>, len: nat, max: nat)
    requires tag < UINT32 && |payload| < UINT32
    ensures tag != need ==>
      var data := Record(tag, payload) + suffix;
      && TakeWanted(data, need, None).value == None && TakeWanted(data, need, Some(len)).value == None
      && TakeInt(data, need, max).value == None && TakeTimeval(data, need).value == None
    ensures len != |payload| ==> TakeWanted(Record(tag, payload) + suffix, tag, Some(len)).value == None
  {
    HeaderTaken(tag, payload, suffix);
    TagOfRecord(tag, payload, suffix);
  }

  lemma HeaderFits(data: seq<byte>)
    requires TakeHeader(data).value.Some?
    ensures TakeHeader(data).value.value.tag < UINT32
  {
    TagRead(data);
  }

  lemma IntFits(data: seq<byte>, need: nat, max: nat)
    requires TakeInt(data, need, max).value.Some?
    ensures need < UINT32 && TakeInt(data, need, max).value.value.number < Pow16(max)
  {
    TagRead(data);
    var k := ReadTag(data).value.length;
    NumberFits(data[k + ReadInt(data[k..], 8).value.length..], max);
  }

  lemma TimeFits(data: seq<byte>, need: nat)
    requires TakeTimeval(data, need).value.Some?
    ensures need < UINT32 && Fit(TimeItem(need, TakeTimeval(data, need).value.value))
  {
    HeaderFits(data);
    var rest := TakeHeader(data).rest;
    LengthFits(rest);
    LengthFits(rest[ReadInt(rest, 8).value.length..]);
  }

  /** Whatever the bytes, an item that is taken is of the kind wanted, has its tag, and fits its type. */
  lemma ItemTaken(data: seq<byte>, w: Want)
    requires TakeItem(data, w).value.Some?
    ensures Fit(TakeItem(data, w).value.value) && WantOf(TakeItem(data, w).value.value) == w
  {
    match w
    case WantAny => HeaderFits(data);
    case WantText(_) => HeaderFits(data);
    case WantInt(tag) =>
      IntFits(data, tag, 8);
      Pow16Is();
    case WantInt64(tag) =>
      IntFits(data, tag, 16);
      Pow16Is();
    case WantTime(tag) => TimeFits(data, tag);
  }

  // Exactly which bytes are read as a tag or a number.

  /** A tag of groups up to byte `k` that fits 32 bits when its first group is number `i`. */
  predicate TagEnds(data: seq<byte>, i: nat, k: nat) {
    && k < |data| && i + k <= 4 && data[k] < 128 && (i + k == 4 ==> data[k] < 16)
    && forall j {:trigger data[j]} :: 0 <= j < k ==> data[j] >= 128
  }

  lemma {:induction false} TagEndsAt(data: seq<byte>, i: nat, k: nat)
    ensures ReadTagAt(data, i).Some? && ReadTagAt(data, i).value.length == k + 1 <==> TagEnds(data, i, k)
    decreases |data|
  {
    if data != [] && data[0] >= 128 {
      assert forall j {:trigger data[j]} :: 0 < j < |data| ==> data[j] == data[1..][j - 1];
      if k > 0 { TagEndsAt(data[1..], i + 1, k - 1); }
    }
  }

  /** A tag of `k + 1` bytes is read if and only if it ends there, after at most five, and has no more than 32 bits. */
  lemma TagReadable(data: seq<byte>, k: nat)
    ensures ReadTag(data).Some? && ReadTag(data).value.length == k + 1 <==> TagEnds(data, 0, k)
  {
    TagEndsAt(data, 0, k);
  }

  lemma LaidNibbles(all: seq<nat>, data: seq<byte>, suffix: seq<byte>)
    requires AllNibbles(all) && all != [] && data == Pack(all) + suffix
    ensures forall i {:trigger Nib(data, i)} :: 0 <= i < |all| ==> Nib(data, i) == all[i]
    ensures data[0] as int / 16 == all[0]
  {
    forall i | 0 <= i < |all| ensures Nib(data, i) == all[i] { PackNib(all, suffix, i); }
    assert data[0] as int / 16 == Nib(data, 0);
  }

  lemma NumberLaid(ns: seq<nat>, all: seq<nat>, data: seq<byte>)
    requires AllNibbles(all) && ns != [] && all == [|ns| - 1] + ns && (|all| - 1) / 2 < |data|
    requires forall i {:trigger Nib(data, i)} :: 0 <= i < |all| ==> Nib(data, i) == all[i]
    ensures Number(data, 1, |ns|) == ValueOf(ns)
  {
    PackNumber(all, data, 1);
    assert all[1..] == ns;
  }

  lemma ReadAs(data: seq<byte>, m: nat, v: nat, max: nat)
    requires m / 2 + 1 <= |data| && data[0] as int / 16 + 1 == m && Number(data, 1, m) == v
    ensures ReadInt(data, max) == if m <= max then Some(Read(v, m / 2 + 1)) else None
  {
  }

  /** A number is read from any nibbles, padded with zeros or not, if and only if there are not too many of them. */
  lemma NibblesRead(ns: seq<nat>, all: seq<nat>, max: nat, data: seq<byte>, suffix: seq<byte>)
    requires 0 < |ns| <= 16 && all == [|ns| - 1] + ns && AllNibbles(all) && data == Pack(all) + suffix
    ensures ReadInt(data, max) == if |ns| <= max then Some(Read(ValueOf(ns), |ns| / 2 + 1)) else None
  {
    LaidNibbles(all, data, suffix);
    NumberLaid(ns, all, data);
    ReadAs(data, |ns|, ValueOf(ns), max);
  }

  /** Nothing is read from less than that. */
  lemma NibblesCut(ns: seq<nat>, all: seq<nat>, max: nat, k: nat)
    requires 0 < |ns| <= 16 && all == [|ns| - 1] + ns && AllNibbles(all) && k < |Pack(all)|
    ensures ReadInt(Pack(all)[..k], max) == None
  {
    assert Pack(all) == Pack(all) + [];
    LaidNibbles(all, Pack(all), []);
  }
}
