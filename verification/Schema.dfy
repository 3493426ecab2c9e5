/** The marshal and unmarshal code that `event_rpcgen.py` emits for a schema, and that they are inverse. */
module Schemas {
  import opened Octets
  import opened Tagging
  import opened Options
  import opened Powers
  import opened Widths

  datatype Kind = FixedBytes(len: nat) | Int32 | Int64 | Text | VarBytes | Struct(ref: string)

  /** One entry of a struct. An array counts as optional. */
  datatype Entry = Entry(tag: nat, kind: Kind, optional: bool, repeated: bool)

  type Schema = map<string, seq<Entry>>

  datatype Value = Raw(bytes: seq<byte>) | Num(number: nat) | Message(fields: seq<Field>)

  /** An entry of a message: not set, set, or the elements of an array. */
  datatype Field = Unset | One(value: Value) | Many(values: seq<Value>)

  predicate Optional(e: Entry) {
    e.optional || e.repeated
  }

  predicate IsSet(f: Field) {
    f.One?
  }

  function Empty(e: Entry): Field {
    if e.repeated then Many([]) else Unset
  }

  /**
   * Tags are 32 bits and differ within a struct, every struct that is mentioned is there, and the
   * kinds are what `Verify` lets through: a length that is not zero, and no arrays of bytes.
   */
  predicate GoodSchema(env: Schema) {
    forall name {:trigger env[name]} :: name in env ==> GoodEntries(env, env[name])
  }

  predicate GoodEntries(env: Schema, es: seq<Entry>) {
    && (forall i {:trigger es[i]} :: 0 <= i < |es| ==>
          && es[i].tag < UINT32 && (es[i].kind.Struct? ==> es[i].kind.ref in env)
          && (es[i].kind.FixedBytes? ==> es[i].kind.len > 0)
          && (es[i].repeated ==> !es[i].kind.FixedBytes? && !es[i].kind.VarBytes?))
    && (forall i, j {:trigger Differ(es, i, j)} :: 0 <= i < j < |es| ==> Differ(es, i, j))
  }

  /** Two entries have different tags. */
  predicate Differ(es: seq<Entry>, i: int, j: int) {
    0 <= i < |es| && 0 <= j < |es| && es[i].tag != es[j].tag
  }

  /** The value fits the kind and everything that has to be set is set, all the way down. */
  predicate Whole(env: Schema, kind: Kind, v: Value)
    decreases v
  {
    match kind
    case FixedBytes(len) => v.Raw? && |v.bytes| == len
    case Int32 => v.Num? && v.number < UINT32
    case Int64 => v.Num? && v.number < UINT64
    case Text => v.Raw? && 0 !in v.bytes
    case VarBytes => v.Raw?
    case Struct(ref) => v.Message? && ref in env && WholeFields(env, env[ref], v.fields)
  }

  predicate WholeFields(env: Schema, es: seq<Entry>, fs: seq<Field>)
    decreases fs
  {
    |fs| == |es| && forall i {:trigger fs[i]} :: 0 <= i < |fs| ==> WholeField(env, es[i], fs[i])
  }

  predicate WholeField(env: Schema, e: Entry, f: Field)
    decreases f
  {
    match f
    case Unset => e.optional && !e.repeated
    case One(v) => !e.repeated && Whole(env, e.kind, v)
    case Many(vs) => e.repeated && WholeAll(env, e.kind, vs)
  }

  predicate WholeAll(env: Schema, kind: Kind, vs: seq<Value>)
    decreases vs
  {
    forall i {:trigger vs[i]} :: 0 <= i < |vs| ==> Whole(env, kind, vs[i])
  }

  /** A record whose length is sent in 32 bits, as `evtag_marshal_buffer` does. */
  function Wrapped(tag: nat, payload: seq<byte>): seq<byte> {
    TagBytes(tag) + IntBytes(|payload| % UINT32) + payload
  }

  /** `CodeMarshal` for one value. */
  function MarshalValue(env: Schema, e: Entry, v: Value): seq<byte>
    requires Whole(env, e.kind, v)
    decreases v
  {
    match v
    case Raw(bytes) => Wrapped(e.tag, bytes)
    case Num(n) => Wrapped(e.tag, IntBytes(n))
    case Message(fs) => Wrapped(e.tag, MarshalFields(env, env[e.kind.ref], fs, 0))
  }

  /** The emitted `_marshal` from entry `i` on. */
  function MarshalFields(env: Schema, es: seq<Entry>, fs: seq<Field>, i: nat): seq<byte>
    requires WholeFields(env, es, fs) && i <= |fs|
    decreases fs, |fs| - i
  {
    if i == |fs| then [] else MarshalField(env, es[i], fs[i]) + MarshalFields(env, es, fs, i + 1)
  }

  function MarshalField(env: Schema, e: Entry, f: Field): seq<byte>
    requires WholeField(env, e, f)
    decreases f
  {
    match f
    case Unset => []
    case One(v) => MarshalValue(env, e, v)
    case Many(vs) => MarshalAll(env, e, vs, 0)
  }

  function MarshalAll(env: Schema, e: Entry, vs: seq<Value>, j: nat): seq<byte>
    requires WholeAll(env, e.kind, vs) && j <= |vs|
    decreases vs, |vs| - j
  {
    if j == |vs| then [] else MarshalValue(env, e, vs[j]) + MarshalAll(env, e, vs, j + 1)
  }

  /** The emitted `_complete`: what has to be set is set, in nested messages too. */
  predicate CompleteFields(env: Schema, es: seq<Entry>, fs: seq<Field>)
    decreases fs
  {
    |fs| == |es| && forall i {:trigger fs[i]} :: 0 <= i < |fs| ==>
      (Optional(es[i]) || IsSet(fs[i])) && CompleteField(env, es[i], fs[i])
  }

  predicate CompleteField(env: Schema, e: Entry, f: Field)
    decreases f
  {
    match f
    case Unset => true
    case One(v) => CompleteValue(env, e, v)
    case Many(vs) => CompleteAll(env, e, vs)
  }

  predicate CompleteAll(env: Schema, e: Entry, vs: seq<Value>)
    decreases vs
  {
    forall i {:trigger vs[i]} :: 0 <= i < |vs| ==> CompleteValue(env, e, vs[i])
  }

  predicate CompleteValue(env: Schema, e: Entry, v: Value)
    decreases v
  {
    v.Message? && e.kind.Struct? ==> e.kind.ref in env && CompleteFields(env, env[e.kind.ref], v.fields)
  }

  /** The entry a tag belongs to. */
  function Find(es: seq<Entry>, tag: nat): (r: Option<nat>)
    ensures r.Some? ==> r.value < |es| && es[r.value].tag == tag
    ensures r.None? ==> forall i {:trigger es[i]} :: 0 <= i < |es| ==> es[i].tag != tag
  {
    if es == [] then None
    else if es[0].tag == tag then Some(0)
    else match Find(es[1..], tag)
      case None => assert forall i :: 0 < i < |es| ==> es[i] == es[1..][i - 1]; None
      case Some(i) => Some(i + 1)
  }

  datatype Got = Got(value: Value, rest: seq<byte>)

  function Fresh(es: seq<Entry>): (fs: seq<Field>)
    ensures |fs| == |es| && forall i {:trigger fs[i]} :: 0 <= i < |es| ==> fs[i] == Empty(es[i])
  {
    seq(|es|, i requires 0 <= i < |es| => Empty(es[i]))
  }

  predicate Known(env: Schema, e: Entry) {
    e.kind.Struct? ==> e.kind.ref in env
  }

  /** `CodeUnmarshal` for one value at the front of `data`. */
  function TakeValue(env: Schema, e: Entry, data: seq<byte>): (r: Option<Got>)
    requires GoodSchema(env) && Known(env, e)
    ensures r.Some? ==> |r.value.rest| < |data|
    decreases |data|, 0
  {
    if e.kind.Int32? then TakeNumber(data, e.tag, 8)
    else if e.kind.Int64? then TakeNumber(data, e.tag, 16)
    else match TakeRecord(data)
      case Taken(None, _) => None
      case Taken(Some(rec), rest) =>
        if rec.tag != e.tag then None
        else if e.kind.Struct? then
          RecordShorter(data);
          match Unmarshal(env, env[e.kind.ref], rec.payload, Fresh(env[e.kind.ref]))
          case None => None
          case Some(fs) => Some(Got(Message(fs), rest))
        else if e.kind.FixedBytes? && |rec.payload| != e.kind.len then None
        else Some(Got(Raw(if e.kind.Text? then UpToZero(rec.payload) else rec.payload), rest))
  }

  /** What a C string with these bytes and a closing zero is. */
  function UpToZero(s: seq<byte>): (t: seq<byte>)
    ensures t <= s && 0 !in t && (t == s || s[|t|] == 0)
  {
    if s == [] || s[0] == 0 then [] else [s[0]] + UpToZero(s[1..])
  }

  function TakeNumber(data: seq<byte>, tag: nat, max: nat): (r: Option<Got>)
    ensures r.Some? ==> |r.value.rest| < |data|
  {
    match TakeInt(data, tag, max)
    case Taken(None, _) => None
    case Taken(Some(n), rest) => Some(Got(Num(n.number), rest))
  }

  lemma {:induction false} RecordShorter(data: seq<byte>)
    requires TakeRecord(data).value.Some?
    ensures |TakeRecord(data).value.value.payload| < |data|
  {
  }

  /** What a value read for entry `e` makes of its field. */
  function Put(e: Entry, f: Field, v: Value): Field {
    if e.repeated && f.Many? then Many(f.values + [v]) else One(v)
  }

  /** The emitted `_unmarshal`: a loop over the records, then the check that the message is complete. */
  function Unmarshal(env: Schema, es: seq<Entry>, data: seq<byte>, fs: seq<Field>): Option<seq<Field>>
    requires GoodSchema(env) && GoodEntries(env, es) && |fs| == |es|
    decreases |data|, 1
  {
    if data == [] then if CompleteFields(env, es, fs) then Some(fs) else None
    else match ReadTag(data)
      case None => None
      case Some(t) =>
        match Find(es, t.number)
        case None => None
        case Some(i) =>
          if !es[i].repeated && IsSet(fs[i]) then None
          else match TakeValue(env, es[i], data)
            case None => None
            case Some(Got(v, rest)) => Unmarshal(env, es, rest, fs[i := Put(es[i], fs[i], v)])
  }

  // What is whole is complete.

  lemma {:induction false} WholeComplete(env: Schema, es: seq<Entry>, fs: seq<Field>)
    requires WholeFields(env, es, fs)
    ensures CompleteFields(env, es, fs)
    decreases fs
  {
    forall i | 0 <= i < |fs| ensures (Optional(es[i]) || IsSet(fs[i])) && CompleteField(env, es[i], fs[i]) {
      FieldComplete(env, es[i], fs[i]);
    }
  }

  lemma {:induction false} FieldComplete(env: Schema, e: Entry, f: Field)
    requires WholeField(env, e, f)
    ensures CompleteField(env, e, f)
    decreases f
  {
    match f
    case Unset =>
    case One(v) => ValueComplete(env, e, v);
    case Many(vs) =>
      forall i | 0 <= i < |vs| ensures CompleteValue(env, e, vs[i]) { ValueComplete(env, e, vs[i]); }
  }

  lemma {:induction false} ValueComplete(env: Schema, e: Entry, v: Value)
    requires Whole(env, e.kind, v)
    ensures CompleteValue(env, e, v)
    decreases v
  {
    if v.Message? { WholeComplete(env, env[e.kind.ref], v.fields); }
  }

  // The round trip.

  lemma {:induction false} SmallLength(n: nat)
    requires n < UINT32
    ensures n % UINT32 == n
  {
  }

  lemma {:induction false} WrappedIs(tag: nat, payload: seq<byte>)
    requires |payload| < UINT32
    ensures Wrapped(tag, payload) == Record(tag, payload)
  {
    SmallLength(|payload|);
  }

  /** The payload of a value's record. */
  function PayloadOf(env: Schema, e: Entry, v: Value): seq<byte>
    requires Whole(env, e.kind, v)
  {
    match v
    case Raw(bytes) => bytes
    case Num(n) => IntBytes(n)
    case Message(fs) => MarshalFields(env, env[e.kind.ref], fs, 0)
  }

  /** The record of a value has a payload of at most `n` bytes. */
  predicate Bounded(env: Schema, e: Entry, v: Value, n: nat) {
    Whole(env, e.kind, v) && |PayloadOf(env, e, v)| <= n
  }

  predicate AllBounded(env: Schema, e: Entry, vs: seq<Value>, j: nat, n: nat)
    requires j <= |vs|
    decreases |vs| - j
  {
    j == |vs| || (Bounded(env, e, vs[j], n) && AllBounded(env, e, vs, j + 1, n))
  }

  predicate FieldBounded(env: Schema, e: Entry, f: Field, n: nat) {
    match f
    case Unset => true
    case One(v) => Bounded(env, e, v, n)
    case Many(vs) => AllBounded(env, e, vs, 0, n)
  }

  /** So have the records of the entries from `i` on. */
  predicate FieldsBounded(env: Schema, es: seq<Entry>, fs: seq<Field>, i: nat, n: nat)
    requires |fs| == |es| && i <= |fs|
    decreases |fs| - i
  {
    i == |fs| || (FieldBounded(env, es[i], fs[i], n) && FieldsBounded(env, es, fs, i + 1, n))
  }

  lemma {:induction false} PayloadShorter(env: Schema, e: Entry, v: Value)
    requires Whole(env, e.kind, v)
    ensures |PayloadOf(env, e, v)| <= |MarshalValue(env, e, v)|
  {
  }

  lemma {:induction false} ShortArray(env: Schema, e: Entry, vs: seq<Value>, j: nat, n: nat)
    requires WholeAll(env, e.kind, vs) && j <= |vs| && |MarshalAll(env, e, vs, j)| <= n
    ensures AllBounded(env, e, vs, j, n)
    decreases |vs| - j
  {
    if j < |vs| {
      PayloadShorter(env, e, vs[j]);
      ShortArray(env, e, vs, j + 1, n);
    }
  }

  /** Inside a short message everything is short. */
  lemma {:induction false} ShortInside(env: Schema, es: seq<Entry>, fs: seq<Field>, i: nat, n: nat)
    requires WholeFields(env, es, fs) && i <= |fs| && |MarshalFields(env, es, fs, i)| <= n
    ensures FieldsBounded(env, es, fs, i, n)
    decreases |fs| - i
  {
    if i < |fs| {
      var f := fs[i];
      assert WholeField(env, es[i], f);
      if f.One? { PayloadShorter(env, es[i], f.value); }
      if f.Many? { ShortArray(env, es[i], f.values, 0, n); }
      ShortInside(env, es, fs, i + 1, n);
    }
  }

  lemma {:induction false} ValueIsRecord(env: Schema, e: Entry, v: Value)
    requires Bounded(env, e, v, UINT32 - 1)
    ensures MarshalValue(env, e, v) == Record(e.tag, PayloadOf(env, e, v))
  {
    WrappedIs(e.tag, PayloadOf(env, e, v));
  }

  /** What reading a value should give. */
  function ReadBack(env: Schema, e: Entry, v: Value, rest: seq<byte>): Option<Got> {
    if Bounded(env, e, v, INT_MAX) then Some(Got(v, rest)) else None
  }

  lemma {:induction false} PlainBack(env: Schema, e: Entry, v: Value, suffix: seq<byte>)
    requires GoodSchema(env) && Known(env, e) && e.tag < UINT32 && Bounded(env, e, v, UINT32 - 1) && !v.Message?
    ensures TakeValue(env, e, MarshalValue(env, e, v) + suffix) == ReadBack(env, e, v, suffix)
  {
    ValueIsRecord(env, e, v);
    RecordRoundTrip(e.tag, PayloadOf(env, e, v), suffix);
    if v.Num? {
      Pow16Is();
      SmallInt(v.number);
      TakeIntRoundTrip(e.tag, v.number, if e.kind.Int32? then 8 else 16, suffix);
    }
  }

  lemma {:induction false} MessageBack(env: Schema, e: Entry, v: Value, suffix: seq<byte>)
    requires GoodSchema(env) && Known(env, e) && e.tag < UINT32 && Bounded(env, e, v, UINT32 - 1) && v.Message?
    requires Bounded(env, e, v, INT_MAX) ==>
      var es := env[e.kind.ref]; Unmarshal(env, es, PayloadOf(env, e, v), Fresh(es)) == Some(v.fields)
    ensures TakeValue(env, e, MarshalValue(env, e, v) + suffix) == ReadBack(env, e, v, suffix)
  {
    ValueIsRecord(env, e, v);
    RecordRoundTrip(e.tag, PayloadOf(env, e, v), suffix);
  }

  /** A value is read back, whatever follows it, if and only if its record is shorter than 2^31. */
  lemma {:induction false} ValueBack(env: Schema, e: Entry, v: Value, suffix: seq<byte>)
    requires GoodSchema(env) && Known(env, e) && e.tag < UINT32 && Bounded(env, e, v, UINT32 - 1)
    ensures TakeValue(env, e, MarshalValue(env, e, v) + suffix) == ReadBack(env, e, v, suffix)
    decreases v
  {
    if v.Message? {
      var es := env[e.kind.ref];
      if Bounded(env, e, v, INT_MAX) {
        ShortInside(env, es, v.fields, 0, INT_MAX);
        ShortInside(env, es, v.fields, 0, UINT32 - 1);
        FieldsBack(env, es, v.fields, 0, Fresh(es), MarshalFields(env, es, v.fields, 0));
      }
      MessageBack(env, e, v, suffix);
    } else {
      PlainBack(env, e, v, suffix);
    }
  }

  lemma {:induction false} FindOwn(env: Schema, es: seq<Entry>, i: nat)
    requires GoodEntries(env, es) && i < |es|
    ensures Find(es, es[i].tag) == Some(i)
  {
    var j := Find(es, es[i].tag).value;
    assert i == j || Differ(es, if i < j then i else j, if i < j then j else i);
  }

  /** One round of the loop reads one value, or fails. */
  lemma {:induction false} Round(env: Schema, es: seq<Entry>, i: nat, v: Value, rest: seq<byte>, now: seq<Field>,
                                 data: seq<byte>, next: seq<Field>)
    requires GoodSchema(env) && GoodEntries(env, es) && |now| == |es| && i < |es| && Bounded(env, es[i], v, UINT32 - 1)
    requires es[i].repeated || !IsSet(now[i])
    requires data == MarshalValue(env, es[i], v) + rest && TakeValue(env, es[i], data) == ReadBack(env, es[i], v, rest)
    requires next == now[i := Put(es[i], now[i], v)]
    ensures Unmarshal(env, es, data, now) ==
            if Bounded(env, es[i], v, INT_MAX) then Unmarshal(env, es, rest, next) else None
  {
    ValueIsRecord(env, es[i], v);
    TagOfRecord(es[i].tag, PayloadOf(env, es[i], v), rest);
    FindOwn(env, es, i);
    assert data != [];
  }

  /** The fields before `i` are as they should be, and the others are as in a new message. */
  predicate Upto(es: seq<Entry>, fs: seq<Field>, now: seq<Field>, i: nat) {
    && |es| == |fs| == |now| && i <= |fs|
    && forall k {:trigger now[k]} :: 0 <= k < |now| ==> now[k] == if k < i then fs[k] else Empty(es[k])
  }

  lemma {:induction false} UptoNext(es: seq<Entry>, fs: seq<Field>, now: seq<Field>, i: nat)
    requires i < |fs| && Upto(es, fs, now, i)
    ensures Upto(es, fs, now[i := fs[i]], i + 1)
  {
  }

  /** The entry after the one at `i`, once that one has its elements. */
  lemma {:induction false} UptoArray(es: seq<Entry>, fs: seq<Field>, now: seq<Field>, i: nat)
    requires i < |fs| == |now| == |es| && now[i] == fs[i] && Upto(es, fs, now[i := Empty(es[i])], i)
    ensures Upto(es, fs, now, i + 1)
  {
    forall k | 0 <= k < |now| ensures now[k] == if k < i + 1 then fs[k] else Empty(es[k]) {
      assert k != i ==> now[k] == now[i := Empty(es[i])][k];
    }
  }

  lemma {:induction false} UptoEnd(env: Schema, es: seq<Entry>, fs: seq<Field>, now: seq<Field>)
    requires GoodSchema(env) && GoodEntries(env, es) && WholeFields(env, es, fs) && Upto(es, fs, now, |fs|)
    ensures Unmarshal(env, es, [], now) == Some(fs)
  {
    assert now == fs;
    WholeComplete(env, es, fs);
  }

  function Outcome(ok: bool, fs: seq<Field>): Option<seq<Field>> {
    if ok then Some(fs) else None
  }

  /** The emitted `_unmarshal` brings back the entries from `i` on, unless a record is too long. */
  lemma {:induction false} FieldsBack(env: Schema, es: seq<Entry>, fs: seq<Field>, i: nat, now: seq<Field>,
                                      data: seq<byte>)
    requires GoodSchema(env) && GoodEntries(env, es) && WholeFields(env, es, fs) && i <= |fs|
    requires Upto(es, fs, now, i) && FieldsBounded(env, es, fs, i, UINT32 - 1) && data == MarshalFields(env, es, fs, i)
    ensures Unmarshal(env, es, data, now) == Outcome(FieldsBounded(env, es, fs, i, INT_MAX), fs)
    decreases fs, |fs| - i
  {
    if i == |fs| {
      UptoEnd(env, es, fs, now);
    } else {
      var f := fs[i];
      var rest := MarshalFields(env, es, fs, i + 1);
      assert WholeField(env, es[i], f);
      UptoNext(es, fs, now, i);
      if f.Unset? {
        assert data == rest && now[i := f] == now;
        FieldsBack(env, es, fs, i + 1, now, data);
      } else if f.One? {
        OneBack(env, es[i], f, rest);
        OneRound(env, es, fs, i, f, now, rest, data);
        FieldsBack(env, es, fs, i + 1, now[i := f], rest);
      } else {
        ArrayStart(env, es, fs, i, f, now);
        ArrayBack(env, es, fs, i, f, 0, now, now, rest, data);
      }
    }
  }

  lemma {:induction false} OneRound(env: Schema, es: seq<Entry>, fs: seq<Field>, i: nat, f: Field, now: seq<Field>,
                                    rest: seq<byte>, data: seq<byte>)
    requires GoodSchema(env) && GoodEntries(env, es) && WholeFields(env, es, fs) && i < |fs| && fs[i] == f && f.One?
    requires Upto(es, fs, now, i) && FieldsBounded(env, es, fs, i, UINT32 - 1)
    requires rest == MarshalFields(env, es, fs, i + 1) && data == MarshalFields(env, es, fs, i)
    requires TakeValue(env, es[i], MarshalValue(env, es[i], f.value) + rest) == ReadBack(env, es[i], f.value, rest)
    ensures Unmarshal(env, es, data, now) ==
      if Bounded(env, es[i], f.value, INT_MAX) then Unmarshal(env, es, rest, now[i := f]) else None
  {
    assert WholeField(env, es[i], f) && now[i] == Empty(es[i]);
    assert MarshalField(env, es[i], f) == MarshalValue(env, es[i], f.value);
    Round(env, es, i, f.value, rest, now, data, now[i := f]);
  }

  lemma {:induction false} ArrayStart(env: Schema, es: seq<Entry>, fs: seq<Field>, i: nat, f: Field, now: seq<Field>)
    requires WholeFields(env, es, fs) && i < |fs| && fs[i] == f && f.Many?
    requires Upto(es, fs, now, i) && FieldsBounded(env, es, fs, i, UINT32 - 1)
    ensures InArray(env, es, fs, i, f, 0, now, now, MarshalFields(env, es, fs, i + 1), MarshalFields(env, es, fs, i))
  {
    assert WholeField(env, es[i], f) && now[i] == Empty(es[i]);
    assert now[i := Empty(es[i])] == now && f.values[..0] == [];
  }

  /** An entry with one value. */
  lemma {:induction false} OneBack(env: Schema, e: Entry, f: Field, rest: seq<byte>)
    requires GoodSchema(env) && Known(env, e) && e.tag < UINT32 && f.One? && Bounded(env, e, f.value, UINT32 - 1)
    ensures TakeValue(env, e, MarshalValue(env, e, f.value) + rest) == ReadBack(env, e, f.value, rest)
    decreases f
  {
    assert f.value < f;
    ValueBack(env, e, f.value, rest);
  }

  /** An element of an array. */
  lemma {:induction false} ElementBack(env: Schema, e: Entry, f: Field, j: nat, rest: seq<byte>)
    requires GoodSchema(env) && Known(env, e) && e.tag < UINT32 && f.Many? && j < |f.values|
    requires Bounded(env, e, f.values[j], UINT32 - 1)
    ensures TakeValue(env, e, MarshalValue(env, e, f.values[j]) + rest) == ReadBack(env, e, f.values[j], rest)
    decreases f
  {
    assert f.values[j] < f;
    ValueBack(env, e, f.values[j], rest);
  }

  lemma {:induction false} AllSplit(env: Schema, es: seq<Entry>, i: nat, vs: seq<Value>, j: nat, rest: seq<byte>,
                                    data: seq<byte>)
    returns (more: seq<byte>)
    requires GoodEntries(env, es) && i < |es| && WholeAll(env, es[i].kind, vs) && j < |vs|
    requires data == MarshalAll(env, es[i], vs, j) + rest
    ensures Known(env, es[i]) && es[i].tag < UINT32 && Whole(env, es[i].kind, vs[j])
    ensures more == MarshalAll(env, es[i], vs, j + 1) + rest && data == MarshalValue(env, es[i], vs[j]) + more
  {
    more := MarshalAll(env, es[i], vs, j + 1) + rest;
    TwoParts(MarshalValue(env, es[i], vs[j]), MarshalAll(env, es[i], vs, j + 1), rest);
  }

  /** What one more element makes of an array. */
  lemma {:induction false} NextElement(es: seq<Entry>, i: nat, f: Field, j: nat, now: seq<Field>)
    returns (next: seq<Field>)
    requires i < |es| == |now| && f.Many? && j < |f.values| && es[i].repeated && now[i] == Many(f.values[..j])
    ensures next == now[i := Put(es[i], now[i], f.values[j])]
    ensures |next| == |now| && next[i] == Many(f.values[..j + 1])
    ensures next[i := Empty(es[i])] == now[i := Empty(es[i])]
  {
    assert f.values[..j] + [f.values[j]] == f.values[..j + 1];
    next := now[i := Many(f.values[..j + 1])];
  }

  /** Reading an array: `j` of its elements are there, the others and the entries after it are still in `data`. */
  predicate InArray(env: Schema, es: seq<Entry>, fs: seq<Field>, i: nat, f: Field, j: nat, now: seq<Field>,
                    base: seq<Field>, rest: seq<byte>, data: seq<byte>)
    requires WholeFields(env, es, fs)
  {
    && i < |fs| && fs[i] == f && f.Many? && es[i].repeated && WholeAll(env, es[i].kind, f.values) && j <= |f.values|
    && |now| == |es| && now[i] == Many(f.values[..j]) && base == now[i := Empty(es[i])] && Upto(es, fs, base, i)
    && rest == MarshalFields(env, es, fs, i + 1)
    && data == MarshalAll(env, es[i], f.values, j) + rest
    && AllBounded(env, es[i], f.values, j, UINT32 - 1) && FieldsBounded(env, es, fs, i + 1, UINT32 - 1)
  }

  /** The elements of an array from `j` on, and then the other entries. */
  lemma {:induction false} ArrayBack(env: Schema, es: seq<Entry>, fs: seq<Field>, i: nat, f: Field, j: nat,
                                     now: seq<Field>, base: seq<Field>, rest: seq<byte>, data: seq<byte>)
    requires GoodSchema(env) && GoodEntries(env, es) && WholeFields(env, es, fs)
    requires InArray(env, es, fs, i, f, j, now, base, rest, data)
    ensures Unmarshal(env, es, data, now) ==
            Outcome(AllBounded(env, es[i], f.values, j, INT_MAX) && FieldsBounded(env, es, fs, i + 1, INT_MAX), fs)
    decreases fs, |fs| - i, 1, |f.values| - j, 1
  {
    if j == |f.values| {
      ArrayEnd(env, es[i], f, rest, data);
      UptoArray(es, fs, now, i);
      FieldsBack(env, es, fs, i + 1, now, rest);
    } else {
      var next, more := ArrayNext(env, es, fs, i, f, j, now, base, rest, data);
      ArrayBack(env, es, fs, i, f, j + 1, next, base, rest, more);
    }
  }

  /** One more element has been read. */
  lemma {:induction false} ArrayNext(env: Schema, es: seq<Entry>, fs: seq<Field>, i: nat, f: Field, j: nat,
                                     now: seq<Field>, base: seq<Field>, rest: seq<byte>, data: seq<byte>)
    returns (next: seq<Field>, more: seq<byte>)
    requires GoodSchema(env) && GoodEntries(env, es) && WholeFields(env, es, fs)
    requires InArray(env, es, fs, i, f, j, now, base, rest, data) && j < |f.values|
    ensures InArray(env, es, fs, i, f, j + 1, next, base, rest, more)
    ensures Unmarshal(env, es, data, now) ==
            if Bounded(env, es[i], f.values[j], INT_MAX) then Unmarshal(env, es, more, next) else None
    decreases fs, |fs| - i, 1, |f.values| - j, 0
  {
    more := AllSplit(env, es, i, f.values, j, rest, data);
    ElementBack(env, es[i], f, j, more);
    next := NextElement(es, i, f, j, now);
    Round(env, es, i, f.values[j], more, now, data, next);
  }

  lemma {:induction false} ArrayEnd(env: Schema, e: Entry, f: Field, rest: seq<byte>, data: seq<byte>)
    requires f.Many? && WholeAll(env, e.kind, f.values) && data == MarshalAll(env, e, f.values, |f.values|) + rest
    ensures data == rest && f.values[..|f.values|] == f.values
  {
  }

  // Nothing else comes back as the message: not a record that was too long, and not a part of the bytes.

  /** The first of two parts is taken off the front. */
  lemma DropPart(data: seq<byte>, more: seq<byte>, a: seq<byte>, b: seq<byte>)
    requires data + more == a + b && |a| <= |data|
    ensures data[..|a|] == a && data[|a|..] + more == b
  {
    assert data[..|a|] == (data + more)[..|a|] == a;
    assert data[|a|..] + more == (data + more)[|a|..] == b;
  }

  lemma {:induction false} TagOff(tag: nat, w: seq<byte>, data: seq<byte>, more: seq<byte>)
    requires tag < UINT32 && data + more == TagBytes(tag) + w && ReadTag(data).Some?
    ensures ReadTag(data) == Some(Read(tag, |TagBytes(tag)|)) && data[|TagBytes(tag)|..] + more == w
  {
    ReadTagMore(data, more, 0);
    TagRoundTrip(tag, w);
    DropPart(data, more, TagBytes(tag), w);
  }

  lemma {:induction false} IntOff(n: nat, w: seq<byte>, data: seq<byte>, more: seq<byte>)
    requires n < UINT32 && data + more == IntBytes(n) + w && ReadInt(data, 8).Some?
    ensures ReadInt(data, 8) == Some(Read(n, |IntBytes(n)|)) && data[|IntBytes(n)|..] + more == w
  {
    Pow16Is();
    ReadIntMore(data, more, 8);
    IntRoundTrip(n, 8, w);
    DropPart(data, more, IntBytes(n), w);
  }

  /** A header at the front of `data`, which more bytes follow. */
  lemma {:induction false} HeaderFront(tag: nat, n: nat, w: seq<byte>, data: seq<byte>, more: seq<byte>)
    returns (k: nat, j: nat)
    requires tag < UINT32 && n < UINT32 && data + more == TagBytes(tag) + (IntBytes(n) + w)
    ensures ReadTag(data).Some? ==> ReadTag(data) == Some(Read(tag, k)) && k <= |data|
    ensures ReadTag(data).Some? && ReadInt(data[k..], 8).Some? ==>
      && ReadInt(data[k..], 8) == Some(Read(n, j)) && k + j <= |data| && data[k + j..] + more == w
  {
    k, j := |TagBytes(tag)|, |IntBytes(n)|;
    if ReadTag(data).Some? {
      TagOff(tag, IntBytes(n) + w, data, more);
      if ReadInt(data[k..], 8).Some? {
        IntOff(n, w, data[k..], more);
        assert data[k..][j..] == data[k + j..];
      }
    }
  }

  lemma SentLength(m: nat) returns (n: nat)
    ensures n == m % UINT32 <= m && n < UINT32
  {
    n := m % UINT32;
  }

  lemma WrappedParts(tag: nat, p: seq<byte>, rest: seq<byte>)
    ensures Wrapped(tag, p) + rest == TagBytes(tag) + (IntBytes(|p| % UINT32) + (p + rest))
  {
    var t, n := TagBytes(tag), IntBytes(|p| % UINT32);
    assert t + n + p + rest == t + (n + (p + rest));
  }

  /** What `TakeRecord` is once the tag and the length have been read. */
  lemma {:induction false} RecordTaken(data: seq<byte>, tag: nat, k: nat, n: nat, j: nat, d: seq<byte>)
    requires TakeRecord(data).value.Some? && n < UINT32
    requires ReadTag(data) == Some(Read(tag, k)) && k <= |data|
    requires ReadInt(data[k..], 8) == Some(Read(n, j)) && k + j <= |data| && d == data[k + j..]
    ensures n <= INT_MAX && n <= |d| && TakeRecord(data) == Taken(Some(Rec(tag, d[..n])), d[n..])
  {
  }

  /** What has been read of a record is there, so its header has been read. */
  lemma {:induction false} RecordHeader(tag: nat, p: seq<byte>, n: nat, rest: seq<byte>, data: seq<byte>,
                                        more: seq<byte>)
    returns (d: seq<byte>)
    requires tag < UINT32 && n == |p| % UINT32 && data + more == Wrapped(tag, p) + rest
    requires TakeRecord(data).value.Some?
    ensures n <= INT_MAX && n <= |d| && d + more == p + rest
    ensures TakeRecord(data) == Taken(Some(Rec(tag, d[..n])), d[n..])
  {
    WrappedParts(tag, p, rest);
    var k, j := HeaderFront(tag, n, p + rest, data, more);
    d := data[k + j..];
    RecordTaken(data, tag, k, n, j, d);
  }

  /** The payload falls into what the length sent covers, `a`, and what it does not, `b`. */
  lemma SentPart(p: seq<byte>, n: nat, rest: seq<byte>, d: seq<byte>, more: seq<byte>)
    returns (a: seq<byte>, b: seq<byte>)
    requires n <= |p| && n <= |d| && d + more == p + rest
    ensures |a| == n && p == a + b && d[..n] == a && d[n..] + more == b + rest
  {
    a, b := p[..n], p[n..];
    assert p + rest == a + (b + rest);
    DropPart(d, more, a, b + rest);
  }

  /** A record at the front of `data`: the length that was sent decides what is read. */
  lemma {:induction false} RecordFront(tag: nat, p: seq<byte>, rest: seq<byte>, data: seq<byte>, more: seq<byte>)
    returns (a: seq<byte>, b: seq<byte>)
    requires tag < UINT32 && data + more == Wrapped(tag, p) + rest && TakeRecord(data).value.Some?
    ensures p == a + b && |a| <= INT_MAX && TakeRecord(data).value == Some(Rec(tag, a))
    ensures TakeRecord(data).rest + more == b + rest
  {
    var n := SentLength(|p|);
    var d := RecordHeader(tag, p, n, rest, data, more);
    a, b := SentPart(p, n, rest, d, more);
  }

  lemma {:induction false} NumberFront(tag: nat, n: nat, max: nat, rest: seq<byte>, data: seq<byte>, more: seq<byte>)
    requires tag < UINT32 && n < UINT64 && data + more == Wrapped(tag, IntBytes(n)) + rest
    requires TakeInt(data, tag, max).value.Some?
    ensures |IntBytes(n)| <= INT_MAX && TakeInt(data, tag, max).rest + more == rest
  {
    SmallInt(n);
    var p := IntBytes(n);
    SmallLength(|p|);
    WrappedParts(tag, p, rest);
    var k, j := HeaderFront(tag, |p|, p + rest, data, more);
    DropPart(data[k + j..], more, p, rest);
  }

  /** The tag of a record at the front of `data`. */
  lemma {:induction false} TagFront(tag: nat, p: seq<byte>, rest: seq<byte>, data: seq<byte>, more: seq<byte>)
    requires tag < UINT32 && data + more == Wrapped(tag, p) + rest && ReadTag(data).Some?
    ensures ReadTag(data).value.number == tag
  {
    WrappedParts(tag, p, rest);
    TagOff(tag, IntBytes(|p| % UINT32) + (p + rest), data, more);
  }

  /** Entries have the kind of field they are declared to have. */
  predicate Shaped(es: seq<Entry>, now: seq<Field>) {
    |now| == |es| && forall k {:trigger now[k]} :: 0 <= k < |now| ==> (es[k].repeated <==> now[k].Many?)
  }

  /** What a field can still become. */
  predicate Extends(a: Field, b: Field) {
    match a
    case Unset => true
    case One(_) => b == a
    case Many(vs) => b.Many? && vs <= b.values
  }

  /** What has been set stays, and arrays only grow. */
  lemma {:induction false} Grows(env: Schema, es: seq<Entry>, data: seq<byte>, now: seq<Field>, fs: seq<Field>, k: nat)
    requires GoodSchema(env) && GoodEntries(env, es) && Shaped(es, now) && k < |es|
    requires Unmarshal(env, es, data, now) == Some(fs)
    ensures |fs| == |es| && Extends(now[k], fs[k])
    decreases |data|
  {
    if data != [] {
      var i := Find(es, ReadTag(data).value.number).value;
      var got := TakeValue(env, es[i], data).value;
      var next := now[i := Put(es[i], now[i], got.value)];
      assert Shaped(es, next);
      Grows(env, es, got.rest, next, fs, k);
    }
  }

  /** One round of the loop, when something is left to read. */
  lemma {:induction false} RoundFront(env: Schema, es: seq<Entry>, i: nat, v: Value, rest: seq<byte>, now: seq<Field>,
                                      data: seq<byte>, more: seq<byte>, fs: seq<Field>)
    returns (w: Value, left: seq<byte>, next: seq<Field>)
    requires GoodSchema(env) && GoodEntries(env, es) && Shaped(es, now) && i < |es| && Whole(env, es[i].kind, v)
    requires data != [] && data + more == MarshalValue(env, es[i], v) + rest
    requires Unmarshal(env, es, data, now) == Some(fs)
    ensures TakeValue(env, es[i], data) == Some(Got(w, left)) && |fs| == |es|
    ensures next == now[i := Put(es[i], now[i], w)] && Shaped(es, next)
    ensures Unmarshal(env, es, left, next) == Some(fs) && Extends(next[i], fs[i])
  {
    TagFront(es[i].tag, PayloadOf(env, es[i], v), rest, data, more);
    FindOwn(env, es, i);
    var got := TakeValue(env, es[i], data).value;
    w, left, next := got.value, got.rest, now[i := Put(es[i], now[i], got.value)];
    Grows(env, es, left, next, fs, i);
  }

  lemma {:induction false} RawFront(env: Schema, e: Entry, v: Value, rest: seq<byte>, data: seq<byte>, more: seq<byte>)
    requires GoodSchema(env) && Known(env, e) && e.tag < UINT32 && Whole(env, e.kind, v) && v.Raw?
    requires data + more == Wrapped(e.tag, v.bytes) + rest
    requires TakeValue(env, e, data).Some? && TakeValue(env, e, data).value.value == v
    ensures |v.bytes| <= INT_MAX && TakeValue(env, e, data).value.rest + more == rest
  {
    var a, b := RecordFront(e.tag, v.bytes, rest, data, more);
    assert |v.bytes| <= |a|;
    assert b == [] && b + rest == rest;
  }

  /** What is read for a message is what comes of the bytes that the length sent covers. */
  lemma {:induction false} MessageFront(env: Schema, e: Entry, fs: seq<Field>, es: seq<Entry>, p: seq<byte>,
                                        rest: seq<byte>, data: seq<byte>, more: seq<byte>)
    returns (a: seq<byte>, b: seq<byte>)
    requires GoodSchema(env) && e.tag < UINT32 && e.kind.Struct? && e.kind.ref in env && es == env[e.kind.ref]
    requires data + more == Wrapped(e.tag, p) + rest
    requires TakeValue(env, e, data).Some? && TakeValue(env, e, data).value.value == Message(fs)
    ensures p == a + b && |a| <= INT_MAX && Unmarshal(env, es, a, Fresh(es)) == Some(fs)
    ensures TakeValue(env, e, data).value.rest + more == b + rest
  {
    a, b := RecordFront(e.tag, p, rest, data, more);
  }

  /** A value that is read as it was written was short, and nothing but its record was used up. */
  lemma {:induction false} ValueFront(env: Schema, e: Entry, v: Value, rest: seq<byte>, data: seq<byte>,
                                      more: seq<byte>)
    requires GoodSchema(env) && Known(env, e) && e.tag < UINT32 && Whole(env, e.kind, v)
    requires data + more == MarshalValue(env, e, v) + rest
    requires TakeValue(env, e, data).Some? && TakeValue(env, e, data).value.value == v
    ensures Bounded(env, e, v, INT_MAX) && TakeValue(env, e, data).value.rest + more == rest
    decreases v
  {
    if v.Num? {
      NumberFront(e.tag, v.number, if e.kind.Int32? then 8 else 16, rest, data, more);
    } else if v.Raw? {
      RawFront(env, e, v, rest, data, more);
    } else {
      var es := env[e.kind.ref];
      NestedFront(env, e, v.fields, es, MarshalFields(env, es, v.fields, 0), rest, data, more);
    }
  }

  lemma {:induction false} NestedFront(env: Schema, e: Entry, fs: seq<Field>, es: seq<Entry>, p: seq<byte>,
                                       rest: seq<byte>, data: seq<byte>, more: seq<byte>)
    requires GoodSchema(env) && e.tag < UINT32 && e.kind.Struct? && e.kind.ref in env && es == env[e.kind.ref]
    requires WholeFields(env, es, fs) && p == MarshalFields(env, es, fs, 0) && data + more == Wrapped(e.tag, p) + rest
    requires TakeValue(env, e, data).Some? && TakeValue(env, e, data).value.value == Message(fs)
    ensures |p| <= INT_MAX && TakeValue(env, e, data).value.rest + more == rest
    decreases fs, |fs| + 1
  {
    var a, b := MessageFront(env, e, fs, es, p, rest, data, more);
    FieldsFront(env, es, fs, 0, Fresh(es), a, b);
    assert b + rest == rest;
  }

  lemma {:induction false} UptoShaped(env: Schema, es: seq<Entry>, fs: seq<Field>, now: seq<Field>, i: nat)
    requires WholeFields(env, es, fs) && Upto(es, fs, now, i)
    ensures Shaped(es, now)
  {
    forall k | 0 <= k < |now| ensures es[k].repeated <==> now[k].Many? { assert WholeField(env, es[k], fs[k]); }
  }

  /** Of the entries from `i` on, only all of their bytes give the message, and only if no record is too long. */
  lemma {:induction false} FieldsFront(env: Schema, es: seq<Entry>, fs: seq<Field>, i: nat, now: seq<Field>,
                                       data: seq<byte>, more: seq<byte>)
    requires GoodSchema(env) && GoodEntries(env, es) && WholeFields(env, es, fs) && i <= |fs| && Upto(es, fs, now, i)
    requires data + more == MarshalFields(env, es, fs, i) && Unmarshal(env, es, data, now) == Some(fs)
    ensures more == [] && FieldsBounded(env, es, fs, i, INT_MAX)
    decreases fs, |fs| - i
  {
    if i < |fs| {
      var f := fs[i];
      var rest := MarshalFields(env, es, fs, i + 1);
      assert WholeField(env, es[i], f) && now[i] == Empty(es[i]);
      UptoNext(es, fs, now, i);
      UptoShaped(env, es, fs, now, i);
      if f.Unset? {
        assert now[i := f] == now;
        FieldsFront(env, es, fs, i + 1, now, data, more);
      } else if f.One? {
        OneFront(env, es, fs, i, f, now, data, more, rest);
      } else {
        assert now[i := Many(f.values[..0])] == now;
        ArrayFront(env, es, fs, i, f, 0, now, data, more, rest);
      }
    }
  }

  /** A field that is not yet what it has to be needs more bytes. */
  lemma {:induction false} SomethingLeft(env: Schema, es: seq<Entry>, data: seq<byte>, now: seq<Field>, fs: seq<Field>,
                                         i: nat)
    requires GoodSchema(env) && GoodEntries(env, es) && |now| == |es| == |fs| && i < |es| && now[i] != fs[i]
    requires Unmarshal(env, es, data, now) == Some(fs)
    ensures data != []
  {
  }

  /** The value of a single entry is the one that was read for it. */
  lemma {:induction false} OneRead(env: Schema, es: seq<Entry>, i: nat, v: Value, now: seq<Field>, fs: seq<Field>,
                                   data: seq<byte>, more: seq<byte>, rest: seq<byte>)
    returns (left: seq<byte>)
    requires GoodSchema(env) && GoodEntries(env, es) && Shaped(es, now) && i < |es| == |fs| && Whole(env, es[i].kind, v)
    requires now[i] == Unset && fs[i] == One(v) && data + more == MarshalValue(env, es[i], v) + rest
    requires Unmarshal(env, es, data, now) == Some(fs)
    ensures TakeValue(env, es[i], data) == Some(Got(v, left))
    ensures Unmarshal(env, es, left, now[i := One(v)]) == Some(fs)
  {
    SomethingLeft(env, es, data, now, fs, i);
    var w, rest', next := RoundFront(env, es, i, v, rest, now, data, more, fs);
    assert next[i] == One(w);
    left := rest';
  }

  lemma {:induction false} OneFront(env: Schema, es: seq<Entry>, fs: seq<Field>, i: nat, f: Field, now: seq<Field>,
                                    data: seq<byte>, more: seq<byte>, rest: seq<byte>)
    requires GoodSchema(env) && GoodEntries(env, es) && WholeFields(env, es, fs) && i < |fs| && |now| == |es|
    requires Shaped(es, now) && fs[i] == f && f.One? && Whole(env, es[i].kind, f.value) && now[i] == Unset
    requires Upto(es, fs, now[i := f], i + 1) && rest == MarshalFields(env, es, fs, i + 1)
    requires data + more == MarshalValue(env, es[i], f.value) + rest && Unmarshal(env, es, data, now) == Some(fs)
    ensures more == [] && Bounded(env, es[i], f.value, INT_MAX) && FieldsBounded(env, es, fs, i + 1, INT_MAX)
    decreases fs, |fs| - i, 0
  {
    var left := OneRead(env, es, i, f.value, now, fs, data, more, rest);
    OwnFront(env, es[i], f, rest, data, more);
    FieldsFront(env, es, fs, i + 1, now[i := f], left, more);
  }

  lemma {:induction false} OwnFront(env: Schema, e: Entry, f: Field, rest: seq<byte>, data: seq<byte>, more: seq<byte>)
    requires GoodSchema(env) && Known(env, e) && e.tag < UINT32 && f.One? && Whole(env, e.kind, f.value)
    requires data + more == MarshalValue(env, e, f.value) + rest
    requires TakeValue(env, e, data).Some? && TakeValue(env, e, data).value.value == f.value
    ensures Bounded(env, e, f.value, INT_MAX) && TakeValue(env, e, data).value.rest + more == rest
    decreases f
  {
    ValueFront(env, e, f.value, rest, data, more);
  }

  lemma {:induction false} ElementFront(env: Schema, e: Entry, f: Field, j: nat, rest: seq<byte>, data: seq<byte>,
                                        more: seq<byte>)
    requires GoodSchema(env) && Known(env, e) && e.tag < UINT32 && f.Many? && j < |f.values|
    requires Whole(env, e.kind, f.values[j]) && data + more == MarshalValue(env, e, f.values[j]) + rest
    requires TakeValue(env, e, data).Some? && TakeValue(env, e, data).value.value == f.values[j]
    ensures Bounded(env, e, f.values[j], INT_MAX) && TakeValue(env, e, data).value.rest + more == rest
    decreases f
  {
    ValueFront(env, e, f.values[j], rest, data, more);
  }

  /** The next element of an array is the one that was read for it. */
  lemma {:induction false} ElementRead(env: Schema, es: seq<Entry>, i: nat, f: Field, j: nat, now: seq<Field>,
                                       fs: seq<Field>, data: seq<byte>, more: seq<byte>, rest: seq<byte>)
    returns (left: seq<byte>, next: seq<Field>)
    requires GoodSchema(env) && GoodEntries(env, es) && Shaped(es, now) && i < |es| == |fs| && fs[i] == f && f.Many?
    requires j < |f.values| && now[i] == Many(f.values[..j]) && Whole(env, es[i].kind, f.values[j])
    requires data + more == MarshalValue(env, es[i], f.values[j]) + rest && Unmarshal(env, es, data, now) == Some(fs)
    ensures TakeValue(env, es[i], data) == Some(Got(f.values[j], left)) && Shaped(es, next)
    ensures Unmarshal(env, es, left, next) == Some(fs)
    ensures next[i] == Many(f.values[..j + 1]) && next[i := Empty(es[i])] == now[i := Empty(es[i])]
  {
    assert |now[i].values| == j;
    SomethingLeft(env, es, data, now, fs, i);
    var w, rest', after := RoundFront(env, es, i, f.values[j], rest, now, data, more, fs);
    assert after[i].values == f.values[..j] + [w];
    assert w == f.values[j];
    next := NextElement(es, i, f, j, now);
    left := rest';
  }

  lemma {:induction false} ArrayFront(env: Schema, es: seq<Entry>, fs: seq<Field>, i: nat, f: Field, j: nat,
                                      now: seq<Field>, data: seq<byte>, more: seq<byte>, rest: seq<byte>)
    requires GoodSchema(env) && GoodEntries(env, es) && WholeFields(env, es, fs) && i < |fs| && Shaped(es, now)
    requires fs[i] == f && f.Many? && WholeAll(env, es[i].kind, f.values) && rest == MarshalFields(env, es, fs, i + 1)
    requires j <= |f.values| && now[i] == Many(f.values[..j]) && Upto(es, fs, now[i := Empty(es[i])], i)
    requires data + more == MarshalAll(env, es[i], f.values, j) + rest && Unmarshal(env, es, data, now) == Some(fs)
    ensures more == [] && AllBounded(env, es[i], f.values, j, INT_MAX) && FieldsBounded(env, es, fs, i + 1, INT_MAX)
    decreases fs, |fs| - i, 0, |f.values| - j
  {
    if j == |f.values| {
      ArrayEnd(env, es[i], f, rest, data + more);
      UptoArray(es, fs, now, i);
      FieldsFront(env, es, fs, i + 1, now, data, more);
    } else {
      var tail := AllSplit(env, es, i, f.values, j, rest, data + more);
      var left, next := ElementRead(env, es, i, f, j, now, fs, data, more, tail);
      ElementFront(env, es[i], f, j, tail, data, more);
      ArrayFront(env, es, fs, i, f, j + 1, next, left, more, rest);
    }
  }

  lemma {:induction false} AllLooser(env: Schema, e: Entry, vs: seq<Value>, j: nat)
    requires j <= |vs| && AllBounded(env, e, vs, j, INT_MAX)
    ensures AllBounded(env, e, vs, j, UINT32 - 1)
    decreases |vs| - j
  {
    if j < |vs| { AllLooser(env, e, vs, j + 1); }
  }

  lemma {:induction false} Looser(env: Schema, es: seq<Entry>, fs: seq<Field>, i: nat)
    requires |fs| == |es| && i <= |fs| && FieldsBounded(env, es, fs, i, INT_MAX)
    ensures FieldsBounded(env, es, fs, i, UINT32 - 1)
    decreases |fs| - i
  {
    if i < |fs| {
      if fs[i].Many? { AllLooser(env, es[i], fs[i].values, 0); }
      Looser(env, es, fs, i + 1);
    }
  }

  /**
   * For every schema and every whole message, the emitted unmarshal code applied to what the
   * emitted marshal code writes gives that message back and uses up the buffer, if and only if no
   * record has 2^31 bytes or more. It fails if one has, and all lengths could be sent in 32 bits.
   */
  lemma {:induction false} SchemaRoundTrip(env: Schema, name: string, fs: seq<Field>)
    requires GoodSchema(env) && name in env && WholeFields(env, env[name], fs)
    ensures var r := Unmarshal(env, env[name], MarshalFields(env, env[name], fs, 0), Fresh(env[name]));
      && (r == Some(fs) <==> FieldsBounded(env, env[name], fs, 0, INT_MAX))
      && (FieldsBounded(env, env[name], fs, 0, UINT32 - 1) ==>
            r == Outcome(FieldsBounded(env, env[name], fs, 0, INT_MAX), fs))
  {
    var es := env[name];
    var data := MarshalFields(env, es, fs, 0);
    if FieldsBounded(env, es, fs, 0, INT_MAX) { Looser(env, es, fs, 0); }
    if FieldsBounded(env, es, fs, 0, UINT32 - 1) { FieldsBack(env, es, fs, 0, Fresh(es), data); }
    if Unmarshal(env, es, data, Fresh(es)) == Some(fs) {
      assert data + [] == data;
      FieldsFront(env, es, fs, 0, Fresh(es), data, []);
    }
  }

  /** A part of the bytes of a message, short of all of them, never gives the message. */
  lemma {:induction false} NoPart(env: Schema, es: seq<Entry>, fs: seq<Field>, part: seq<byte>, more: seq<byte>)
    requires GoodSchema(env) && GoodEntries(env, es) && WholeFields(env, es, fs)
    requires part + more == MarshalFields(env, es, fs, 0) && more != []
    ensures Unmarshal(env, es, part, Fresh(es)) != Some(fs)
  {
    if Unmarshal(env, es, part, Fresh(es)) == Some(fs) {
      FieldsFront(env, es, fs, 0, Fresh(es), part, more);
    }
  }

  // Whatever the bytes, what is read is a whole message.

  /** Fields of the declared kinds; some may still be missing. */
  predicate Typed(env: Schema, es: seq<Entry>, now: seq<Field>) {
    |now| == |es| && forall k {:trigger now[k]} :: 0 <= k < |now| ==> TypedField(env, es[k], now[k])
  }

  predicate TypedField(env: Schema, e: Entry, f: Field) {
    match f
    case Unset => !e.repeated
    case One(v) => !e.repeated && Whole(env, e.kind, v)
    case Many(vs) => e.repeated && WholeAll(env, e.kind, vs)
  }

  lemma {:induction false} NumberTyped(data: seq<byte>, tag: nat, max: nat)
    requires TakeInt(data, tag, max).value.Some?
    ensures TakeInt(data, tag, max).value.value.number < Pow16(max)
  {
    var k := ReadTag(data).value.length;
    var j := ReadInt(data[k..], 8).value.length;
    NumberFits(data[k + j..], max);
  }

  /** A value that is read fits its kind. */
  lemma {:induction false} ValueWhole(env: Schema, e: Entry, data: seq<byte>)
    requires GoodSchema(env) && Known(env, e) && TakeValue(env, e, data).Some?
    ensures Whole(env, e.kind, TakeValue(env, e, data).value.value)
    decreases |data|, 0
  {
    Pow16Is();
    if e.kind.Int32? {
      NumberTyped(data, e.tag, 8);
    } else if e.kind.Int64? {
      NumberTyped(data, e.tag, 16);
    } else if e.kind.Struct? {
      var es := env[e.kind.ref];
      RecordShorter(data);
      FieldsWhole(env, es, TakeRecord(data).value.value.payload, Fresh(es));
    }
  }

  lemma {:induction false} PutTyped(env: Schema, es: seq<Entry>, now: seq<Field>, i: nat, v: Value)
    requires Typed(env, es, now) && i < |es| && Whole(env, es[i].kind, v)
    ensures Typed(env, es, now[i := Put(es[i], now[i], v)])
  {
    assert TypedField(env, es[i], now[i]);
  }

  /** What is typed and passes the check is whole. */
  lemma {:induction false} CompleteWhole(env: Schema, es: seq<Entry>, now: seq<Field>)
    requires Typed(env, es, now) && CompleteFields(env, es, now)
    ensures WholeFields(env, es, now)
  {
    forall k | 0 <= k < |now| ensures WholeField(env, es[k], now[k]) {
      assert TypedField(env, es[k], now[k]) && (Optional(es[k]) || IsSet(now[k]));
    }
  }

  // The completeness check by itself: among values of the right types it finds exactly those that can be marshalled.

  /** The value has the type the generator declares for the kind, all the way down; entries may be missing. */
  predicate Formed(env: Schema, kind: Kind, v: Value)
    decreases v
  {
    if kind.Struct? then v.Message? && kind.ref in env && FormedFields(env, env[kind.ref], v.fields)
    else Whole(env, kind, v)
  }

  predicate FormedFields(env: Schema, es: seq<Entry>, fs: seq<Field>)
    decreases fs
  {
    |fs| == |es| && forall i {:trigger fs[i]} :: 0 <= i < |fs| ==> FormedField(env, es[i], fs[i])
  }

  predicate FormedField(env: Schema, e: Entry, f: Field)
    decreases f
  {
    match f
    case Unset => !e.repeated
    case One(v) => !e.repeated && Formed(env, e.kind, v)
    case Many(vs) => e.repeated && FormedAll(env, e.kind, vs)
  }

  predicate FormedAll(env: Schema, kind: Kind, vs: seq<Value>)
    decreases vs
  {
    forall i {:trigger vs[i]} :: 0 <= i < |vs| ==> Formed(env, kind, vs[i])
  }

  /** The emitted `_complete` passes exactly the messages with every entry set that has to be, in nested ones too. */
  lemma {:induction false} CompleteExact(env: Schema, es: seq<Entry>, fs: seq<Field>)
    requires FormedFields(env, es, fs)
    ensures CompleteFields(env, es, fs) <==> WholeFields(env, es, fs)
    decreases fs
  {
    if WholeFields(env, es, fs) { WholeComplete(env, es, fs); }
    if CompleteFields(env, es, fs) {
      forall i | 0 <= i < |fs| ensures WholeField(env, es[i], fs[i]) {
        assert FormedField(env, es[i], fs[i]) && (Optional(es[i]) || IsSet(fs[i]));
        FieldExact(env, es[i], fs[i]);
      }
    }
  }

  lemma {:induction false} FieldExact(env: Schema, e: Entry, f: Field)
    requires FormedField(env, e, f) && CompleteField(env, e, f) && (Optional(e) || IsSet(f))
    ensures WholeField(env, e, f)
    decreases f
  {
    match f
    case Unset =>
    case One(v) => ValueExact(env, e, v);
    case Many(vs) =>
      forall i | 0 <= i < |vs| ensures Whole(env, e.kind, vs[i]) { ValueExact(env, e, vs[i]); }
  }

  lemma {:induction false} ValueExact(env: Schema, e: Entry, v: Value)
    requires Formed(env, e.kind, v) && CompleteValue(env, e, v)
    ensures Whole(env, e.kind, v)
    decreases v
  {
    if e.kind.Struct? { CompleteExact(env, env[e.kind.ref], v.fields); }
  }

  lemma {:induction false} FieldsWhole(env: Schema, es: seq<Entry>, data: seq<byte>, now: seq<Field>)
    requires GoodSchema(env) && GoodEntries(env, es) && Typed(env, es, now) && Unmarshal(env, es, data, now).Some?
    ensures WholeFields(env, es, Unmarshal(env, es, data, now).value)
    decreases |data|, 1
  {
    if data == [] {
      CompleteWhole(env, es, now);
    } else {
      var i := Find(es, ReadTag(data).value.number).value;
      var got := TakeValue(env, es[i], data).value;
      ValueWhole(env, es[i], data);
      PutTyped(env, es, now, i, got.value);
      FieldsWhole(env, es, got.rest, now[i := Put(es[i], now[i], got.value)]);
    }
  }

  /**
   * For any bytes at all: what the emitted unmarshal code accepts is a whole message, with every value of its kind and
   * every entry set that has to be, in nested messages too, and marshalling and unmarshalling it again gives the same
   * unless a record is too long.
   */
  lemma {:induction false} UnmarshalWhole(env: Schema, name: string, data: seq<byte>, fs: seq<Field>)
    requires GoodSchema(env) && name in env && Unmarshal(env, env[name], data, Fresh(env[name])) == Some(fs)
    ensures WholeFields(env, env[name], fs)
    ensures FieldsBounded(env, env[name], fs, 0, INT_MAX) ==>
      Unmarshal(env, env[name], MarshalFields(env, env[name], fs, 0), Fresh(env[name])) == Some(fs)
  {
    FieldsWhole(env, env[name], data, Fresh(env[name]));
    SchemaRoundTrip(env, name, fs);
  }

  /** The first record of what is accepted has a tag of the struct. */
  lemma {:induction false} KnownTag(env: Schema, es: seq<Entry>, data: seq<byte>, now: seq<Field>) returns (i: nat)
    requires GoodSchema(env) && GoodEntries(env, es) && |now| == |es| && data != []
    requires Unmarshal(env, es, data, now).Some?
    ensures i < |es| && ReadTag(data).Some? && ReadTag(data).value.number == es[i].tag
    ensures es[i].repeated || !IsSet(now[i])
  {
    i := Find(es, ReadTag(data).value.number).value;
  }

  /** The emitted `_unmarshal` as it runs: it drains the buffer and sets the fields of a new message. */
  method UnmarshalMessage(env: Schema, es: seq<Entry>, input: seq<byte>) returns (r: Option<seq<Field>>)
    requires GoodSchema(env) && GoodEntries(env, es)
    ensures r == Unmarshal(env, es, input, Fresh(es))
  {
    var data, fields := input, Fresh(es);
    while |data| > 0
      invariant |fields| == |es| && Unmarshal(env, es, input, Fresh(es)) == Unmarshal(env, es, data, fields)
      decreases |data|
    {
      var tag := ReadTag(data);
      if tag.None? { return None; }
      var entry := Find(es, tag.value.number);
      if entry.None? { return None; }
      var i := entry.value;
      if !es[i].repeated && IsSet(fields[i]) { return None; }
      var got := TakeValue(env, es[i], data);
      if got.None? { return None; }
      fields := fields[i := Put(es[i], fields[i], got.value.value)];
      data := got.value.rest;
    }
    if !CompleteFields(env, es, fields) { return None; }
    return Some(fields);
  }

  /** A struct as the generator builds it up: its entries and the tags they have taken. */
  class StructDef {
    var entries: seq<Entry>
    var tags: set<nat>

    ghost predicate Valid()
      reads this
    {
      && (forall i {:trigger entries[i]} :: 0 <= i < |entries| ==> entries[i].tag in tags)
      && (forall t :: t in tags ==> exists i :: 0 <= i < |entries| && entries[i].tag == t)
      && (forall i, j {:trigger Differ(entries, i, j)} :: 0 <= i < j < |entries| ==> Differ(entries, i, j))
    }

    constructor ()
      ensures Valid() && entries == []
    {
      entries, tags := [], {};
    }

    /** `AddEntry`: an entry is turned away exactly when another one has its tag. */
    method AddEntry(e: Entry) returns (ok: bool)
      requires Valid()
      modifies this
      ensures Valid()
      ensures ok <==> forall i :: 0 <= i < |old(entries)| ==> old(entries)[i].tag != e.tag
      ensures entries == if ok then old(entries) + [e] else old(entries)
    {
      if e.tag in tags { return false; }
      forall i, j | 0 <= i < j < |entries| + 1 ensures Differ(entries + [e], i, j) {
        if j < |entries| { assert Differ(entries, i, j); } else { assert entries[i].tag in tags; }
      }
      entries, tags := entries + [e], tags + {e.tag};
      assert entries[|entries| - 1].tag == e.tag;
      forall t | t in tags ensures exists i :: 0 <= i < |entries| && entries[i].tag == t {
        if t != e.tag {
          var i :| 0 <= i < |old(entries)| && old(entries)[i].tag == t;
          assert entries[i].tag == t;
        }
      }
      return true;
    }
  }
}
