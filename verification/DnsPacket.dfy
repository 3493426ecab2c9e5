/** Whole packets that share one label table: every name reads back where it was written. */
module DnsPackets {
  import opened Octets
  import opened DnsNames
  import opened Options

  /** A name, or bytes of another kind: fixed fields, lengths, addresses. */
  datatype Item = NameItem(name: Name) | RawItem(bytes: seq<byte>)

  /** A packet under construction, with where each name was put. */
  datatype Packet = Packet(bytes: seq<byte>, table: seq<Entry>, names: seq<Placed>)
  datatype Placed = Placed(name: Name, start: nat, end: nat)

  /** `dnsname_to_labels` as a whole: names over 255 bytes are turned away. */
  function EncodeName(n: Name, table: Option<seq<Entry>>, j: nat, bufLen: nat): Encoded {
    if |n| > 255 then Failed(-2, table) else Encode(n, table, j, bufLen)
  }

  function Append(p: Packet, item: Item, bufLen: nat): Option<Packet> {
    match item
    case RawItem(bytes) =>
      if |p.bytes| + |bytes| > bufLen then None else Some(p.(bytes := p.bytes + bytes))
    case NameItem(n) =>
      match EncodeName(n, Some(p.table), |p.bytes|, bufLen)
      case Failed(_, _) => None
      case Done(out, table) =>
        if table.None? then None else
          Some(Packet(p.bytes + out, table.value, p.names + [Placed(n, |p.bytes|, |p.bytes + out|)]))
  }

  function Build(items: seq<Item>, bufLen: nat): Option<Packet> {
    if items == [] then Some(Packet([], [], []))
    else match Build(items[..|items| - 1], bufLen)
      case None => None
      case Some(p) => Append(p, items[|items| - 1], bufLen)
  }

  ghost predicate PlacedOk(bytes: seq<byte>, p: Placed) {
    && p.start < p.end <= |bytes|
    && Decode(bytes, |bytes|, p.start) == Some(Labels(p.name))
    && End(bytes, |bytes|, p.start) == p.end
  }

  ghost predicate NamesOk(bytes: seq<byte>, names: seq<Placed>) {
    forall i :: 0 <= i < |names| ==> PlacedOk(bytes, names[i])
  }

  ghost predicate PacketOk(p: Packet) {
    NamesOk(p.bytes, p.names) && TableOkAll(p.bytes, p.table)
  }

  ghost predicate TableOkAll(bytes: seq<byte>, table: seq<Entry>) {
    forall i :: 0 <= i < |table| ==> EntryOk(bytes, table[i])
  }

  predicate NamesWellFormed(items: seq<Item>) {
    forall i :: 0 <= i < |items| && items[i].NameItem? ==> WellFormed(items[i].name)
  }

  lemma NamesGrow(bytes: seq<byte>, more: seq<byte>, names: seq<Placed>)
    requires NamesOk(bytes, names)
    ensures NamesOk(bytes + more, names)
  {
    forall i | 0 <= i < |names| ensures PlacedOk(bytes + more, names[i]) {
      assert PlacedOk(bytes, names[i]);
      DecodeStable(bytes, bytes + more, |bytes|, |bytes + more|, names[i].start);
    }
  }

  lemma TableGrowsAll(bytes: seq<byte>, more: seq<byte>, table: seq<Entry>)
    requires TableOkAll(bytes, table)
    ensures TableOkAll(bytes + more, table)
  {
    forall i | 0 <= i < |table| ensures EntryOk(bytes + more, table[i]) {
      assert EntryOk(bytes, table[i]);
      DecodeStable(bytes, bytes + more, |bytes|, |bytes + more|, table[i].pos);
    }
  }

  lemma PlaceName(bytes: seq<byte>, out: seq<byte>, names: seq<Placed>, n: Name)
    requires NamesOk(bytes, names) && out != [] && Reads(bytes, out, n)
    ensures NamesOk(bytes + out, names + [Placed(n, |bytes|, |bytes + out|)])
  {
    NamesGrow(bytes, out, names);
    assert PlacedOk(bytes + out, Placed(n, |bytes|, |bytes + out|));
  }

  lemma PlaceEntries(bytes: seq<byte>, out: seq<byte>, table: seq<Entry>, after: seq<Entry>)
    requires TableOkAll(bytes, table) && Extends(bytes + out, table, after)
    ensures TableOkAll(bytes + out, after)
  {
    TableGrowsAll(bytes, out, table);
    forall i | 0 <= i < |after| ensures EntryOk(bytes + out, after[i]) {
      if i < |table| { assert after[i] == table[i] && EntryOk(bytes + out, table[i]); }
    }
  }

  lemma AppendOk(p: Packet, item: Item, bufLen: nat)
    requires PacketOk(p) && bufLen <= POINTER_LIMIT && (item.NameItem? ==> WellFormed(item.name))
    requires Append(p, item, bufLen).Some?
    ensures PacketOk(Append(p, item, bufLen).value)
  {
    match item
    case RawItem(bytes) =>
      NamesGrow(p.bytes, bytes, p.names);
      TableGrowsAll(p.bytes, bytes, p.table);
    case NameItem(n) =>
      EncodeSound(p.bytes, n, Some(p.table), bufLen);
      var e := Encode(n, Some(p.table), |p.bytes|, bufLen);
      PlaceName(p.bytes, e.bytes, p.names, n);
      PlaceEntries(p.bytes, e.bytes, p.table, e.table.value);
  }

  /** Every name of a packet, however compressed, reads back where it was put, with its end. */
  lemma {:induction false} BuildOk(items: seq<Item>, bufLen: nat)
    requires NamesWellFormed(items) && bufLen <= POINTER_LIMIT && Build(items, bufLen).Some?
    ensures PacketOk(Build(items, bufLen).value)
  {
    if items != [] {
      BuildOk(items[..|items| - 1], bufLen);
      AppendOk(Build(items[..|items| - 1], bufLen).value, items[|items| - 1], bufLen);
    }
  }

  function NamesIn(items: seq<Item>): seq<Name> {
    if items == [] then []
    else NamesIn(items[..|items| - 1]) + match items[|items| - 1] case NameItem(n) => [n] case RawItem(_) => []
  }

  function Written(names: seq<Placed>): seq<Name> {
    if names == [] then [] else Written(names[..|names| - 1]) + [names[|names| - 1].name]
  }

  /** No name is left out or put in another's place. */
  lemma {:induction false} BuildNames(items: seq<Item>, bufLen: nat)
    requires Build(items, bufLen).Some?
    ensures Written(Build(items, bufLen).value.names) == NamesIn(items)
  {
    if items != [] {
      BuildNames(items[..|items| - 1], bufLen);
      var p := Build(items[..|items| - 1], bufLen).value;
      var names := Build(items, bufLen).value.names;
      if items[|items| - 1].NameItem? { assert names[..|names| - 1] == p.names; }
    }
  }
}
