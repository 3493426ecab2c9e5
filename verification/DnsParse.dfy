/** Reading a name from any packet, after `name_parse` of `evdns.c`. */
module DnsParsing {
  import opened Octets
  import opened DnsNames
  import opened DnsPackets
  import opened Options

  /** The labels from `pos` on, taking at most `jumps` pointers, wherever they lead. */
  ghost function Walk(packet: seq<byte>, pos: nat, jumps: nat): Option<seq<Name>>
    decreases jumps, |packet| - pos
  {
    if pos >= |packet| then None
    else if packet[pos] == 0 then Some([])
    else if packet[pos] >= 64 then
      if pos + 1 >= |packet| || jumps == 0 then None
      else
        var target := Target(packet[pos], packet[pos + 1]);
        if target >= |packet| then None else Walk(packet, target, jumps - 1)
    else
      var k := pos + 1 + packet[pos];
      if k > |packet| then None else Before(packet[pos + 1..k], Walk(packet, k, jumps))
  }

  function Before(lab: Name, rest: Option<seq<Name>>): Option<seq<Name>> {
    if rest.None? then None else Some([lab] + rest.value)
  }

  /** How many pointers a name that can be read takes. */
  ghost function Jumps(packet: seq<byte>, pos: nat, jumps: nat): (k: nat)
    requires Walk(packet, pos, jumps).Some?
    ensures k <= jumps
    decreases jumps, |packet| - pos
  {
    if packet[pos] == 0 then 0
    else if packet[pos] >= 64 then 1 + Jumps(packet, Target(packet[pos], packet[pos + 1]), jumps - 1)
    else Jumps(packet, pos + 1 + packet[pos], jumps)
  }

  /** Spare jumps change nothing, and exactly the jumps taken are enough. */
  lemma {:induction false} WalkExact(packet: seq<byte>, pos: nat, jumps: nat, more: nat)
    requires Walk(packet, pos, jumps).Some? && Jumps(packet, pos, jumps) <= more
    ensures Walk(packet, pos, more) == Walk(packet, pos, jumps)
    ensures Jumps(packet, pos, more) == Jumps(packet, pos, jumps)
    decreases jumps, |packet| - pos
  {
    if packet[pos] >= 64 {
      WalkExact(packet, Target(packet[pos], packet[pos + 1]), jumps - 1, more - 1);
    } else if packet[pos] != 0 {
      WalkExact(packet, pos + 1 + packet[pos], jumps, more);
    }
  }

  /** The pointer targets of one name are all different: each needs fewer jumps than the last. */
  lemma {:induction false} Visited(packet: seq<byte>, pos: nat, jumps: nat) returns (s: set<int>)
    requires Walk(packet, pos, jumps).Some?
    ensures |s| == Jumps(packet, pos, jumps)
    ensures forall x :: x in s ==> 0 <= x < |packet| && Walk(packet, x, jumps).Some?
    ensures forall x :: x in s ==> Jumps(packet, x, jumps) < Jumps(packet, pos, jumps)
    decreases jumps, |packet| - pos
  {
    if packet[pos] == 0 {
      s := {};
    } else if packet[pos] >= 64 {
      var target := Target(packet[pos], packet[pos + 1]);
      var s' := Visited(packet, target, jumps - 1);
      forall x | x in s' + {target}
        ensures 0 <= x < |packet| && Walk(packet, x, jumps).Some?
        ensures Jumps(packet, x, jumps) == Jumps(packet, x, jumps - 1)
      {
        WalkExact(packet, x, jumps - 1, jumps);
      }
      assert target !in s';
      s := s' + {target};
    } else {
      s := Visited(packet, pos + 1 + packet[pos], jumps);
    }
  }

  ghost function Upto(n: nat): (s: set<int>)
    ensures |s| == n && forall x :: x in s <==> 0 <= x < n
  {
    if n == 0 then {} else Upto(n - 1) + {n - 1}
  }

  lemma {:induction false} SubsetSize<T>(a: set<T>, b: set<T>)
    requires a <= b
    ensures |a| <= |b|
  {
    if a != {} {
      var x :| x in a;
      SubsetSize(a - {x}, b - {x});
    }
  }

  /**
   * The bound on pointers turns away loops and nothing else: a name that can be read with any
   * number of jumps can be read with as many as the packet has bytes.
   */
  lemma JumpBound(packet: seq<byte>, pos: nat, jumps: nat)
    requires Walk(packet, pos, jumps).Some?
    ensures Walk(packet, pos, |packet|) == Walk(packet, pos, jumps)
  {
    var s := Visited(packet, pos, jumps);
    SubsetSize(s, Upto(|packet|));
    WalkExact(packet, pos, jumps, |packet|);
  }

  /** A name whose pointers all go backwards needs no more jumps than it has bytes before it. */
  lemma {:induction false} DecodeWalks(packet: seq<byte>, limit: nat, pos: nat)
    requires limit <= |packet| && Decode(packet, limit, pos).Some?
    ensures Walk(packet, pos, limit) == Decode(packet, limit, pos)
    decreases limit, limit - pos
  {
    if packet[pos] >= 64 {
      var target := Target(packet[pos], packet[pos + 1]);
      DecodeWalks(packet, pos, target);
      WalkExact(packet, target, pos, limit - 1);
    } else if packet[pos] != 0 {
      DecodeWalks(packet, limit, pos + 1 + packet[pos]);
    }
  }

  /** The text of a name: its labels with dots between. */
  function Join(ls: seq<Name>): Name {
    if ls == [] then [] else if |ls| == 1 then ls[0] else ls[0] + [DOT] + Join(ls[1..])
  }

  /** `name` carried on by one more label. */
  function Glue(name: Name, lab: Name): Name {
    if name == [] then lab else name + [DOT] + lab
  }

  ghost predicate Full(ls: seq<Name>) {
    forall i :: 0 <= i < |ls| ==> ls[i] != []
  }

  lemma {:induction false} JoinSnoc(ls: seq<Name>, lab: Name)
    requires Full(ls)
    ensures Join(ls + [lab]) == Glue(Join(ls), lab)
  {
    if |ls| == 1 {
      assert (ls + [lab])[1..] == [lab];
    } else if |ls| > 1 {
      JoinSnoc(ls[1..], lab);
      assert (ls + [lab])[1..] == ls[1..] + [lab];
    }
  }

  /** More labels never make the text shorter. */
  lemma {:induction false} JoinLonger(ls: seq<Name>, more: seq<Name>)
    requires Full(ls) && Full(more)
    ensures |Join(ls)| <= |Join(ls + more)|
    decreases |more|
  {
    if more == [] {
      assert ls + more == ls;
    } else {
      JoinSnoc(ls, more[0]);
      JoinLonger(ls + [more[0]], more[1..]);
      assert ls + [more[0]] + more[1..] == ls + more;
    }
  }

  lemma {:induction false} WalkFull(packet: seq<byte>, pos: nat, jumps: nat)
    requires Walk(packet, pos, jumps).Some?
    ensures Full(Walk(packet, pos, jumps).value)
    decreases jumps, |packet| - pos
  {
    if packet[pos] >= 64 {
      WalkFull(packet, Target(packet[pos], packet[pos + 1]), jumps - 1);
    } else if packet[pos] != 0 {
      WalkFull(packet, pos + 1 + packet[pos], jumps);
    }
  }

  /** The text of a name without the dot it may end in. */
  function Undotted(n: Name): Name {
    if n != [] && n[|n| - 1] == DOT then n[..|n| - 1] else n
  }

  lemma UndottedStep(lab: Name, rest: Name)
    ensures Undotted(lab + [DOT] + rest) == if rest == [] then lab else lab + [DOT] + Undotted(rest)
  {
    var n := lab + [DOT] + rest;
    if rest == [] {
      assert n[..|n| - 1] == lab;
    } else if rest[|rest| - 1] == DOT {
      assert n[..|n| - 1] == lab + [DOT] + rest[..|rest| - 1];
    }
  }

  lemma JoinCons(lab: Name, ls: seq<Name>)
    ensures Join([lab] + ls) == if ls == [] then lab else lab + [DOT] + Join(ls)
  {
    assert ([lab] + ls)[1..] == ls;
  }

  /** The text that comes back is the name that was given, less a final dot. */
  lemma {:induction false} JoinLabels(n: Name)
    requires WellFormed(n)
    ensures Join(Labels(n)) == Undotted(n)
    decreases |n|
  {
    var d := LabelEnd(n);
    if n == [] {
    } else if d == |n| {
      assert n[..d] == n && Labels(n) == [n];
      DotFromFirst(n, 0, |n| - 1);
    } else {
      var lab, rest := n[..d], n[d + 1..];
      JoinLabels(rest);
      assert n == lab + [DOT] + rest;
      JoinCons(lab, Labels(rest));
      UndottedStep(lab, rest);
    }
  }

  /** What is left to read, behind the labels read so far. */
  ghost function After(acc: seq<Name>, rest: Option<seq<Name>>): Option<seq<Name>> {
    if rest.None? then None else Some(acc + rest.value)
  }

  /** The name read, and the index behind it in the packet. */
  datatype Parsed = Parsed(name: Name, end: nat)

  /** What `name_parse` should return for room of `outLen` bytes, the closing zero included. */
  ghost predicate ParsedFrom(packet: seq<byte>, idx: nat, outLen: int, r: Option<Parsed>) {
    var walk := Walk(packet, idx, |packet|);
    && (r.Some? <==> walk.Some? && |Join(walk.value)| < outLen)
    && (r.Some? ==> r.value.name == Join(walk.value))
    && (r.Some? ==> idx < r.value.end == End(packet, |packet|, idx) <= |packet|)
  }

  lemma AfterNone(rest: Option<seq<Name>>)
    ensures After([], rest) == rest
  {
    if rest.Some? { assert [] + rest.value == rest.value; }
  }

  lemma AfterOne(acc: seq<Name>, lab: Name, rest: Option<seq<Name>>)
    requires Full(acc)
    ensures After(acc, Before(lab, rest)) == After(acc + [lab], rest)
    ensures Join(acc + [lab]) == Glue(Join(acc), lab)
  {
    JoinSnoc(acc, lab);
    if rest.Some? { assert acc + ([lab] + rest.value) == acc + [lab] + rest.value; }
  }

  /** The text so far is too long already, whatever comes. */
  lemma TooLong(outLen: int, acc: seq<Name>, lab: Name, rest: Option<seq<Name>>)
    requires Full(acc) && lab != [] && |Glue(Join(acc), lab)| >= outLen && (rest.Some? ==> Full(rest.value))
    ensures var all := After(acc, Before(lab, rest)); all.Some? ==> |Join(all.value)| >= outLen
  {
    AfterOne(acc, lab, rest);
    if rest.Some? { JoinLonger(acc + [lab], rest.value); }
  }

  /** How far the name reaches, once it is known that it can be read that far. */
  ghost predicate Reached(packet: seq<byte>, idx: nat, j: nat, nameEnd: Option<nat>) {
    match nameEnd
    case None => idx <= j && End(packet, |packet|, idx) == End(packet, |packet|, j)
    case Some(e) => idx < e == End(packet, |packet|, idx) <= |packet|
  }

  /** Where the loop stands: the labels read are the start of the walk, the rest begins at `j`. */
  ghost predicate Reading(packet: seq<byte>, idx: nat, acc: seq<Name>, name: Name, j: nat, jumps: nat) {
    && Full(acc) && name == Join(acc)
    && Walk(packet, idx, |packet|) == After(acc, Walk(packet, j, jumps))
  }

  /** A walk that fails here fails as a whole. */
  lemma Fails(packet: seq<byte>, idx: nat, outLen: int, acc: seq<Name>, name: Name, j: nat, jumps: nat)
    requires Reading(packet, idx, acc, name, j, jumps) && Walk(packet, j, jumps).None?
    ensures ParsedFrom(packet, idx, outLen, None)
  {
  }

  /** The outcome once all labels are read. */
  lemma Ended(packet: seq<byte>, idx: nat, outLen: int, acc: seq<Name>, name: Name, j: nat, nameEnd: Option<nat>,
              jumps: nat)
    requires j < |packet| && packet[j] == 0 && Reached(packet, idx, j, nameEnd)
    requires Reading(packet, idx, acc, name, j, jumps)
    ensures ParsedFrom(packet, idx, outLen,
      if |name| >= outLen then None else Some(Parsed(name, if nameEnd.None? then j + 1 else nameEnd.value)))
  {
    assert acc + [] == acc;
  }

  /** A pointer on: the end is fixed at the first one. */
  lemma PointerStep(packet: seq<byte>, idx: nat, acc: seq<Name>, name: Name, j: nat, nameEnd: Option<nat>, jumps: nat)
    requires j + 1 < |packet| && packet[j] >= 64 && Reached(packet, idx, j, nameEnd)
    requires Reading(packet, idx, acc, name, j, jumps)
    ensures var target := Target(packet[j], packet[j + 1]);
      && Reached(packet, idx, target, if nameEnd.None? then Some(j + 2) else nameEnd)
      && (target >= |packet| || jumps == 0 ==> Walk(packet, j, jumps).None?)
      && (target < |packet| && jumps > 0 ==> Reading(packet, idx, acc, name, target, jumps - 1))
  {
  }

  /** One label on. */
  lemma LabelStep(packet: seq<byte>, idx: nat, acc: seq<Name>, name: Name, j: nat, nameEnd: Option<nat>, jumps: nat)
    requires j < |packet| && 0 < packet[j] < 64 && j + 1 + packet[j] <= |packet| && Reached(packet, idx, j, nameEnd)
    requires Reading(packet, idx, acc, name, j, jumps)
    ensures var k := j + 1 + packet[j]; var lab := packet[j + 1..k];
      && Reached(packet, idx, k, nameEnd)
      && Reading(packet, idx, acc + [lab], Glue(name, lab), k, jumps)
  {
    var k := j + 1 + packet[j];
    AfterOne(acc, packet[j + 1..k], Walk(packet, k, jumps));
  }

  /** The label does not fit: no more does the whole name. */
  lemma LabelTooLong(packet: seq<byte>, idx: nat, outLen: int, acc: seq<Name>, name: Name, j: nat, jumps: nat)
    requires j < |packet| && 0 < packet[j] < 64
    requires Reading(packet, idx, acc, name, j, jumps)
    requires (if name == [] then 0 else |name| + 1) + packet[j] >= outLen
    ensures ParsedFrom(packet, idx, outLen, None)
  {
    var k := j + 1 + packet[j];
    if k <= |packet| {
      var rest := Walk(packet, k, jumps);
      if rest.Some? { WalkFull(packet, k, jumps); }
      TooLong(outLen, acc, packet[j + 1..k], rest);
    }
  }

  /** `name_parse` on any packet and any start: it ends, and gives the walk's text and end. */
  method NameParse(packet: seq<byte>, idx: nat, outLen: int) returns (r: Option<Parsed>)
    ensures ParsedFrom(packet, idx, outLen, r)
  {
    var nameEnd: Option<nat> := None;
    var j: nat, ptrCount: nat, name: Name := idx, 0, [];
    ghost var acc: seq<Name> := [];
    AfterNone(Walk(packet, idx, |packet|));
    while true
      invariant ptrCount <= |packet|
      invariant Reading(packet, idx, acc, name, j, |packet| - ptrCount)
      invariant Reached(packet, idx, j, nameEnd)
      decreases |packet| - ptrCount, |packet| - j
    {
      ghost var from, jumps := j, |packet| - ptrCount;
      if j >= |packet| { Fails(packet, idx, outLen, acc, name, from, jumps); return None; }
      var labelLen := packet[j];
      j := j + 1;
      if labelLen == 0 { Ended(packet, idx, outLen, acc, name, from, nameEnd, jumps); break; }
      if labelLen >= 64 {
        if j >= |packet| { Fails(packet, idx, outLen, acc, name, from, jumps); return None; }
        var low := packet[j];
        PointerStep(packet, idx, acc, name, from, nameEnd, jumps);
        j := j + 1;
        if nameEnd.None? { nameEnd := Some(j); }
        j := Target(labelLen, low);
        if j >= |packet| { Fails(packet, idx, outLen, acc, name, from, jumps); return None; }
        ptrCount := ptrCount + 1;
        if ptrCount > |packet| { Fails(packet, idx, outLen, acc, name, from, jumps); return None; }
        continue;
      }
      if name != [] && |name| + 1 >= outLen {
        LabelTooLong(packet, idx, outLen, acc, name, from, jumps);
        return None;
      }
      if (if name == [] then 0 else |name| + 1) + labelLen >= outLen {
        LabelTooLong(packet, idx, outLen, acc, name, from, jumps);
        return None;
      }
      if j + labelLen > |packet| { Fails(packet, idx, outLen, acc, name, from, jumps); return None; }
      LabelStep(packet, idx, acc, name, from, nameEnd, jumps);
      acc := acc + [packet[j..j + labelLen]];
      name := Glue(name, packet[j..j + labelLen]);
      j := j + labelLen;
    }
    if |name| >= outLen { return None; }
    return Some(Parsed(name, if nameEnd.None? then j else nameEnd.value));
  }

  /**
   * The round trip for a whole packet: reading at the start of each name written gives back that
   * name and the index behind it, whatever compression did, when the text fits the room given.
   */
  lemma PacketRoundTrip(items: seq<Item>, bufLen: nat, i: nat, outLen: int, r: Option<Parsed>)
    requires NamesWellFormed(items) && bufLen <= POINTER_LIMIT && Build(items, bufLen).Some?
    requires i < |Build(items, bufLen).value.names|
    requires var p := Build(items, bufLen).value; ParsedFrom(p.bytes, p.names[i].start, outLen, r)
    ensures var placed := Build(items, bufLen).value.names[i];
      r == if |Undotted(placed.name)| < outLen then Some(Parsed(Undotted(placed.name), placed.end)) else None
  {
    BuildOk(items, bufLen);
    BuildWellFormed(items, bufLen);
    var p := Build(items, bufLen).value;
    assert PlacedOk(p.bytes, p.names[i]);
    DecodeWalks(p.bytes, |p.bytes|, p.names[i].start);
    JoinLabels(p.names[i].name);
  }

  lemma {:induction false} BuildWellFormed(items: seq<Item>, bufLen: nat)
    requires NamesWellFormed(items) && Build(items, bufLen).Some?
    ensures var names := Build(items, bufLen).value.names;
      forall i :: 0 <= i < |names| ==> WellFormed(names[i].name)
  {
    if items != [] { BuildWellFormed(items[..|items| - 1], bufLen); }
  }
}
