/** Search-list resolution in `evdns.c`: which names are asked for, and in which order. */
module SearchLists {
  import opened Octets
  import opened DnsNames
  import opened Options

  /** A name to ask for: as it was given, or with suffix `i` of the list. */
  datatype Candidate = Raw | Suffixed(i: nat)

  function Dots(n: Name): nat {
    if n == [] then 0 else (if n[0] == DOT then 1 else 0) + Dots(n[1..])
  }

  /** `search_make_new`: a dot goes between unless the name ends in one. */
  function Joined(n: Name, suffix: Name): Name
    requires n != []
  {
    n + (if n[|n| - 1] == DOT then [] else [DOT]) + suffix
  }

  // What the dots count and the texts are, said without their definitions.

  lemma {:induction false} DotsJoin(a: Name, b: Name)
    ensures Dots(a + b) == Dots(a) + Dots(b)
  {
    if a == [] {
      assert a + b == b;
    } else {
      DotsJoin(a[1..], b);
      assert (a + b)[1..] == a[1..] + b;
    }
  }

  lemma DotsOne(c: byte)
    ensures Dots([]) == 0 && Dots([c]) == if c == 46 then 1 else 0
  {
    assert [c][1..] == [];
  }

  /** `all` is a name, a dot unless the name ends in one, and a suffix. */
  ghost predicate IsJoined(n: Name, suffix: Name, all: Name) {
    && n != [] && n <= all && |suffix| <= |all| && all[|all| - |suffix|..] == suffix
    && if n[|n| - 1] == DOT then |all| == |n| + |suffix| else |all| == |n| + 1 + |suffix| && all[|n|] == DOT
  }

  lemma LabelsUnfold(n: Name, d: nat)
    requires n != [] && d == LabelEnd(n)
    ensures Labels(n) == [n[..d]] + if d == |n| then [] else Labels(n[d + 1..])
  {
  }

  /** The labels of a name and a suffix joined are those of the name and then those of the suffix. */
  lemma {:induction false} LabelsJoin(n: Name, suffix: Name, all: Name)
    requires WellFormed(n) && IsJoined(n, suffix, all)
    ensures Labels(all) == Labels(n) + Labels(suffix)
    decreases |n|
  {
    var d := LabelEnd(n);
    if d == |n| || d + 1 == |n| {
      LastJoined(n, suffix, all, d);
      LabelEndJoin(n, suffix, all);
      LabelsUnfold(n, d);
      LabelsUnfold(all, d);
      assert all[..d] == n[..d];
      assert Labels(n) == [n[..d]];
    } else {
      RestJoined(n, suffix, all, d);
      LabelsJoin(n[d + 1..], suffix, all[d + 1..]);
      JoinStep(n, suffix, all, d, Labels(n[d + 1..]), Labels(suffix));
    }
  }

  lemma JoinStep(n: Name, suffix: Name, all: Name, d: nat, ms: seq<Name>, ss: seq<Name>)
    requires WellFormed(n) && IsJoined(n, suffix, all) && d == LabelEnd(n) && d + 1 < |n|
    requires ms == Labels(n[d + 1..]) && Labels(all[d + 1..]) == ms + ss
    ensures Labels(all) == Labels(n) + ss
  {
    LabelEndJoin(n, suffix, all);
    LabelsUnfold(n, d);
    LabelsUnfold(all, d);
    assert all[..d] == n[..d];
    Assoc([n[..d]], ms, ss);
  }

  lemma Assoc(a: seq<Name>, b: seq<Name>, c: seq<Name>)
    ensures a + (b + c) == a + b + c
  {
  }

  lemma LastJoined(n: Name, suffix: Name, all: Name, d: nat)
    requires IsJoined(n, suffix, all) && d == LabelEnd(n) && (d == |n| || d + 1 == |n|)
    ensures d + 1 <= |all| && all[d + 1..] == suffix && (d < |n| ==> n[d + 1..] == [])
  {
    if d == |n| { DotFromFirst(n, 0, |n| - 1); }
    assert |all| - |suffix| == d + 1;
  }

  lemma RestJoined(n: Name, suffix: Name, all: Name, d: nat)
    requires IsJoined(n, suffix, all) && d + 1 < |n|
    ensures IsJoined(n[d + 1..], suffix, all[d + 1..])
  {
    var m, rest := n[d + 1..], all[d + 1..];
    assert m[|m| - 1] == n[|n| - 1];
    assert all[..|n|] == n && rest[..|m|] == m;
    assert rest[|rest| - |suffix|..] == suffix;
  }

  lemma LabelEndJoin(n: Name, suffix: Name, all: Name)
    requires WellFormed(n) && IsJoined(n, suffix, all)
    ensures LabelEnd(all) == LabelEnd(n) < |all|
  {
    var d := LabelEnd(n);
    forall k | 0 <= k < d ensures all[k] != DOT { DotFromFirst(n, 0, k); assert all[k] == n[k]; }
    if d < |n| { assert all[d] == n[d]; }
    DotFromIs(all, 0, d);
  }

  lemma {:induction false} DotFromIs(n: Name, i: nat, d: nat)
    requires i <= d < |n| && n[d] == DOT && forall k {:trigger n[k]} :: i <= k < d ==> n[k] != DOT
    ensures DotFrom(n, i) == d
    decreases d - i
  {
    if i < d { DotFromIs(n, i + 1, d); }
  }

  /** What a search is about: the name, the suffixes, and how many dots make a name likely to be whole. */
  datatype Search = Search(name: Name, domains: seq<Name>, ndots: nat)

  function Suffixes(from: nat, n: nat): (cs: seq<Candidate>)
    requires from <= n
    ensures |cs| == n - from && forall i {:trigger cs[i]} :: 0 <= i < |cs| ==> cs[i] == Suffixed(from + i)
    decreases n - from
  {
    if from == n then [] else [Suffixed(from)] + Suffixes(from + 1, n)
  }

  /** The candidates in the order the design gives: the raw name first when it has enough dots, else last. */
  function Candidates(s: Search): seq<Candidate> {
    if Dots(s.name) >= s.ndots then [Raw] + Suffixes(0, |s.domains|) else Suffixes(0, |s.domains|) + [Raw]
  }

  /** The text of a candidate, if one can be made; an empty name takes no suffix. */
  function Text(s: Search, c: Candidate): Option<Name> {
    match c
    case Raw => Some(s.name)
    case Suffixed(i) => if i < |s.domains| && s.name != [] then Some(Joined(s.name, s.domains[i])) else None
  }

  /**
   * The text of a candidate with a suffix starts with the name and ends with the suffix, with one dot between unless
   * the name ends in one, and nothing else.
   */
  lemma TextParts(s: Search, i: nat)
    requires i < |s.domains| && s.name != []
    ensures Text(s, Suffixed(i)).Some? && IsJoined(s.name, s.domains[i], Text(s, Suffixed(i)).value)
    ensures Text(s, Raw) == Some(s.name)
  {
  }

  /** The labels of a candidate are those of the name and then those of the suffix. */
  lemma TextLabels(s: Search, i: nat)
    requires i < |s.domains| && s.name != [] && WellFormed(s.name)
    ensures Text(s, Suffixed(i)).Some? && Labels(Text(s, Suffixed(i)).value) == Labels(s.name) + Labels(s.domains[i])
  {
    TextParts(s, i);
    LabelsJoin(s.name, s.domains[i], Text(s, Suffixed(i)).value);
  }

  /** `request_new` takes the candidate. */
  predicate Issued(s: Search, fits: Name -> bool, c: Candidate) {
    Text(s, c).Some? && fits(Text(s, c).value)
  }

  /** The candidates before the first one that no request can be made for. */
  function Askable(s: Search, fits: Name -> bool, cs: seq<Candidate>): seq<Candidate> {
    if cs == [] || !Issued(s, fits, cs[0]) then [] else [cs[0]] + Askable(s, fits, cs[1..])
  }

  /** All are asked for if and only if a request can be made for each. */
  lemma {:induction false} AskableAll(s: Search, fits: Name -> bool, cs: seq<Candidate>)
    ensures Askable(s, fits, cs) == cs <==> forall i {:trigger cs[i]} :: 0 <= i < |cs| ==> Issued(s, fits, cs[i])
  {
    if cs != [] {
      AskableAll(s, fits, cs[1..]);
      assert cs == [cs[0]] + cs[1..];
      assert forall i :: 0 < i < |cs| ==> cs[i] == cs[1..][i - 1];
    }
  }

  /** A suffix that makes the name too long ends the search, although the raw name was still to come and fits. */
  lemma StoppedEarly(suffix: Name, fits: Name -> bool)
    requires |suffix| >= 254 && forall n :: fits(n) <==> |n| < 256
    ensures var s := Search([97], [suffix], 1);
      Raw in Candidates(s) && Issued(s, fits, Raw) && Askable(s, fits, Candidates(s)) == []
  {
    var s := Search([97], [suffix], 1);
    assert Dots([97]) == 0;
    assert Candidates(s) == [Suffixed(0), Raw];
  }

  /** No candidate comes twice. */
  lemma CandidatesOnce(s: Search, i: nat, j: nat)
    requires i < j < |Candidates(s)|
    ensures Candidates(s)[i] != Candidates(s)[j]
  {
  }

  lemma AskableStep(s: Search, fits: Name -> bool, c: Candidate, rest: seq<Candidate>)
    ensures Askable(s, fits, [c] + rest) == if Issued(s, fits, c) then [c] + Askable(s, fits, rest) else []
  {
    assert ([c] + rest)[1..] == rest;
  }

  /** The candidates after the one with index `i`; index -1 is the raw name tried first. */
  function After(s: Search, i: int): seq<Candidate>
    requires -1 <= i < |s.domains|
  {
    Suffixes(i + 1, |s.domains|) + if Dots(s.name) < s.ndots then [Raw] else []
  }

  lemma AfterStep(s: Search, i: int)
    requires -1 <= i < |s.domains|
    ensures i + 1 < |s.domains| ==> After(s, i) == [Suffixed(i + 1)] + After(s, i + 1)
    ensures i + 1 == |s.domains| ==> After(s, i) == if Dots(s.name) < s.ndots then [Raw] + [] else []
  {
  }

  lemma AfterFirst(s: Search)
    requires s.domains != []
    ensures Candidates(s) == if Dots(s.name) >= s.ndots then [Raw] + After(s, -1) else [Suffixed(0)] + After(s, 0)
  {
  }

  /** `all` is what has been asked for and what is still to be asked for after index `i`. */
  ghost predicate Halfway(s: Search, fits: Name -> bool, all: seq<Candidate>, asked: seq<Candidate>, i: int) {
    -1 <= i < |s.domains| && all == asked + Askable(s, fits, After(s, i))
  }

  /** What `search_try_next` asks for after index `i`. */
  function Next(s: Search, fits: Name -> bool, i: int): Option<Candidate> {
    if 0 <= i + 1 < |s.domains| then if Issued(s, fits, Suffixed(i + 1)) then Some(Suffixed(i + 1)) else None
    else if Dots(s.name) < s.ndots && Issued(s, fits, Raw) then Some(Raw)
    else None
  }

  lemma HalfwayStep(s: Search, fits: Name -> bool, all: seq<Candidate>, asked: seq<Candidate>, i: int)
    requires Halfway(s, fits, all, asked, i)
    ensures match Next(s, fits, i)
      case None => all == asked
      case Some(Raw) => all == asked + [Raw]
      case Some(c) => Halfway(s, fits, all, asked + [c], i + 1)
  {
    AfterStep(s, i);
    if i + 1 < |s.domains| {
      AskableStep(s, fits, Suffixed(i + 1), After(s, i + 1));
    } else if Dots(s.name) < s.ndots {
      AskableStep(s, fits, Raw, []);
    }
  }

  lemma HalfwayFirst(s: Search, fits: Name -> bool, c: Candidate, i: int)
    requires s.domains != [] && i == if Dots(s.name) >= s.ndots then -1 else 0
    requires c == if i == -1 then Raw else Suffixed(0)
    ensures if Issued(s, fits, c) then Halfway(s, fits, Askable(s, fits, Candidates(s)), [c], i)
            else Askable(s, fits, Candidates(s)) == []
  {
    AfterFirst(s);
    AskableStep(s, fits, c, After(s, i));
  }

  /** The search part of a request handle. */
  class Handle {
    const search: Search
    const fits: Name -> bool
    var index: int
    /** `search_state` is still set. */
    var searching: bool
    /** What has been asked for. */
    ghost var asked: seq<Candidate>

    /** What has been asked for and what is still ahead make up `all`. */
    ghost predicate Valid(all: seq<Candidate>)
      reads this
    {
      if searching then Halfway(search, fits, all, asked, index) else all == asked
    }

    constructor (search: Search, fits: Name -> bool)
      ensures this.search == search && this.fits == fits && !searching && asked == []
    {
      this.search, this.fits, index, searching, asked := search, fits, 0, false, [];
    }

    /** `search_request_new`, when there are suffixes: the first name asked for, or none if that fails. */
    method Start() returns (r: Option<Name>)
      requires !searching && asked == [] && search.domains != []
      modifies this
      ensures Valid(Askable(search, fits, Candidates(search)))
      ensures r.Some? ==> |asked| == 1 && r == Text(search, asked[0])
      ensures r.None? ==> !searching && asked == []
    {
      var raw := Dots(search.name) >= search.ndots;
      var c, i := if raw then Raw else Suffixed(0), if raw then -1 else 0;
      HalfwayFirst(search, fits, c, i);
      if !Issued(search, fits, c) { return None; }
      index, searching, asked := i, true, [c];
      return Text(search, c);
    }

    /** `search_try_next`, after a failure: the next name asked for, or none when the failure goes to the user. */
    method TryNext(ghost all: seq<Candidate>) returns (r: Option<Name>)
      requires Valid(all)
      modifies this
      ensures r.None? ==> asked == old(asked) == all
      ensures r.Some? ==> Valid(all) && |asked| == |old(asked)| + 1 && asked[..|old(asked)|] == old(asked)
      ensures r.Some? ==> r == Text(search, asked[|old(asked)|])
    {
      if !searching { return None; }
      HalfwayStep(search, fits, all, asked, index);
      index := index + 1;
      if index >= |search.domains| {
        if Dots(search.name) < search.ndots && Issued(search, fits, Raw) {
          searching := false;
          asked := asked + [Raw];
          return Text(search, Raw);
        }
        return None;
      }
      var c := Suffixed(index);
      if !Issued(search, fits, c) { return None; }
      asked := asked + [c];
      return Text(search, c);
    }
  }

  lemma {:induction false} AskableIssued(s: Search, fits: Name -> bool, cs: seq<Candidate>)
    ensures Askable(s, fits, cs) <= cs
    ensures forall i {:trigger Askable(s, fits, cs)[i]} :: 0 <= i < |Askable(s, fits, cs)| ==>
      Issued(s, fits, Askable(s, fits, cs)[i])
  {
    if cs != [] && Issued(s, fits, cs[0]) { AskableIssued(s, fits, cs[1..]); }
  }

  /** `names` are the texts of the candidates `cs`. */
  predicate Reads(s: Search, cs: seq<Candidate>, names: seq<Name>) {
    |names| == |cs| && forall i {:trigger names[i]} :: 0 <= i < |names| ==> Text(s, cs[i]) == Some(names[i])
  }

  /**
   * A search whose every request fails: the names asked for are the candidates in order, each once, up to the first
   * that no request can be made for. Without suffixes the name is asked for as it stands.
   */
  method FailingSearch(s: Search, fits: Name -> bool) returns (names: seq<Name>)
    ensures s.domains == [] ==> names == if fits(s.name) then [s.name] else []
    ensures s.domains != [] ==> Reads(s, Askable(s, fits, Candidates(s)), names)
  {
    if s.domains == [] { return if fits(s.name) then [s.name] else []; }
    ghost var all := Askable(s, fits, Candidates(s));
    var h := new Handle(s, fits);
    var r := h.Start();
    names := [];
    while r.Some?
      invariant h.search == s && h.fits == fits
      invariant if r.Some? then h.Valid(all) && |h.asked| == |names| + 1 && r == Text(s, h.asked[|names|])
                else h.asked == all && |h.asked| == |names|
      invariant Reads(s, h.asked[..|names|], names)
      invariant |names| + (if r.Some? then 1 else 0) <= |all|
      decreases |all| - |names|
    {
      ghost var was := h.asked;
      names := names + [r.value];
      r := h.TryNext(all);
      assert h.asked[..|names|] == was;
    }
    assert h.asked[..|names|] == all;
  }

  /** When a request can be made for all of them, the names asked for are the raw name and one for each suffix. */
  lemma FullList(s: Search, fits: Name -> bool, names: seq<Name>)
    requires s.name != [] && (forall n :: fits(n)) && Reads(s, Askable(s, fits, Candidates(s)), names)
    ensures var first := Dots(s.name) >= s.ndots;
      && |names| == |s.domains| + 1 && names[if first then 0 else |s.domains|] == s.name
      && forall i {:trigger s.domains[i]} :: 0 <= i < |s.domains| ==>
           IsJoined(s.name, s.domains[i], names[if first then i + 1 else i])
  {
    var cs := Candidates(s);
    forall i | 0 <= i < |cs| ensures Issued(s, fits, cs[i]) {
      if cs[i].Suffixed? { TextParts(s, cs[i].i); }
    }
    AskableAll(s, fits, cs);
    var first := Dots(s.name) >= s.ndots;
    forall i | 0 <= i < |s.domains| ensures IsJoined(s.name, s.domains[i], names[if first then i + 1 else i]) {
      TextParts(s, i);
      assert cs[if first then i + 1 else i] == Suffixed(i);
    }
  }
}
