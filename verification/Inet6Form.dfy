/** Exactly which texts without a dot `evutil_inet_pton` takes for an IPv6 address, for `Inet6`. */
module Inet6Forms {
  import opened Options
  import opened Inet6

  /** A number with a prefix is read without it. */
  lemma PrefixedNumber(s: string, k: nat, n: nat)
    requires 0 < n && k + 2 + n <= |s| && s[k] == '0' && (s[k + 1] == 'x' || s[k + 1] == 'X')
    requires AllHex(s[k + 2..k + 2 + n]) && (k + 2 + n == |s| || s[k + 2 + n] == ':')
    ensures Strtol(s, k) == Num(Value(s[k + 2..k + 2 + n], 16), n + 2)
  {
    assert s[k + 2] == s[k + 2..k + 2 + n][0];
    HexLenIs(s, k + 2, n);
  }

  // Groups of digits and the texts made of them.

  /** Hex digits behind a prefix like "0x", which `strtol` skips. */
  predicate HasPrefix(g: string) {
    |g| > 2 && g[0] == '0' && (g[1] == 'x' || g[1] == 'X') && AllHex(g[2..])
  }

  /** One to four characters that stand for a word. */
  predicate IsGroup(g: string) {
    0 < |g| <= 4 && (AllHex(g) || HasPrefix(g))
  }

  function GroupValue(g: string): nat
    requires IsGroup(g)
  {
    if HasPrefix(g) then Value(g[2..], 16) else Value(g, 16)
  }

  predicate AreGroups(gs: seq<string>) {
    forall i {:trigger gs[i]} :: 0 <= i < |gs| ==> IsGroup(gs[i])
  }

  function Values(gs: seq<string>): (ws: Words)
    requires AreGroups(gs)
    ensures |ws| == |gs|
  {
    if gs == [] then [] else [GroupValue(gs[0])] + Values(gs[1..])
  }

  /** Groups with a colon behind each. */
  function Coloned(gs: seq<string>): string {
    if gs == [] then "" else gs[0] + ":" + Coloned(gs[1..])
  }

  /** Groups with colons between them, and one at the end as well if `colon` says so. */
  function Ending(gs: seq<string>, colon: bool): string {
    if gs == [] then "" else if |gs| == 1 && !colon then gs[0] else gs[0] + ":" + Ending(gs[1..], colon)
  }

  /** A text: groups, or groups around a gap. */
  datatype Form = Form(front: seq<string>, back: seq<string>, gapped: bool, colon: bool)

  /** Eight groups, or up to seven around a gap. */
  predicate Proper(f: Form) {
    && AreGroups(f.front) && AreGroups(f.back)
    && if f.gapped then |f.front| + |f.back| <= 7 else |f.front| == 8 && f.back == []
  }

  function Written(f: Form): string {
    if !f.gapped then Ending(f.front, f.colon)
    else Coloned(f.front) + (if f.front == [] then "::" else ":") + Ending(f.back, f.colon)
  }

  function Meant(f: Form): Words
    requires Proper(f)
  {
    Values(f.front) + Zeros(8 - |f.front| - |f.back|) + Values(f.back)
  }

  // What is of this form is read.

  /** Group `g` stands at `k`, before a colon or the end. */
  predicate GroupAt(s: string, k: nat, g: string) {
    k + |g| <= |s| && s[k..k + |g|] == g && (k + |g| == |s| || s[k + |g|] == ':')
  }

  lemma GroupNumber(s: string, k: nat, g: string)
    requires IsGroup(g) && GroupAt(s, k, g)
    ensures IsHex(s[k]) && Strtol(s, k) == Num(GroupValue(g), |g|)
  {
    assert s[k] == g[0];
    if HasPrefix(g) {
      assert s[k + 1] == g[1] && s[k + 2..k + |g|] == g[2..];
      PrefixedNumber(s, k, |g| - 2);
    } else {
      PlainNumber(s, k, |g|);
    }
  }

  lemma GroupPiece(s: string, k: nat, g: string, n: nat, gap: int)
    requires IsGroup(g) && GroupAt(s, k, g) && n <= 7
    ensures PieceAt(s, k, |s|, n, gap) == Word(GroupValue(g), k + |g| + 1)
  {
    GroupNumber(s, k, g);
  }

  /** Groups one after the other from `k` on, with a colon behind each unless the text ends there. */
  predicate Laid(s: string, k: nat, gs: seq<string>)
    decreases |gs|
  {
    gs == [] || (GroupAt(s, k, gs[0]) && Laid(s, k + |gs[0]| + 1, gs[1..]))
  }

  /** The place behind them. */
  function Past(k: nat, gs: seq<string>): nat
    decreases |gs|
  {
    if gs == [] then k else Past(k + |gs[0]| + 1, gs[1..])
  }

  /** One word on. */
  lemma WordStep(s: string, k: nat, g: string, ws: Words, gap: int)
    requires IsGroup(g) && GroupAt(s, k, g) && |ws| <= 7
    ensures ParseWords(s, k, |s|, ws, gap) == ParseWords(s, k + |g| + 1, |s|, ws + [GroupValue(g)], gap)
  {
    GroupPiece(s, k, g, |ws|, gap);
  }

  lemma ValuesHead(ws: Words, gs: seq<string>)
    requires AreGroups(gs) && gs != []
    ensures AreGroups(gs[1..]) && ws + [GroupValue(gs[0])] + Values(gs[1..]) == ws + Values(gs)
  {
  }

  /** Groups are read one by one. */
  lemma {:induction false} LaidRead(s: string, k: nat, gs: seq<string>, ws: Words, gap: int)
    requires AreGroups(gs) && Laid(s, k, gs) && |ws| + |gs| <= 8
    ensures ParseWords(s, k, |s|, ws, gap) == ParseWords(s, Past(k, gs), |s|, ws + Values(gs), gap)
    decreases |gs|
  {
    if gs == [] {
      assert ws + Values(gs) == ws;
    } else {
      WordStep(s, k, gs[0], ws, gap);
      ValuesHead(ws, gs);
      LaidRead(s, k + |gs[0]| + 1, gs[1..], ws + [GroupValue(gs[0])], gap);
    }
  }

  lemma SplitAt(s: string, k: nat, g: string, b: string)
    requires k + |g| + 1 + |b| <= |s| && s[k..k + |g| + 1 + |b|] == g + ":" + b
    ensures GroupAt(s, k, g) && s[k + |g| + 1..k + |g| + 1 + |b|] == b
  {
    var t := s[k..k + |g| + 1 + |b|];
    assert t[..|g|] == s[k..k + |g|] && t[|g|] == s[k + |g|] && t[|g| + 1..] == s[k + |g| + 1..k + |g| + 1 + |b|];
    assert (g + ":" + b)[..|g|] == g && (g + ":" + b)[|g| + 1..] == b;
  }

  lemma {:induction false} ColonedLaid(s: string, k: nat, gs: seq<string>, t: string)
    requires t == Coloned(gs) && k + |t| <= |s| && s[k..k + |t|] == t
    ensures Laid(s, k, gs) && Past(k, gs) == k + |t|
    decreases |gs|
  {
    if gs != [] {
      var b := Coloned(gs[1..]);
      SplitAt(s, k, gs[0], b);
      ColonedLaid(s, k + |gs[0]| + 1, gs[1..], b);
    }
  }

  lemma {:induction false} EndingLaid(s: string, k: nat, gs: seq<string>, colon: bool, t: string)
    requires t == Ending(gs, colon) && k <= |s| && s[k..] == t
    ensures Laid(s, k, gs) && Past(k, gs) == |s| + if gs != [] && !colon then 1 else 0
    decreases |gs|
  {
    if gs == [] {
    } else if |gs| == 1 && !colon {
      assert s[k..k + |t|] == s[k..];
    } else {
      var b := Ending(gs[1..], colon);
      assert s[k..k + |gs[0]| + 1 + |b|] == s[k..];
      SplitAt(s, k, gs[0], b);
      EndingLaid(s, k + |gs[0]| + 1, gs[1..], colon, b);
    }
  }

  /** The groups at the end are read, with or without a last colon. */
  lemma EndingRead(s: string, k: nat, gs: seq<string>, colon: bool, ws: Words, gap: int)
    requires AreGroups(gs) && k <= |s| && s[k..] == Ending(gs, colon) && |ws| + |gs| <= 8
    ensures ParseWords(s, k, |s|, ws, gap) == Some(Parsed(ws + Values(gs), gap))
  {
    EndingLaid(s, k, gs, colon, s[k..]);
    LaidRead(s, k, gs, ws, gap);
  }

  /** The gap is read as one. */
  lemma GapRead(s: string, k: nat, next: nat, ws: Words)
    requires |ws| <= 7 && k < |s| && s[k] == ':' && (ws == [] ==> k + 1 < |s| && s[k + 1] == ':')
    requires next == k + if ws == [] then 2 else 1
    ensures ParseWords(s, k, |s|, ws, -1) == ParseWords(s, next, |s|, ws, |ws|)
  {
    assert PieceAt(s, k, |s|, |ws|, -1) == Gap(next);
  }

  /** How a text with a gap is cut. */
  lemma GapCut(s: string, a: string, sep: string, b: string)
    requires s == a + sep + b && (sep == ":" || sep == "::")
    ensures s[..|a|] == a && s[|a|] == ':' && (sep == "::" ==> s[|a| + 1] == ':') && s[|a| + |sep|..] == b
  {
  }

  /** Groups, a gap behind them that ends at `next`, and what follows. */
  predicate Gapped(s: string, gs: seq<string>, next: nat) {
    && Laid(s, 0, gs) && Past(0, gs) < |s| && s[Past(0, gs)] == ':' && next <= |s|
    && (if gs == [] then 1 < |s| && s[1] == ':' && next == 2 else next == Past(0, gs) + 1)
  }

  lemma WrittenGapped(s: string, f: Form, a: string, b: string) returns (next: nat)
    requires f.gapped && s == Written(f) && a == Coloned(f.front) && b == Ending(f.back, f.colon)
    ensures Gapped(s, f.front, next) && s[next..] == b
  {
    var sep := if f.front == [] then "::" else ":";
    GapCut(s, a, sep, b);
    ColonedLaid(s, 0, f.front, a);
    next := |a| + |sep|;
  }

  /** Up to the gap and over it. */
  lemma FrontRead(s: string, gs: seq<string>, next: nat)
    requires AreGroups(gs) && |gs| <= 7 && Gapped(s, gs, next)
    ensures ParseWords(s, 0, |s|, [], -1) == ParseWords(s, next, |s|, Values(gs), |gs|)
  {
    assert [] + Values(gs) == Values(gs);
    LaidRead(s, 0, gs, [], -1);
    GapRead(s, Past(0, gs), next, Values(gs));
  }

  lemma GappedWords(s: string, f: Form, next: nat)
    requires Proper(f) && f.gapped && Gapped(s, f.front, next) && s[next..] == Ending(f.back, f.colon)
    ensures ParseWords(s, 0, |s|, [], -1) == Some(Parsed(Values(f.front) + Values(f.back), |f.front|))
  {
    FrontRead(s, f.front, next);
    EndingRead(s, next, f.back, f.colon, Values(f.front), |f.front|);
  }

  lemma FormWords(s: string, f: Form)
    requires Proper(f) && s == Written(f)
    ensures ParseWords(s, 0, |s|, [], -1) ==
      Some(Parsed(Values(f.front) + Values(f.back), if f.gapped then |f.front| else -1))
  {
    if f.gapped {
      var next := WrittenGapped(s, f, Coloned(f.front), Ending(f.back, f.colon));
      GappedWords(s, f, next);
    } else {
      assert s[0..] == s && [] + Values(f.front) == Values(f.front);
      EndingRead(s, 0, f.front, f.colon, [], -1);
      assert Values(f.front) + Values(f.back) == Values(f.front);
    }
  }

  /** Filling the gap of what was read. */
  lemma Filled(f: Form)
    requires Proper(f)
    ensures Fill(Parsed(Values(f.front) + Values(f.back), if f.gapped then |f.front| else -1), []) == Some(Meant(f))
  {
    var a, b := Values(f.front), Values(f.back);
    assert (a + b)[..|a|] == a && (a + b)[|a|..] == b;
    if f.gapped {
      assert a + Zeros(8 - |a| - |b|) + b + [] == Meant(f);
    } else {
      assert a + b + [] == Meant(f);
    }
  }

  lemma {:induction false} ColonedNoDot(gs: seq<string>, colon: bool)
    requires AreGroups(gs)
    ensures '.' !in Coloned(gs) && '.' !in Ending(gs, colon)
  {
    if gs != [] {
      ColonedNoDot(gs[1..], colon);
      GroupNoDot(gs[0]);
    }
  }

  lemma GroupNoDot(g: string)
    requires IsGroup(g)
    ensures '.' !in g
  {
    if HasPrefix(g) { assert g == g[..2] + g[2..]; }
  }

  lemma {:induction false} DotLess(s: string, k: nat)
    requires k <= |s|
    ensures FirstDot(s, k) == |s| <==> '.' !in s[k..]
    decreases |s| - k
  {
    if k < |s| {
      DotLess(s, k + 1);
      assert s[k..] == [s[k]] + s[k + 1..];
    }
  }

  /** Every text of the form is read, as the words it stands for. */
  lemma FormRead(f: Form)
    requires Proper(f)
    ensures '.' !in Written(f) && Pton(Written(f)) == Some(Meant(f))
  {
    var s := Written(f);
    ColonedNoDot(f.front, f.colon);
    ColonedNoDot(f.back, f.colon);
    DotLess(s, 0);
    assert s[0..] == s;
    FormWords(s, f);
    Filled(f);
  }

  // What is read is of this form.

  lemma NumberGroup(s: string, k: nat, g: string)
    requires k < |s| && IsHex(s[k]) && Strtol(s, k).length <= 4 && g == s[k..k + Strtol(s, k).length]
    ensures IsGroup(g) && GroupValue(g) == Strtol(s, k).value
  {
    if Prefixed(s, k) {
      var n := HexLen(s, k + 2);
      assert s[k + 2] == s[k + 2..k + 2 + n][0] || n == 0;
      assert g[2..] == s[k + 2..k + 2 + n];
    } else {
      assert !HasPrefix(g) by { assert AllHex(g); assert |g| > 1 ==> IsHex(g[1]); }
    }
  }

  /** A word that is read is a group before a colon or the end. */
  lemma PieceGroup(s: string, k: nat, n: nat, gap: int) returns (g: string)
    requires k < |s| && PieceAt(s, k, |s|, n, gap).Word?
    ensures IsGroup(g) && GroupAt(s, k, g) && n <= 7
    ensures PieceAt(s, k, |s|, n, gap) == Word(GroupValue(g), k + |g| + 1)
  {
    g := s[k..k + Strtol(s, k).length];
    NumberGroup(s, k, g);
  }

  /** A group that is read, and the rest is read behind it. */
  lemma ReadStep(s: string, k: nat, ws: Words, gap: int) returns (g: string)
    requires k < |s| && ParseWords(s, k, |s|, ws, gap).Some? && !PieceAt(s, k, |s|, |ws|, gap).Gap?
    ensures IsGroup(g) && GroupAt(s, k, g) && |ws| <= 7
    ensures ParseWords(s, k + |g| + 1, |s|, ws + [GroupValue(g)], gap).Some?
  {
    g := PieceGroup(s, k, |ws|, gap);
  }

  lemma LaidMore(s: string, k: nat, g: string, gs: seq<string>)
    requires IsGroup(g) && AreGroups(gs) && GroupAt(s, k, g) && Laid(s, k + |g| + 1, gs)
    ensures AreGroups([g] + gs) && Laid(s, k, [g] + gs) && Past(k, [g] + gs) == Past(k + |g| + 1, gs)
  {
    assert ([g] + gs)[1..] == gs;
  }

  /** The groups that are read up to the gap or the end. */
  lemma {:induction false} ReadLaid(s: string, k: nat, ws: Words, gap: int) returns (gs: seq<string>)
    requires ParseWords(s, k, |s|, ws, gap).Some? && |ws| <= 8
    ensures AreGroups(gs) && Laid(s, k, gs) && |ws| + |gs| <= 8
    ensures Past(k, gs) >= |s| || PieceAt(s, Past(k, gs), |s|, |ws| + |gs|, gap).Gap?
    decreases if k < |s| then |s| - k else 0
  {
    gs := [];
    if k < |s| && !PieceAt(s, k, |s|, |ws|, gap).Gap? {
      var g := ReadStep(s, k, ws, gap);
      var more := ReadLaid(s, k + |g| + 1, ws + [GroupValue(g)], gap);
      LaidMore(s, k, g, more);
      gs := [g] + more;
    }
  }

  lemma {:induction false} LaidEnding(s: string, k: nat, gs: seq<string>, colon: bool, t: string)
    requires Laid(s, k, gs) && k <= |s| && Past(k, gs) >= |s| && colon == (Past(k, gs) == |s|) && t == s[k..]
    ensures t == Ending(gs, colon)
    decreases |gs|
  {
    if gs != [] {
      var g := gs[0];
      assert t[..|g|] == g by { assert t[..|g|] == s[k..k + |g|]; }
      if k + |g| == |s| {
        PastGrows(k + |g| + 1, gs[1..]);
        LaidEnds(s, k + |g| + 1, gs[1..]);
        assert t == g;
      } else {
        assert t[|g|] == ':' && t[|g| + 1..] == s[k + |g| + 1..];
        assert t == t[..|g|] + [t[|g|]] + t[|g| + 1..];
        LaidEnding(s, k + |g| + 1, gs[1..], colon, s[k + |g| + 1..]);
        assert |gs| == 1 ==> colon;
      }
    }
  }

  lemma {:induction false} PastGrows(k: nat, gs: seq<string>)
    ensures Past(k, gs) >= k
    decreases |gs|
  {
    if gs != [] { PastGrows(k + |gs[0]| + 1, gs[1..]); }
  }

  /** Nothing stands behind the end. */
  lemma LaidEnds(s: string, k: nat, gs: seq<string>)
    requires Laid(s, k, gs) && k > |s|
    ensures gs == []
  {
  }

  lemma {:induction false} LaidColoned(s: string, k: nat, gs: seq<string>, t: string)
    requires Laid(s, k, gs) && k <= Past(k, gs) <= |s| && t == s[k..Past(k, gs)]
    ensures t == Coloned(gs)
    decreases |gs|
  {
    if gs != [] {
      var g, next := gs[0], k + |gs[0]| + 1;
      PastGrows(next, gs[1..]);
      LaidColoned(s, next, gs[1..], s[next..Past(k, gs)]);
      assert t == s[k..k + |g|] + [s[k + |g|]] + s[next..Past(k, gs)];
    }
  }

  /** The gap that is read. */
  lemma PieceGap(s: string, k: nat, n: nat) returns (next: nat)
    requires k < |s| && PieceAt(s, k, |s|, n, -1).Gap?
    ensures next == PieceAt(s, k, |s|, n, -1).next == k + (if n == 0 then 2 else 1) && next <= |s| && n <= 7
    ensures s[k..next] == if n == 0 then "::" else ":"
  {
    next := PieceAt(s, k, |s|, n, -1).next;
  }

  /** A text without a gap is groups. */
  lemma PlainForm(s: string, gs: seq<string>) returns (f: Form)
    requires AreGroups(gs) && Laid(s, 0, gs) && Past(0, gs) >= |s|
    ensures f.front == gs && f.back == [] && !f.gapped && s == Written(f)
  {
    f := Form(gs, [], false, Past(0, gs) == |s|);
    assert s[0..] == s;
    LaidEnding(s, 0, gs, f.colon, s);
  }

  /** A text with a gap is groups around it. */
  lemma GappedForm(s: string, gs: seq<string>, k: nat, next: nat, more: seq<string>) returns (f: Form)
    requires AreGroups(gs) && Laid(s, 0, gs) && k == Past(0, gs) && k <= next <= |s|
    requires s[k..next] == if |gs| == 0 then "::" else ":"
    requires AreGroups(more) && Laid(s, next, more) && Past(next, more) >= |s|
    ensures f.front == gs && f.back == more && f.gapped && s == Written(f)
  {
    f := Form(gs, more, true, Past(next, more) == |s|);
    LaidColoned(s, 0, gs, s[0..k]);
    LaidEnding(s, next, more, f.colon, s[next..]);
    assert s == s[0..k] + s[k..next] + s[next..];
  }

  lemma ReadWords(s: string) returns (f: Form)
    requires ParseWords(s, 0, |s|, [], -1).Some?
    ensures AreGroups(f.front) && AreGroups(f.back) && s == Written(f) && (!f.gapped ==> f.back == [])
    ensures ParseWords(s, 0, |s|, [], -1) ==
      Some(Parsed(Values(f.front) + Values(f.back), if f.gapped then |f.front| else -1))
  {
    var gs := ReadLaid(s, 0, [], -1);
    var k, ws := Past(0, gs), Values(gs);
    assert [] + ws == ws;
    LaidRead(s, 0, gs, [], -1);
    if k >= |s| {
      f := PlainForm(s, gs);
      assert ws + Values([]) == ws;
    } else {
      var next := PieceGap(s, k, |gs|);
      GapRead(s, k, next, ws);
      var more := ReadLaid(s, next, ws, |ws|);
      LaidRead(s, next, more, ws, |ws|);
      f := GappedForm(s, gs, k, next, more);
    }
  }

  /** Every text without a dot that is read is of the form, and is read as the words it stands for. */
  lemma ReadForm(s: string) returns (f: Form)
    requires '.' !in s && Pton(s).Some?
    ensures Proper(f) && s == Written(f) && Pton(s) == Some(Meant(f))
  {
    DotLess(s, 0);
    assert s[0..] == s;
    f := ReadWords(s);
    Filled(f);
  }

  lemma {:induction false} EndingColon(gs: seq<string>, colon: bool)
    ensures gs != [] && colon ==> Ending(gs, colon) != [] && Ending(gs, colon)[|Ending(gs, colon)| - 1] == ':'
    ensures gs != [] ==> Ending(gs, true) == Ending(gs, false) + ":"
  {
    if |gs| > 1 { EndingColon(gs[1..], colon); }
  }

  /** Behind a group one more colon at the end changes nothing. */
  lemma ExtraColon(s: string)
    requires '.' !in s && Pton(s).Some? && s[|s| - 1] != ':'
    ensures Pton(s + ":") == Pton(s)
  {
    var f := ReadForm(s);
    var gs := if f.gapped then f.back else f.front;
    EndingColon(gs, f.colon);
    var t := f.(colon := true);
    assert Written(t) == s + ":";
    FormRead(t);
  }
}
