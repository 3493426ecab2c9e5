/** IPv6 text in upper and lower case, for `Inet6`. */
module Inet6Cases {
  import opened Octets
  import opened Options
  import opened Inet6

  /** A character with hex letters and the one of a prefix in lower case. */
  function Lower(c: char): char {
    if 'A' <= c <= 'F' || c == 'X' then (c as int + 32) as char else c
  }

  /** Texts that differ in the case of such letters only. */
  predicate SameText(s: string, t: string) {
    |s| == |t| && forall i {:trigger s[i]} {:trigger t[i]} :: 0 <= i < |s| ==> Lower(s[i]) == Lower(t[i])
  }

  lemma {:induction false} SameValue(s: string, t: string, base: nat)
    requires SameText(s, t) && AllHex(s) && AllHex(t)
    ensures Value(s, base) == Value(t, base)
  {
    if s != [] { SameValue(s[..|s| - 1], t[..|t| - 1], base); }
  }

  lemma {:induction false} SameHexLen(s: string, t: string, k: nat)
    requires SameText(s, t) && k <= |s|
    ensures HexLen(s, k) == HexLen(t, k)
    decreases |s| - k
  {
    if k < |s| { SameHexLen(s, t, k + 1); }
  }

  lemma {:induction false} SameDecLen(s: string, t: string, k: nat)
    requires SameText(s, t) && k <= |s|
    ensures DecLen(s, k) == DecLen(t, k)
    decreases |s| - k
  {
    if k < |s| { SameDecLen(s, t, k + 1); }
  }

  lemma SamePart(s: string, t: string, k: nat, n: nat)
    requires SameText(s, t) && k + n <= |s|
    ensures SameText(s[k..k + n], t[k..k + n])
  {
  }

  lemma SameHex(s: string, t: string, k: nat, n: nat)
    requires SameText(s, t) && k <= |s| && n == HexLen(s, k)
    ensures n == HexLen(t, k) && Value(s[k..k + n], 16) == Value(t[k..k + n], 16)
  {
    SameHexLen(s, t, k);
    SamePart(s, t, k, n);
    SameValue(s[k..k + n], t[k..k + n], 16);
  }

  lemma SameDecimal(s: string, t: string, k: nat, n: nat)
    requires SameText(s, t) && k <= |s| && n == DecLen(s, k)
    ensures n == DecLen(t, k) && Value(s[k..k + n], 10) == Value(t[k..k + n], 10)
  {
    SameDecLen(s, t, k);
    SamePart(s, t, k, n);
    SameValue(s[k..k + n], t[k..k + n], 10);
  }

  lemma SamePrefix(s: string, t: string, k: nat)
    requires SameText(s, t) && k < |s|
    ensures Prefixed(s, k) == Prefixed(t, k) && IsHex(s[k]) == IsHex(t[k])
  {
  }

  lemma StrtolIs(s: string, k: nat, from: nat, n: nat)
    requires k < |s| && IsHex(s[k]) && from == (if Prefixed(s, k) then k + 2 else k) && n == HexLen(s, from)
    ensures Strtol(s, k) == Num(Value(s[from..from + n], 16), from - k + n)
  {
  }

  lemma SameNumber(s: string, t: string, k: nat)
    requires SameText(s, t) && k < |s| && IsHex(s[k])
    ensures IsHex(t[k]) && Strtol(s, k) == Strtol(t, k)
  {
    SamePrefix(s, t, k);
    var from := if Prefixed(s, k) then k + 2 else k;
    var n := HexLen(s, from);
    SameHex(s, t, from, n);
    StrtolIs(s, k, from, n);
    StrtolIs(t, k, from, n);
  }

  lemma SamePiece(s: string, t: string, k: nat, eow: nat, n: nat, gap: int)
    requires SameText(s, t) && k < eow <= |s|
    ensures PieceAt(s, k, eow, n, gap) == PieceAt(t, k, eow, n, gap)
  {
    if IsHex(s[k]) { SameNumber(s, t, k); }
  }

  lemma {:induction false} SameWords(s: string, t: string, k: nat, eow: nat, ws: Words, gap: int)
    requires SameText(s, t) && eow <= |s|
    ensures ParseWords(s, k, eow, ws, gap) == ParseWords(t, k, eow, ws, gap)
    decreases if k < eow then eow - k else 0
  {
    if k < eow {
      SamePiece(s, t, k, eow, |ws|, gap);
      match PieceAt(s, k, eow, |ws|, gap)
      case Bad =>
      case Word(w, next) => SameWords(s, t, next, eow, ws + [w], gap);
      case Gap(next) => SameWords(s, t, next, eow, ws, |ws|);
    }
  }

  /** What is read when a number of `n` digits that is `v` stands at `k`. */
  function QuadFrom(s: string, k: nat, left: nat, n: nat, v: nat): Option<seq<nat>>
    requires k + n <= |s| && left > 0
  {
    if n == 0 || v > 255 then None
    else if left == 1 then if k + n == |s| then Some([v]) else None
    else if k + n == |s| || s[k + n] != '.' then None
    else Before(v, ParseQuad(s, k + n + 1, left - 1))
  }

  lemma QuadStep(s: string, k: nat, left: nat)
    requires k <= |s| && left > 0
    ensures ParseQuad(s, k, left) == QuadFrom(s, k, left, DecLen(s, k), Value(s[k..k + DecLen(s, k)], 10))
  {
  }

  /** The number that both have at `k`. */
  lemma QuadBoth(s: string, t: string, k: nat, left: nat) returns (n: nat, v: nat)
    requires SameText(s, t) && k <= |s| && left > 0
    ensures k + n <= |s|
    ensures ParseQuad(s, k, left) == QuadFrom(s, k, left, n, v) && ParseQuad(t, k, left) == QuadFrom(t, k, left, n, v)
  {
    n := DecLen(s, k);
    v := Value(s[k..k + n], 10);
    SameDecimal(s, t, k, n);
    QuadStep(s, k, left);
    QuadStep(t, k, left);
  }

  lemma {:induction false} SameQuad(s: string, t: string, k: nat, left: nat)
    requires SameText(s, t) && k <= |s| && left > 0
    ensures ParseQuad(s, k, left) == ParseQuad(t, k, left)
    decreases left
  {
    var n, v := QuadBoth(s, t, k, left);
    if left > 1 && k + n < |s| { SameQuad(s, t, k + n + 1, left - 1); }
  }

  lemma {:induction false} SameDot(s: string, t: string, k: nat)
    requires SameText(s, t) && k <= |s|
    ensures FirstDot(s, k) == FirstDot(t, k)
    decreases |s| - k
  {
    if k < |s| { SameDot(s, t, k + 1); }
  }

  lemma {:induction false} SameBack(s: string, t: string, d: nat)
    requires SameText(s, t) && d <= |s|
    ensures BackDigits(s, d) == BackDigits(t, d)
  {
    if d > 0 { SameBack(s, t, d - 1); }
  }

  /** Texts that differ only in the case of letters are read alike. */
  lemma CaseBlind(s: string, t: string)
    requires SameText(s, t)
    ensures Pton(s) == Pton(t)
  {
    SameDot(s, t, 0);
    var dot := FirstDot(s, 0);
    SameBack(s, t, dot);
    SameWords(s, t, 0, |s|, [], -1);
    SameWords(s, t, 0, BackDigits(s, dot), [], -1);
    SameQuad(s, t, BackDigits(s, dot), 4);
  }

  /** An address is read back from its text in any case of letters. */
  lemma AnyCaseRoundTrip(a: seq<byte>, text: string, t: string)
    requires |a| == 16 && IsText(WordsOf(a), text) && SameText(text, t)
    ensures Pton(t) == Some(WordsOf(a))
  {
    TextRoundTrip(a, text);
    CaseBlind(text, t);
  }
}
