/** IPv6 addresses as text, after `evutil_inet_ntop` and `evutil_inet_pton` in `evutil.c`. */
module Inet6 {
  import opened Octets
  import opened Options
  import opened Powers

  // Digits.

  predicate IsDigit(c: char) {
    '0' <= c <= '9'
  }

  predicate IsHex(c: char) {
    IsDigit(c) || 'a' <= c <= 'f' || 'A' <= c <= 'F'
  }

  function HexVal(c: char): (d: nat)
    requires IsHex(c)
    ensures d < 16
  {
    if IsDigit(c) then (c as int - '0' as int) as nat
    else if 'a' <= c <= 'f' then (c as int - 'a' as int + 10) as nat
    else (c as int - 'A' as int + 10) as nat
  }

  function HexChar(d: nat): (c: char)
    requires d < 16
    ensures IsHex(c) && HexVal(c) == d && c != ':' && c != '.' && (d < 10 ==> IsDigit(c))
  {
    if d < 10 then ('0' as int + d) as char else ('a' as int + d - 10) as char
  }

  /** A number in base `base` without leading zeros: `%x` and `%d`. */
  function Digits(n: nat, base: nat): (s: string)
    requires 2 <= base <= 16
    ensures |s| > 0
  {
    if n < base then [HexChar(n)] else Digits(n / base, base) + [HexChar(n % base)]
  }

  predicate AllHex(s: string) {
    forall i {:trigger s[i]} :: 0 <= i < |s| ==> IsHex(s[i])
  }

  predicate AllDigits(s: string) {
    forall i {:trigger s[i]} :: 0 <= i < |s| ==> IsDigit(s[i])
  }

  /** The number some digits stand for. */
  function Value(s: string, base: nat): nat
    requires AllHex(s)
  {
    if s == [] then 0 else base * Value(s[..|s| - 1], base) + HexVal(s[|s| - 1])
  }

  lemma {:induction false} DigitsBack(n: nat, base: nat)
    requires base == 10 || base == 16
    ensures AllHex(Digits(n, base)) && Value(Digits(n, base), base) == n
    ensures base == 10 ==> AllDigits(Digits(n, base))
  {
    if n >= base {
      DigitsBack(n / base, base);
      var s := Digits(n, base);
      assert s[..|s| - 1] == Digits(n / base, base);
    }
  }

  lemma {:induction false} HexShort(w: nat, k: nat)
    requires w < Pow16(k) && k > 0
    ensures |Digits(w, 16)| <= k
  {
    if w >= 16 { HexShort(w / 16, k - 1); }
  }

  /** How many characters from `k` on are hex digits. */
  function HexLen(s: string, k: nat): (n: nat)
    requires k <= |s|
    ensures k + n <= |s| && AllHex(s[k..k + n])
    decreases |s| - k
  {
    if k == |s| || !IsHex(s[k]) then 0
    else
      var n := HexLen(s, k + 1);
      assert s[k..k + (n + 1)] == [s[k]] + s[k + 1..k + 1 + n];
      n + 1
  }

  /** A run of digits is as long as it is when something else follows. */
  lemma {:induction false} HexLenIs(s: string, k: nat, n: nat)
    requires k + n <= |s| && AllHex(s[k..k + n]) && (k + n == |s| || !IsHex(s[k + n]))
    ensures HexLen(s, k) == n
    decreases n
  {
    if n > 0 {
      assert s[k] == s[k..k + n][0];
      assert s[k + 1..k + n] == s[k..k + n][1..];
      HexLenIs(s, k + 1, n - 1);
    }
  }

  /** A number read and the characters it took. */
  datatype Num = Num(value: nat, length: nat)

  predicate Prefixed(s: string, k: nat) {
    k + 2 < |s| && s[k] == '0' && (s[k + 1] == 'x' || s[k + 1] == 'X') && IsHex(s[k + 2])
  }

  /** `strtol` in base 16 at a hex digit; it takes a prefix like "0x" too. */
  function Strtol(s: string, k: nat): (r: Num)
    requires k < |s| && IsHex(s[k])
    ensures 0 < r.length && k + r.length <= |s|
  {
    if Prefixed(s, k) then
      var n := HexLen(s, k + 2);
      Num(Value(s[k + 2..k + 2 + n], 16), n + 2)
    else
      var n := HexLen(s, k);
      Num(Value(s[k..k + n], 16), n)
  }

  // Addresses.

  type Words = seq<nat>

  predicate IsWords(ws: Words) {
    |ws| == 8 && forall i {:trigger ws[i]} :: 0 <= i < 8 ==> ws[i] < 65536
  }

  function WordsOf(a: seq<byte>): (ws: Words)
    requires |a| == 16
    ensures IsWords(ws)
  {
    seq(8, i requires 0 <= i < 8 => a[2 * i] as int * 256 + a[2 * i + 1] as int)
  }

  function BytesOf(ws: Words): (a: seq<byte>)
    requires IsWords(ws)
    ensures |a| == 16
  {
    seq(16, i requires 0 <= i < 16 => if i % 2 == 0 then ws[i / 2] / 256 else ws[i / 2] % 256)
  }

  lemma BytesBack(a: seq<byte>)
    requires |a| == 16
    ensures BytesOf(WordsOf(a)) == a
  {
    var ws := WordsOf(a);
    forall i | 0 <= i < 16 ensures BytesOf(ws)[i] == a[i] {
      assert ws[i / 2] == a[2 * (i / 2)] as int * 256 + a[2 * (i / 2) + 1] as int;
    }
  }

  /** Where the run of zeros at `i` ends. */
  function RunEnd(ws: Words, i: nat): (j: nat)
    requires i <= |ws|
    ensures i <= j <= |ws| && (forall k :: i <= k < j ==> ws[k] == 0) && (j < |ws| ==> ws[j] != 0)
    decreases |ws| - i
  {
    if i < |ws| && ws[i] == 0 then RunEnd(ws, i + 1) else i
  }

  /** The words from `i` on as text, with the run at `gap` left out. */
  function Print(ws: Words, gap: int, i: nat): string
    requires |ws| == 8 && i <= 8 && (0 <= gap < 8 ==> ws[gap] == 0)
    decreases 8 - i
  {
    if i == 8 then ""
    else if i == gap then (if i == 0 then "::" else ":") + Print(ws, gap, RunEnd(ws, i))
    else Digits(ws[i], 16) + (if i < 7 then ":" else "") + Print(ws, gap, i + 1)
  }

  /** Decimal numbers with dots between. */
  function Dotted(ns: seq<nat>): string
    requires ns != []
  {
    if |ns| == 1 then Digits(ns[0], 10) else Digits(ns[0], 10) + "." + Dotted(ns[1..])
  }

  /** The four bytes at the end of an address. */
  function QuadOf(ws: Words): seq<nat>
    requires |ws| == 8
  {
    [ws[6] / 256, ws[6] % 256, ws[7] / 256, ws[7] % 256]
  }

  /** The addresses that are printed with a dotted quad. */
  predicate Embeds(ws: Words)
    requires |ws| == 8
  {
    && ws[0] == 0 && ws[1] == 0 && ws[2] == 0 && ws[3] == 0 && ws[4] == 0
    && ((ws[5] == 0 && ws[6] != 0 && ws[7] != 0) || ws[5] == 0xffff)
  }

  // Reading.

  datatype Parsed = Parsed(words: Words, gap: int)

  /** What stands at `k`: nothing that goes on, a word that ends before `next`, or the gap. */
  datatype Piece = Bad | Word(value: nat, next: nat) | Gap(next: nat)

  function PieceAt(s: string, k: nat, eow: nat, n: nat, gap: int): (p: Piece)
    requires k < eow <= |s|
    ensures p.Word? ==> p.next > k
    ensures p.Gap? ==> p.next > k && gap == -1
  {
    if n > 7 then Bad
    else if IsHex(s[k]) then
      var x := Strtol(s, k);
      var next := k + x.length;
      if x.length > 4 || (next != eow && (next == |s| || s[next] != ':')) then Bad else Word(x.value, next + 1)
    else if s[k] == ':' && n > 0 && gap == -1 then Gap(k + 1)
    else if s[k] == ':' && n == 0 && k + 1 < |s| && s[k + 1] == ':' && gap == -1 then Gap(k + 2)
    else Bad
  }

  /** The loop of `evutil_inet_pton` over the words before `eow`. */
  function ParseWords(s: string, k: nat, eow: nat, ws: Words, gap: int): Option<Parsed>
    requires eow <= |s|
    decreases if k < eow then eow - k else 0
  {
    if k >= eow then Some(Parsed(ws, gap))
    else match PieceAt(s, k, eow, |ws|, gap)
      case Bad => None
      case Word(w, next) => ParseWords(s, next, eow, ws + [w], gap)
      case Gap(next) => ParseWords(s, next, eow, ws, |ws|)
  }

  function Zeros(n: nat): Words {
    seq(n, _ => 0)
  }

  /** The words with the gap filled, in front of the two of a dotted quad if there is one. */
  function Fill(p: Parsed, tail: Words): Option<Words> {
    var n := |p.words| + |tail|;
    if n > 8 || (n == 8 && p.gap != -1) || (n < 8 && p.gap == -1) then None
    else if p.gap == -1 then Some(p.words + tail)
    else if p.gap < 0 || p.gap > |p.words| then None
    else Some(p.words[..p.gap] + Zeros(8 - n) + p.words[p.gap..] + tail)
  }

  /** The first dot from `k` on, or the end. */
  function FirstDot(s: string, k: nat): (d: nat)
    requires k <= |s|
    ensures k <= d <= |s| && (d < |s| ==> s[d] == '.')
    decreases |s| - k
  {
    if k == |s| || s[k] == '.' then k else FirstDot(s, k + 1)
  }

  /** Where the digits before `d` begin. */
  function BackDigits(s: string, d: nat): (e: nat)
    requires d <= |s|
    ensures e <= d
  {
    if d > 0 && IsDigit(s[d - 1]) then BackDigits(s, d - 1) else d
  }

  function DecLen(s: string, k: nat): (n: nat)
    requires k <= |s|
    ensures k + n <= |s| && AllHex(s[k..k + n])
    decreases |s| - k
  {
    if k == |s| || !IsDigit(s[k]) then 0
    else
      var n := DecLen(s, k + 1);
      assert s[k..k + (n + 1)] == [s[k]] + s[k + 1..k + 1 + n];
      n + 1
  }

  /** Four decimal numbers up to 255 from `k` to the end, with dots between: what is left of them. */
  function ParseQuad(s: string, k: nat, left: nat): Option<seq<nat>>
    requires k <= |s| && left > 0
    decreases left
  {
    var n := DecLen(s, k);
    if n == 0 then None
    else
      var v := Value(s[k..k + n], 10);
      if left == 1 then if k + n == |s| && v <= 255 then Some([v]) else None
      else if k + n == |s| || s[k + n] != '.' || v > 255 then None
      else Before(v, ParseQuad(s, k + n + 1, left - 1))
  }

  function Before(v: nat, rest: Option<seq<nat>>): Option<seq<nat>> {
    if rest.None? then None else Some([v] + rest.value)
  }

  /** `evutil_inet_pton` for IPv6, to words. */
  function Pton(s: string): Option<Words> {
    var dot := FirstDot(s, 0);
    if dot == |s| then
      match ParseWords(s, 0, |s|, [], -1)
      case None => None
      case Some(p) => Fill(p, [])
    else if dot == 0 then None
    else
      var eow := BackDigits(s, dot);
      match ParseQuad(s, eow, 4)
      case None => None
      case Some(q) =>
        if |q| != 4 then None
        else match ParseWords(s, 0, eow, [], -1)
          case None => None
          case Some(p) => Fill(p, TailOf(q))
  }

  // Reading back what was printed.

  /** The words from `i` on without the run at `gap`. */
  function Left(ws: Words, gap: int, i: nat): Words
    requires |ws| == 8 && i <= 8 && (0 <= gap < 8 ==> ws[gap] == 0)
    decreases 8 - i
  {
    if i == 8 then [] else if i == gap then Left(ws, gap, RunEnd(ws, i)) else [ws[i]] + Left(ws, gap, i + 1)
  }

  /** Digits that another kind of character ends are read as they are. */
  lemma PlainNumber(s: string, k: nat, n: nat)
    requires 0 < n && k + n <= |s| && AllHex(s[k..k + n]) && (k + n == |s| || s[k + n] == ':')
    ensures IsHex(s[k]) && Strtol(s, k) == Num(Value(s[k..k + n], 16), n)
  {
    assert s[k] == s[k..k + n][0];
    assert n > 1 ==> s[k + 1] == s[k..k + n][1];
    HexLenIs(s, k, n);
  }

  ghost predicate PrintedAt(ws: Words, gap: int, text: string, i: nat, k: nat)
    requires |ws| == 8 && i <= 8 && (0 <= gap < 8 ==> ws[gap] == 0)
  {
    k <= |text| && text[k..] == Print(ws, gap, i)
  }

  /** The word `w` stands at `k` in `n` digits, well ended. */
  ghost predicate WordHere(text: string, k: nat, w: nat, n: nat) {
    && 0 < n <= 4 && k + n <= |text| && IsHex(text[k]) && Strtol(text, k) == Num(w, n)
    && (k + n == |text| || text[k + n] == ':')
  }

  lemma WordText(d: string, sep: string, rest: string, text: string, k: nat)
    requires k <= |text| && text[k..] == d + sep + rest && (sep == "" || sep == ":") && (sep == "" ==> rest == "")
    ensures var n := |d|;
      && k + n <= |text| && text[k..k + n] == d && (sep == "" ==> k + n == |text|)
      && (sep == ":" ==> k + n < |text| && text[k + n] == ':' && text[k + n + 1..] == rest)
  {
    var n := |d|;
    assert text[k..k + n] == text[k..][..n] == d;
    if sep == ":" {
      assert text[k + n] == text[k..][n];
      assert text[k + n + 1..] == text[k..][n + 1..];
    }
  }

  lemma HexWord(w: nat)
    requires w < 65536
    ensures AllHex(Digits(w, 16)) && Value(Digits(w, 16), 16) == w && 0 < |Digits(w, 16)| <= 4
  {
    DigitsBack(w, 16);
    assert Pow16(4) == 65536 by { assert Pow16(2) == 256; }
    HexShort(w, 4);
  }

  lemma WordIsHere(d: string, text: string, k: nat, w: nat)
    requires AllHex(d) && Value(d, 16) == w && 0 < |d| <= 4 && k + |d| <= |text| && text[k..k + |d|] == d
    requires k + |d| == |text| || text[k + |d|] == ':'
    ensures WordHere(text, k, w, |d|)
  {
    PlainNumber(text, k, |d|);
  }

  lemma WordAt(ws: Words, gap: int, text: string, i: nat, k: nat)
    requires IsWords(ws) && i < 8 && (0 <= gap < 8 ==> ws[gap] == 0) && i != gap && PrintedAt(ws, gap, text, i, k)
    ensures var n := |Digits(ws[i], 16)|;
      && WordHere(text, k, ws[i], n) && (i == 7 ==> k + n == |text|)
      && (i < 7 ==> k + n < |text| && PrintedAt(ws, gap, text, i + 1, k + n + 1))
  {
    var d := Digits(ws[i], 16);
    HexWord(ws[i]);
    WordText(d, if i < 7 then ":" else "", Print(ws, gap, i + 1), text, k);
    WordIsHere(d, text, k, ws[i]);
  }

  lemma GapAt(ws: Words, gap: int, text: string, i: nat, k: nat)
    requires IsWords(ws) && i < 8 && (0 <= gap < 8 ==> ws[gap] == 0) && i == gap && PrintedAt(ws, gap, text, i, k)
    ensures var n := if i == 0 then 2 else 1;
      && k + n <= |text| && text[k] == ':' && (i == 0 ==> text[k + 1] == ':')
      && PrintedAt(ws, gap, text, RunEnd(ws, i), k + n)
  {
    var sep := if i == 0 then "::" else ":";
    assert text[k..] == sep + Print(ws, gap, RunEnd(ws, i));
    assert text[k] == text[k..][0] && (i == 0 ==> text[k + 1] == text[k..][1]);
    assert text[k + |sep|..] == text[k..][|sep|..];
  }

  /** How many words have been printed before `i`. */
  function Shown(ws: Words, gap: int, i: nat): int
    requires |ws| == 8 && i <= 8 && (0 <= gap < 8 ==> ws[gap] == 0)
  {
    if 0 <= gap < i then i - (RunEnd(ws, gap) - gap) else i
  }

  /** One word of the loop, when it is well formed. */
  lemma ParseOne(s: string, k: nat, eow: nat, ws: Words, gap: int, x: Num)
    requires k < eow <= |s| && |ws| <= 7 && IsHex(s[k]) && Strtol(s, k) == x && x.length <= 4
    requires k + x.length == eow || (k + x.length < |s| && s[k + x.length] == ':')
    ensures ParseWords(s, k, eow, ws, gap) == ParseWords(s, k + x.length + 1, eow, ws + [x.value], gap)
  {
  }

  lemma GapStep(ws: Words, gap: int, text: string, i: nat, k: nat, done: Words)
    requires IsWords(ws) && i < 8 && (0 <= gap < 8 ==> ws[gap] == 0) && i == gap && PrintedAt(ws, gap, text, i, k)
    requires |done| == i
    ensures ParseWords(text, k, |text|, done, -1) == ParseWords(text, k + if i == 0 then 2 else 1, |text|, done, gap)
  {
    GapAt(ws, gap, text, i, k);
  }

  /** The gap has been read if the text is past it. */
  function Found(gap: int, i: nat): int {
    if 0 <= gap < i then gap else -1
  }

  /** The text from `k` on reads as the words from `i` on. */
  ghost predicate ReadsOn(ws: Words, gap: int, text: string, i: nat, k: nat, done: Words)
    requires |ws| == 8 && i <= 8 && (0 <= gap < 8 ==> ws[gap] == 0)
  {
    ParseWords(text, k, |text|, done, Found(gap, i)) == Some(Parsed(done + Left(ws, gap, i), gap))
  }

  /** Where the reading stands: `done` are the words before `i`, and the rest of the text are the others. */
  ghost predicate Midway(ws: Words, gap: int, text: string, i: nat, k: nat, done: Words) {
    && IsWords(ws) && i <= 8 && -1 <= gap < 8 && (0 <= gap < 8 ==> ws[gap] == 0)
    && (gap == -1 || i <= gap || RunEnd(ws, gap) <= i) && |done| == Shown(ws, gap, i)
    && if i == 8 then k >= |text| else PrintedAt(ws, gap, text, i, k)
  }

  lemma GapNext(ws: Words, gap: int, text: string, i: nat, k: nat, done: Words) returns (j: nat, k': nat)
    requires Midway(ws, gap, text, i, k, done) && i < 8 && i == gap
    ensures i < j && Midway(ws, gap, text, j, k', done)
    ensures ReadsOn(ws, gap, text, j, k', done) ==> ReadsOn(ws, gap, text, i, k, done)
  {
    j, k' := RunEnd(ws, i), k + if i == 0 then 2 else 1;
    GapAt(ws, gap, text, i, k);
    GapStep(ws, gap, text, i, k, done);
  }

  lemma WordReads(ws: Words, gap: int, text: string, i: nat, k: nat, done: Words, k': nat, done': Words)
    requires IsWords(ws) && i < 8 && (0 <= gap < 8 ==> ws[gap] == 0) && i != gap && Found(gap, i) == Found(gap, i + 1)
    requires done' == done + [ws[i]]
    requires ParseWords(text, k, |text|, done, Found(gap, i)) == ParseWords(text, k', |text|, done', Found(gap, i))
    requires ReadsOn(ws, gap, text, i + 1, k', done')
    ensures ReadsOn(ws, gap, text, i, k, done)
  {
    Snoc(done, ws[i], Left(ws, gap, i + 1));
  }

  /** The text after the word at `i`. */
  lemma WordMoves(ws: Words, gap: int, text: string, i: nat, k: nat, done: Words) returns (n: nat)
    requires Midway(ws, gap, text, i, k, done) && i < 8 && i != gap
    ensures WordHere(text, k, ws[i], n) && Midway(ws, gap, text, i + 1, k + n + 1, done + [ws[i]])
  {
    WordAt(ws, gap, text, i, k);
    n := |Digits(ws[i], 16)|;
  }

  lemma WordBack(ws: Words, gap: int, text: string, i: nat, k: nat, done: Words, k': nat, done': Words, n: nat)
    requires IsWords(ws) && i < 8 && (0 <= gap < 8 ==> ws[gap] == 0) && i != gap && WordHere(text, k, ws[i], n)
    requires |done| <= 7 && k' == k + n + 1 && done' == done + [ws[i]]
    requires ReadsOn(ws, gap, text, i + 1, k', done')
    ensures ReadsOn(ws, gap, text, i, k, done)
  {
    ParseOne(text, k, |text|, done, Found(gap, i), Num(ws[i], n));
    WordReads(ws, gap, text, i, k, done, k', done');
  }

  lemma EndReads(ws: Words, gap: int, text: string, k: nat, done: Words)
    requires Midway(ws, gap, text, 8, k, done)
    ensures ReadsOn(ws, gap, text, 8, k, done)
  {
    assert done + [] == done;
  }

  /** The rest of the text reads as the rest of the words. */
  lemma {:induction false} PrintParse(ws: Words, gap: int, text: string, i: nat, k: nat, done: Words)
    requires Midway(ws, gap, text, i, k, done)
    ensures ReadsOn(ws, gap, text, i, k, done)
    decreases 8 - i
  {
    if i == 8 {
      EndReads(ws, gap, text, k, done);
    } else if i == gap {
      var j, k' := GapNext(ws, gap, text, i, k, done);
      PrintParse(ws, gap, text, j, k', done);
    } else {
      var n := WordMoves(ws, gap, text, i, k, done);
      var k', done' := k + n + 1, done + [ws[i]];
      PrintParse(ws, gap, text, i + 1, k', done');
      WordBack(ws, gap, text, i, k, done, k', done', n);
    }
  }

  lemma Snoc(a: Words, x: nat, b: Words)
    ensures a + [x] + b == a + ([x] + b)
    ensures b == [] ==> a + [x] + b == a + [x]
  {
  }

  lemma {:induction false} LeftAfter(ws: Words, gap: int, i: nat)
    requires |ws| == 8 && i <= 8 && -1 <= gap < i && (0 <= gap ==> ws[gap] == 0)
    ensures Left(ws, gap, i) == ws[i..]
    decreases 8 - i
  {
    if i < 8 { LeftAfter(ws, gap, i + 1); }
  }

  lemma {:induction false} LeftBefore(ws: Words, gap: int, i: nat)
    requires |ws| == 8 && i <= gap < 8 && ws[gap] == 0
    ensures Left(ws, gap, i) == ws[i..gap] + ws[RunEnd(ws, gap)..]
    decreases gap - i
  {
    if i == gap {
      LeftAfter(ws, gap, RunEnd(ws, gap));
    } else {
      LeftBefore(ws, gap, i + 1);
    }
  }

  lemma Splice(ws: Words, gap: nat, end: nat, left: Words)
    requires gap <= end <= |ws| == 8 && (forall k :: gap <= k < end ==> ws[k] == 0) && left == ws[..gap] + ws[end..]
    ensures |left| == 8 - (end - gap) && left[..gap] + Zeros(8 - |left|) + left[gap..] + [] == ws
  {
    assert left[..gap] == ws[..gap] && left[gap..] == ws[end..];
    assert Zeros(end - gap) == ws[gap..end];
  }

  lemma FillGap(ws: Words, gap: nat, end: nat, left: Words)
    requires gap < end <= |ws| == 8 && (forall k :: gap <= k < end ==> ws[k] == 0) && left == ws[..gap] + ws[end..]
    ensures Fill(Parsed(left, gap), []) == Some(ws)
  {
    Splice(ws, gap, end, left);
  }

  /** Filling the gap gives the words back. */
  lemma FillBack(ws: Words, gap: int)
    requires IsWords(ws) && -1 <= gap < 8 && (0 <= gap ==> ws[gap] == 0)
    ensures Fill(Parsed(Left(ws, gap, 0), gap), []) == Some(ws)
  {
    if gap == -1 {
      LeftAfter(ws, gap, 0);
      assert ws + [] == ws;
    } else {
      LeftBefore(ws, gap, 0);
      assert ws[0..gap] == ws[..gap];
      FillGap(ws, gap, RunEnd(ws, gap), Left(ws, gap, 0));
    }
  }

  lemma {:induction false} PrintNoDot(ws: Words, gap: int, i: nat)
    requires IsWords(ws) && i <= 8 && (0 <= gap < 8 ==> ws[gap] == 0)
    ensures '.' !in Print(ws, gap, i)
    decreases 8 - i
  {
    if i < 8 {
      if i == gap {
        PrintNoDot(ws, gap, RunEnd(ws, i));
      } else {
        PrintNoDot(ws, gap, i + 1);
        DigitsBack(ws[i], 16);
        assert '.' !in Digits(ws[i], 16);
      }
    }
  }

  lemma {:induction false} NoDot(s: string, k: nat)
    requires k <= |s| && '.' !in s
    ensures FirstDot(s, k) == |s|
    decreases |s| - k
  {
    if k < |s| {
      assert s[k] in s;
      NoDot(s, k + 1);
    }
  }

  /** Words printed in hex are read back, whichever run of zeros was left out. */
  lemma HexRoundTrip(ws: Words, gap: int)
    requires IsWords(ws) && -1 <= gap < 8 && (0 <= gap ==> ws[gap] == 0)
    ensures Pton(Print(ws, gap, 0)) == Some(ws)
  {
    var text := Print(ws, gap, 0);
    PrintNoDot(ws, gap, 0);
    NoDot(text, 0);
    assert text[0..] == text;
    PrintParse(ws, gap, text, 0, 0, []);
    assert [] + Left(ws, gap, 0) == Left(ws, gap, 0);
    FillBack(ws, gap);
  }

  // The forms with a dotted quad.

  lemma {:induction false} DecLenIs(s: string, k: nat, n: nat)
    requires k + n <= |s| && AllDigits(s[k..k + n]) && (k + n == |s| || !IsDigit(s[k + n]))
    ensures DecLen(s, k) == n
    decreases n
  {
    if n > 0 {
      assert s[k] == s[k..k + n][0];
      assert s[k + 1..k + n] == s[k..k + n][1..];
      DecLenIs(s, k + 1, n - 1);
    }
  }

  /** One decimal number of a quad. */
  lemma DecimalAt(s: string, k: nat, v: nat, rest: string)
    requires k <= |s| && s[k..] == Digits(v, 10) + rest && (rest == "" || rest[0] == '.')
    ensures var n := |Digits(v, 10)|;
      k + n <= |s| && DecLen(s, k) == n && AllHex(s[k..k + n]) && Value(s[k..k + n], 10) == v && s[k + n..] == rest
  {
    var d := Digits(v, 10);
    DigitsBack(v, 10);
    assert s[k..k + |d|] == s[k..][..|d|] == d;
    assert s[k + |d|..] == s[k..][|d|..] == rest;
    if rest != "" { assert s[k + |d|] == rest[0]; }
    DecLenIs(s, k, |d|);
  }

  /** The first number of a quad, and where the others begin. */
  lemma QuadHead(s: string, k: nat, ns: seq<nat>) returns (k': nat)
    requires k <= |s| && |ns| > 1 && s[k..] == Dotted(ns)
    ensures k' <= |s| && s[k'..] == Dotted(ns[1..])
    ensures ns[0] <= 255 ==> ParseQuad(s, k, |ns|) == Before(ns[0], ParseQuad(s, k', |ns| - 1))
  {
    var n, rest := |Digits(ns[0], 10)|, "." + Dotted(ns[1..]);
    assert Digits(ns[0], 10) + "." + Dotted(ns[1..]) == Digits(ns[0], 10) + rest;
    DecimalAt(s, k, ns[0], rest);
    assert s[k + n] == s[k + n..][0] == '.';
    k' := k + n + 1;
    assert s[k'..] == s[k + n..][1..];
    assert rest[1..] == Dotted(ns[1..]);
  }

  lemma QuadLast(s: string, k: nat, v: nat)
    requires k <= |s| && s[k..] == Digits(v, 10) && v <= 255
    ensures ParseQuad(s, k, 1) == Some([v])
  {
    assert Digits(v, 10) + "" == Digits(v, 10);
    DecimalAt(s, k, v, "");
  }

  lemma {:induction false} QuadBack(s: string, k: nat, ns: seq<nat>)
    requires k <= |s| && ns != [] && s[k..] == Dotted(ns) && forall i {:trigger ns[i]} :: 0 <= i < |ns| ==> ns[i] <= 255
    ensures ParseQuad(s, k, |ns|) == Some(ns)
    decreases |ns|
  {
    if |ns| == 1 {
      QuadLast(s, k, ns[0]);
      assert ns == [ns[0]];
    } else {
      var k' := QuadHead(s, k, ns);
      QuadBack(s, k', ns[1..]);
      assert ns == [ns[0]] + ns[1..];
    }
  }

  lemma {:induction false} FirstDotIs(s: string, k: nat, d: nat)
    requires k <= d < |s| && s[d] == '.' && forall i :: k <= i < d ==> s[i] != '.'
    ensures FirstDot(s, k) == d
    decreases d - k
  {
    if k < d { FirstDotIs(s, k + 1, d); }
  }

  lemma {:induction false} BackDigitsIs(s: string, e: nat, d: nat)
    requires e <= d <= |s| && (forall i :: e <= i < d ==> IsDigit(s[i])) && (e == 0 || !IsDigit(s[e - 1]))
    ensures BackDigits(s, d) == e
    decreases d
  {
    if e < d { BackDigitsIs(s, e, d - 1); }
  }

  /** Where the quad of `pre + Dotted(ns)` is found. */
  lemma QuadPlace(pre: string, ns: seq<nat>)
    requires pre != "" && pre[|pre| - 1] == ':' && '.' !in pre && |ns| > 1
    ensures var s := pre + Dotted(ns); 0 < FirstDot(s, 0) < |s| && BackDigits(s, FirstDot(s, 0)) == |pre|
  {
    var s, d := pre + Dotted(ns), Digits(ns[0], 10);
    DigitsBack(ns[0], 10);
    assert s == pre + d + "." + Dotted(ns[1..]);
    var at := |pre| + |d|;
    forall i | 0 <= i < at ensures s[i] != '.' && (|pre| <= i ==> IsDigit(s[i])) {
      if i < |pre| { assert s[i] == pre[i] && pre[i] in pre; } else { assert s[i] == d[i - |pre|]; }
    }
    FirstDotIs(s, 0, at);
    BackDigitsIs(s, |pre|, at);
  }

  /** The text of an address that ends in a dotted quad. */
  function EmbeddedText(ws: Words): string
    requires |ws| == 8
  {
    (if ws[5] == 0 then "::" else "::" + Digits(ws[5], 16) + ":") + Dotted(QuadOf(ws))
  }

  lemma DigitsOfFfff()
    ensures Digits(0xffff, 16) == "ffff"
  {
    assert Digits(0xf, 16) == "f";
    assert Digits(0xff, 16) == "ff";
    assert Digits(0xfff, 16) == "fff";
  }

  lemma PlainPrefix(s: string)
    requires "::" <= s
    ensures ParseWords(s, 0, 2, [], -1) == Some(Parsed([], 0))
  {
    assert ParseWords(s, 2, 2, [], 0) == Some(Parsed([], 0));
  }

  lemma MappedPrefix(s: string)
    requires "::ffff:" <= s
    ensures ParseWords(s, 0, 7, [], -1) == Some(Parsed([0xffff], 0))
  {
    DigitsOfFfff();
    DigitsBack(0xffff, 16);
    assert s[2..6] == "ffff";
    PlainNumber(s, 2, 4);
    ParseOne(s, 2, 7, [], 0, Num(0xffff, 4));
    assert [] + [0xffff] == [0xffff];
    assert ParseWords(s, 7, 7, [0xffff], 0) == Some(Parsed([0xffff], 0));
  }

  function TailOf(q: seq<nat>): Words
    requires |q| == 4
  {
    [q[0] * 256 + q[1], q[2] * 256 + q[3]]
  }

  /** What is read of a text whose quad begins at `eow`. */
  lemma PtonQuad(s: string, eow: nat, q: seq<nat>, p: Parsed)
    requires 0 < FirstDot(s, 0) < |s| && BackDigits(s, FirstDot(s, 0)) == eow && |q| == 4
    requires ParseQuad(s, eow, |q|) == Some(q)
    requires ParseWords(s, 0, eow, [], -1) == Some(p)
    ensures Pton(s) == Fill(p, TailOf(q))
  {
  }

  /** A text made of a prefix and a quad. */
  lemma QuadReads(pre: string, q: seq<nat>, p: Parsed)
    requires pre != "" && pre[|pre| - 1] == ':' && '.' !in pre
    requires |q| == 4 && forall i {:trigger q[i]} :: 0 <= i < |q| ==> q[i] <= 255
    requires ParseWords(pre + Dotted(q), 0, |pre|, [], -1) == Some(p)
    ensures Pton(pre + Dotted(q)) == Fill(p, TailOf(q))
  {
    var s := pre + Dotted(q);
    QuadPlace(pre, q);
    assert s[|pre|..] == Dotted(q);
    QuadBack(s, |pre|, q);
    PtonQuad(s, |pre|, q, p);
  }

  lemma EmbeddedFill(ws: Words, p: Parsed)
    requires IsWords(ws) && Embeds(ws) && p == if ws[5] == 0 then Parsed([], 0) else Parsed([0xffff], 0)
    ensures Fill(p, [ws[6], ws[7]]) == Some(ws)
  {
    if ws[5] == 0 {
      assert [] + Zeros(6) + [] + [ws[6], ws[7]] == ws;
    } else {
      assert [] + Zeros(5) + [0xffff] + [ws[6], ws[7]] == ws;
    }
  }

  lemma EmbeddedWith(text: string, pre: string, q: seq<nat>, p: Parsed, ws: Words)
    requires |q| == 4 && forall i {:trigger q[i]} :: 0 <= i < |q| ==> q[i] <= 255
    requires text == pre + Dotted(q) && pre != "" && pre[|pre| - 1] == ':' && '.' !in pre
    requires ParseWords(text, 0, |pre|, [], -1) == Some(p) && Fill(p, TailOf(q)) == Some(ws)
    ensures Pton(text) == Some(ws)
  {
    QuadReads(pre, q, p);
  }

  lemma MappedText(ws: Words)
    requires |ws| == 8 && ws[5] == 0xffff
    ensures EmbeddedText(ws) == "::ffff:" + Dotted(QuadOf(ws))
  {
    DigitsOfFfff();
    assert "::" + "ffff" + ":" == "::ffff:";
  }

  lemma EmbeddedRoundTrip(ws: Words)
    requires IsWords(ws) && Embeds(ws)
    ensures Pton(EmbeddedText(ws)) == Some(ws)
  {
    var text, q := EmbeddedText(ws), QuadOf(ws);
    assert TailOf(q) == [ws[6], ws[7]];
    if ws[5] == 0 {
      PlainPrefix(text);
      EmbeddedFill(ws, Parsed([], 0));
      EmbeddedWith(text, "::", q, Parsed([], 0), ws);
    } else {
      MappedText(ws);
      MappedPrefix(text);
      EmbeddedFill(ws, Parsed([0xffff], 0));
      EmbeddedWith(text, "::ffff:", q, Parsed([0xffff], 0), ws);
    }
  }

  // Printing.

  function RunLen(ws: Words, i: nat): nat
    requires i <= |ws|
  {
    RunEnd(ws, i) - i
  }

  /** The first of the longest runs of zeros, if it is longer than one word. */
  ghost predicate LongestGap(ws: Words, gap: int) {
    if gap == -1 then forall i :: 0 <= i < |ws| ==> RunLen(ws, i) <= 1
    else
      && 0 <= gap < |ws| && RunLen(ws, gap) > 1
      && (forall i :: 0 <= i < |ws| ==> RunLen(ws, i) <= RunLen(ws, gap))
      && (forall i :: 0 <= i < gap ==> RunLen(ws, i) < RunLen(ws, gap))
  }

  /** The text `evutil_inet_ntop` makes of an address. */
  ghost predicate IsText(ws: Words, text: string)
    requires |ws| == 8
  {
    if Embeds(ws) then text == EmbeddedText(ws)
    else exists gap :: -1 <= gap < 8 && LongestGap(ws, gap) && PrintOf(ws, gap, text)
  }

  ghost predicate PrintOf(ws: Words, gap: int, text: string)
    requires |ws| == 8
  {
    (0 <= gap < 8 ==> ws[gap] == 0) && text == Print(ws, gap, 0)
  }

  /** For every address, reading the text it is printed as gives the address back. */
  lemma TextRoundTrip(a: seq<byte>, text: string)
    requires |a| == 16 && IsText(WordsOf(a), text)
    ensures Pton(text) == Some(WordsOf(a)) && BytesOf(WordsOf(a)) == a
  {
    var ws := WordsOf(a);
    BytesBack(a);
    if Embeds(ws) {
      EmbeddedRoundTrip(ws);
    } else {
      var gap :| -1 <= gap < 8 && LongestGap(ws, gap) && PrintOf(ws, gap, text);
      HexRoundTrip(ws, gap);
    }
  }

  /** The run at `i` is the longest that starts before `n`, and the first of its length. */
  ghost predicate Best(ws: Words, n: nat, pos: int, len: nat) {
    && n <= |ws| && (forall i :: 0 <= i < n ==> RunLen(ws, i) <= len)
    && (len == 0 ==> pos == -1)
    && (len > 0 ==> 0 <= pos < n && RunLen(ws, pos) == len && forall i :: 0 <= i < pos ==> RunLen(ws, i) < len)
  }

  /** Runs that start inside a run are shorter. */
  lemma {:induction false} InnerRun(ws: Words, i: nat, k: nat)
    requires i <= |ws| && i <= k <= RunEnd(ws, i)
    ensures RunEnd(ws, k) == RunEnd(ws, i)
    decreases k - i
  {
    if i < k { InnerRun(ws, i + 1, k); }
  }

  lemma BestAfterRun(ws: Words, i: nat, pos: int, len: nat)
    requires Best(ws, i, pos, len) && i < |ws| && ws[i] == 0
    ensures var end := RunEnd(ws, i); var n := end - i;
      i < end && Best(ws, end, if n > len then i else pos, if n > len then n else len)
  {
    var end := RunEnd(ws, i);
    forall k | i <= k < end ensures RunLen(ws, k) == end - k { InnerRun(ws, i, k); }
  }

  /** The search for the longest run of zeros. */
  method FindGap(ws: Words) returns (gap: int)
    requires |ws| == 8
    ensures -1 <= gap < 8 && LongestGap(ws, gap) && (0 <= gap ==> ws[gap] == 0)
  {
    var longestLen := 0;
    gap := -1;
    var i := 0;
    while i < 8
      invariant 0 <= i <= 8 && 0 <= longestLen && Best(ws, i, gap, longestLen)
    {
      if ws[i] == 0 {
        BestAfterRun(ws, i, gap, longestLen);
        ghost var start, end := i, RunEnd(ws, i);
        var curPos, curLen := i, 1;
        i := i + 1;
        while i < 8 && ws[i] == 0
          invariant start < i <= end <= 8 && curLen == i - start
        {
          i, curLen := i + 1, curLen + 1;
        }
        if curLen > longestLen { gap, longestLen := curPos, curLen; }
      } else {
        i := i + 1;
      }
    }
    if longestLen <= 1 { gap := -1; }
  }

  /** What is printed so far, with the rest behind it, is the whole text. */
  ghost predicate Sofar(text: string, ws: Words, gap: int, i: nat)
    requires |ws| == 8 && i <= 8 && (0 <= gap < 8 ==> ws[gap] == 0)
  {
    text + Print(ws, gap, i) == Print(ws, gap, 0)
  }

  lemma Assoc(a: string, b: string, c: string, d: string)
    ensures a + (b + c + d) == a + b + c + d && a + (b + c) == a + b + c
  {
  }

  lemma SofarGap(text: string, ws: Words, gap: int, i: nat)
    requires |ws| == 8 && i < 8 && (0 <= gap < 8 ==> ws[gap] == 0) && i == gap && Sofar(text, ws, gap, i)
    ensures Sofar(text + (if i == 0 then "::" else ":"), ws, gap, RunEnd(ws, i))
  {
    Assoc(text, if i == 0 then "::" else ":", Print(ws, gap, RunEnd(ws, i)), "");
  }

  lemma SofarWord(text: string, ws: Words, gap: int, i: nat)
    requires |ws| == 8 && i < 8 && (0 <= gap < 8 ==> ws[gap] == 0) && i != gap && Sofar(text, ws, gap, i)
    ensures Sofar(text + Digits(ws[i], 16) + (if i < 7 then ":" else ""), ws, gap, i + 1)
  {
    Assoc(text, Digits(ws[i], 16), if i < 7 then ":" else "", Print(ws, gap, i + 1));
  }

  lemma SofarEnds(text: string, ws: Words, gap: int)
    requires |ws| == 8 && (0 <= gap < 8 ==> ws[gap] == 0)
    ensures Sofar("", ws, gap, 0) && (Sofar(text, ws, gap, 8) ==> text == Print(ws, gap, 0))
  {
    assert "" + Print(ws, gap, 0) == Print(ws, gap, 0) && text + "" == text;
  }

  /** Past a run of zeros. */
  method SkipZeros(ws: Words, from: nat) returns (i: nat)
    requires from <= |ws|
    ensures i == RunEnd(ws, from)
  {
    i := from;
    while i < |ws| && ws[i] == 0
      invariant from <= i <= RunEnd(ws, from)
    {
      i := i + 1;
    }
  }

  /** The printing loop. */
  method PrintWords(ws: Words, gap: int) returns (text: string)
    requires |ws| == 8 && -1 <= gap < 8 && (0 <= gap ==> ws[gap] == 0)
    ensures text == Print(ws, gap, 0)
  {
    text := "";
    SofarEnds(text, ws, gap);
    var i: nat := 0;
    while i < 8
      invariant i <= 8 && Sofar(text, ws, gap, i)
    {
      if ws[i] == 0 && gap == i {
        SofarGap(text, ws, gap, i);
        text := text + if i == 0 then "::" else ":";
        i := SkipZeros(ws, i);
      } else {
        SofarWord(text, ws, gap, i);
        text := text + Digits(ws[i], 16) + if i < 7 then ":" else "";
        i := i + 1;
      }
    }
    SofarEnds(text, ws, gap);
  }

  /**
   * `evutil_inet_ntop` for room of `len` bytes. The check lets a text of exactly `len` characters
   * through, and the copy then drops its last one.
   */
  method Ntop(a: seq<byte>, len: nat) returns (r: Option<string>, ghost text: string)
    requires |a| == 16
    ensures IsText(WordsOf(a), text)
    ensures r == if |text| > len then None else if |text| == len then Some(text[..|text| - 1]) else Some(text)
  {
    var ws := WordsOf(a);
    var buf;
    if Embeds(ws) {
      buf := EmbeddedText(ws);
    } else {
      var gap := FindGap(ws);
      buf := PrintWords(ws, gap);
      assert PrintOf(ws, gap, buf);
    }
    text := buf;
    TextNotEmpty(ws, text);
    if |buf| > len { return None, text; }
    return Some(if |buf| < len then buf else buf[..len - 1]), text;
  }

  lemma TextNotEmpty(ws: Words, text: string)
    requires |ws| == 8 && IsText(ws, text)
    ensures |text| > 0
  {
  }

  /** Room for a text of exactly `len` characters is not enough: the last one goes. */
  lemma RoomTooShort()
    ensures var a := seq(16, _ => 0); IsText(WordsOf(a), "::") && Pton("::"[..2 - 1]) == None
  {
    var a: seq<byte> := seq(16, _ => 0);
    var ws := WordsOf(a);
    forall i | 0 <= i < 8 ensures ws[i] == 0 && RunEnd(ws, i) == 8 { ZeroRun(ws, i); }
    assert Print(ws, 0, 8) == "" && Print(ws, 0, 0) == "::" + Print(ws, 0, RunEnd(ws, 0));
    assert PrintOf(ws, 0, "::") && LongestGap(ws, 0);
    assert "::"[..1] == ":";
  }

  lemma {:induction false} ZeroRun(ws: Words, i: nat)
    requires i <= |ws| && forall k :: 0 <= k < |ws| ==> ws[k] == 0
    ensures RunEnd(ws, i) == |ws|
    decreases |ws| - i
  {
    if i < |ws| { ZeroRun(ws, i + 1); }
  }

  // Reading into an array.

  /** The words `ws` stand at the front of the array. */
  ghost predicate Front(words: array<nat>, ws: Words)
    reads words
  {
    |ws| <= words.Length && forall i {:trigger words[i]} {:trigger ws[i]} :: 0 <= i < |ws| ==> words[i] == ws[i]
  }

  predicate Small(ws: Words) {
    forall i {:trigger ws[i]} :: 0 <= i < |ws| ==> ws[i] < 65536
  }

  lemma {:induction false} ValueBound(s: string, k: nat)
    requires AllHex(s) && |s| <= k
    ensures Value(s, 16) < Pow16(k)
  {
    if s != [] { ValueBound(s[..|s| - 1], k - 1); } else { PowPositive(k); }
  }

  lemma {:induction false} PowPositive(k: nat)
    ensures Pow16(k) > 0
  {
    if k > 0 { PowPositive(k - 1); }
  }

  lemma WordFits(s: string, k: nat)
    requires k < |s| && IsHex(s[k]) && Strtol(s, k).length <= 4
    ensures Strtol(s, k).value < 65536
  {
    assert Pow16(4) == 65536 by { assert Pow16(2) == 256; }
    if Prefixed(s, k) {
      ValueBound(s[k + 2..k + 2 + HexLen(s, k + 2)], 4);
    } else {
      ValueBound(s[k..k + HexLen(s, k)], 4);
    }
  }

  /** One more word at the end of those that are there. */
  method PutWord(words: array<nat>, n: nat, w: nat, ghost ws: Words)
    requires words.Length == 8 && n == |ws| < 8 && Front(words, ws) && Small(ws) && w < 65536
    modifies words
    ensures Front(words, ws + [w]) && Small(ws + [w])
    ensures forall i :: n < i < 8 ==> words[i] == old(words[i])
  {
    words[n] := w;
  }

  lemma PieceFits(s: string, k: nat, eow: nat, n: nat, gap: int)
    requires k < eow <= |s|
    ensures var p := PieceAt(s, k, eow, n, gap); p.Word? ==> n <= 7 && p.value < 65536
  {
    if n <= 7 && IsHex(s[k]) && Strtol(s, k).length <= 4 { WordFits(s, k); }
  }

  /** The loop over the words before `eow`; at most eight, from the front of the array on. */
  method ReadWords(s: string, eow: nat, words: array<nat>) returns (ok: bool, n: nat, gap: int, ghost ws: Words)
    requires eow <= |s| && words.Length == 8
    modifies words
    ensures ParseWords(s, 0, eow, [], -1) == if ok then Some(Parsed(ws, gap)) else None
    ensures ok ==> n == |ws| <= 8 && Front(words, ws) && Small(ws) && -1 <= gap <= n
    ensures forall i :: n <= i < 8 ==> words[i] == old(words[i])
  {
    var k: nat := 0;
    n, gap, ws := 0, -1, [];
    ghost var whole := ParseWords(s, k, eow, ws, gap);
    while k < eow
      invariant n == |ws| <= 8 && Front(words, ws) && Small(ws) && -1 <= gap <= n
      invariant whole == ParseWords(s, k, eow, ws, gap)
      invariant forall i :: n <= i < 8 ==> words[i] == old(words[i])
      decreases if k < eow then eow - k else 0
    {
      PieceFits(s, k, eow, n, gap);
      match PieceAt(s, k, eow, n, gap) {
        case Bad =>
          return false, n, gap, ws;
        case Word(w, next) =>
          PutWord(words, n, w, ws);
          ws, n, k := ws + [w], n + 1, next;
        case Gap(next) =>
          gap, k := n, next;
      }
    }
    return true, n, gap, ws;
  }

  /** `memmove` and `memset`: the words from the gap on move up, and zeros take their place. */
  method MoveUp(words: array<nat>, gap: nat, count: nat, width: nat)
    requires words.Length == 8 && gap + count + width <= 8
    modifies words
    ensures forall i :: 0 <= i < gap || gap + count + width <= i < 8 ==> words[i] == old(words[i])
    ensures forall i :: gap <= i < gap + width ==> words[i] == 0
    ensures forall i :: gap + width <= i < gap + width + count ==> words[i] == old(words[i - width])
  {
    forall i | gap + width <= i < gap + width + count { words[i] := words[i - width]; }
    forall i | gap <= i < gap + width { words[i] := 0; }
  }

  lemma FillAt(ws: Words, gap: nat, tail: Words, all: Words)
    requires gap <= |ws| && |ws| + |tail| < 8 && Fill(Parsed(ws, gap), tail) == Some(all)
    ensures var width := 8 - |ws| - |tail|;
      && |all| == 8 && (forall i :: 0 <= i < gap ==> all[i] == ws[i])
      && (forall i :: gap <= i < gap + width ==> all[i] == 0)
      && (forall i :: gap + width <= i < |ws| + width ==> all[i] == ws[i - width])
      && (forall i :: |ws| + width <= i < 8 ==> all[i] == tail[i - |ws| - width])
  {
  }

  /** The words of a quad are at the end of the array. */
  ghost predicate Back(words: array<nat>, tail: Words)
    reads words
  {
    |tail| <= 8 == words.Length && forall i {:trigger words[i]} :: 8 - |tail| <= i < 8 ==>
      words[i] == tail[i - (8 - |tail|)]
  }

  /** Filling the gap in the array, in front of the words of a quad. */
  method FillArray(words: array<nat>, n: nat, gap: int, quad: bool, ghost ws: Words, ghost tail: Words)
    returns (ok: bool)
    requires words.Length == 8 && n == |ws| <= 8 && -1 <= gap <= n && Front(words, ws) && Small(ws) && Small(tail)
    requires |tail| == (if quad then 2 else 0) && (n + |tail| <= 8 ==> Back(words, tail))
    modifies words
    ensures ok == Fill(Parsed(ws, gap), tail).Some?
    ensures ok ==> IsWords(Fill(Parsed(ws, gap), tail).value) && Front(words, Fill(Parsed(ws, gap), tail).value)
  {
    var total := n + if quad then 2 else 0;
    if total > 8 || (total == 8 && gap != -1) || (total < 8 && gap == -1) { return false; }
    ghost var all := Fill(Parsed(ws, gap), tail).value;
    if gap >= 0 {
      FillAt(ws, gap, tail, all);
      MoveUp(words, gap, n - gap, 8 - total);
    }
    return true;
  }

  /** Four bytes as the last two words. */
  method PutQuad(words: array<nat>, q: seq<nat>)
    requires words.Length == 8 && |q| == 4
    modifies words
    ensures Back(words, TailOf(q))
  {
    words[6], words[7] := q[0] * 256 + q[1], q[2] * 256 + q[3];
  }

  lemma {:induction false} QuadSmall(s: string, k: nat, left: nat)
    requires k <= |s| && left > 0 && ParseQuad(s, k, left).Some?
    ensures var q := ParseQuad(s, k, left).value;
      |q| == left && forall i {:trigger q[i]} :: 0 <= i < |q| ==> q[i] <= 255
    decreases left
  {
    if left > 1 { QuadSmall(s, k + DecLen(s, k) + 1, left - 1); }
  }

  /** `evutil_inet_pton` for IPv6: one and the address in the array, or zero. */
  method PtonArray(s: string, words: array<nat>) returns (r: int)
    requires words.Length == 8
    modifies words
    ensures r == if Pton(s).Some? then 1 else 0
    ensures r == 1 ==> IsWords(Pton(s).value) && Front(words, Pton(s).value)
  {
    var dot := FirstDot(s, 0);
    if dot == 0 && dot < |s| { return 0; }
    var eow, quad := |s|, dot < |s|;
    ghost var tail: Words := [];
    if quad {
      eow := BackDigits(s, dot);
      var q := ParseQuad(s, eow, 4);
      if q.None? { return 0; }
      QuadSmall(s, eow, 4);
      PutQuad(words, q.value);
      tail := TailOf(q.value);
    }
    var ok, n, gap; ghost var ws;
    ok, n, gap, ws := ReadWords(s, eow, words);
    if !ok { return 0; }
    ok := FillArray(words, n, gap, quad, ws, tail);
    return if ok then 1 else 0;
  }

  // Which addresses get a dotted quad, and what a text may hold to be read at all.

  lemma {:induction false} DottedDot(ns: seq<nat>)
    requires |ns| > 1
    ensures '.' in Dotted(ns)
  {
  }

  /**
   * A text has a dot in it if and only if the first ten bytes of the address are zero and the next two are both 255, or
   * zero with something in each of the last two pairs.
   */
  lemma QuadShown(a: seq<byte>, text: string)
    requires |a| == 16 && IsText(WordsOf(a), text)
    ensures '.' in text <==>
      && (forall i {:trigger a[i]} :: 0 <= i < 10 ==> a[i] == 0)
      && ((a[10] == 255 && a[11] == 255) ||
          (a[10] == 0 && a[11] == 0 && (a[12] != 0 || a[13] != 0) && (a[14] != 0 || a[15] != 0)))
  {
    var ws := WordsOf(a);
    EmbedsBytes(a, ws);
    if Embeds(ws) {
      DottedDot(QuadOf(ws));
    } else {
      var gap :| -1 <= gap < 8 && LongestGap(ws, gap) && PrintOf(ws, gap, text);
      PrintNoDot(ws, gap, 0);
    }
  }

  lemma EmbedsBytes(a: seq<byte>, ws: Words)
    requires |a| == 16 && ws == WordsOf(a)
    ensures Embeds(ws) <==>
      && (forall i {:trigger a[i]} :: 0 <= i < 10 ==> a[i] == 0)
      && ((a[10] == 255 && a[11] == 255) ||
          (a[10] == 0 && a[11] == 0 && (a[12] != 0 || a[13] != 0) && (a[14] != 0 || a[15] != 0)))
  {
    assert ws[0] == a[0] as int * 256 + a[1] as int && ws[1] == a[2] as int * 256 + a[3] as int;
    assert ws[2] == a[4] as int * 256 + a[5] as int && ws[3] == a[6] as int * 256 + a[7] as int;
    assert ws[4] == a[8] as int * 256 + a[9] as int && ws[5] == a[10] as int * 256 + a[11] as int;
    assert ws[6] == a[12] as int * 256 + a[13] as int && ws[7] == a[14] as int * 256 + a[15] as int;
  }

  /** Characters that can be part of an address. */
  predicate InAddress(c: char) {
    IsHex(c) || c == ':' || c == '.' || c == 'x' || c == 'X'
  }

  /** The characters from `k` up to `e` can be part of an address. */
  predicate Proper(s: string, k: nat, e: nat) {
    forall i {:trigger s[i]} :: k <= i < e && i < |s| ==> InAddress(s[i])
  }

  lemma PieceProper(s: string, k: nat, eow: nat, n: nat, gap: int)
    requires k < eow <= |s| && !PieceAt(s, k, eow, n, gap).Bad?
    ensures Proper(s, k, PieceAt(s, k, eow, n, gap).next) || (PieceAt(s, k, eow, n, gap).Word? && Proper(s, k, eow))
  {
    if IsHex(s[k]) {
      var x := Strtol(s, k);
      var from := if Prefixed(s, k) then k + 2 else k;
      var m := HexLen(s, from);
      assert forall i {:trigger s[i]} :: from <= i < from + m ==> s[i] == s[from..from + m][i - from];
    }
  }

  lemma {:induction false} WordsProper(s: string, k: nat, eow: nat, ws: Words, gap: int)
    requires eow <= |s| && ParseWords(s, k, eow, ws, gap).Some?
    ensures Proper(s, k, eow)
    decreases if k < eow then eow - k else 0
  {
    if k < eow {
      PieceProper(s, k, eow, |ws|, gap);
      match PieceAt(s, k, eow, |ws|, gap)
      case Word(w, next) => WordsProper(s, next, eow, ws + [w], gap);
      case Gap(next) => WordsProper(s, next, eow, ws, |ws|);
    }
  }

  lemma {:induction false} QuadProper(s: string, k: nat, left: nat)
    requires k <= |s| && left > 0 && ParseQuad(s, k, left).Some?
    ensures Proper(s, k, |s|)
    decreases left
  {
    var n := DecLen(s, k);
    assert forall i {:trigger s[i]} :: k <= i < k + n ==> s[i] == s[k..k + n][i - k];
    if left > 1 { QuadProper(s, k + n + 1, left - 1); }
  }

  /** A text that is read holds nothing but hex digits, colons, dots, and the letter of a prefix like "0x". */
  lemma PtonProper(s: string)
    requires Pton(s).Some?
    ensures forall i {:trigger s[i]} :: 0 <= i < |s| ==> InAddress(s[i])
  {
    var dot := FirstDot(s, 0);
    if dot == |s| {
      WordsProper(s, 0, |s|, [], -1);
    } else {
      var eow := BackDigits(s, dot);
      WordsProper(s, 0, eow, [], -1);
      QuadProper(s, eow, 4);
    }
  }
}
