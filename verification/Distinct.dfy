/** Sequences without repetition. */
module Distinctness {
  ghost predicate Apart<T>(s: seq<T>, i: int, j: int) {
    0 <= i < |s| && 0 <= j < |s| && s[i] != s[j]
  }

  ghost predicate NoDup<T>(s: seq<T>) {
    forall i, j {:trigger Apart(s, i, j)} :: 0 <= i < j < |s| ==> Apart(s, i, j)
  }

  lemma NoDupApart<T>(s: seq<T>, m: int)
    requires NoDup(s) && 0 <= m < |s|
    ensures forall i :: 0 <= i < |s| && i != m ==> s[i] != s[m]
  {
    forall i | 0 <= i < |s| && i != m ensures s[i] != s[m] {
      assert Apart(s, if i < m then i else m, if i < m then m else i);
    }
  }

  lemma NoDupConcat<T>(s: seq<T>, t: seq<T>)
    requires NoDup(s) && NoDup(t) && forall i :: 0 <= i < |t| ==> t[i] !in s
    ensures NoDup(s + t)
  {
    var u := s + t;
    forall i, j | 0 <= i < j < |u| ensures Apart(u, i, j) {
      if j < |s| {
        assert Apart(s, i, j);
      } else if i >= |s| {
        assert Apart(t, i - |s|, j - |s|);
      } else {
        assert u[i] == s[i] && u[j] == t[j - |s|];
      }
    }
  }

  lemma NoDupCons<T>(n: T, s: seq<T>)
    requires NoDup(s) && n !in s
    ensures NoDup([n] + s)
  {
    NoDupConcat([n], s);
  }

  /** A queue with one more at its end; requests leave a queue by `Without`. */
  function Enqueued<T>(s: seq<T>, x: T): seq<T> {
    s + [x]
  }

  /** A queue with one more in front. */
  function InFront<T>(x: T, s: seq<T>): seq<T> {
    [x] + s
  }

  /** `s` with its element at `i` taken out. */
  function Without<T>(s: seq<T>, i: nat): (t: seq<T>)
    requires i < |s|
    ensures |t| == |s| - 1
  {
    s[..i] + s[i + 1..]
  }

  lemma WithoutAt<T>(s: seq<T>, k: nat, i: nat)
    requires k < |s| && i < |s| - 1
    ensures Without(s, k)[i] == s[if i < k then i else i + 1]
  {
  }

  lemma NoDupWithout<T>(s: seq<T>, i: nat)
    requires NoDup(s) && i < |s|
    ensures NoDup(Without(s, i)) && s[i] !in Without(s, i)
  {
    var t := Without(s, i);
    NoDupApart(s, i);
    forall j, k | 0 <= j < k < |t| ensures Apart(t, j, k) {
      assert Apart(s, if j < i then j else j + 1, if k < i then k else k + 1);
    }
  }

  /** `s` backwards. */
  function Reversed<T>(s: seq<T>): (t: seq<T>)
    ensures |t| == |s|
  {
    if s == [] then [] else [s[|s| - 1]] + Reversed(s[..|s| - 1])
  }

  lemma ReversedSnoc<T>(s: seq<T>, x: T)
    ensures Reversed(s + [x]) == [x] + Reversed(s)
  {
    assert (s + [x])[..|s|] == s;
  }

  lemma {:induction false} ReversedAt<T>(s: seq<T>, i: nat)
    requires i < |s|
    ensures Reversed(s)[i] == s[|s| - 1 - i]
  {
    if i > 0 { ReversedAt(s[..|s| - 1], i - 1); }
  }

  lemma NoDupReversed<T>(s: seq<T>)
    requires NoDup(s)
    ensures NoDup(Reversed(s)) && forall x :: x in Reversed(s) <==> x in s
  {
    var t := Reversed(s);
    forall i | 0 <= i < |s| ensures t[i] == s[|s| - 1 - i] { ReversedAt(s, i); }
    forall i, j | 0 <= i < j < |t| ensures Apart(t, i, j) { assert Apart(s, |s| - 1 - j, |s| - 1 - i); }
    forall x | x in s ensures x in t {
      var i :| 0 <= i < |s| && s[i] == x;
      assert t[|s| - 1 - i] == x;
    }
  }
}
