/** Remainders by a variable divisor. */
module Modulus {
  /** `h % n`, by repeated subtraction. */
  function Mod(h: nat, n: nat): (r: nat)
    requires n > 0
    ensures r < n
  {
    if h < n then h else Mod(h - n, n)
  }

  lemma {:induction false} Quotient(h: nat, n: nat) returns (q: nat)
    requires n > 0
    ensures h == q * n + Mod(h, n)
  {
    if h < n {
      q := 0;
    } else {
      var p := Quotient(h - n, n);
      q := p + 1;
      assert q * n == p * n + n;
    }
  }

  lemma {:induction false} RemainderUnique(q: nat, p: nat, a: nat, b: nat, n: nat)
    requires a < n && b < n && q * n + a == p * n + b
    ensures a == b
  {
    if q > 0 && p > 0 {
      assert q * n == (q - 1) * n + n && p * n == (p - 1) * n + n;
      RemainderUnique(q - 1, p - 1, a, b, n);
    } else if q > 0 {
      assert q * n == (q - 1) * n + n;
    } else if p > 0 {
      assert p * n == (p - 1) * n + n;
    }
  }

  /** `Mod` is the remainder. */
  lemma ModIsRemainder(h: nat, n: nat)
    requires n > 0
    ensures Mod(h, n) == h % n
  {
    var q := Quotient(h, n);
    assert h == h / n * n + h % n;
    RemainderUnique(q, h / n, Mod(h, n), h % n, n);
  }
}
