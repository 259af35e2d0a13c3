/** Bytes, and the decimal text that `to_string`, `stoull`, `atoi` and `%d` read and write. */
module Decimal {
  type byte = x: int | 0 <= x < 256
  type Bytes = seq<byte>

  const ZERO: byte := 48

  predicate IsDigit(c: byte) {
    48 <= c <= 57
  }

  predicate AllDigits(s: Bytes) {
    forall k :: 0 <= k < |s| ==> IsDigit(s[k])
  }

  /** 10^k. */
  function Pow10(k: nat): (r: nat)
    ensures r > 0
  {
    if k == 0 then 1 else 10 * Pow10(k - 1)
  }

  /** Decimal text without leading zeros, as `to_string` prints an unsigned number. */
  function ToDec(n: nat): (s: Bytes)
    ensures |s| > 0 && AllDigits(s)
    ensures n > 0 ==> s[0] != ZERO
    ensures n == 0 ==> s == [ZERO]
  {
    if n < 10 then [ZERO + n] else ToDec(n / 10) + [ZERO + n % 10]
  }

  /** The number a digit string denotes, as `stoull` reads it. */
  function OfDec(s: Bytes): nat
    requires AllDigits(s)
  {
    if s == [] then 0 else OfDec(s[..|s| - 1]) * 10 + (s[|s| - 1] - ZERO)
  }

  lemma {:induction false} OfToDec(n: nat)
    ensures OfDec(ToDec(n)) == n
  {
    if n < 10 {
      assert ToDec(n)[..0] == [];
    } else {
      OfToDec(n / 10);
      var s := ToDec(n);
      assert s[..|s| - 1] == ToDec(n / 10);
    }
  }

  lemma ToDecInjective(m: nat, n: nat)
    requires ToDec(m) == ToDec(n)
    ensures m == n
  {
    OfToDec(m);
    OfToDec(n);
  }

  /** The last digit of a text is the last digit of its number. */
  lemma OfDecLast(s: Bytes)
    requires AllDigits(s) && s != []
    ensures AllDigits(s[..|s| - 1]) && OfDec(s) == OfDec(s[..|s| - 1]) * 10 + (s[|s| - 1] - ZERO)
  {
  }

  lemma OfDecEmpty()
    ensures OfDec([]) == 0
  {
  }

  lemma LastDigit(q: nat, r: nat)
    requires r < 10
    ensures (q * 10 + r) / 10 == q && (q * 10 + r) % 10 == r
  {
  }

  lemma ToDecLast(q: nat, r: nat)
    requires q > 0 && r < 10
    ensures ToDec(q * 10 + r) == ToDec(q) + [ZERO + r]
  {
    LastDigit(q, r);
  }

  lemma ToDecDigit(r: nat)
    requires r < 10
    ensures ToDec(r) == [ZERO + r]
  {
  }

  /** The law behind every identifier of the system: gluing texts shifts the left number. */
  lemma {:induction false} OfDecConcat(a: Bytes, b: Bytes)
    requires AllDigits(a) && AllDigits(b)
    ensures AllDigits(a + b)
    ensures OfDec(a + b) == OfDec(a) * Pow10(|b|) + OfDec(b)
  {
    hide OfDec, Pow10;
    if b == [] {
      assert a + b == a;
      OfDecEmpty();
      Pow10Step(0);
    } else {
      var c, d := b[..|b| - 1], b[|b| - 1] - ZERO;
      OfDecLast(b);
      OfDecConcat(a, c);
      assert (a + b)[..|a + b| - 1] == a + c && (a + b)[|a + b| - 1] == b[|b| - 1];
      OfDecLast(a + b);
      Pow10Step(|c|);
      ShiftOne(OfDec(a), Pow10(|c|), OfDec(c), d);
    }
  }

  lemma Pow10Step(k: nat)
    ensures Pow10(0) == 1 && Pow10(k + 1) == 10 * Pow10(k)
  {
  }

  lemma ShiftOne(x: nat, p: nat, y: nat, d: int)
    ensures (x * p + y) * 10 + d == x * (10 * p) + (y * 10 + d)
  {
    assert x * p * 10 == x * (10 * p);
  }

  /** The number of digits is fixed by the decade a number lies in. */
  lemma {:induction false} ToDecLength(n: nat, k: nat)
    requires k > 0 && n < Pow10(k) && (k > 1 ==> Pow10(k - 1) <= n)
    ensures |ToDec(n)| == k
  {
    if k == 1 {
      assert Pow10(1) == 10 * Pow10(0);
    } else {
      assert Pow10(k) == 10 * Pow10(k - 1);
      assert n >= 10 by {
        Pow10AtLeastTen(k - 1);
      }
      if k - 1 > 1 {
        assert Pow10(k - 1) == 10 * Pow10(k - 2);
      }
      ToDecLength(n / 10, k - 1);
    }
  }

  lemma {:induction false} Pow10AtLeastTen(k: nat)
    requires k > 0
    ensures Pow10(k) >= 10
  {
    if k > 1 {
      Pow10AtLeastTen(k - 1);
    }
  }

  /** A shorter text is a smaller bound: k digits denote less than 10^k. */
  lemma {:induction false} OfDecBound(s: Bytes)
    requires AllDigits(s)
    ensures OfDec(s) < Pow10(|s|)
  {
    if s != [] {
      OfDecBound(s[..|s| - 1]);
    }
  }
}
