/** Text as the RFCs write it: characters and their codes. */
module Characters {
  import opened Decimal

  /** The code of an ASCII character. */
  function Code(c: char): byte {
    if c as int < 128 then c as int else 0
  }

  function Ascii(s: string): (r: Bytes)
    ensures |r| == |s|
  {
    seq(|s|, k requires 0 <= k < |s| => Code(s[k]))
  }

  /** The character of the decimal digit `d`. */
  function Digit(d: nat): byte {
    if d < 10 then '0' as int + d else 0
  }

  /** The text of a row of decimal digits. */
  function Digits(ds: seq<nat>): (r: Bytes)
    ensures |r| == |ds|
  {
    seq(|ds|, k requires 0 <= k < |ds| => Digit(ds[k]))
  }

  predicate AreDigits(ds: seq<nat>) {
    forall k :: 0 <= k < |ds| ==> ds[k] < 10
  }

  /** The number that a row of decimal digits stands for. */
  function Number(ds: seq<nat>): nat {
    if ds == [] then 0 else Number(ds[..|ds| - 1]) * 10 + ds[|ds| - 1]
  }

  lemma {:induction false} OfDigits(ds: seq<nat>)
    requires AreDigits(ds)
    ensures AllDigits(Digits(ds)) && OfDec(Digits(ds)) == Number(ds)
  {
    if ds != [] {
      var n := |ds| - 1;
      OfDigits(ds[..n]);
      assert Digits(ds)[..n] == Digits(ds[..n]);
      hide OfDec;
      OfDecLast(Digits(ds));
    }
  }

  /** Every text of digits is the text of a row of digits. */
  lemma DigitsOf(s: Bytes) returns (ds: seq<nat>)
    requires AllDigits(s)
    ensures AreDigits(ds) && Digits(ds) == s && |ds| == |s|
  {
    ds := seq(|s|, k requires 0 <= k < |s| => s[k] - 48);
  }

  /** The decimal text of a number: its digits, without a leading zero. */
  lemma {:induction false} DecimalText(n: nat) returns (ds: seq<nat>)
    ensures AreDigits(ds) && ds != [] && Number(ds) == n && ToDec(n) == Digits(ds)
    ensures ds[0] == 0 ==> ds == [0]
  {
    if n < 10 {
      ds := [n];
      assert ds[..0] == [];
    } else {
      var front := DecimalText(n / 10);
      ds := front + [n % 10];
      assert ds[..|front|] == front;
    }
  }

  predicate IsNumber(s: Bytes) {
    s != [] && forall k :: 0 <= k < |s| ==> '0' as int <= s[k] <= '9' as int
  }

  /** Reading a text of digits from the left. */
  function NumberOf(s: Bytes): int {
    if s == [] then 0 else NumberOf(s[..|s| - 1]) * 10 + (s[|s| - 1] - '0' as int)
  }

  /** The decimal text of a number reads as that number. */
  lemma {:induction false} ReadsToDec(n: nat)
    ensures IsNumber(ToDec(n)) && NumberOf(ToDec(n)) == n
  {
    if n < 10 {
      assert ToDec(n)[..0] == [];
    } else {
      ReadsToDec(n / 10);
      assert ToDec(n)[..|ToDec(n)| - 1] == ToDec(n / 10);
    }
  }
}
