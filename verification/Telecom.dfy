/** Identifiers built by gluing decimal texts, and the tunnel id sliced out of one. */
module Telecom {
  import opened Decimal

  const TWO16: nat := 0x1_0000
  const TWO32: nat := 0x1_0000_0000
  const TWO64: nat := 0x1_0000_0000_0000_0000

  /** `stoull(to_string(x) + to_string(y))`. */
  function Glue(x: nat, y: nat): nat {
    OfDec(ToDec(x) + ToDec(y))
  }

  function PlmnId(mcc: nat, mnc: nat): nat {
    Glue(mcc, mnc) % TWO16
  }

  function Mmei(mmegi: nat, mmec: nat): nat {
    Glue(mmegi, mmec) % TWO32
  }

  function Gummei(plmnId: nat, mmei: nat): nat {
    Glue(plmnId, mmei)
  }

  /** `RanContext::init`: the IMSI of the UE numbered `a`. */
  function RanImsi(a: nat): nat {
    Glue(PlmnId(1, 1), 9_000_000_000 + a)
  }

  /** The GUTI the AMF gives to an IMSI, with the constants of `AmfIds`. */
  function AmfGuti(imsi: nat): nat {
    Glue(Gummei(PlmnId(1, 1), Mmei(1, 1)), imsi)
  }

  /** `get_s11cteidamf`: the digits from the eighth on, as a 32-bit number; 0 stands for the throw on a short text. */
  function SlicedTeid(guti: nat): nat {
    var text := ToDec(guti);
    if |text| <= 7 then 0 else OfDec(text[7..]) % TWO32
  }

  /** Gluing is shifting by the number of digits glued on. */
  lemma GlueValue(x: nat, y: nat, k: nat)
    requires |ToDec(y)| == k
    ensures Glue(x, y) == x * Pow10(k) + y
  {
    hide ToDec, OfDec, Pow10;
    OfDecConcat(ToDec(x), ToDec(y));
    OfToDec(x);
    OfToDec(y);
  }

  /** A text without a leading zero is the decimal text of its number. */
  lemma {:induction false} ToOfDec(s: Bytes)
    requires AllDigits(s) && s != [] && s[0] != ZERO
    ensures OfDec(s) > 0 && ToDec(OfDec(s)) == s
  {
    hide ToDec, OfDec;
    var front, d := s[..|s| - 1], s[|s| - 1] - ZERO;
    assert s == front + [ZERO + d];
    OfDecLast(s);
    if front == [] {
      OfDecEmpty();
      ToDecDigit(d);
    } else {
      assert front[0] == s[0];
      ToOfDec(front);
      ToDecLast(OfDec(front), d);
    }
  }

  lemma Powers()
    ensures Pow10(1) == 10 && Pow10(2) == 100 && Pow10(9) == 1_000_000_000 && Pow10(10) == 10_000_000_000
    ensures Pow10(11) == 100_000_000_000 && Pow10(12) == 1_000_000_000_000
  {
    assert Pow10(1) == 10;
    assert Pow10(3) == 1000;
    assert Pow10(5) == 100_000;
    assert Pow10(7) == 10_000_000;
  }

  lemma SmallTexts()
    ensures ToDec(1) == [49] && ToDec(11) == [49, 49] && ToDec(1111) == [49, 49, 49, 49]
    ensures PlmnId(1, 1) == 11 && Mmei(1, 1) == 11 && Gummei(11, 11) == 1111
  {
    hide ToDec, OfDec, Pow10, Glue;
    ToDecDigit(1);
    ToDecLast(1, 1);
    ToDecLast(11, 1);
    ToDecLast(111, 1);
    Powers();
    GlueValue(1, 1, 1);
    GlueValue(11, 11, 2);
  }

  lemma MsisdnText(a: nat)
    requires a < 1_000_000_000
    ensures |ToDec(9_000_000_000 + a)| == 10
  {
    hide ToDec, Pow10;
    Powers();
    ToDecLength(9_000_000_000 + a, 10);
  }

  lemma ImsiValue(a: nat)
    requires a < 1_000_000_000
    ensures RanImsi(a) == 119_000_000_000 + a
    ensures ToDec(RanImsi(a)) == ToDec(11) + ToDec(9_000_000_000 + a)
  {
    hide ToDec, OfDec, Pow10, PlmnId;
    SmallTexts();
    Powers();
    MsisdnText(a);
    GlueValue(11, 9_000_000_000 + a, 10);
    ToOfDec(ToDec(11) + ToDec(9_000_000_000 + a));
  }

  lemma GutiValue(a: nat)
    requires a < 1_000_000_000
    ensures AmfGuti(119_000_000_000 + a) == 1_111_119_000_000_000 + a
    ensures ToDec(AmfGuti(119_000_000_000 + a)) == ToDec(1111) + (ToDec(11) + ToDec(9_000_000_000 + a))
  {
    hide ToDec, OfDec, Pow10, PlmnId, Mmei, Gummei, RanImsi;
    SmallTexts();
    Powers();
    ImsiValue(a);
    var imsi := 119_000_000_000 + a;
    ToDecLength(imsi, 12);
    GlueValue(1111, imsi, 12);
    ToOfDec(ToDec(1111) + ToDec(imsi));
  }

  /** The last nine digits of the mobile number are the UE number, padded. */
  lemma SlicedDigits(a: nat)
    requires a < 1_000_000_000
    ensures var t := ToDec(9_000_000_000 + a); |t| == 10 && AllDigits(t[1..]) && OfDec(t[1..]) == a
  {
    hide ToDec, OfDec, Pow10;
    var t := ToDec(9_000_000_000 + a);
    MsisdnText(a);
    Powers();
    assert t == [t[0]] + t[1..];
    OfDecConcat([t[0]], t[1..]);
    OfToDec(9_000_000_000 + a);
    OfDecBound(t[1..]);
    OfDecLast([t[0]]);
    OfDecEmpty();
    assert [t[0]][..0] == [];
    LeadingDigit(t[0] - ZERO, OfDec(t[1..]), a);
  }

  lemma LeadingDigit(d: int, rest: nat, a: nat)
    requires 0 <= d <= 9 && rest < 1_000_000_000 && a < 1_000_000_000
    requires d * 1_000_000_000 + rest == 9_000_000_000 + a
    ensures d == 9 && rest == a
  {
  }

  /**
   * For every UE number below 10^9 the IMSI, the GUTI and the tunnel id are these numbers, so
   * they are distinct for distinct UEs and the tunnel id fits 32 bits.
   */
  lemma Identifiers(a: nat)
    requires a < 1_000_000_000
    ensures RanImsi(a) == 119_000_000_000 + a
    ensures AmfGuti(RanImsi(a)) == 1_111_119_000_000_000 + a < TWO64
    ensures SlicedTeid(AmfGuti(RanImsi(a))) == a < TWO32
  {
    hide ToDec, OfDec, RanImsi, AmfGuti, PlmnId, Mmei, Gummei;
    ImsiValue(a);
    GutiValue(a);
    SmallTexts();
    SlicedDigits(a);
    var t := ToDec(9_000_000_000 + a);
    var text := ToDec(1111) + (ToDec(11) + t);
    assert text[7..] == t[1..];
  }
}
