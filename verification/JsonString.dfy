/** The meaning of JSON string contents: literal bytes and UTF-16 escape units, rendered as UTF-8. */
module JsonString {
  import opened Decimal

  type unit16 = x: int | 0 <= x < 0x1_0000

  /** One element of a string literal after unescaping: a byte, or the unit of a `\uXXXX` escape. */
  datatype Token = Lit(b: byte) | Unit(u: unit16)

  /** What a token list denotes once surrogates are paired. */
  datatype Piece = Raw(b: byte) | Point(pt: nat)

  predicate IsHigh(u: int) {
    0xD800 <= u <= 0xDBFF
  }

  predicate IsLow(u: int) {
    0xDC00 <= u <= 0xDFFF
  }

  /** The astral code point of a surrogate pair. */
  function Combine(high: int, low: int): (pt: nat)
    requires IsHigh(high) && IsLow(low)
    ensures 0x1_0000 <= pt < 0x11_0000
  {
    (high - 0xD800) * 1024 + (low - 0xDC00) + 0x1_0000
  }

  /** `encode_utf8`: nothing for a negative argument; the bit fields are disjoint, so `|` is `+`. */
  function Utf8(pt: int): Bytes
    requires pt < 0x11_0000
  {
    if pt < 0 then []
    else if pt < 0x80 then [pt]
    else if pt < 0x800 then [0xC0 + pt / 64, 0x80 + pt % 64]
    else if pt < 0x1_0000 then [0xE0 + pt / 4096, 0x80 + pt / 64 % 64, 0x80 + pt % 64]
    else [0xF0 + pt / 262144, 0x80 + pt / 4096 % 64, 0x80 + pt / 64 % 64, 0x80 + pt % 64]
  }

  /** The six payload bits of a continuation byte. */
  function Tail(s: Bytes, k: nat): int
    requires k < |s|
  {
    s[k] as int - 0x80
  }

  /** Reading one code point back, by the lead byte of section 3 of RFC 3629; (point, length). */
  function Utf8First(s: Bytes): (int, nat)
    requires s != []
  {
    var c: int := s[0];
    if c < 0x80 then (c, 1)
    else if 0xC0 <= c < 0xE0 && |s| >= 2 then ((c - 0xC0) * 64 + Tail(s, 1), 2)
    else if 0xE0 <= c < 0xF0 && |s| >= 3 then ((c - 0xE0) * 4096 + Tail(s, 1) * 64 + Tail(s, 2), 3)
    else if 0xF0 <= c && |s| >= 4 then
      ((c - 0xF0) * 262144 + Tail(s, 1) * 4096 + Tail(s, 2) * 64 + Tail(s, 3), 4)
    else (-1, 1)
  }

  /** The base-64 digits of a code point put together give it back. */
  lemma SixBitDigits(n: nat)
    ensures n / 4096 == n / 64 / 64 && n / 262144 == n / 4096 / 64
    ensures n == n / 4096 * 4096 + n / 64 % 64 * 64 + n % 64
    ensures n == n / 262144 * 262144 + n / 4096 % 64 * 4096 + n / 64 % 64 * 64 + n % 64
  {
    var q := n / 64;
    var p := q / 64;
    assert n == q * 64 + n % 64 && q == p * 64 + q % 64 && p == p / 64 * 64 + p % 64;
    assert n / 4096 == p;
    assert n / 262144 == p / 64;
  }

  /** Every code point, lone surrogates included, is recovered from its encoding, whatever follows. */
  lemma Utf8RoundTrip(pt: nat, rest: Bytes)
    requires pt < 0x11_0000
    ensures Utf8(pt) != []
    ensures Utf8First(Utf8(pt) + rest) == (pt, |Utf8(pt)|)
  {
    var e := Utf8(pt);
    var s := e + rest;
    assert s[0] == e[0];
    if pt < 0x80 {
    } else if pt < 0x800 {
      assert s[1] == e[1];
    } else if pt < 0x1_0000 {
      assert s[1] == e[1] && s[2] == e[2];
      SixBitDigits(pt);
    } else {
      assert s[1] == e[1] && s[2] == e[2] && s[3] == e[3];
      SixBitDigits(pt);
    }
  }

  /** Greedy UTF-16 pairing: a high unit directly followed by a low one is one code point. */
  function Pair(ts: seq<Token>): (ps: seq<Piece>)
    ensures forall k :: 0 <= k < |ps| && ps[k].Point? ==> ps[k].pt < 0x11_0000
  {
    if ts == [] then []
    else if ts[0].Lit? then [Raw(ts[0].b)] + Pair(ts[1..])
    else if IsHigh(ts[0].u) && |ts| > 1 && ts[1].Unit? && IsLow(ts[1].u) then
      [Point(Combine(ts[0].u, ts[1].u))] + Pair(ts[2..])
    else [Point(ts[0].u)] + Pair(ts[1..])
  }

  function Encode(ps: seq<Piece>): Bytes
    requires forall k :: 0 <= k < |ps| && ps[k].Point? ==> ps[k].pt < 0x11_0000
  {
    if ps == [] then []
    else (if ps[0].Raw? then [ps[0].b] else Utf8(ps[0].pt)) + Encode(ps[1..])
  }

  /** Decode the units, then encode: the bytes a string literal stands for. */
  function Render(ts: seq<Token>): Bytes {
    Encode(Pair(ts))
  }

  lemma RenderLit(b: byte, ts: seq<Token>)
    ensures Render([Lit(b)] + ts) == [b] + Render(ts)
  {
    assert ([Lit(b)] + ts)[1..] == ts;
    assert ([Raw(b)] + Pair(ts))[1..] == Pair(ts);
  }

  lemma RenderUnit(u: unit16, ts: seq<Token>)
    requires !(IsHigh(u) && ts != [] && ts[0].Unit? && IsLow(ts[0].u))
    ensures Render([Unit(u)] + ts) == Utf8(u) + Render(ts)
  {
    var all := [Unit(u)] + ts;
    assert all[1..] == ts;
    if ts != [] {
      assert all[1] == ts[0];
    }
    assert ([Point(u)] + Pair(ts))[1..] == Pair(ts);
  }

  lemma RenderPair(h: unit16, l: unit16, ts: seq<Token>)
    requires IsHigh(h) && IsLow(l)
    ensures Render([Unit(h), Unit(l)] + ts) == Utf8(Combine(h, l)) + Render(ts)
  {
    var all := [Unit(h), Unit(l)] + ts;
    assert all[2..] == ts && all[1] == Unit(l);
    var p := Point(Combine(h, l));
    assert ([p] + Pair(ts))[1..] == Pair(ts);
  }

  /** UTF-16: the two units of a code point above 0xFFFF, as section 7 of RFC 8259 describes them. */
  function HighUnit(pt: nat): nat
    requires pt >= 0x1_0000
  {
    0xD800 + (pt - 0x1_0000) / 0x400
  }

  function LowUnit(pt: nat): nat
    requires pt >= 0x1_0000
  {
    0xDC00 + (pt - 0x1_0000) % 0x400
  }

  /** Every code point above 0xFFFF is put together again from its two units. */
  lemma CombineUnits(pt: nat)
    requires 0x1_0000 <= pt < 0x11_0000
    ensures IsHigh(HighUnit(pt)) && IsLow(LowUnit(pt)) && Combine(HighUnit(pt), LowUnit(pt)) == pt
  {
  }
}
