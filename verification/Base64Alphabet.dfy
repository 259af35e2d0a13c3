/** Base64 as section 4 of RFC 4648 writes it, in plain arithmetic on byte and character codes. */
module Base64Alphabet {

  /** Table 1: the character of a six-bit value. */
  function Letter(v: nat): nat {
    if v < 26 then 'A' as int + v
    else if v < 52 then 'a' as int + (v - 26)
    else if v < 62 then '0' as int + (v - 52)
    else if v == 62 then '+' as int
    else '/' as int
  }

  /** The value of a character of the table, and -1 for any other. */
  function LetterValue(c: nat): int {
    if 'A' as int <= c <= 'Z' as int then c - 'A' as int
    else if 'a' as int <= c <= 'z' as int then c - 'a' as int + 26
    else if '0' as int <= c <= '9' as int then c - '0' as int + 52
    else if c == '+' as int then 62
    else if c == '/' as int then 63
    else -1
  }

  predicate IsLetter(c: nat) {
    LetterValue(c) >= 0
  }

  /** The two directions of the table undo each other. */
  lemma TableInverse(v: nat, c: nat)
    requires v < 64
    ensures LetterValue(c) == v <==> c == Letter(v)
    ensures LetterValue(c) < 64
  {
  }

  /** Number `k` of the four six-bit values of a 24-bit group. */
  function Sextet(a: nat, b: nat, c: nat, k: nat): nat {
    var group := a * 0x1_0000 + b * 0x100 + c;
    if k == 0 then group / 0x4_0000
    else if k == 1 then group / 0x1000 % 64
    else if k == 2 then group / 64 % 64
    else group % 64
  }

  function GroupText(a: nat, b: nat, c: nat): (r: seq<nat>)
    ensures |r| == 4
  {
    [Letter(Sextet(a, b, c, 0)), Letter(Sextet(a, b, c, 1)), Letter(Sextet(a, b, c, 2)), Letter(Sextet(a, b, c, 3))]
  }

  /** The text of `bs` on a line that already holds `k` groups; a line is full at 18 groups, 72 characters. */
  function Encoding(bs: seq<nat>, k: nat): seq<nat> {
    var pad, newline := '=' as int, '\n' as int;
    if bs == [] then [newline]
    else if |bs| == 1 then GroupText(bs[0], 0, 0)[..2] + [pad, pad, newline]
    else if |bs| == 2 then GroupText(bs[0], bs[1], 0)[..3] + [pad, newline]
    else
      GroupText(bs[0], bs[1], bs[2])
      + (if k + 1 == 18 then [newline] + Encoding(bs[3..], 0) else Encoding(bs[3..], k + 1))
  }

  /** The values of the letters of a text, everything else skipped. */
  function LetterValues(cs: seq<nat>): seq<nat> {
    if cs == [] then []
    else (if IsLetter(cs[0]) then [LetterValue(cs[0])] else []) + LetterValues(cs[1..])
  }

  /** Number `k` of the three bytes of a 24-bit group. */
  function Octet(v0: nat, v1: nat, v2: nat, v3: nat, k: nat): nat {
    var group := v0 * 0x4_0000 + v1 * 0x1000 + v2 * 64 + v3;
    if k == 0 then group / 0x1_0000
    else if k == 1 then group / 0x100 % 0x100
    else group % 0x100
  }

  /** The whole bytes in a row of six-bit values. */
  function Decoding(vs: seq<nat>): seq<nat> {
    if |vs| < 2 then []
    else if |vs| == 2 then [Octet(vs[0], vs[1], 0, 0, 0)]
    else if |vs| == 3 then [Octet(vs[0], vs[1], vs[2], 0, 0), Octet(vs[0], vs[1], vs[2], 0, 1)]
    else
      [Octet(vs[0], vs[1], vs[2], vs[3], 0), Octet(vs[0], vs[1], vs[2], vs[3], 1), Octet(vs[0], vs[1], vs[2], vs[3], 2)]
      + Decoding(vs[4..])
  }
}
