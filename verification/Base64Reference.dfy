/** The two machines compute the encoding and the decoding of RFC 4648, for every input. */
module Base64Reference {
  import opened Base64Alphabet
  import opened Base64

  /** The number that a char stands for, without its sign. */
  function N(b: bv8): (n: nat)
    ensures n < 256
  {
    b as nat
  }

  function Codes(t: Text): (r: seq<nat>)
    ensures |r| == |t|
  {
    seq(|t|, k requires 0 <= k < |t| => N(t[k]))
  }

  // ---- Bits as arithmetic, one move at a time -------------------------------------------------------------------------

  lemma DisjointSum(x: bv8, y: bv8)
    requires x & y == 0
    ensures N(x | y) == N(x) + N(y)
  {
    assert x | y == x + y;
    assert x <= 255 - y;
  }

  lemma Top6Bits(b: bv8)
    ensures N(Top6(b)) == N(b) / 4
  {
  }

  lemma Carry2Bits(b: bv8)
    ensures N(Carry2(b)) == N(b) % 4 * 16
  {
  }

  lemma Carry4Bits(b: bv8)
    ensures N(Carry4(b)) == N(b) % 16 * 4
  {
  }

  lemma Low6Bits(b: bv8)
    ensures N(Low6(b)) == N(b) % 64
  {
  }

  lemma High4Bits(b: bv8)
    ensures N((b & 0xF0) >> 4) == N(b) / 16
  {
  }

  lemma High2Bits(b: bv8)
    ensures N((b & 0xC0) >> 6) == N(b) / 64
  {
  }

  lemma Open6Bits(b: bv8)
    requires b < 64
    ensures N(Open6(b)) == N(b) * 4
  {
  }

  lemma Open4Bits(b: bv8)
    requires b < 64
    ensures N(Open4(b)) == N(b) % 16 * 16
  {
  }

  lemma Open2Bits(b: bv8)
    requires b < 64
    ensures N(Open2(b)) == N(b) % 4 * 64
  {
  }

  lemma Mid2Bits(b: bv8)
    requires b < 64
    ensures N((b & 0x30) >> 4) == N(b) / 16
  {
  }

  lemma Mid4Bits(b: bv8)
    requires b < 64
    ensures N((b & 0x3C) >> 2) == N(b) / 4
  {
  }

  lemma With4Bits(a: bv8, b: bv8)
    ensures N(With4(Carry2(a), b)) == N(a) % 4 * 16 + N(b) / 16
  {
    Carry2Bits(a);
    High4Bits(b);
    DisjointSum(Carry2(a), (b & 0xF0) >> 4);
  }

  lemma With2Bits(a: bv8, b: bv8)
    ensures N(With2(Carry4(a), b)) == N(a) % 16 * 4 + N(b) / 64
  {
    Carry4Bits(a);
    High2Bits(b);
    DisjointSum(Carry4(a), (b & 0xC0) >> 6);
  }

  lemma Join2Bits(f: bv8, g: bv8)
    requires f < 64 && g < 64
    ensures N(Join2(Open6(f), g)) == N(f) * 4 + N(g) / 16
  {
    Open6Bits(f);
    Mid2Bits(g);
    DisjointSum(Open6(f), (g & 0x30) >> 4);
  }

  lemma Join4Bits(f: bv8, g: bv8)
    requires f < 64 && g < 64
    ensures N(Join4(Open4(f), g)) == N(f) % 16 * 16 + N(g) / 4
  {
    Open4Bits(f);
    Mid4Bits(g);
    DisjointSum(Open4(f), (g & 0x3C) >> 2);
  }

  lemma Join6Bits(f: bv8, g: bv8)
    requires f < 64 && g < 64
    ensures N(Join6(Open2(f), g)) == N(f) % 4 * 64 + N(g)
  {
    Open2Bits(f);
    DisjointSum(Open2(f), g & 0x3F);
    assert g & 0x3F == g;
  }

  // ---- The tables ---------------------------------------------------------------------------------------------------

  lemma EncodeTable(v: bv8, n: nat)
    requires N(v) == n < 64
    ensures N(EncodeValue(v)) == Letter(n)
  {
    assert v < 64;
  }

  /** `base64_decode_value` knows exactly the letters. */
  lemma DecodeTable(c: bv8)
    ensures InAlphabet(c) <==> IsLetter(N(c))
    ensures InAlphabet(c) ==> DecodeValue(c) < 64 && N(DecodeValue(c)) == LetterValue(N(c))
  {
  }

  // ---- Groups ---------------------------------------------------------------------------------------------------------

  lemma SextetParts(a: nat, b: nat, c: nat)
    requires a < 256 && b < 256 && c < 256
    ensures Sextet(a, b, c, 0) == a / 4 < 64 && Sextet(a, b, c, 1) == a % 4 * 16 + b / 16 < 64
    ensures Sextet(a, b, c, 2) == b % 16 * 4 + c / 64 < 64 && Sextet(a, b, c, 3) == c % 64
  {
    var s0, s1, s2, s3 := a / 4, a % 4 * 16 + b / 16, b % 16 * 4 + c / 64, c % 64;
    var group := a * 0x1_0000 + b * 0x100 + c;
    assert a == s0 * 4 + a % 4 && b == b / 16 * 16 + b % 16 && c == c / 64 * 64 + s3;
    assert group == ((s0 * 64 + s1) * 64 + s2) * 64 + s3;
    Base64Digits(s0, s1, s2, s3);
  }

  lemma Base64Digits(s0: nat, s1: nat, s2: nat, s3: nat)
    requires s1 < 64 && s2 < 64 && s3 < 64
    ensures var n := ((s0 * 64 + s1) * 64 + s2) * 64 + s3;
            n / 0x4_0000 == s0 && n / 0x1000 % 64 == s1 && n / 64 % 64 == s2 && n % 64 == s3
  {
    var q1 := s0 * 64 + s1;
    var q2 := q1 * 64 + s2;
    var n := q2 * 64 + s3;
    SplitOff(s0, s1);
    SplitOff(q1, s2);
    SplitOff(q2, s3);
    DivInSteps(n);
  }

  lemma SplitOff(q: nat, r: nat)
    requires r < 64
    ensures (q * 64 + r) / 64 == q && (q * 64 + r) % 64 == r
  {
  }

  lemma DivInSteps(n: nat)
    ensures n / 0x1000 == n / 64 / 64 && n / 0x4_0000 == n / 64 / 64 / 64
  {
  }

  // The bytes of a group, each from the two values it spans.
  function First(v0: nat, v1: nat): nat { v0 * 4 + v1 / 16 }
  function Second(v1: nat, v2: nat): nat { v1 % 16 * 16 + v2 / 4 }
  function Third(v2: nat, v3: nat): nat { v2 % 4 * 64 + v3 }

  lemma OctetParts(v0: nat, v1: nat, v2: nat, v3: nat)
    requires v0 < 64 && v1 < 64 && v2 < 64 && v3 < 64
    ensures Octet(v0, v1, v2, v3, 0) == First(v0, v1)
    ensures Octet(v0, v1, v2, v3, 1) == Second(v1, v2)
    ensures Octet(v0, v1, v2, v3, 2) == Third(v2, v3)
  {
    var o0, o1, o2 := v0 * 4 + v1 / 16, v1 % 16 * 16 + v2 / 4, v2 % 4 * 64 + v3;
    assert v1 == v1 / 16 * 16 + v1 % 16 && v2 == v2 / 4 * 4 + v2 % 4;
    assert v0 * 0x4_0000 + v1 * 0x1000 + v2 * 64 + v3 == (o0 * 256 + o1) * 256 + o2;
    Base256Digits(o0, o1, o2);
  }

  lemma Base256Digits(o0: nat, o1: nat, o2: nat)
    requires o1 < 256 && o2 < 256
    ensures var n := (o0 * 256 + o1) * 256 + o2; n / 0x1_0000 == o0 && n / 0x100 % 0x100 == o1 && n % 0x100 == o2
  {
    var n := (o0 * 256 + o1) * 256 + o2;
    assert n / 256 == o0 * 256 + o1;
  }

  /** The four characters that the encoder writes for three bytes. */
  lemma GroupLetters(a: bv8, b: bv8, c: bv8)
    ensures var g := GroupText(N(a), N(b), N(c));
            && N(EncodeValue(Top6(a))) == g[0] && N(EncodeValue(With4(Carry2(a), b))) == g[1]
            && N(EncodeValue(With2(Carry4(b), c))) == g[2] && N(EncodeValue(Low6(c))) == g[3]
  {
    hide N, EncodeValue, Letter, Top6, Carry2, With4, Carry4, With2, Low6, Sextet;
    SextetParts(N(a), N(b), N(c));
    Top6Bits(a);
    With4Bits(a, b);
    With2Bits(b, c);
    Low6Bits(c);
    EncodeTable(Top6(a), Sextet(N(a), N(b), N(c), 0));
    EncodeTable(With4(Carry2(a), b), Sextet(N(a), N(b), N(c), 1));
    EncodeTable(With2(Carry4(b), c), Sextet(N(a), N(b), N(c), 2));
    EncodeTable(Low6(c), Sextet(N(a), N(b), N(c), 3));
  }

  /** The characters for a last single byte, where the missing bytes count as zero. */
  lemma LastOne(a: bv8)
    ensures var g := GroupText(N(a), 0, 0);
            N(EncodeValue(Top6(a))) == g[0] && N(EncodeValue(Carry2(a))) == g[1]
  {
    hide N, EncodeValue, Letter, Top6, Carry2, Sextet;
    SextetParts(N(a), 0, 0);
    Top6Bits(a);
    Carry2Bits(a);
    EncodeTable(Top6(a), Sextet(N(a), 0, 0, 0));
    EncodeTable(Carry2(a), Sextet(N(a), 0, 0, 1));
  }

  lemma LastTwo(a: bv8, b: bv8)
    ensures var g := GroupText(N(a), N(b), 0);
            && N(EncodeValue(Top6(a))) == g[0] && N(EncodeValue(With4(Carry2(a), b))) == g[1]
            && N(EncodeValue(Carry4(b))) == g[2]
  {
    hide N, EncodeValue, Letter, Top6, Carry2, With4, Carry4, Sextet;
    SextetParts(N(a), N(b), 0);
    Top6Bits(a);
    With4Bits(a, b);
    Carry4Bits(b);
    EncodeTable(Top6(a), Sextet(N(a), N(b), 0, 0));
    EncodeTable(With4(Carry2(a), b), Sextet(N(a), N(b), 0, 1));
    EncodeTable(Carry4(b), Sextet(N(a), N(b), 0, 2));
  }

  // ---- Encoding -----------------------------------------------------------------------------------------------------------

  lemma FeedTwo(e: Encoder, a: bv8, b: bv8)
    ensures FeedAll(e, [a, b]) == (Feed(Feed(e, a).0, b).0, Feed(e, a).1 + Feed(Feed(e, a).0, b).1)
  {
    hide Feed;
    assert [a, b][1..] == [b];
    FeedOne(Feed(e, a).0, b);
  }

  lemma FeedThree(e: Encoder, a: bv8, b: bv8, c: bv8)
    requires e.step == StepA
    ensures var full := e.stepcount + 1 == 18;
            FeedAll(e, [a, b, c]) ==
            (Encoder(StepA, Low6(c), if full then 0 else e.stepcount + 1),
             [EncodeValue(Top6(a)), EncodeValue(With4(Carry2(a), b)), EncodeValue(With2(Carry4(b), c)), EncodeValue(Low6(c))]
             + if full then [NEWLINE] else [])
  {
    FeedCases(e, a, b, c);
    hide N, EncodeValue, Top6, Carry2, With4, Carry4, With2, Low6, Feed;
    var e1 := Feed(e, a).0;
    var e2 := Feed(e1, b).0;
    FeedTwo(e1, b, c);
    assert [a, b, c][1..] == [b, c];
    assert FeedAll(e, [a, b, c]) == (Feed(e2, c).0, Feed(e, a).1 + (Feed(e1, b).1 + Feed(e2, c).1));
    var x, y, z, w := EncodeValue(Top6(a)), EncodeValue(With4(Carry2(a), b)), EncodeValue(With2(Carry4(b), c)), EncodeValue(Low6(c));
    Regrouped(x, y, z, w, if e.stepcount + 1 == 18 then [NEWLINE] else []);
  }

  lemma Regrouped(x: bv8, y: bv8, z: bv8, w: bv8, nl: Text)
    ensures [x] + ([y] + ([z, w] + nl)) == [x, y, z, w] + nl
  {
  }

  lemma FeedCases(e: Encoder, a: bv8, b: bv8, c: bv8)
    requires e.step == StepA
    ensures Feed(e, a) == (Encoder(StepB, Carry2(a), e.stepcount), [EncodeValue(Top6(a))])
    ensures Feed(Feed(e, a).0, b) == (Encoder(StepC, Carry4(b), e.stepcount), [EncodeValue(With4(Carry2(a), b))])
    ensures var full := e.stepcount + 1 == 18;
            Feed(Feed(Feed(e, a).0, b).0, c) ==
            (Encoder(StepA, Low6(c), if full then 0 else e.stepcount + 1),
             [EncodeValue(With2(Carry4(b), c)), EncodeValue(Low6(c))] + if full then [NEWLINE] else [])
  {
    hide EncodeValue, Top6, Carry2, With4, Carry4, With2, Low6;
  }

  ghost function EncodedFrom(e: Encoder, bs: Text): Text {
    FeedAll(e, bs).1 + Finish(FeedAll(e, bs).0)
  }

  lemma {:induction false} EncodingFrom(e: Encoder, bs: Text)
    requires e.step == StepA && e.stepcount < 18
    ensures Codes(EncodedFrom(e, bs)) == Encoding(Codes(bs), e.stepcount)
    decreases |bs|
  {
    hide N, EncodeValue, Top6, Carry2, With4, Carry4, With2, Low6, GroupText;
    hide FeedAll, Finish, Encoding, EncodedFrom;
    if |bs| < 3 {
      LastGroup(e, bs);
    } else {
      EncodingStep(Codes(bs), e.stepcount);
      FirstGroup(e, bs);
      EncodingFrom(FeedAll(e, bs[..3]).0, bs[3..]);
      assert Codes(bs[3..]) == Codes(bs)[3..];
    }
  }

  lemma EncodingStep(bs: seq<nat>, k: nat)
    requires |bs| >= 3
    ensures Encoding(bs, k) ==
            GroupText(bs[0], bs[1], bs[2])
            + ((if k + 1 == 18 then ['\n' as int] else []) + Encoding(bs[3..], if k + 1 == 18 then 0 else k + 1))
  {
    hide GroupText;
  }

  lemma LastGroup(e: Encoder, bs: Text)
    requires e.step == StepA && |bs| < 3
    ensures Codes(EncodedFrom(e, bs)) == Encoding(Codes(bs), e.stepcount)
  {
    hide N, EncodeValue, Top6, Carry2, With4, Carry4, With2, Low6, GroupText;
    if |bs| == 1 {
      var a := bs[0];
      FeedOne(e, a);
      assert bs == [a];
      hide FeedAll;
      LastOne(a);
      assert EncodedFrom(e, bs) == [EncodeValue(Top6(a)), EncodeValue(Carry2(a)), PAD, PAD, NEWLINE];
      Signs();
    } else if |bs| == 2 {
      var a, b := bs[0], bs[1];
      FeedTwo(e, a, b);
      assert bs == [a, b];
      hide FeedAll;
      LastTwo(a, b);
      assert EncodedFrom(e, bs) ==
             [EncodeValue(Top6(a)), EncodeValue(With4(Carry2(a), b)), EncodeValue(Carry4(b)), PAD, NEWLINE];
      Signs();
    } else {
      Signs();
    }
  }

  lemma Signs()
    ensures N(PAD) == '=' as int && N(NEWLINE) == '\n' as int
  {
  }

  lemma FirstGroup(e: Encoder, bs: Text)
    requires e.step == StepA && e.stepcount < 18 && |bs| >= 3
    ensures var e', full := FeedAll(e, bs[..3]).0, e.stepcount + 1 == 18;
            && e'.step == StepA && e'.stepcount == (if full then 0 else e.stepcount + 1)
            && Codes(EncodedFrom(e, bs)) ==
               GroupText(N(bs[0]), N(bs[1]), N(bs[2]))
               + ((if full then ['\n' as int] else []) + Codes(EncodedFrom(e', bs[3..])))
  {
    hide N, EncodeValue, Top6, Carry2, With4, Carry4, With2, Low6, GroupText, FeedAll, Finish;
    var a, b, c := bs[0], bs[1], bs[2];
    assert bs[..3] == [a, b, c] && bs == bs[..3] + bs[3..];
    FeedThree(e, a, b, c);
    FeedConcat(e, bs[..3], bs[3..]);
    GroupLetters(a, b, c);
    Signs();
  }

  /** For every input the encoder's text is the one of RFC 4648, broken into lines of 72 characters. */
  lemma EncodedText(bs: Text)
    ensures Codes(Encoded(bs)) == Encoding(Codes(bs), 0)
  {
    EncodingFrom(ENCODER_INIT, bs);
  }

  // ---- Decoding -----------------------------------------------------------------------------------------------------------

  ghost predicate AllSmall(p: Text) {
    forall k :: 0 <= k < |p| ==> p[k] < 64
  }

  /** The decoder has read the values `p` of an unfinished group. */
  ghost predicate Unfinished(d: Decoder, p: Text) {
    && AllSmall(p)
    && match d.step
       case Stepa => p == []
       case Stepb => |p| == 1 && d.plain == Open6(p[0])
       case Stepc => |p| == 2 && d.plain == Open4(p[1])
       case Stepd => |p| == 3 && d.plain == Open2(p[2])
  }

  /** Bytes already written for `n` values of an unfinished group. */
  function Written(n: nat): nat {
    if n < 2 then 0 else n - 1
  }

  /** The first bytes of a decoding, as far as there are values for them. */
  lemma DecodingFront(vs: seq<nat>)
    requires forall k :: 0 <= k < |vs| ==> vs[k] < 64
    ensures |vs| < 2 ==> Decoding(vs) == []
    ensures |vs| == 2 ==> |Decoding(vs)| == 1
    ensures |vs| == 3 ==> |Decoding(vs)| == 2
    ensures |vs| >= 2 ==> |Decoding(vs)| >= 1 && Decoding(vs)[0] == First(vs[0], vs[1])
    ensures |vs| >= 3 ==> |Decoding(vs)| >= 2 && Decoding(vs)[1] == Second(vs[1], vs[2])
    ensures |vs| >= 4 ==> |Decoding(vs)| >= 3 && Decoding(vs)[2] == Third(vs[2], vs[3]) && Decoding(vs)[3..] == Decoding(vs[4..])
  {
    hide Octet, First, Second, Third;
    if |vs| == 2 {
      OctetParts(vs[0], vs[1], 0, 0);
    } else if |vs| == 3 {
      OctetParts(vs[0], vs[1], vs[2], 0);
    } else if |vs| >= 4 {
      OctetParts(vs[0], vs[1], vs[2], vs[3]);
    }
  }

  lemma LetterValuesSmall(cs: seq<nat>)
    ensures forall k :: 0 <= k < |LetterValues(cs)| ==> LetterValues(cs)[k] < 64
  {
  }

  lemma SmallCode(v: bv8)
    requires v < 64
    ensures N(v) < 64
  {
  }

  /** The value `v` goes on with the unfinished group `p`, before the values `rest`. */
  ghost function Going(p: Text, v: bv8, rest: seq<nat>): seq<nat> {
    Codes(p + [v]) + rest
  }

  lemma GoingSmall(p: Text, v: bv8, rest: seq<nat>)
    requires AllSmall(p) && v < 64 && forall k :: 0 <= k < |rest| ==> rest[k] < 64
    ensures var vs := Going(p, v, rest);
            && |vs| == |p| + 1 + |rest| && (forall k :: 0 <= k < |vs| ==> vs[k] < 64)
            && (forall k :: 0 <= k < |p| ==> vs[k] == N(p[k])) && vs[|p|] == N(v) && vs[|p| + 1..] == rest
    ensures AllSmall(p + [v])
  {
    hide N;
    SmallCode(v);
    forall k | 0 <= k < |p| ensures N(p[k]) < 64 {
      SmallCode(p[k]);
    }
  }

  lemma FirstTaken(d: Decoder, v: bv8)
    requires d.step == Stepa && v < 64
    ensures Unfinished(TakeValue(d, v).0, [v]) && TakeValue(d, v).1 == []
  {
    hide Open6;
  }

  lemma SecondTaken(d: Decoder, p: Text, v: bv8)
    requires d.step == Stepb && Unfinished(d, p) && v < 64
    ensures Unfinished(TakeValue(d, v).0, p + [v])
    ensures Codes(TakeValue(d, v).1) == [First(N(p[0]), N(v))]
  {
    Join2Bits(p[0], v);
    hide N, Open6, Open4, Join2;
  }

  lemma ThirdTaken(d: Decoder, p: Text, v: bv8)
    requires d.step == Stepc && Unfinished(d, p) && v < 64
    ensures Unfinished(TakeValue(d, v).0, p + [v])
    ensures Codes(TakeValue(d, v).1) == [Second(N(p[1]), N(v))]
  {
    Join4Bits(p[1], v);
    hide N, Open4, Open2, Join4;
  }

  lemma FourthTaken(d: Decoder, p: Text, v: bv8)
    requires d.step == Stepd && Unfinished(d, p) && v < 64
    ensures Unfinished(TakeValue(d, v).0, [])
    ensures Codes(TakeValue(d, v).1) == [Third(N(p[2]), N(v))]
  {
    Join6Bits(p[2], v);
    hide N, Open2, Join6;
  }

  /** Bytes from `w` on are byte number `w` and the bytes after it. */
  lemma NextByte(out: seq<nat>, w: nat, b: nat)
    requires w < |out| && out[w] == b
    ensures [b] + out[w + 1..] == out[w..]
  {
  }

  /** The byte that the value completes is the next byte of the decoding. */
  ghost predicate Continues(d: Decoder, p: Text, v: bv8, rest: seq<nat>) {
    var (d', t) := TakeValue(d, v);
    var out := Decoding(Going(p, v, rest));
    && Unfinished(d', p + [v]) && Written(|p| + 1) <= |out|
    && Codes(t) + out[Written(|p| + 1)..] == out[Written(|p|)..]
  }

  lemma FirstContinues(d: Decoder, p: Text, v: bv8, rest: seq<nat>)
    requires Unfinished(d, p) && |p| == 0 && v < 64 && forall k :: 0 <= k < |rest| ==> rest[k] < 64
    ensures Continues(d, p, v, rest)
  {
    hide N, TakeValue, Decoding, Going, Codes, Unfinished, AllSmall, First, Second, Third;
    UnfinishedStep(d, p);
    GoingSmall(p, v, rest);
    DecodingFront(Going(p, v, rest));
    NoCodes();
    FirstTaken(d, v);
    assert p + [v] == [v];
  }

  lemma SecondContinues(d: Decoder, p: Text, v: bv8, rest: seq<nat>)
    requires Unfinished(d, p) && |p| == 1 && v < 64 && forall k :: 0 <= k < |rest| ==> rest[k] < 64
    ensures Continues(d, p, v, rest)
  {
    hide N, TakeValue, Decoding, Going, Codes, Unfinished, AllSmall, First, Second, Third;
    UnfinishedStep(d, p);
    var out := Decoding(Going(p, v, rest));
    assert 0 < |out| && out[0] == First(N(p[0]), N(v)) by {
      GoingSmall(p, v, rest);
      DecodingFront(Going(p, v, rest));
    }
    NextByte(out, 0, First(N(p[0]), N(v)));
    SecondTaken(d, p, v);
  }

  lemma ThirdContinues(d: Decoder, p: Text, v: bv8, rest: seq<nat>)
    requires Unfinished(d, p) && |p| == 2 && v < 64 && forall k :: 0 <= k < |rest| ==> rest[k] < 64
    ensures Continues(d, p, v, rest)
  {
    hide N, TakeValue, Decoding, Going, Codes, Unfinished, AllSmall, First, Second, Third;
    UnfinishedStep(d, p);
    var out := Decoding(Going(p, v, rest));
    assert 1 < |out| && out[1] == Second(N(p[1]), N(v)) by {
      GoingSmall(p, v, rest);
      DecodingFront(Going(p, v, rest));
    }
    NextByte(out, 1, Second(N(p[1]), N(v)));
    ThirdTaken(d, p, v);
  }

  /** One more value of an unfinished group. */
  lemma ValueTaken(d: Decoder, p: Text, v: bv8, rest: seq<nat>)
    requires Unfinished(d, p) && |p| < 3 && v < 64 && forall k :: 0 <= k < |rest| ==> rest[k] < 64
    ensures Continues(d, p, v, rest)
  {
    hide Continues, Unfinished;
    if |p| == 0 {
      FirstContinues(d, p, v, rest);
    } else if |p| == 1 {
      SecondContinues(d, p, v, rest);
    } else {
      ThirdContinues(d, p, v, rest);
    }
  }

  lemma UnfinishedStep(d: Decoder, p: Text)
    requires Unfinished(d, p)
    ensures |p| == Fill(d.step) && AllSmall(p)
  {
    hide AllSmall, Open6, Open4, Open2;
  }

  /** The last value of a group. */
  lemma GroupTaken(d: Decoder, p: Text, v: bv8, rest: seq<nat>)
    requires Unfinished(d, p) && |p| == 3 && v < 64 && forall k :: 0 <= k < |rest| ==> rest[k] < 64
    ensures var (d', t) := TakeValue(d, v);
            var out := Decoding(Going(p, v, rest));
            Unfinished(d', []) && 2 <= |out| && Codes(t) + Decoding(rest) == out[2..]
  {
    hide N, TakeValue, Decoding, Going, Codes, Unfinished, AllSmall, First, Second, Third;
    UnfinishedStep(d, p);
    GoingSmall(p, v, rest);
    var vs := Going(p, v, rest);
    DecodingFront(vs);
    FourthTaken(d, p, v);
    NextByte(Decoding(vs), 2, Third(N(p[2]), N(v)));
  }

  lemma NoCodes()
    ensures Codes([]) == []
  {
  }

  /** What the letters of a text say, from its first character on. */
  lemma LettersStep(cs: Text)
    requires cs != []
    ensures InAlphabet(cs[0]) ==> DecodeValue(cs[0]) < 64
    ensures LetterValues(Codes(cs)) ==
            (if InAlphabet(cs[0]) then [N(DecodeValue(cs[0]))] else []) + LetterValues(Codes(cs[1..]))
  {
    hide N, DecodeValue, InAlphabet, IsLetter, LetterValue;
    assert Codes(cs)[1..] == Codes(cs[1..]) && Codes(cs)[0] == N(cs[0]);
    DecodeTable(cs[0]);
  }

  lemma TakeStep(d: Decoder, cs: Text)
    requires cs != []
    ensures TakeAll(d, cs).1 ==
            if InAlphabet(cs[0]) then TakeValue(d, DecodeValue(cs[0])).1 + TakeAll(TakeValue(d, DecodeValue(cs[0])).0, cs[1..]).1
            else TakeAll(d, cs[1..]).1
  {
    hide TakeValue, DecodeValue, InAlphabet;
  }

  lemma GoingIs(p: Text, v: bv8, rest: seq<nat>)
    ensures Going(p, v, rest) == Codes(p) + ([N(v)] + rest) == Codes(p + [v]) + rest
  {
    hide N;
  }

  lemma CodesConcat(a: Text, b: Text)
    ensures Codes(a + b) == Codes(a) + Codes(b)
  {
    hide N;
  }

  lemma {:induction false} DecodingFrom(d: Decoder, p: Text, cs: Text)
    requires Unfinished(d, p)
    ensures var out := Decoding(Codes(p) + LetterValues(Codes(cs)));
            Written(|p|) <= |out| && Codes(TakeAll(d, cs).1) == out[Written(|p|)..]
    decreases |cs|
  {
    hide N, Codes, TakeAll, TakeValue, DecodeValue, InAlphabet, LetterValues, Decoding, Unfinished, Going;
    UnfinishedSmall(d, p);
    NoCodes();
    NothingTaken(d);
    NoLetters();
    if cs == [] {
      assert Codes(p) + [] == Codes(p);
      DecodingFront(Codes(p));
    } else {
      var rest := cs[1..];
      LettersStep(cs);
      TakeStep(d, cs);
      var later := LetterValues(Codes(rest));
      if !InAlphabet(cs[0]) {
        assert [] + later == later;
        DecodingFrom(d, p, rest);
      } else {
        var v := DecodeValue(cs[0]);
        LetterValuesSmall(Codes(rest));
        GoingIs(p, v, later);
        var (d', t) := TakeValue(d, v);
        CodesConcat(t, TakeAll(d', rest).1);
        if |p| == 3 {
          GroupTaken(d, p, v, later);
          DecodingFrom(d', [], rest);
          assert [] + later == later;
        } else {
          ValueTaken(d, p, v, later);
          DecodingFrom(d', p + [v], rest);
        }
      }
    }
  }

  lemma NoLetters()
    ensures LetterValues([]) == []
  {
  }

  lemma UnfinishedSmall(d: Decoder, p: Text)
    requires Unfinished(d, p)
    ensures |p| <= 3 && forall k :: 0 <= k < |p| ==> Codes(p)[k] < 64
  {
    hide N;
    forall k | 0 <= k < |p| ensures Codes(p)[k] < 64 {
      SmallCode(p[k]);
    }
  }

  /** For every text the decoder's bytes are those of its letters, junk and padding skipped. */
  lemma DecodedBytes(cs: Text)
    ensures Codes(TakeAll(DECODER_INIT, cs).1) == Decoding(LetterValues(Codes(cs)))
  {
    DecodingFrom(DECODER_INIT, [], cs);
    assert Codes([]) + LetterValues(Codes(cs)) == LetterValues(Codes(cs));
  }
}
