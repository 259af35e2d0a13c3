/**
 * libb64's resumable encoder and decoder. A `char` is a bv8; a negative signed char is one with
 * its top bit set.
 */
module Base64 {
  import opened Base64Alphabet

  type Text = seq<bv8>

  const NEWLINE: bv8 := 10
  const PAD: bv8 := 61

  /** `CHARS_PER_LINE / 4`. */
  const GROUPS_PER_LINE: nat := 18

  // ---- The two tables -----------------------------------------------------------------------------

  /** `base64_encode_value`. */
  function EncodeValue(v: bv8): bv8 {
    if v > 63 then PAD
    else if v < 26 then v + 65
    else if v < 52 then v + 71
    else if v < 62 then v - 4
    else if v == 62 then 43
    else 47
  }

  /** `base64_decode_value` as the char it is stored in: -1 for junk, -2 for the padding sign. */
  function DecodeValue(c: bv8): bv8 {
    if 65 <= c <= 90 then c - 65
    else if 97 <= c <= 122 then c - 71
    else if 48 <= c <= 57 then c + 4
    else if c == 43 then 62
    else if c == 47 then 63
    else if c == PAD then 0xFE
    else 0xFF
  }

  predicate Negative(c: bv8) {
    c >= 0x80
  }

  predicate InAlphabet(c: bv8) {
    !Negative(DecodeValue(c))
  }

  lemma ValueRoundTrip(v: bv8)
    requires v < 64
    ensures InAlphabet(EncodeValue(v)) && DecodeValue(EncodeValue(v)) == v
  {
  }

  // ---- The bit moves ---------------------------------------------------------------------------------

  // Encoder: six bits out of each byte, the remaining bits carried to the next value.
  function Top6(b: bv8): bv8 { (b & 0xFC) >> 2 }
  function Carry2(b: bv8): bv8 { (b & 0x03) << 4 }
  function With4(r: bv8, b: bv8): bv8 { r | ((b & 0xF0) >> 4) }
  function Carry4(b: bv8): bv8 { (b & 0x0F) << 2 }
  function With2(r: bv8, b: bv8): bv8 { r | ((b & 0xC0) >> 6) }
  function Low6(b: bv8): bv8 { b & 0x3F }

  // Decoder: the partial byte completed by each value, and what the value leaves for the next one.
  function Open6(f: bv8): bv8 { (f & 0x3F) << 2 }
  function Join2(p: bv8, f: bv8): bv8 { p | ((f & 0x30) >> 4) }
  function Open4(f: bv8): bv8 { (f & 0x0F) << 4 }
  function Join4(p: bv8, f: bv8): bv8 { p | ((f & 0x3C) >> 2) }
  function Open2(f: bv8): bv8 { (f & 0x03) << 6 }
  function Join6(p: bv8, f: bv8): bv8 { p | (f & 0x3F) }

  // ---- The encoder as a machine ----------------------------------------------------------------------

  datatype EncodeStep = StepA | StepB | StepC

  datatype Encoder = Encoder(step: EncodeStep, result: bv8, stepcount: nat)

  const ENCODER_INIT := Encoder(StepA, 0, 0)

  /** One plain byte: the characters it completes and the state it leaves. */
  function Feed(e: Encoder, b: bv8): (Encoder, Text) {
    match e.step
    case StepA => (Encoder(StepB, Carry2(b), e.stepcount), [EncodeValue(Top6(b))])
    case StepB => (Encoder(StepC, Carry4(b), e.stepcount), [EncodeValue(With4(e.result, b))])
    case StepC =>
      var full := e.stepcount + 1 == GROUPS_PER_LINE;
      (Encoder(StepA, Low6(b), if full then 0 else e.stepcount + 1),
       [EncodeValue(With2(e.result, b)), EncodeValue(Low6(b))] + if full then [NEWLINE] else [])
  }

  function FeedAll(e: Encoder, bs: Text): (r: (Encoder, Text))
    decreases |bs|
  {
    if bs == [] then (e, [])
    else
      var (e1, t1) := Feed(e, bs[0]);
      var (e2, t2) := FeedAll(e1, bs[1..]);
      (e2, t1 + t2)
  }

  /** `base64_encode_blockend`. */
  function Finish(e: Encoder): Text {
    match e.step
    case StepA => [NEWLINE]
    case StepB => [EncodeValue(e.result), PAD, PAD, NEWLINE]
    case StepC => [EncodeValue(e.result), PAD, NEWLINE]
  }

  function Encoded(bs: Text): Text {
    FeedAll(ENCODER_INIT, bs).1 + Finish(FeedAll(ENCODER_INIT, bs).0)
  }

  /** Feeding two pieces in turn is feeding their concatenation. */
  lemma {:induction false} FeedConcat(e: Encoder, a: Text, b: Text)
    ensures FeedAll(e, a + b) ==
            (FeedAll(FeedAll(e, a).0, b).0, FeedAll(e, a).1 + FeedAll(FeedAll(e, a).0, b).1)
    decreases |a|
  {
    if a == [] {
      assert a + b == b;
      assert [] + FeedAll(e, b).1 == FeedAll(e, b).1;
    } else {
      var (e1, t1) := Feed(e, a[0]);
      assert (a + b)[1..] == a[1..] + b;
      FeedConcat(e1, a[1..], b);
      var u, v := FeedAll(e1, a[1..]).1, FeedAll(FeedAll(e1, a[1..]).0, b).1;
      assert t1 + (u + v) == t1 + u + v;
    }
  }

  function Flatten(chunks: seq<Text>): Text {
    if chunks == [] then [] else chunks[0] + Flatten(chunks[1..])
  }

  /** The text produced by one `encode_block` call per chunk. */
  function EncodeChunks(e: Encoder, chunks: seq<Text>): (Encoder, Text)
    decreases |chunks|
  {
    if chunks == [] then (e, [])
    else
      var (e1, t1) := FeedAll(e, chunks[0]);
      var (e2, t2) := EncodeChunks(e1, chunks[1..]);
      (e2, t1 + t2)
  }

  /** However the input is cut into calls, the text and the final state are the same. */
  lemma {:induction false} EncodeSplitIndependent(e: Encoder, chunks: seq<Text>)
    ensures EncodeChunks(e, chunks) == FeedAll(e, Flatten(chunks))
    decreases |chunks|
  {
    if chunks != [] {
      EncodeSplitIndependent(FeedAll(e, chunks[0]).0, chunks[1..]);
      FeedConcat(e, chunks[0], Flatten(chunks[1..]));
    }
  }

  /** Section 4 of RFC 4648: the four values of a group are the 24 bits of its three bytes, in order. */
  lemma GroupBits(a: bv8, b: bv8, c: bv8)
    ensures (Top6(a) as bv24 << 18) | (With4(Carry2(a), b) as bv24 << 12)
            | (With2(Carry4(b), c) as bv24 << 6) | Low6(c) as bv24
            == (a as bv24 << 16) | (b as bv24 << 8) | c as bv24
  {
  }

  // ---- Length of the text ------------------------------------------------------------------------------

  function StepOf(n: nat): EncodeStep {
    if n % 3 == 0 then StepA else if n % 3 == 1 then StepB else StepC
  }

  /** The encoder's state and output after `n` bytes, counted from a line start. */
  ghost predicate CountsAs(r: (Encoder, Text), n: nat) {
    && r.0.step == StepOf(n) && r.0.stepcount == n / 3 % 18
    && |r.1| == 4 * (n / 3) + n % 3 + n / 54
  }

  lemma {:induction false} FeedLength(bs: Text)
    ensures CountsAs(FeedAll(ENCODER_INIT, bs), |bs|)
    decreases |bs|
  {
    if bs != [] {
      var n := |bs| - 1;
      var front, b := bs[..n], bs[n];
      FeedLength(front);
      assert bs == front + [b];
      FeedConcat(ENCODER_INIT, front, [b]);
      var e := FeedAll(ENCODER_INIT, front).0;
      FeedOne(e, b);
      NextCount(n);
    }
  }

  lemma FeedOne(e: Encoder, b: bv8)
    ensures FeedAll(e, [b]) == Feed(e, b)
  {
    assert [b][1..] == [];
    var (e1, t1) := Feed(e, b);
    assert FeedAll(e1, []) == (e1, []);
    assert t1 + [] == t1;
  }

  lemma NextCount(n: nat)
    ensures n % 3 < 2 ==> (n + 1) / 3 == n / 3 && (n + 1) % 3 == n % 3 + 1 && (n + 1) / 54 == n / 54
    ensures n % 3 == 2 ==> (n + 1) / 3 == n / 3 + 1 && (n + 1) % 3 == 0
    ensures n % 3 == 2 && n / 3 % 18 == 17 ==> (n + 1) / 54 == n / 54 + 1 && (n + 1) / 3 % 18 == 0
    ensures n % 3 == 2 && n / 3 % 18 < 17 ==> (n + 1) / 54 == n / 54 && (n + 1) / 3 % 18 == n / 3 % 18 + 1
  {
    var q := n / 3;
    assert n / 54 == q / 18;
    assert (n + 1) / 54 == (n + 1) / 3 / 18;
  }

  /** 4 characters per started group of 3, a newline per full line of 54 bytes and one at the end. */
  lemma EncodedLength(bs: Text)
    ensures |Encoded(bs)| == 4 * ((|bs| + 2) / 3) + |bs| / 54 + 1
  {
    FeedLength(bs);
  }

  // ---- The decoder as a machine ----------------------------------------------------------------------------

  datatype DecodeStep = Stepa | Stepb | Stepc | Stepd

  /** `plain` is the partial byte; at `Stepa` there is none and it is 0. */
  datatype Decoder = Decoder(step: DecodeStep, plain: bv8)

  const DECODER_INIT := Decoder(Stepa, 0)

  /** One six-bit value: the byte it completes, if any, and the state it leaves. */
  function TakeValue(d: Decoder, f: bv8): (Decoder, Text) {
    match d.step
    case Stepa => (Decoder(Stepb, Open6(f)), [])
    case Stepb => (Decoder(Stepc, Open4(f)), [Join2(d.plain, f)])
    case Stepc => (Decoder(Stepd, Open2(f)), [Join4(d.plain, f)])
    case Stepd => (Decoder(Stepa, 0), [Join6(d.plain, f)])
  }

  /** One character; anything outside the alphabet is skipped. */
  function Take(d: Decoder, c: bv8): (Decoder, Text) {
    if InAlphabet(c) then TakeValue(d, DecodeValue(c)) else (d, [])
  }

  function TakeAll(d: Decoder, cs: Text): (r: (Decoder, Text))
    decreases |cs|
  {
    if cs == [] then (d, [])
    else
      var (d1, t1) := Take(d, cs[0]);
      var (d2, t2) := TakeAll(d1, cs[1..]);
      (d2, t1 + t2)
  }

  lemma {:induction false} TakeConcat(d: Decoder, a: Text, b: Text)
    ensures TakeAll(d, a + b) ==
            (TakeAll(TakeAll(d, a).0, b).0, TakeAll(d, a).1 + TakeAll(TakeAll(d, a).0, b).1)
    decreases |a|
  {
    if a == [] {
      assert a + b == b;
      assert [] + TakeAll(d, b).1 == TakeAll(d, b).1;
    } else {
      var (d1, t1) := Take(d, a[0]);
      assert (a + b)[1..] == a[1..] + b;
      TakeConcat(d1, a[1..], b);
      var u, v := TakeAll(d1, a[1..]).1, TakeAll(TakeAll(d1, a[1..]).0, b).1;
      assert t1 + (u + v) == t1 + u + v;
    }
  }

  /** The bytes produced by one `decode_block` call per chunk. */
  function DecodeChunks(d: Decoder, chunks: seq<Text>): (Decoder, Text)
    decreases |chunks|
  {
    if chunks == [] then (d, [])
    else
      var (d1, t1) := TakeAll(d, chunks[0]);
      var (d2, t2) := DecodeChunks(d1, chunks[1..]);
      (d2, t1 + t2)
  }

  lemma {:induction false} DecodeSplitIndependent(d: Decoder, chunks: seq<Text>)
    ensures DecodeChunks(d, chunks) == TakeAll(d, Flatten(chunks))
    decreases |chunks|
  {
    if chunks != [] {
      DecodeSplitIndependent(TakeAll(d, chunks[0]).0, chunks[1..]);
      TakeConcat(d, chunks[0], Flatten(chunks[1..]));
    }
  }

  /** How many characters of the text are letters of RFC 4648. */
  function AlphabetCount(cs: Text): nat {
    if cs == [] then 0 else (if IsLetter(cs[0] as nat) then 1 else 0) + AlphabetCount(cs[1..])
  }

  /** The decoding table knows exactly the letters. */
  lemma AlphabetLetters(c: bv8)
    ensures InAlphabet(c) <==> IsLetter(c as nat)
  {
  }

  /** Characters read into the current group of four. */
  function Fill(s: DecodeStep): nat {
    match s
    case Stepa => 0
    case Stepb => 1
    case Stepc => 2
    case Stepd => 3
  }

  /** Three bytes come out for every four alphabet characters, whatever else the text holds. */
  lemma {:induction false} DecodedLength(d: Decoder, cs: Text)
    ensures |TakeAll(d, cs).1| == 3 * (Fill(d.step) + AlphabetCount(cs)) / 4 - 3 * Fill(d.step) / 4
    decreases |cs|
  {
    if cs != [] {
      AlphabetLetters(cs[0]);
      hide InAlphabet, IsLetter, DecodeValue;
      DecodedLength(Take(d, cs[0]).0, cs[1..]);
    }
  }

  // ---- Round trip ------------------------------------------------------------------------------------------

  /** Encoder and decoder in step: `lag` is what has been fed but not yet given back. */
  ghost predicate Coupled(e: Encoder, d: Decoder, lag: Text) {
    match e.step
    case StepA => lag == [] && d.step == Stepa
    case StepB => |lag| == 1 && d == Decoder(Stepb, Open6(Top6(lag[0]))) && e.result == Carry2(lag[0])
    case StepC => |lag| == 1 && d == Decoder(Stepc, lag[0] & 0xF0) && e.result == Carry4(lag[0])
  }

  lemma BitsA(b: bv8)
    ensures Top6(b) < 64
  {
  }

  /** The value shared by two bytes completes the first and carries the high bits of the second. */
  lemma BitsB(b: bv8, c: bv8)
    ensures With4(Carry2(b), c) < 64 && Join2(Open6(Top6(b)), With4(Carry2(b), c)) == b
    ensures Open4(With4(Carry2(b), c)) == c & 0xF0
  {
  }

  lemma BitsC(b: bv8, c: bv8)
    ensures With2(Carry4(b), c) < 64 && Low6(c) < 64
    ensures Join4(b & 0xF0, With2(Carry4(b), c)) == b
    ensures Join6(Open2(With2(Carry4(b), c)), Low6(c)) == c
  {
  }

  lemma BitsEnd(b: bv8)
    ensures Carry2(b) < 64 && Join2(Open6(Top6(b)), Carry2(b)) == b
    ensures Carry4(b) < 64 && Join4(b & 0xF0, Carry4(b)) == b
  {
  }

  lemma TakeOne(d: Decoder, c: bv8)
    ensures TakeAll(d, [c]) == Take(d, c)
  {
    assert [c][1..] == [];
    var (d1, t1) := Take(d, c);
    assert TakeAll(d1, []) == (d1, []);
    assert t1 + [] == t1;
  }

  lemma TakeTwo(d: Decoder, c: bv8, c': bv8)
    ensures TakeAll(d, [c, c']) == (Take(Take(d, c).0, c').0, Take(d, c).1 + Take(Take(d, c).0, c').1)
  {
    assert [c, c'] == [c] + [c'];
    TakeConcat(d, [c], [c']);
    TakeOne(d, c);
    TakeOne(Take(d, c).0, c');
  }

  /** Characters outside the alphabet change nothing. */
  lemma {:induction false} TakeJunk(d: Decoder, cs: Text, junk: Text)
    requires forall k :: 0 <= k < |junk| ==> !InAlphabet(junk[k])
    ensures TakeAll(d, cs + junk) == TakeAll(d, cs)
    decreases |junk|
  {
    if junk == [] {
      assert cs + junk == cs;
    } else {
      var n := |junk| - 1;
      assert cs + junk == (cs + junk[..n]) + [junk[n]];
      TakeConcat(d, cs + junk[..n], [junk[n]]);
      TakeOne(TakeAll(d, cs + junk[..n]).0, junk[n]);
      TakeJunk(d, cs, junk[..n]);
      assert TakeAll(d, cs).1 + [] == TakeAll(d, cs).1;
    }
  }

  lemma TakeEncoded(d: Decoder, v: bv8)
    requires v < 64
    ensures TakeAll(d, [EncodeValue(v)]) == TakeValue(d, v)
  {
    ValueRoundTrip(v);
    TakeOne(d, EncodeValue(v));
  }

  lemma TakeEncodedPair(d: Decoder, v: bv8, w: bv8, tail: Text)
    requires v < 64 && w < 64 && (tail == [] || tail == [NEWLINE])
    ensures var (d1, t1) := TakeValue(d, v);
            var (d2, t2) := TakeValue(d1, w);
            TakeAll(d, [EncodeValue(v), EncodeValue(w)] + tail) == (d2, t1 + t2)
  {
    ValueRoundTrip(v);
    ValueRoundTrip(w);
    TakeTwo(d, EncodeValue(v), EncodeValue(w));
    TakeJunk(d, [EncodeValue(v), EncodeValue(w)], tail);
  }

  /** Feeding one byte and decoding what it emitted keeps the two machines coupled. */
  ghost predicate StaysCoupled(e: Encoder, d: Decoder, lag: Text, b: bv8, lag': Text) {
    && Coupled(Feed(e, b).0, TakeAll(d, Feed(e, b).1).0, lag')
    && TakeAll(d, Feed(e, b).1).1 + lag' == lag + [b]
  }

  lemma CoupledA(e: Encoder, d: Decoder, lag: Text, b: bv8)
    requires Coupled(e, d, lag) && e.step == StepA
    ensures StaysCoupled(e, d, lag, b, [b])
  {
    hide EncodeValue, TakeAll, Top6, Carry2, With4, Carry4, With2, Low6, Open6, Join2, Open4, Join4, Open2, Join6;
    BitsA(b);
    TakeEncoded(d, Top6(b));
  }

  lemma CoupledB(e: Encoder, d: Decoder, lag: Text, b: bv8)
    requires Coupled(e, d, lag) && e.step == StepB
    ensures StaysCoupled(e, d, lag, b, [b])
  {
    hide EncodeValue, TakeAll, Top6, Carry2, With4, Carry4, With2, Low6, Open6, Join2, Open4, Join4, Open2, Join6;
    BitsB(lag[0], b);
    TakeEncoded(d, With4(e.result, b));
  }

  lemma CoupledC(e: Encoder, d: Decoder, lag: Text, b: bv8)
    requires Coupled(e, d, lag) && e.step == StepC
    ensures StaysCoupled(e, d, lag, b, [])
  {
    hide EncodeValue, TakeAll, Top6, Carry2, With4, Carry4, With2, Low6, Open6, Join2, Open4, Join4, Open2, Join6;
    BitsC(lag[0], b);
    var v, w := With2(e.result, b), Low6(b);
    var full := e.stepcount + 1 == GROUPS_PER_LINE;
    var tail := if full then [NEWLINE] else [];
    TakeEncodedPair(d, v, w, tail);
    assert Feed(e, b).1 == [EncodeValue(v), EncodeValue(w)] + tail;
    assert lag + [b] == [lag[0]] + [b];
  }

  lemma {:induction false} CoupledRun(e: Encoder, d: Decoder, lag: Text, bs: Text) returns (lag': Text)
    requires Coupled(e, d, lag)
    ensures Coupled(FeedAll(e, bs).0, TakeAll(d, FeedAll(e, bs).1).0, lag')
    ensures TakeAll(d, FeedAll(e, bs).1).1 + lag' == lag + bs
    decreases |bs|
  {
    hide Feed, Take, Coupled;
    if bs == [] {
      lag' := lag;
      assert lag + bs == lag && [] + lag == lag;
    } else {
      var b, rest := bs[0], bs[1..];
      var lag1 := if e.step == StepC then [] else [b];
      match e.step {
        case StepA => CoupledA(e, d, lag, b);
        case StepB => CoupledB(e, d, lag, b);
        case StepC => CoupledC(e, d, lag, b);
      }
      var (e1, t1) := Feed(e, b);
      var (d1, out1) := TakeAll(d, t1);
      lag' := CoupledRun(e1, d1, lag1, rest);
      var t2 := FeedAll(e1, rest).1;
      TakeConcat(d, t1, t2);
      Regroup(out1, TakeAll(d1, t2).1, lag', lag1, lag, bs);
    }
  }

  lemma Regroup(out1: Text, out2: Text, lag': Text, lag1: Text, lag: Text, bs: Text)
    requires bs != [] && out1 + lag1 == lag + [bs[0]] && out2 + lag' == lag1 + bs[1..]
    ensures out1 + out2 + lag' == lag + bs
  {
    assert out1 + out2 + lag' == out1 + (out2 + lag');
    assert out1 + (lag1 + bs[1..]) == out1 + lag1 + bs[1..];
    assert lag + [bs[0]] + bs[1..] == lag + bs;
  }

  lemma FinishCompletes(e: Encoder, d: Decoder, lag: Text)
    requires Coupled(e, d, lag)
    ensures TakeAll(d, Finish(e)).1 == lag
  {
    hide EncodeValue, DecodeValue, TakeAll, Take, Top6, Carry2, Carry4, Open6, Join2, Join4;
    SignsAreJunk();
    match e.step
    case StepA =>
      TakeJunk(d, [], [NEWLINE]);
      assert [] + [NEWLINE] == [NEWLINE];
      NothingTaken(d);
    case StepB =>
      BitsEnd(lag[0]);
      TakeEncoded(d, e.result);
      assert Finish(e) == [EncodeValue(e.result)] + [PAD, PAD, NEWLINE];
      TakeJunk(d, [EncodeValue(e.result)], [PAD, PAD, NEWLINE]);
    case StepC =>
      BitsEnd(lag[0]);
      TakeEncoded(d, e.result);
      assert Finish(e) == [EncodeValue(e.result)] + [PAD, NEWLINE];
      TakeJunk(d, [EncodeValue(e.result)], [PAD, NEWLINE]);
  }

  lemma SignsAreJunk()
    ensures !InAlphabet(PAD) && !InAlphabet(NEWLINE)
  {
  }

  lemma NothingTaken(d: Decoder)
    ensures TakeAll(d, []) == (d, [])
  {
  }

  /** Decoding what was encoded gives back exactly the bytes. */
  lemma RoundTrip(bs: Text)
    ensures TakeAll(DECODER_INIT, Encoded(bs)).1 == bs
  {
    var (e, t) := FeedAll(ENCODER_INIT, bs);
    var lag := CoupledRun(ENCODER_INIT, DECODER_INIT, [], bs);
    TakeConcat(DECODER_INIT, t, Finish(e));
    FinishCompletes(e, TakeAll(DECODER_INIT, t).0, lag);
    assert [] + bs == bs;
  }

  /** The same with both sides cut into calls anywhere. */
  lemma ChunkedRoundTrip(plain: seq<Text>, code: seq<Text>)
    requires var (e, t) := EncodeChunks(ENCODER_INIT, plain); Flatten(code) == t + Finish(e)
    ensures DecodeChunks(DECODER_INIT, code).1 == Flatten(plain)
  {
    EncodeSplitIndependent(ENCODER_INIT, plain);
    DecodeSplitIndependent(DECODER_INIT, code);
    RoundTrip(Flatten(plain));
  }
}
