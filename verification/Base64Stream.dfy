/** The buffer-filling calls of libb64, proved against the machines of `Base64`. */
module Base64Stream {
  import opened Base64Alphabet
  import opened Base64
  import opened Base64Reference

  /** `base64_encodestate`. */
  class EncodeState {
    var step: EncodeStep
    var result: bv8
    var stepcount: nat

    constructor ()
      ensures Value() == ENCODER_INIT
    {
      step, result, stepcount := StepA, 0, 0;
    }

    function Value(): Encoder
      reads this
    {
      Encoder(step, result, stepcount)
    }
  }

  lemma {:induction false} FeedRoom(e: Encoder, bs: Text, i: nat)
    requires i < |bs|
    ensures var (e1, t1) := FeedAll(e, bs[..i]);
            && FeedAll(e, bs[..i + 1]) == (Feed(e1, bs[i]).0, t1 + Feed(e1, bs[i]).1)
            && |FeedAll(e, bs[..i + 1]).1| <= |FeedAll(e, bs).1|
  {
    assert bs[..i + 1] == bs[..i] + [bs[i]];
    FeedConcat(e, bs[..i], [bs[i]]);
    FeedOne(FeedAll(e, bs[..i]).0, bs[i]);
    assert bs == bs[..i + 1] + bs[i + 1..];
    FeedConcat(e, bs[..i + 1], bs[i + 1..]);
  }

  /** One turn of the encoder's switch: the characters of one byte, written from `n` on. */
  method EncodeOne(fragment: bv8, code: array<bv8>, n: nat, step: EncodeStep, result: bv8, state: EncodeState)
    returns (n': nat, step': EncodeStep, result': bv8)
    requires n + |Feed(Encoder(step, result, state.stepcount), fragment).1| <= code.Length
    modifies code, state`stepcount
    ensures var (e, t) := Feed(Encoder(step, result, old(state.stepcount)), fragment);
            n' == n + |t| && Encoder(step', result', state.stepcount) == e && code[n..n'] == t
    ensures forall k :: 0 <= k < code.Length && !(n <= k < n') ==> code[k] == old(code[k])
  {
    hide Top6, Carry2, With4, Carry4, With2, Low6, EncodeValue;
    n' := n;
    match step {
      case StepA =>
        code[n'] := EncodeValue(Top6(fragment));
        n' := n' + 1;
        result' := Carry2(fragment);
        step' := StepB;
      case StepB =>
        code[n'] := EncodeValue(With4(result, fragment));
        n' := n' + 1;
        result' := Carry4(fragment);
        step' := StepC;
      case StepC =>
        code[n'] := EncodeValue(With2(result, fragment));
        n' := n' + 1;
        result' := Low6(fragment);
        code[n'] := EncodeValue(result');
        n' := n' + 1;
        state.stepcount := state.stepcount + 1;
        if state.stepcount == GROUPS_PER_LINE {
          code[n'] := NEWLINE;
          n' := n' + 1;
          state.stepcount := 0;
        }
        step' := StepA;
    }
  }

  /** `base64_encode_block`: the caller's buffer must have room for the text. */
  method EncodeBlock(plain: Text, code: array<bv8>, state: EncodeState) returns (n: nat)
    requires |FeedAll(state.Value(), plain).1| <= code.Length
    modifies code, state
    ensures n == |FeedAll(old(state.Value()), plain).1| && code[..n] == FeedAll(old(state.Value()), plain).1
    ensures state.Value() == FeedAll(old(state.Value()), plain).0
    ensures forall k :: n <= k < code.Length ==> code[k] == old(code[k])
  {
    hide Feed;
    ghost var e0 := state.Value();
    var step, result := state.step, state.result;
    n := 0;
    for i := 0 to |plain|
      invariant n == |FeedAll(e0, plain[..i]).1| <= |FeedAll(e0, plain).1| <= code.Length
      invariant code[..n] == FeedAll(e0, plain[..i]).1
      invariant Encoder(step, result, state.stepcount) == FeedAll(e0, plain[..i]).0
      invariant forall k :: n <= k < code.Length ==> code[k] == old(code[k])
    {
      hide FeedAll;
      FeedRoom(e0, plain, i);
      ghost var n0, before := n, code[..n];
      n, step, result := EncodeOne(plain[i], code, n, step, result, state);
      assert code[..n] == before + code[n0..n];
    }
    assert plain[..|plain|] == plain;
    state.step, state.result := step, result;
  }

  /** `base64_encode_blockend`. */
  method EncodeBlockEnd(code: array<bv8>, state: EncodeState) returns (n: nat)
    requires |Finish(state.Value())| <= code.Length
    modifies code
    ensures n == |Finish(state.Value())| && code[..n] == Finish(state.Value())
    ensures forall k :: n <= k < code.Length ==> code[k] == old(code[k])
  {
    n := 0;
    match state.step {
      case StepB =>
        code[n] := EncodeValue(state.result);
        code[n + 1] := PAD;
        code[n + 2] := PAD;
        n := n + 3;
      case StepC =>
        code[n] := EncodeValue(state.result);
        code[n + 1] := PAD;
        n := n + 2;
      case StepA =>
    }
    code[n] := NEWLINE;
    n := n + 1;
  }

  /** `base64_decodestate`. */
  class DecodeState {
    var step: DecodeStep
    var plainchar: bv8

    constructor ()
      ensures Value() == DECODER_INIT
    {
      step, plainchar := Stepa, 0;
    }

    /** Between groups the stored byte is left over from the buffer and means nothing. */
    function Value(): Decoder
      reads this
    {
      if step == Stepa then Decoder(Stepa, 0) else Decoder(step, plainchar)
    }
  }

  lemma {:induction false} TakeRoom(d: Decoder, cs: Text, i: nat)
    requires i < |cs|
    ensures var (d1, t1) := TakeAll(d, cs[..i]);
            && TakeAll(d, cs[..i + 1]) == (Take(d1, cs[i]).0, t1 + Take(d1, cs[i]).1)
            && |TakeAll(d, cs[..i + 1]).1| <= |TakeAll(d, cs).1|
  {
    assert cs[..i + 1] == cs[..i] + [cs[i]];
    TakeConcat(d, cs[..i], [cs[i]]);
    TakeOne(TakeAll(d, cs[..i]).0, cs[i]);
    assert cs == cs[..i + 1] + cs[i + 1..];
    TakeConcat(d, cs[..i + 1], cs[i + 1..]);
  }

  /** The decoder's state as it stands in the middle of a call. */
  function Current(step: DecodeStep, partial: bv8): Decoder {
    if step == Stepa then Decoder(Stepa, 0) else Decoder(step, partial)
  }

  lemma EmitLength(d: Decoder, f: bv8)
    ensures |TakeValue(d, f).1| == if d.step == Stepa then 0 else 1
    ensures TakeValue(d, f).0.step == Stepa ==> d.step == Stepd
  {
  }

  /** One turn of the decoder's switch on a six-bit value. */
  method DecodeOne(fragment: bv8, plain: array<bv8>, n: nat, step: DecodeStep) returns (n': nat, step': DecodeStep)
    requires n + (if step == Stepa then 0 else 1) < plain.Length
    modifies plain
    ensures var (d, t) := TakeValue(Current(step, old(plain[n])), fragment);
            n' == n + |t| && plain[n..n'] == t && Current(step', plain[n']) == d
    ensures forall k :: 0 <= k < plain.Length && !(n <= k <= n') ==> plain[k] == old(plain[k])
    ensures step' == Stepa ==> n' == n + 1 && plain[n'] == old(plain[n'])
    ensures step != Stepa ==> n' == n + 1
  {
    hide Open6, Join2, Open4, Join4, Open2, Join6;
    n' := n;
    match step {
      case Stepa =>
        plain[n'] := Open6(fragment);
        step' := Stepb;
      case Stepb =>
        plain[n'] := Join2(plain[n'], fragment);
        n' := n' + 1;
        plain[n'] := Open4(fragment);
        step' := Stepc;
      case Stepc =>
        plain[n'] := Join4(plain[n'], fragment);
        n' := n' + 1;
        plain[n'] := Open2(fragment);
        step' := Stepd;
      case Stepd =>
        plain[n'] := Join6(plain[n'], fragment);
        n' := n' + 1;
        step' := Stepa;
    }
  }

  /**
   * `base64_decode_block`. The buffer needs one readable cell after the decoded bytes, for the
   * partial byte saved on return; that cell is written only if a partial byte is there.
   */
  method DecodeBlock(code: Text, plain: array<bv8>, state: DecodeState) returns (n: nat)
    requires |TakeAll(state.Value(), code).1| < plain.Length
    modifies plain, state
    ensures n == |TakeAll(old(state.Value()), code).1| && plain[..n] == TakeAll(old(state.Value()), code).1
    ensures state.Value() == TakeAll(old(state.Value()), code).0
    ensures forall k :: n < k < plain.Length ==> plain[k] == old(plain[k])
    ensures n > 0 && state.step == Stepa ==> plain[n] == old(plain[n])
  {
    hide DecodeValue, TakeValue;
    ghost var d0 := state.Value();
    var step := state.step;
    n := 0;
    plain[n] := state.plainchar;
    for i := 0 to |code|
      invariant n == |TakeAll(d0, code[..i]).1| <= |TakeAll(d0, code).1| < plain.Length
      invariant plain[..n] == TakeAll(d0, code[..i]).1
      invariant Current(step, plain[n]) == TakeAll(d0, code[..i]).0
      invariant forall k :: n < k < plain.Length ==> plain[k] == old(plain[k])
      invariant n > 0 && step == Stepa ==> plain[n] == old(plain[n])
    {
      hide TakeAll;
      TakeRoom(d0, code, i);
      ghost var n0, before := n, plain[..n];
      var fragment := DecodeValue(code[i]);
      if !Negative(fragment) {
        EmitLength(Current(step, plain[n]), fragment);
        n, step := DecodeOne(fragment, plain, n, step);
      }
      assert plain[..n] == before + plain[n0..n];
    }
    assert code[..|code|] == code;
    state.step, state.plainchar := step, plain[n];
  }

  lemma {:induction false} AlphabetBound(cs: Text)
    ensures AlphabetCount(cs) <= |cs|
  {
    if cs != [] {
      AlphabetBound(cs[1..]);
    }
  }

  /**
   * Decoding into a string of (n+3)/4*3 characters: the decoder may read the terminator behind them
   * but leaves it as it was.
   */
  method DecodeIntoString(s: Text, buffer: array<bv8>) returns (len: nat)
    requires s != [] && buffer.Length == (|s| + 3) / 4 * 3 + 1
    modifies buffer
    ensures len == |TakeAll(DECODER_INIT, s).1| < buffer.Length && buffer[..len] == TakeAll(DECODER_INIT, s).1
    ensures buffer[buffer.Length - 1] == old(buffer[buffer.Length - 1])
  {
    TerminatorSafe(s);
    var state := new DecodeState();
    len := DecodeBlock(s, buffer, state);
  }

  /** `decodeBase64`. */
  method DecodeBase64(s: Text) returns (r: Text)
    ensures r == TakeAll(DECODER_INIT, s).1
    ensures |r| == 3 * AlphabetCount(s) / 4
    ensures Codes(r) == Decoding(LetterValues(Codes(s)))
  {
    hide TakeAll, AlphabetCount, Decoding, LetterValues, Codes;
    DecodedLength(DECODER_INIT, s);
    DecodedBytes(s);
    AlphabetBound(s);
    NothingTaken(DECODER_INIT);
    if s == [] {
      return [];
    }
    var size := (|s| + 3) / 4 * 3;
    var buffer := new bv8[size + 1](_ => 0);
    var len := DecodeIntoString(s, buffer);
    r := buffer[..len];
  }

  /** The decoded bytes fit, and reach the end of the buffer only when no partial byte is pending. */
  lemma TerminatorSafe(s: Text)
    requires s != []
    ensures var size := (|s| + 3) / 4 * 3;
            var (d, t) := TakeAll(DECODER_INIT, s);
            |t| < size || (|t| == size && d.step == Stepa)
  {
    hide TakeAll, AlphabetCount;
    DecodedLength(DECODER_INIT, s);
    AlphabetBound(s);
    FillCount(DECODER_INIT, s);
    Sizes(AlphabetCount(s), |s|);
  }

  lemma Sizes(v: nat, n: nat)
    requires v <= n && n > 0
    ensures 3 * v / 4 <= (n + 3) / 4 * 3
    ensures 3 * v / 4 == (n + 3) / 4 * 3 ==> v % 4 == 0
  {
    var q := v / 4;
    assert v == 4 * q + v % 4;
    assert q <= n / 4;
  }

  lemma {:induction false} FillCount(d: Decoder, cs: Text)
    ensures Fill(TakeAll(d, cs).0.step) == (Fill(d.step) + AlphabetCount(cs)) % 4
    decreases |cs|
  {
    if cs != [] {
      AlphabetLetters(cs[0]);
      hide InAlphabet, IsLetter, DecodeValue;
      FillCount(Take(d, cs[0]).0, cs[1..]);
    }
  }

  /** Encoding into buffers and decoding again, with the plain text cut in two calls. */
  method EncodeThenDecode(first: Text, second: Text) returns (r: Text)
    ensures r == first + second
  {
    var state := new EncodeState();
    hide FeedAll, TakeAll, AlphabetCount;
    FeedConcat(ENCODER_INIT, first, second);
    FeedLength(first + second);
    var room := 2 * (|first| + |second|) + 4;
    var a, b, c := new bv8[room], new bv8[room], new bv8[room];
    var i := EncodeBlock(first, a, state);
    var j := EncodeBlock(second, b, state);
    var k := EncodeBlockEnd(c, state);
    var text := a[..i] + b[..j] + c[..k];
    assert text == Encoded(first + second);
    RoundTrip(first + second);
    r := DecodeBase64(text);
  }
}
