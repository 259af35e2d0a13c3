/**
 * json11's parser object: one position, one sticky error, push-back by `i--`. Every method is
 * proved to do what the reference reading of `JsonGrammar` says, or to change nothing but the
 * position when a failure is already recorded.
 */
module JsonParser {
  import opened Decimal
  import opened JsonValue
  import opened JsonString
  import opened JsonGrammar

  /** The unit still waiting for its low surrogate, as a token list. */
  function Pending(last: int): seq<Token>
    requires last < 0x1_0000
  {
    if last < 0 then [] else [Unit(last)]
  }

  /** What `parse_json` returns when it fails: a failed string literal comes back as `""`. */
  function FailureValue(s: Bytes, i: nat, depth: nat, st: Strategy): Json
    requires i <= |s|
  {
    var token := NextToken(s, i, st);
    if depth <= MAX_DEPTH && token.Ok? && token.value == QUOTE then Str([]) else Null
  }

  // ---- The one-slot surrogate machine ---------------------------------------------------------

  /** `out` and the waiting unit `last`, after reading the literal that began at `i0` up to `i`. */
  ghost predicate Reading(s: Bytes, i0: nat, i: nat, out: Bytes, last: int) {
    && i0 <= i <= |s| && -1 <= last < 0x1_0000
    && var whole, rest := Lex(s, i0), Lex(s, i);
    && (rest.Fail? ==> whole == rest)
    && (rest.Ok? ==> whole.Ok? && whole.next == rest.next
                     && Render(whole.value) == out + Render(Pending(last) + rest.value))
  }

  /** Lexing at `i` gives the token `t` and continues at `j`. */
  ghost predicate LexStep(s: Bytes, i: nat, t: Token, j: nat) {
    && i < j <= |s|
    && (Lex(s, j).Fail? ==> Lex(s, i) == Lex(s, j))
    && (Lex(s, j).Ok? ==> Lex(s, i) == Ok([t] + Lex(s, j).value, Lex(s, j).next))
  }

  lemma RenderPending(last: int, t: Token, ts: seq<Token>)
    requires -1 <= last < 0x1_0000
    requires !(t.Unit? && IsHigh(last) && IsLow(t.u))
    ensures Render(Pending(last) + ([t] + ts)) == Utf8(last) + Render([t] + ts)
  {
    if last < 0 {
      assert Pending(last) + ([t] + ts) == [t] + ts;
      assert Utf8(last) + Render([t] + ts) == Render([t] + ts);
    } else {
      RenderUnit(last, [t] + ts);
    }
  }

  lemma ReadLiteral(s: Bytes, i0: nat, i: nat, b: byte, j: nat, out: Bytes, last: int)
    requires Reading(s, i0, i, out, last) && LexStep(s, i, Lit(b), j)
    ensures Reading(s, i0, j, out + Utf8(last) + [b], -1)
  {
    hide Lex, Render, Utf8;
    var rest := Lex(s, j);
    if rest.Ok? {
      RenderPending(last, Lit(b), rest.value);
      RenderLit(b, rest.value);
      assert Pending(-1) + rest.value == rest.value;
      assert out + (Utf8(last) + ([b] + Render(rest.value))) == out + Utf8(last) + [b] + Render(rest.value);
    }
  }

  lemma ReadUnit(s: Bytes, i0: nat, i: nat, u: unit16, j: nat, out: Bytes, last: int)
    requires Reading(s, i0, i, out, last) && LexStep(s, i, Unit(u), j)
    requires !(IsHigh(last) && IsLow(u))
    ensures Reading(s, i0, j, out + Utf8(last), u)
  {
    hide Lex, Render, Utf8;
    var rest := Lex(s, j);
    if rest.Ok? {
      RenderPending(last, Unit(u), rest.value);
      assert Pending(u) == [Unit(u)];
      assert out + (Utf8(last) + Render([Unit(u)] + rest.value)) == out + Utf8(last) + Render([Unit(u)] + rest.value);
    }
  }

  lemma ReadPair(s: Bytes, i0: nat, i: nat, u: unit16, j: nat, out: Bytes, last: int)
    requires Reading(s, i0, i, out, last) && LexStep(s, i, Unit(u), j)
    requires IsHigh(last) && IsLow(u)
    ensures Reading(s, i0, j, out + Utf8(Combine(last, u)), -1)
  {
    hide Lex, Render, Utf8;
    var rest := Lex(s, j);
    if rest.Ok? {
      var ts := rest.value;
      assert Pending(last) + ([Unit(u)] + ts) == [Unit(last), Unit(u)] + ts;
      RenderPair(last, u, ts);
      assert Pending(-1) + ts == ts;
      var e := Utf8(Combine(last, u));
      assert out + (e + Render(ts)) == out + e + Render(ts);
    }
  }

  lemma ReadStart(s: Bytes, i: nat)
    requires i <= |s|
    ensures Reading(s, i, i, [], -1)
  {
    var rest := Lex(s, i);
    if rest.Ok? {
      assert Pending(-1) + rest.value == rest.value;
      assert [] + Render(rest.value) == Render(rest.value);
    }
  }

  lemma ReadEnd(s: Bytes, i0: nat, i: nat, out: Bytes, last: int)
    requires Reading(s, i0, i, out, last) && i < |s| && s[i] == QUOTE
    ensures ParseString(s, i0) == Ok(out + Utf8(last), i + 1)
  {
    var ts: seq<Token> := [];
    assert Lex(s, i) == Ok(ts, i + 1);
    assert Render(ts) == [];
    if last < 0 {
      assert Pending(last) + ts == ts;
    } else {
      assert Pending(last) + ts == [Unit(last)] + ts;
      RenderUnit(last, ts);
    }
    assert Utf8(last) + [] == Utf8(last);
  }

  /** The error found at once at position `i` inside a string literal. */
  ghost predicate ErrorAt(s: Bytes, i: nat, e: Error)
    requires i <= |s|
  {
    || (i == |s| && e == EndInString)
    || (i < |s| && s[i] <= 0x1f && e == UnescapedInString(s[i]))
    || (i < |s| && s[i] == BACKSLASH && i + 1 == |s| && e == EndInString)
    || (i + 1 < |s| && s[i] == BACKSLASH && s[i + 1] == LOWER_U
        && !IsUnitText(s[i + 2..Min(i + 6, |s|)]) && e == BadUnicodeEscape(s[i + 2..Min(i + 6, |s|)]))
    || (i + 1 < |s| && s[i] == BACKSLASH && s[i + 1] != LOWER_U && !IsSimpleEscape(s[i + 1])
        && e == InvalidEscape(s[i + 1]))
  }

  predicate IsUnitText(esc: Bytes) {
    |esc| == 4 && IsHex(esc[0]) && IsHex(esc[1]) && IsHex(esc[2]) && IsHex(esc[3])
  }

  lemma ReadFails(s: Bytes, i0: nat, i: nat, out: Bytes, last: int, e: Error)
    requires Reading(s, i0, i, out, last) && ErrorAt(s, i, e)
    ensures ParseString(s, i0) == Fail(e)
  {
    hide Render;
  }

  lemma LexPlain(s: Bytes, i: nat)
    requires i < |s| && s[i] > 0x1f && s[i] != QUOTE && s[i] != BACKSLASH
    ensures LexStep(s, i, Lit(s[i]), i + 1)
  {
  }

  lemma LexEscape(s: Bytes, i: nat)
    requires i + 1 < |s| && s[i] == BACKSLASH && IsSimpleEscape(s[i + 1]) && s[i + 1] != LOWER_U
    ensures LexStep(s, i, Lit(SimpleEscape(s[i + 1])), i + 2)
  {
  }

  lemma LexUnitText(s: Bytes, i: nat)
    requires i + 1 < |s| && s[i] == BACKSLASH && s[i + 1] == LOWER_U
    requires IsUnitText(s[i + 2..Min(i + 6, |s|)])
    ensures i + 6 <= |s| && LexStep(s, i, Unit(Hex4(s[i + 2..i + 6])), i + 6)
  {
  }

  /** `encode_utf8`. */
  method EncodeUtf8(pt: int, out: Bytes) returns (r: Bytes)
    requires pt < 0x11_0000
    ensures r == out + Utf8(pt)
  {
    r := out;
    if pt < 0 {
      return;
    }
    if pt < 0x80 {
      r := r + [pt];
    } else if pt < 0x800 {
      r := r + [0xC0 + pt / 64];
      r := r + [0x80 + pt % 64];
    } else if pt < 0x1_0000 {
      r := r + [0xE0 + pt / 4096];
      r := r + [0x80 + pt / 64 % 64];
      r := r + [0x80 + pt % 64];
    } else {
      r := r + [0xF0 + pt / 262144];
      r := r + [0x80 + pt / 4096 % 64];
      r := r + [0x80 + pt / 64 % 64];
      r := r + [0x80 + pt % 64];
    }
  }

  class JsonParser {
    const str: Bytes
    const strategy: Strategy
    var i: nat
    var err: Error
    var failed: bool

    constructor (input: Bytes, err0: Error, st: Strategy)
      ensures str == input && strategy == st && i == 0 && err == err0 && !failed
    {
      str := input;
      strategy := st;
      i := 0;
      err := err0;
      failed := false;
    }

    /** The state after an operation whose reference result is `r`: the first error is the one kept. */
    ghost predicate After<T>(r: Parsed<T>, wasFailed: bool, oldErr: Error)
      reads this
    {
      && i <= |str|
      && (wasFailed ==> failed && err == oldErr)
      && (!wasFailed && r.Ok? ==> !failed && err == oldErr && i == r.next)
      && (!wasFailed && r.Fail? ==> failed && err == r.error)
    }

    method Fail(msg: Error)
      modifies this`err, this`failed
      ensures failed && err == if old(failed) then old(err) else msg
    {
      if !failed {
        err := msg;
      }
      failed := true;
    }

    method ConsumeWhitespace()
      requires i <= |str|
      modifies this`i
      ensures i == SkipSpace(str, old(i))
    {
      while IsSpace(At(str, i))
        invariant i <= |str| && SkipSpace(str, i) == SkipSpace(str, old(i))
        decreases |str| - i
      {
        i := i + 1;
      }
    }

    method ConsumeComment() returns (found: bool)
      requires i <= |str|
      modifies this
      ensures old(i) <= i <= |str|
      ensures At(str, old(i)) != SLASH ==> !found && i == old(i) && failed == old(failed) && err == old(err)
      ensures At(str, old(i)) == SLASH ==> After(Comment(str, old(i)), old(failed), old(err))
      ensures At(str, old(i)) == SLASH ==> found == Comment(str, old(i)).Ok?
      ensures found ==> i == Comment(str, old(i)).next
    {
      found := false;
      if At(str, i) == SLASH {
        i := i + 1;
        if i == |str| {
          Fail(EndAfterCommentStart);
          return false;
        }
        if str[i] == SLASH {
          i := i + 1;
          while i < |str| && str[i] != LF
            invariant old(i) <= i <= |str| && LineEnd(str, i) == LineEnd(str, old(i) + 2)
            invariant failed == old(failed) && err == old(err)
          {
            i := i + 1;
          }
          found := true;
        } else if str[i] == STAR {
          i := i + 1;
          if i > |str| - 2 {
            Fail(EndInComment);
            return false;
          }
          while !(str[i] == STAR && str[i + 1] == SLASH)
            invariant old(i) <= i <= |str| - 2 && failed == old(failed) && err == old(err)
            invariant BlockEnd(str, i) == BlockEnd(str, old(i) + 2)
            decreases |str| - i
          {
            i := i + 1;
            if i > |str| - 2 {
              Fail(EndInComment);
              return false;
            }
          }
          i := i + 2;
          found := true;
        } else {
          Fail(MalformedComment);
          return false;
        }
      }
    }

    method ConsumeGarbage()
      requires i <= |str|
      modifies this
      ensures old(i) <= i
      ensures After(SkipGarbage(str, old(i), strategy), old(failed), old(err))
    {
      ConsumeWhitespace();
      if strategy.COMMENTS? {
        var found := true;
        while found
          invariant old(i) <= i <= |str|
          invariant failed == old(failed) && err == old(err)
          invariant SkipSpace(str, i) == i
          invariant found ==> SkipGarbage(str, i, strategy) == SkipGarbage(str, old(i), strategy)
          invariant !found ==> SkipGarbage(str, old(i), strategy) == Ok((), i)
          decreases |str| - i, found
        {
          found := ConsumeComment();
          if failed {
            return;
          }
          ConsumeWhitespace();
        }
      }
    }

    method GetNextToken() returns (ch: byte)
      requires i <= |str|
      modifies this
      ensures old(i) <= i
      ensures After(NextToken(str, old(i), strategy), old(failed), old(err))
      ensures ch == if !old(failed) && NextToken(str, old(i), strategy).Ok? then NextToken(str, old(i), strategy).value else 0
    {
      ConsumeGarbage();
      if failed {
        return 0;
      }
      if i == |str| {
        Fail(EndOfInput);
        return 0;
      }
      ch := str[i];
      i := i + 1;
    }

    /** The three digit loops of `parse_number`. */
    method ConsumeDigits()
      requires i <= |str|
      modifies this`i
      ensures i == DigitsEnd(str, old(i))
    {
      while IsDigit(At(str, i))
        invariant i <= |str| && DigitsEnd(str, i) == DigitsEnd(str, old(i))
        decreases |str| - i
      {
        i := i + 1;
      }
    }

    method ParseNumberHere() returns (v: Json)
      requires i <= |str| && !failed
      modifies this
      ensures old(i) <= i
      ensures After(ParseNumber(str, old(i)), false, old(err))
      ensures v == if ParseNumber(str, old(i)).Ok? then ParseNumber(str, old(i)).value else Null
    {
      hide AfterInteger, DigitsEnd;
      var start := i;
      if At(str, i) == MINUS {
        i := i + 1;
      }
      if At(str, i) == ZERO {
        i := i + 1;
        if IsDigit(At(str, i)) {
          Fail(LeadingZeros);
          return Null;
        }
      } else if IsDigit(At(str, i)) {
        i := i + 1;
        ConsumeDigits();
      } else {
        Fail(InvalidInNumber(At(str, i)));
        return Null;
      }
      v := FinishNumber(start);
    }

    /** `parse_number` from the end of the integer part. */
    method FinishNumber(start: nat) returns (v: Json)
      requires start < i <= |str| && !failed
      modifies this
      ensures old(i) <= i
      ensures After(AfterInteger(str, start, old(i)), false, old(err))
      ensures v == if AfterInteger(str, start, old(i)).Ok? then AfterInteger(str, start, old(i)).value else Null
    {
      hide Atoi, Strtod, DigitsEnd, AfterFraction;
      if At(str, i) != DOT && !IsExponentMark(At(str, i)) && i - start <= INT_DIGITS10 {
        return Int(Atoi(str[start..i]));
      }
      if At(str, i) == DOT {
        i := i + 1;
        if !IsDigit(At(str, i)) {
          Fail(NoFractionDigit);
          return Null;
        }
        ConsumeDigits();
      }
      v := FinishExponent(start);
    }

    /** `parse_number` from the end of the fraction. */
    method FinishExponent(start: nat) returns (v: Json)
      requires start < i <= |str| && !failed
      modifies this
      ensures old(i) <= i
      ensures After(AfterFraction(str, start, old(i)), false, old(err))
      ensures v == if AfterFraction(str, start, old(i)).Ok? then AfterFraction(str, start, old(i)).value else Null
    {
      hide Strtod, DigitsEnd;
      if IsExponentMark(At(str, i)) {
        i := i + 1;
        if At(str, i) == PLUS || At(str, i) == MINUS {
          i := i + 1;
        }
        if !IsDigit(At(str, i)) {
          Fail(NoExponentDigit);
          return Null;
        }
        ConsumeDigits();
      }
      v := Double(Strtod(str[start..i]));
    }

    method ExpectHere(expected: Bytes, res: Json) returns (v: Json)
      requires 0 < i <= |str| && !failed
      modifies this
      ensures old(i) - 1 <= i
      ensures After(Expect(str, old(i) - 1, expected, res), false, old(err))
      ensures v == if Expect(str, old(i) - 1, expected, res).Ok? then Expect(str, old(i) - 1, expected, res).value else Null
    {
      i := i - 1;
      var got := str[i..Min(i + |expected|, |str|)];
      if got == expected {
        i := i + |expected|;
        v := res;
      } else {
        Fail(ExpectedLiteral(expected, got));
        v := Null;
      }
    }

    /** The `\u` branch of `parse_string`, at the backslash. */
    method UnicodeEscape(out: Bytes, last: int, ghost i0: nat) returns (out': Bytes, last': int)
      requires i0 <= i && i + 1 < |str| && !failed && -1 <= last < 0x1_0000
      requires str[i] == BACKSLASH && str[i + 1] == LOWER_U && Reading(str, i0, i, out, last)
      modifies this
      ensures old(i) < i <= |str| && -1 <= last' < 0x1_0000
      ensures !failed ==> err == old(err) && Reading(str, i0, i, out', last')
      ensures failed ==> ParseString(str, i0) == Parsed.Fail(err)
    {
      hide Lex, LexStep, Reading, ParseString, Render, Utf8;
      out', last' := out, last;
      var esc := str[i + 2..Min(i + 6, |str|)];
      if |esc| < 4 || !IsHex(esc[0]) || !IsHex(esc[1]) || !IsHex(esc[2]) || !IsHex(esc[3]) {
        ReadFails(str, i0, i, out, last, BadUnicodeEscape(esc));
        i := i + 2;
        Fail(BadUnicodeEscape(esc));
        return;
      }
      LexUnitText(str, i);
      var codepoint := Hex4(esc);
      if IsHigh(last) && IsLow(codepoint) {
        ReadPair(str, i0, i, codepoint, i + 6, out, last);
        out' := EncodeUtf8(Combine(last, codepoint), out);
        last' := -1;
      } else {
        ReadUnit(str, i0, i, codepoint, i + 6, out, last);
        out' := EncodeUtf8(last, out);
        last' := codepoint;
      }
      i := i + 6;
    }

    method ParseStringHere() returns (out: Bytes)
      requires i <= |str| && !failed
      modifies this
      ensures old(i) <= i
      ensures After(ParseString(str, old(i)), false, old(err))
      ensures out == if ParseString(str, old(i)).Ok? then ParseString(str, old(i)).value else []
    {
      hide Lex, LexStep, Reading, ParseString, Render, Utf8;
      ghost var i0 := i;
      out := [];
      var last: int := -1;
      ReadStart(str, i0);
      while true
        invariant i0 <= i <= |str| && -1 <= last < 0x1_0000 && !failed && err == old(err)
        invariant Reading(str, i0, i, out, last)
        decreases |str| - i
      {
        if i == |str| {
          ReadFails(str, i0, i, out, last, EndInString);
          Fail(EndInString);
          return [];
        }
        var ch := str[i];
        if ch == QUOTE {
          ReadEnd(str, i0, i, out, last);
          i := i + 1;
          out := EncodeUtf8(last, out);
          return;
        }
        if ch <= 0x1f {
          ReadFails(str, i0, i, out, last, UnescapedInString(ch));
          i := i + 1;
          Fail(UnescapedInString(ch));
          return [];
        }
        if ch != BACKSLASH {
          LexPlain(str, i);
          ReadLiteral(str, i0, i, ch, i + 1, out, last);
          i := i + 1;
          out := EncodeUtf8(last, out);
          last := -1;
          out := out + [ch];
          continue;
        }
        if i + 1 == |str| {
          ReadFails(str, i0, i, out, last, EndInString);
          i := i + 1;
          Fail(EndInString);
          return [];
        }
        ch := str[i + 1];
        if ch == LOWER_U {
          out, last := UnicodeEscape(out, last, i0);
          if failed {
            return [];
          }
          continue;
        }
        if !IsSimpleEscape(ch) {
          ReadFails(str, i0, i, out, last, InvalidEscape(ch));
          i := i + 2;
          Fail(InvalidEscape(ch));
          return [];
        }
        LexEscape(str, i);
        ReadLiteral(str, i0, i, SimpleEscape(ch), i + 2, out, last);
        out := EncodeUtf8(last, out);
        last := -1;
        out := out + [SimpleEscape(ch)];
        i := i + 2;
      }
    }

    /** The reference result of the `{` branch, from just after the brace. */
    ghost function ObjectResult(j: nat, depth: nat): Parsed<Json>
      requires j <= |str|
    {
      var (c, k) :- NextToken(str, j, strategy);
      if c == RBRACE then Ok(Obj([]), k) else Members(str, j, depth, strategy, [])
    }

    /** The reference result of the `[` branch, from just after the bracket. */
    ghost function ArrayResult(j: nat, depth: nat): Parsed<Json>
      requires j <= |str|
    {
      var (c, k) :- NextToken(str, j, strategy);
      if c == RBRACKET then Ok(Arr([]), k) else Elements(str, j, depth, strategy, [])
    }

    /**
     * Ends although elements are pushed back: a value starts at or after the character read
     * before it, and once `failed` is set no call descends further.
     */
    method ParseJson(depth: nat) returns (v: Json)
      requires i <= |str|
      modifies this
      ensures old(i) <= i
      ensures After(ParseValue(str, old(i), depth, strategy), old(failed), old(err))
      ensures old(failed) ==> v == Null
      ensures !old(failed) ==>
                var r := ParseValue(str, old(i), depth, strategy);
                v == if r.Ok? then r.value else FailureValue(str, old(i), depth, strategy)
      decreases !failed, |str| - i, 0
    {
      hide NextToken, ParseNumber, ParseString, Expect, Members, Elements;
      if depth > MAX_DEPTH {
        Fail(TooDeep);
        return Null;
      }
      var ch := GetNextToken();
      if failed {
        return Null;
      }
      if ch == MINUS || IsDigit(ch) {
        i := i - 1;
        v := ParseNumberHere();
      } else if ch == LOWER_T {
        v := ExpectHere(TRUE_TEXT, Bool(true));
      } else if ch == LOWER_F {
        v := ExpectHere(FALSE_TEXT, Bool(false));
      } else if ch == LOWER_N {
        v := ExpectHere(NULL_TEXT, Null);
      } else if ch == QUOTE {
        var text := ParseStringHere();
        v := Str(text);
      } else if ch == LBRACE {
        v := ParseObject(depth);
      } else if ch == LBRACKET {
        v := ParseArray(depth);
      } else {
        Fail(ExpectedValue(ch));
        v := Null;
      }
    }

    /** What `get_next_token` from position `at` left behind. */
    ghost predicate TokenRead(at: nat, ch: byte, err0: Error)
      reads this
      requires at <= |str|
    {
      && After(NextToken(str, at, strategy), false, err0)
      && ch == if NextToken(str, at, strategy).Ok? then NextToken(str, at, strategy).value else 0
    }

    /** The `{` branch of `parse_json`. */
    method ParseObject(depth: nat) returns (v: Json)
      requires i <= |str| && !failed
      modifies this
      ensures old(i) <= i
      ensures After(ObjectResult(old(i), depth), false, old(err))
      ensures v == if ObjectResult(old(i), depth).Ok? then ObjectResult(old(i), depth).value else Null
      decreases !failed, |str| - i, 1
    {
      hide NextToken, ParseValue, ParseString;
      var data := [];
      ghost var at := i;
      ghost var target := Members(str, i, depth, strategy, []);
      var ch := GetNextToken();
      if ch == RBRACE {
        return Obj(data);
      }
      while true
        invariant old(i) <= at <= i && at <= |str| && TokenRead(at, ch, old(err))
        invariant target == Members(str, at, depth, strategy, data)
        decreases |str| - at
      {
        if ch != QUOTE {
          Fail(ExpectedQuote(ch));
          return Null;
        }
        var key := ParseStringHere();
        if failed {
          return Null;
        }
        ch := GetNextToken();
        if ch != COLON {
          Fail(ExpectedColon(ch));
          return Null;
        }
        var value := ParseJson(depth + 1);
        if failed {
          return Null;
        }
        data := Insert(data, key, value);
        ch := GetNextToken();
        if ch == RBRACE {
          break;
        }
        if ch != COMMA {
          Fail(ExpectedCommaInObject(ch));
          return Null;
        }
        at := i;
        ch := GetNextToken();
      }
      v := Obj(data);
    }

    /** The `[` branch of `parse_json`. */
    method ParseArray(depth: nat) returns (v: Json)
      requires 0 < i <= |str| && !failed
      modifies this
      ensures old(i) - 1 <= i
      ensures After(ArrayResult(old(i), depth), false, old(err))
      ensures v == if ArrayResult(old(i), depth).Ok? then ArrayResult(old(i), depth).value else Null
      decreases !failed, |str| - i, 1
    {
      hide NextToken, ParseValue;
      var data := [];
      ghost var at := i;
      ghost var target := Elements(str, i, depth, strategy, []);
      var ch := GetNextToken();
      if ch == RBRACKET {
        return Arr(data);
      }
      while true
        invariant old(i) <= at <= i && at <= |str| && TokenRead(at, ch, old(err))
        invariant target == Elements(str, at, depth, strategy, data)
        decreases |str| - at
      {
        i := i - 1;
        if !failed {
          ValueFromToken(str, at, depth + 1, strategy);
        }
        var value := ParseJson(depth + 1);
        data := data + [value];
        if failed {
          return Null;
        }
        ch := GetNextToken();
        if ch == RBRACKET {
          break;
        }
        if ch != COMMA {
          Fail(ExpectedCommaInList(ch));
          return Null;
        }
        at := i;
        ch := GetNextToken();
      }
      v := Arr(data);
    }
  }

  /** `Json::parse`: the value, or null with the first error; the caller's error text is kept on success. */
  method Parse(input: Bytes, err0: Error, st: Strategy) returns (v: Json, err: Error)
    ensures ParseText(input, st).Ok? ==> v == ParseText(input, st).value && err == err0
    ensures ParseText(input, st).Fail? ==> v == Null && err == ParseText(input, st).error
  {
    var parser := new JsonParser(input, err0, st);
    v := parser.ParseJson(0);
    parser.ConsumeGarbage();
    if parser.failed {
      return Null, parser.err;
    }
    if parser.i != |input| {
      parser.Fail(TrailingInput(input[parser.i]));
      v := Null;
    }
    err := parser.err;
  }
}
