/**
 * The reference reading of JSON text: pure functions with look-ahead and no push-back, each
 * stopping at the first error. The parser class is proved against these.
 */
module JsonGrammar {
  import opened Decimal
  import opened JsonValue
  import opened JsonString

  const TAB: byte := 9
  const LF: byte := 10
  const CR: byte := 13
  const SPACE: byte := 32
  const QUOTE: byte := 34
  const STAR: byte := 42
  const PLUS: byte := 43
  const COMMA: byte := 44
  const MINUS: byte := 45
  const DOT: byte := 46
  const SLASH: byte := 47
  const COLON: byte := 58
  const UPPER_E: byte := 69
  const LBRACKET: byte := 91
  const BACKSLASH: byte := 92
  const RBRACKET: byte := 93
  const LOWER_E: byte := 101
  const LOWER_F: byte := 102
  const LOWER_N: byte := 110
  const LOWER_T: byte := 116
  const LOWER_U: byte := 117
  const LBRACE: byte := 123
  const RBRACE: byte := 125

  const NULL_TEXT: Bytes := [110, 117, 108, 108]
  const TRUE_TEXT: Bytes := [116, 114, 117, 101]
  const FALSE_TEXT: Bytes := [102, 97, 108, 115, 101]

  const MAX_DEPTH: nat := 200

  /** `numeric_limits<int>::digits10`. */
  const INT_DIGITS10: nat := 9

  datatype Strategy = STANDARD | COMMENTS

  /** One constructor per message of the source, with the text or character it quotes. */
  datatype Error =
    | NoError
    | EndAfterCommentStart
    | EndInComment
    | MalformedComment
    | EndOfInput
    | EndInString
    | UnescapedInString(c: byte)
    | BadUnicodeEscape(text: Bytes)
    | InvalidEscape(c: byte)
    | LeadingZeros
    | InvalidInNumber(c: byte)
    | NoFractionDigit
    | NoExponentDigit
    | ExpectedLiteral(expected: Bytes, got: Bytes)
    | TooDeep
    | ExpectedQuote(c: byte)
    | ExpectedColon(c: byte)
    | ExpectedCommaInObject(c: byte)
    | ExpectedCommaInList(c: byte)
    | ExpectedValue(c: byte)
    | TrailingInput(c: byte)

  datatype Parsed<+T> = Ok(value: T, next: nat) | Fail(error: Error) {
    predicate IsFailure() {
      Fail?
    }

    function PropagateFailure<U>(): Parsed<U>
      requires Fail?
    {
      Fail(error)
    }

    function Extract(): (T, nat)
      requires Ok?
    {
      (value, next)
    }
  }

  /** `str[i]`, which reads NUL at the end of a `std::string`. */
  function At(s: Bytes, i: nat): byte
    requires i <= |s|
  {
    if i < |s| then s[i] else 0
  }

  function Min(a: nat, b: nat): nat {
    if a < b then a else b
  }

  predicate IsSpace(c: byte) {
    c == SPACE || c == CR || c == LF || c == TAB
  }

  function SkipSpace(s: Bytes, i: nat): (j: nat)
    requires i <= |s|
    ensures i <= j <= |s| && !IsSpace(At(s, j))
    decreases |s| - i
  {
    if i < |s| && IsSpace(s[i]) then SkipSpace(s, i + 1) else i
  }

  function LineEnd(s: Bytes, i: nat): (j: nat)
    requires i <= |s|
    ensures i <= j <= |s|
    decreases |s| - i
  {
    if i < |s| && s[i] != LF then LineEnd(s, i + 1) else i
  }

  function BlockEnd(s: Bytes, i: nat): (r: Parsed<()>)
    requires i <= |s|
    ensures r.Ok? ==> i < r.next <= |s|
    decreases |s| - i
  {
    if i + 2 > |s| then Fail(EndInComment)
    else if s[i] == STAR && s[i + 1] == SLASH then Ok((), i + 2)
    else BlockEnd(s, i + 1)
  }

  /** A comment starting at the slash `s[i]`. */
  function Comment(s: Bytes, i: nat): (r: Parsed<()>)
    requires i < |s|
    ensures r.Ok? ==> i < r.next <= |s|
  {
    if i + 1 == |s| then Fail(EndAfterCommentStart)
    else if s[i + 1] == SLASH then Ok((), LineEnd(s, i + 2))
    else if s[i + 1] == STAR then BlockEnd(s, i + 2)
    else Fail(MalformedComment)
  }

  /** Everything ignorable before a token; it stops where nothing more can be ignored. */
  function SkipGarbage(s: Bytes, i: nat, st: Strategy): (r: Parsed<()>)
    requires i <= |s|
    ensures r.Ok? ==> i <= r.next <= |s| && !IsSpace(At(s, r.next))
    ensures r.Ok? && st.COMMENTS? ==> At(s, r.next) != SLASH
    decreases |s| - i
  {
    var j := SkipSpace(s, i);
    if st.STANDARD? || At(s, j) != SLASH then Ok((), j)
    else
      var (_, k) :- Comment(s, j);
      SkipGarbage(s, k, st)
  }

  function NextToken(s: Bytes, i: nat, st: Strategy): (r: Parsed<byte>)
    requires i <= |s|
    ensures r.Ok? ==> i < r.next <= |s| && r.value == s[r.next - 1]
  {
    var (_, j) :- SkipGarbage(s, i, st);
    if j == |s| then Fail(EndOfInput) else Ok(s[j], j + 1)
  }

  /** Backing up onto the token just read and reading again changes nothing. */
  lemma TokenAgain(s: Bytes, i: nat, st: Strategy)
    requires i <= |s| && NextToken(s, i, st).Ok?
    ensures NextToken(s, NextToken(s, i, st).next - 1, st) == NextToken(s, i, st)
  {
    var j := SkipGarbage(s, i, st).next;
    assert SkipSpace(s, j) == j;
  }

  predicate IsHex(c: byte) {
    48 <= c <= 57 || 65 <= c <= 70 || 97 <= c <= 102
  }

  function HexDigit(c: byte): (d: nat)
    requires IsHex(c)
    ensures d < 16
  {
    if c <= 57 then c - 48 else if c <= 70 then c - 55 else c - 87
  }

  /** `strtol(esc, nullptr, 16)` of four hex digits. */
  function Hex4(t: Bytes): unit16
    requires |t| == 4 && forall k :: 0 <= k < 4 ==> IsHex(t[k])
  {
    ((HexDigit(t[0]) * 16 + HexDigit(t[1])) * 16 + HexDigit(t[2])) * 16 + HexDigit(t[3])
  }

  predicate IsSimpleEscape(c: byte) {
    c in [98, 102, 110, 114, 116, QUOTE, BACKSLASH, SLASH]
  }

  function SimpleEscape(c: byte): byte
    requires IsSimpleEscape(c)
  {
    if c == 98 then 8
    else if c == 102 then 12
    else if c == 110 then 10
    else if c == 114 then 13
    else if c == 116 then 9
    else c
  }

  /** The tokens of a string literal, from just after its opening quote. */
  function Lex(s: Bytes, i: nat): (r: Parsed<seq<Token>>)
    requires i <= |s|
    ensures r.Ok? ==> i < r.next <= |s|
    decreases |s| - i
  {
    if i == |s| then Fail(EndInString)
    else if s[i] == QUOTE then Ok([], i + 1)
    else if s[i] <= 0x1f then Fail(UnescapedInString(s[i]))
    else if s[i] != BACKSLASH then
      var (ts, n) :- Lex(s, i + 1);
      Ok([Lit(s[i])] + ts, n)
    else if i + 1 == |s| then Fail(EndInString)
    else if s[i + 1] == LOWER_U then
      var esc := s[i + 2..Min(i + 6, |s|)];
      if |esc| < 4 || exists k :: 0 <= k < 4 && !IsHex(esc[k]) then Fail(BadUnicodeEscape(esc))
      else
        var (ts, n) :- Lex(s, i + 6);
        Ok([Unit(Hex4(esc))] + ts, n)
    else if IsSimpleEscape(s[i + 1]) then
      var (ts, n) :- Lex(s, i + 2);
      Ok([Lit(SimpleEscape(s[i + 1]))] + ts, n)
    else Fail(InvalidEscape(s[i + 1]))
  }

  function ParseString(s: Bytes, i: nat): (r: Parsed<Bytes>)
    requires i <= |s|
    ensures r.Ok? ==> i < r.next <= |s|
  {
    var (ts, n) :- Lex(s, i);
    Ok(Render(ts), n)
  }

  function DigitsEnd(s: Bytes, i: nat): (j: nat)
    requires i <= |s|
    ensures i <= j <= |s| && AllDigits(s[i..j]) && !IsDigit(At(s, j))
    decreases |s| - i
  {
    if i < |s| && IsDigit(s[i]) then
      var j := DigitsEnd(s, i + 1);
      assert s[i..j] == [s[i]] + s[i + 1..j];
      j
    else i
  }

  predicate IsExponentMark(c: byte) {
    c == LOWER_E || c == UPPER_E
  }

  predicate HasMinus(t: Bytes) {
    t != [] && t[0] == MINUS
  }

  /** `atoi` of at most nine characters. */
  function Atoi(t: Bytes): int32
    requires |t| <= INT_DIGITS10
  {
    var u := if HasMinus(t) then t[1..] else t;
    var digits := u[..DigitsEnd(u, 0)];
    assert u[0..DigitsEnd(u, 0)] == digits;
    OfDecBound(digits);
    Pow10Monotone(|digits|, 9);
    assert Pow10(9) == 1_000_000_000;
    var n: int := OfDec(digits);
    if HasMinus(t) then -n else n
  }

  lemma {:induction false} Pow10Monotone(a: nat, b: nat)
    requires a <= b
    ensures Pow10(a) <= Pow10(b)
    decreases b - a
  {
    if a < b {
      Pow10Monotone(a + 1, b);
    }
  }

  /** Where the fraction that may start at `u[a]` ends. */
  function FractionEnd(u: Bytes, a: nat): (b: nat)
    requires a <= |u|
    ensures a <= b <= |u|
  {
    if At(u, a) == DOT then DigitsEnd(u, a + 1) else a
  }

  function FractionValue(u: Bytes, a: nat): real
    requires a <= |u|
  {
    var b := FractionEnd(u, a);
    if At(u, a) == DOT then OfDec(u[a + 1..b]) as real / Pow10(b - a - 1) as real else 0.0
  }

  /** `mag` with the exponent that may start at `u[b]`. */
  function Scaled(u: Bytes, b: nat, mag: real): real
    requires b <= |u|
  {
    if !IsExponentMark(At(u, b)) then mag
    else
      var signed := At(u, b + 1) == PLUS || At(u, b + 1) == MINUS;
      var from := if signed then b + 2 else b + 1;
      var e := OfDec(u[from..DigitsEnd(u, from)]);
      if At(u, b + 1) == MINUS then mag / Pow10(e) as real else mag * Pow10(e) as real
  }

  /** `strtod` without rounding: the exact value of the number at the front of the text. */
  function Strtod(t: Bytes): real {
    var u := if HasMinus(t) then t[1..] else t;
    var x := UnsignedStrtod(u);
    if HasMinus(t) then -x else x
  }

  function UnsignedStrtod(u: Bytes): real {
    var a := DigitsEnd(u, 0);
    assert u[..a] == u[0..a];
    Scaled(u, FractionEnd(u, a), OfDec(u[..a]) as real + FractionValue(u, a))
  }

  function ParseNumber(s: Bytes, i: nat): (r: Parsed<Json>)
    requires i <= |s|
    ensures r.Ok? ==> i < r.next <= |s|
  {
    var a := if At(s, i) == MINUS then i + 1 else i;
    if At(s, a) == ZERO then
      if IsDigit(At(s, a + 1)) then Fail(LeadingZeros) else AfterInteger(s, i, a + 1)
    else if IsDigit(At(s, a)) then AfterInteger(s, i, DigitsEnd(s, a + 1))
    else Fail(InvalidInNumber(At(s, a)))
  }

  function AfterInteger(s: Bytes, start: nat, p: nat): (r: Parsed<Json>)
    requires start < p <= |s|
    ensures r.Ok? ==> p <= r.next <= |s|
  {
    if At(s, p) != DOT && !IsExponentMark(At(s, p)) && p - start <= INT_DIGITS10 then
      Ok(Int(Atoi(s[start..p])), p)
    else if At(s, p) == DOT then
      if !IsDigit(At(s, p + 1)) then Fail(NoFractionDigit) else AfterFraction(s, start, DigitsEnd(s, p + 1))
    else AfterFraction(s, start, p)
  }

  function AfterFraction(s: Bytes, start: nat, p: nat): (r: Parsed<Json>)
    requires start < p <= |s|
    ensures r.Ok? ==> p <= r.next <= |s|
  {
    if IsExponentMark(At(s, p)) then
      var q := if At(s, p + 1) == PLUS || At(s, p + 1) == MINUS then p + 2 else p + 1;
      if !IsDigit(At(s, q)) then Fail(NoExponentDigit)
      else Ok(Double(Strtod(s[start..DigitsEnd(s, q)])), DigitsEnd(s, q))
    else Ok(Double(Strtod(s[start..p])), p)
  }

  /** The literal `text`, which must start at `s[i]`. */
  function Expect(s: Bytes, i: nat, text: Bytes, v: Json): (r: Parsed<Json>)
    requires i <= |s|
    ensures r.Ok? ==> r.next == i + |text| <= |s|
  {
    var got := s[i..Min(i + |text|, |s|)];
    if got == text then Ok(v, i + |text|) else Fail(ExpectedLiteral(text, got))
  }

  function ParseValue(s: Bytes, i: nat, depth: nat, st: Strategy): (r: Parsed<Json>)
    requires i <= |s|
    ensures r.Ok? ==> i < r.next <= |s|
    decreases |s| - i, 0
  {
    if depth > MAX_DEPTH then Fail(TooDeep)
    else
      var (ch, j) :- NextToken(s, i, st);
      if ch == MINUS || IsDigit(ch) then ParseNumber(s, j - 1)
      else if ch == LOWER_T then Expect(s, j - 1, TRUE_TEXT, Bool(true))
      else if ch == LOWER_F then Expect(s, j - 1, FALSE_TEXT, Bool(false))
      else if ch == LOWER_N then Expect(s, j - 1, NULL_TEXT, Null)
      else if ch == QUOTE then
        var (text, n) :- ParseString(s, j);
        Ok(Str(text), n)
      else if ch == LBRACE then
        var (c, k) :- NextToken(s, j, st);
        if c == RBRACE then Ok(Obj([]), k) else Members(s, j, depth, st, [])
      else if ch == LBRACKET then
        var (c, k) :- NextToken(s, j, st);
        if c == RBRACKET then Ok(Arr([]), k) else Elements(s, j, depth, st, [])
      else Fail(ExpectedValue(ch))
  }

  /** One or more `"key": value` entries and the closing brace, after the entries `acc`. */
  function Members(s: Bytes, i: nat, depth: nat, st: Strategy, acc: seq<Member>): (r: Parsed<Json>)
    requires i <= |s|
    ensures r.Ok? ==> i < r.next <= |s|
    decreases |s| - i, 1
  {
    var (c, j) :- NextToken(s, i, st);
    if c != QUOTE then Fail(ExpectedQuote(c))
    else
      var (key, p) :- ParseString(s, j);
      var (colon, q) :- NextToken(s, p, st);
      if colon != COLON then Fail(ExpectedColon(colon))
      else
        var (v, n) :- ParseValue(s, q, depth + 1, st);
        var (sep, k) :- NextToken(s, n, st);
        if sep == RBRACE then Ok(Obj(Insert(acc, key, v)), k)
        else if sep != COMMA then Fail(ExpectedCommaInObject(sep))
        else Members(s, k, depth, st, Insert(acc, key, v))
  }

  /** One or more values and the closing bracket, after the values `acc`. */
  function Elements(s: Bytes, i: nat, depth: nat, st: Strategy, acc: seq<Json>): (r: Parsed<Json>)
    requires i <= |s|
    ensures r.Ok? ==> i < r.next <= |s|
    decreases |s| - i, 1
  {
    var _ :- NextToken(s, i, st);
    var (v, n) :- ParseValue(s, i, depth + 1, st);
    var (sep, k) :- NextToken(s, n, st);
    if sep == RBRACKET then Ok(Arr(acc + [v]), k)
    else if sep != COMMA then Fail(ExpectedCommaInList(sep))
    else Elements(s, k, depth, st, acc + [v])
  }

  /** A whole document: one value and nothing but garbage after it. */
  function ParseText(s: Bytes, st: Strategy): Parsed<Json> {
    var (v, n) :- ParseValue(s, 0, 0, st);
    var (_, m) :- SkipGarbage(s, n, st);
    if m != |s| then Fail(TrailingInput(s[m])) else Ok(v, m)
  }

  /** Reading may start on the token itself or on the garbage before it. */
  lemma ValueFromToken(s: Bytes, i: nat, depth: nat, st: Strategy)
    requires i <= |s| && NextToken(s, i, st).Ok?
    ensures ParseValue(s, NextToken(s, i, st).next - 1, depth, st) == ParseValue(s, i, depth, st)
  {
    hide NextToken, Members, Elements, ParseNumber, ParseString, Expect;
    TokenAgain(s, i, st);
  }
}
